/** `BCDDateTimeRegister`: an 8-byte buffer, the register address followed
    by seven BCD payload bytes in the order second, minute, hour, weekday,
    day, month, year - 2000. */
module DateTimeRegister {
  import opened Outcomes
  import opened Bcd
  import opened DateTimeTuples
  import opened RegisterBuffer

  /** `bytearray(8)`: one address byte and seven payload bytes;
      `__init__` is `RegisterBuffer.New(Size, address)`. */
  const Size: nat := 8

  /** The year the year byte counts from. */
  const YearBase: int := 2000

  /** The register layout: the field each payload byte carries, in wire
      order, with the year as its offset from 2000.  Millisecond has no byte. */
  function Fields(t: DateTimeTuple): (fs: seq<int>)
    ensures |fs| == Size - 1
  {
    [t.second, t.minute, t.hour, t.weekday, t.day, t.month, t.year - YearBase]
  }

  /** The fields fs all have a BCD form that fits in a byte. */
  predicate AllEncodable(fs: seq<int>) {
    forall i :: 0 <= i < |fs| ==> Encodable(fs[i])
  }

  /** Two tuples with the same layout and millisecond are the same tuple. */
  lemma FieldsInjective(a: DateTimeTuple, b: DateTimeTuple)
    requires Fields(a) == Fields(b) && a.millisecond == b.millisecond
    ensures a == b
  {
    assert Fields(a)[6] == Fields(b)[6];
  }

  /** Storing the BCD forms of fs into a payload of exactly |fs| bytes
      succeeds exactly when every field is encodable, can only fail with
      ValueError, and writes field j - 1 exactly when fields 0..j - 1 are all
      encodable. */
  lemma EncodedStores(buffer: seq<byte>, fs: seq<int>, values: seq<int>)
    requires |buffer| == |fs| + 1 && |values| == |fs|
    requires forall i :: 0 <= i < |fs| ==> values[i] == Bin2Bcd(fs[i])
    ensures var s := StoreRun(buffer, 0, values);
      && (s.failure.None? <==> AllEncodable(fs))
      && (s.failure.Some? ==> s.failure.value == ValueError)
      && forall j :: 1 <= j < |buffer| ==>
           s.buffer[j] == (if AllEncodable(fs[..j]) then values[j - 1] else buffer[j])
  {
    var s := StoreRun(buffer, 0, values);
    forall j | 1 <= j <= |fs|
      ensures AllEncodable(fs[..j]) <==> j <= s.count
    {
      PrefixEncodable(fs, values, j, s.count);
    }
    assert fs[..|fs|] == fs;
  }

  /** The first n fields are encodable exactly when the first n values are
      bytes; with count the length of the run of leading bytes, that is
      exactly when n <= count. */
  lemma PrefixEncodable(fs: seq<int>, values: seq<int>, n: nat, count: nat)
    requires |values| == |fs| && n <= |fs| && count <= |fs|
    requires forall i :: 0 <= i < |fs| ==> values[i] == Bin2Bcd(fs[i])
    requires forall k :: 0 <= k < count ==> IsByte(values[k])
    requires count < |fs| ==> !IsByte(values[count])
    ensures AllEncodable(fs[..n]) <==> n <= count
  {
    if n > count {
      assert fs[..n][count] == fs[count];
    }
  }

  /** `__get__`, given the seven bytes the bus reads into the payload.  The
      address byte goes out first; the read never raises, and every field of
      the result is the BCD decoding of its payload byte, year counted from
      2000, millisecond 0.  No byte is range-checked. */
  function Read(buffer: seq<byte>, received: seq<byte>): (r: Step<DateTimeTuple>)
    requires |buffer| == Size && |received| == Size - 1
    ensures r.buffer == buffer[..1] + received
    ensures r.frames == [buffer[..1]]
    ensures r.outcome.Ok?
    ensures forall i :: 0 <= i < Size - 1 ==> Fields(r.outcome.value)[i] == Bcd2Bin(received[i])
    ensures r.outcome.value.millisecond == 0
  {
    var b := buffer[..1] + received;
    var p := b[1..];
    Step(b, [buffer[..1]],
         DatetimeTuple(Arguments(
           year := Some(Bcd2Bin(p[6]) + YearBase),
           month := Some(Bcd2Bin(p[5])),
           day := Some(Bcd2Bin(p[4])),
           weekday := Some(Bcd2Bin(p[3])),
           hour := Some(Bcd2Bin(p[2])),
           minute := Some(Bcd2Bin(p[1])),
           second := Some(Bcd2Bin(p[0])))))
  }

  /** `__set__`: the seven BCD stores, then one bus write of the whole
      buffer.  It succeeds exactly when every field (year as year - 2000) is
      in 0..159; then payload byte i is the BCD form of field i.  Otherwise
      the first field out of range raises ValueError, the fields before it
      stay stored, the rest of the buffer is unchanged and nothing is sent.
      The address byte is never touched. */
  function Write(buffer: seq<byte>, value: DateTimeTuple): (r: Step<()>)
    requires |buffer| == Size
    ensures |r.buffer| == Size && r.buffer[0] == buffer[0]
    ensures r.outcome.Ok? <==> AllEncodable(Fields(value))
    ensures r.outcome.Err? ==> r.outcome.error == ValueError && r.frames == []
    ensures r.outcome.Ok? ==> r.frames == [r.buffer]
    ensures forall j :: 1 <= j < Size ==>
              r.buffer[j] == (if AllEncodable(Fields(value)[..j]) then Bin2Bcd(Fields(value)[j - 1])
                              else buffer[j])
  {
    var values := [
      Bin2Bcd(value.second),
      Bin2Bcd(value.minute),
      Bin2Bcd(value.hour),
      Bin2Bcd(value.weekday),
      Bin2Bcd(value.day),
      Bin2Bcd(value.month),
      Bin2Bcd(value.year - YearBase)];
    EncodedStores(buffer, Fields(value), values);
    var s := StoreRun(buffer, 0, values);
    match s.failure
    case Some(e) => Step(s.buffer, [], Err(e))
    case None => Step(s.buffer, [s.buffer], Ok(()))
  }

  /** A successful write leaves field i of the layout, BCD-encoded, in
      payload byte i. */
  lemma WrittenPayload(buffer: seq<byte>, value: DateTimeTuple)
    requires |buffer| == Size
    requires AllEncodable(Fields(value))
    ensures var w := Write(buffer, value);
      && w.outcome.Ok?
      && forall i :: 0 <= i < Size - 1 ==> w.buffer[1..][i] == Bin2Bcd(Fields(value)[i])
  {
    var fs := Fields(value);
    var w := Write(buffer, value);
    forall i | 0 <= i < Size - 1
      ensures w.buffer[1..][i] == Bin2Bcd(fs[i])
    {
      var prefix := fs[..i + 1];
      forall k | 0 <= k < |prefix|
        ensures Encodable(prefix[k])
      {
        assert prefix[k] == fs[k];
      }
      assert w.buffer[1..][i] == w.buffer[i + 1];
    }
  }

  /** Reading a payload that holds the BCD form of every field of value
      gives value back, with millisecond 0. */
  lemma ReadEncoded(buffer: seq<byte>, payload: seq<byte>, value: DateTimeTuple)
    requires |buffer| == Size && |payload| == Size - 1
    requires forall i :: 0 <= i < Size - 1 ==> payload[i] == Bin2Bcd(Fields(value)[i])
    ensures Read(buffer, payload).outcome == Ok(value.(millisecond := 0))
  {
    var t := Read(buffer, payload).outcome.value;
    var fs, ft := Fields(value), Fields(t);
    forall i | 0 <= i < Size - 1
      ensures ft[i] == fs[i]
    {
      DecodeEncode(fs[i]);
    }
    FieldsInjective(t, value.(millisecond := 0));
  }

  /** Reading back the payload a successful write sent gives the tuple that
      was written, with millisecond 0.  This covers every year in 2000..2099
      with the other fields in 0..99, and more. */
  lemma WriteThenRead(buffer: seq<byte>, value: DateTimeTuple)
    requires |buffer| == Size
    requires AllEncodable(Fields(value))
    ensures var w := Write(buffer, value);
      && w.outcome.Ok?
      && Read(w.buffer, w.buffer[1..]).outcome == Ok(value.(millisecond := 0))
  {
    var w := Write(buffer, value);
    WrittenPayload(buffer, value);
    ReadEncoded(w.buffer, w.buffer[1..], value);
  }

  /** Writing back what was read from well-formed BCD bytes succeeds and
      leaves the buffer exactly as the read left it. */
  lemma ReadThenWrite(buffer: seq<byte>, received: seq<byte>)
    requires |buffer| == Size && |received| == Size - 1
    requires forall i :: 0 <= i < Size - 1 ==> IsBcdByte(received[i])
    ensures var rd := Read(buffer, received);
      && Write(rd.buffer, rd.outcome.value).outcome.Ok?
      && Write(rd.buffer, rd.outcome.value).buffer == rd.buffer
  {
    var rd := Read(buffer, received);
    var fs := Fields(rd.outcome.value);
    forall i | 0 <= i < Size - 1
      ensures Encodable(fs[i]) && Bin2Bcd(fs[i]) == received[i]
    {
      BcdBijection(0, received[i]);
    }
    var w := Write(rd.buffer, rd.outcome.value);
    forall j | 0 <= j < Size
      ensures w.buffer[j] == rd.buffer[j]
    {
      if j > 0 {
        assert AllEncodable(fs[..j]);
      }
    }
  }

  /** 2024-03-15, weekday 5, 13:45:30 goes out as 30 45 13 05 15 03 24 (hex)
      after the address byte. */
  lemma LayoutExample(buffer: seq<byte>)
    requires |buffer| == Size
    ensures var w := Write(buffer, DateTimeTuple(2024, 3, 15, 5, 13, 45, 30, 0));
      && w.outcome.Ok?
      && w.frames == [[buffer[0], 0x30, 0x45, 0x13, 0x05, 0x15, 0x03, 0x24]]
  {
    var v := DateTimeTuple(2024, 3, 15, 5, 13, 45, 30, 0);
    var w := Write(buffer, v);
    assert AllEncodable(Fields(v));
    assert w.buffer == [buffer[0], 0x30, 0x45, 0x13, 0x05, 0x15, 0x03, 0x24] by {
      forall j | 1 <= j < Size
        ensures AllEncodable(Fields(v)[..j])
      {
      }
    }
  }

  /** The buffer after a sequence of accesses, and every frame written to the
      bus along the way.  Failed writes leave their partial stores in the
      buffer.  The address byte stays what it was, and every frame starts
      with it. */
  function Run(buffer: seq<byte>, accesses: seq<Access<DateTimeTuple>>): (r: Trace)
    requires |buffer| == Size && Delivered(accesses, Size - 1)
    ensures |r.buffer| == Size && r.buffer[0] == buffer[0]
    ensures forall k :: 0 <= k < |r.frames| ==> |r.frames[k]| >= 1 && r.frames[k][0] == buffer[0]
    decreases |accesses|
  {
    if accesses == [] then Trace(buffer, [])
    else
      var step := match accesses[0]
        case Get(received) => var s := Read(buffer, received); Step(s.buffer, s.frames, Ok(()))
        case Set(value) => Write(buffer, value);
      var rest := Run(step.buffer, accesses[1..]);
      Trace(rest.buffer, step.frames + rest.frames)
  }
}
