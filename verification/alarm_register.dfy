/** `BCDAlarmTimeRegister`: a 5-byte buffer, the register address followed
    by a 4-byte payload meant to hold minute, hour, day and weekday.  As
    written, reading an enabled alarm and every write raise, and this module
    proves exactly when and how. */
module AlarmRegister {
  import opened Outcomes
  import opened Bits
  import opened Bcd
  import opened DateTimeTuples
  import opened RegisterBuffer

  /** `bytearray(5)`: one address byte and a four-byte payload;
      `__init__` is `RegisterBuffer.New(Size, address)`. */
  const Size: nat := 5

  /** The BCD byte that stands for a wildcard (`None`) field. */
  const Wildcard: int := 0x80

  /** The alarm value a caller assigns; the write reads only these four
      attributes, each an int or `None`. */
  datatype AlarmTime = AlarmTime(minute: Option<int>, hour: Option<int>, day: Option<int>, weekday: Option<int>)

  /** The fields in the order the stores run: minute, hour, day, weekday. */
  function Fields(a: AlarmTime): (fs: seq<Option<int>>)
    ensures |fs| == 4
  {
    [a.minute, a.hour, a.day, a.weekday]
  }

  /** The byte a minute, hour or day is stored as: its BCD form, or the
      wildcard 0x80 for `None`.  It is a byte exactly when the field is
      settable. */
  function FieldByte(f: Option<int>): (r: int)
    ensures f.None? ==> r == Wildcard
    ensures f.Some? ==> r / 16 == f.value / 10 && r % 16 == f.value % 10
    ensures f.Some? ==> Bcd2Bin(r) == f.value
    ensures IsByte(r) <==> Settable(f)
  {
    match f
    case None => Wildcard
    case Some(v) => DecodeEncode(v); Bin2Bcd(v)
  }

  /** The byte the weekday is stored as: its BCD form with bit 6 set, or the
      wildcard 0x80 for `None`. */
  function WeekdayByte(f: Option<int>): (r: int)
    ensures f.None? ==> r == Wildcard
    ensures f.Some? ==> (r / 64) % 2 == 1 && r % 64 == Bin2Bcd(f.value) % 64
                        && r / 128 == Bin2Bcd(f.value) / 128
  {
    match f
    case None => Wildcard
    case Some(v) => SetBit6(Bin2Bcd(v))
  }

  /** A minute, hour or day whose store does not raise: `None`, or an int
      in 0..159. */
  predicate Settable(f: Option<int>) {
    f.None? || Encodable(f.value)
  }

  /** Every field of fs is settable. */
  predicate AllSettable(fs: seq<Option<int>>) {
    forall i :: 0 <= i < |fs| ==> Settable(fs[i])
  }

  /** `__get__`, given the four bytes the bus reads into the payload.  The
      address byte goes out first.  When bit 7 of the first payload byte is
      clear the result is `None`, whatever the other bytes hold; when it is
      set, the `datetime_tuple` call leaves out year and month and raises
      TypeError.  No tuple is ever returned. */
  function Read(buffer: seq<byte>, received: seq<byte>): (r: Step<Option<DateTimeTuple>>)
    requires |buffer| == Size && |received| == Size - 1
    ensures r.buffer == buffer[..1] + received
    ensures r.frames == [buffer[..1]]
    ensures r.outcome == Ok(None) <==> received[0] < 0x80
    ensures r.outcome == Err(TypeError) <==> received[0] >= 0x80
  {
    ByteBit7(received[0]);
    var b := buffer[..1] + received;
    var p := b[1..];
    if !Bit7(p[0]) then
      Step(b, [buffer[..1]], Ok(None))
    else
      Step(b, [buffer[..1]], Present(DatetimeTuple(Arguments(
        weekday := Some(Bcd2Bin(Low7(p[3]))),
        day := Some(Bcd2Bin(Low7(p[2]))),
        hour := Some(Bcd2Bin(Low7(p[1]))),
        minute := Some(Bcd2Bin(Low7(p[0])))))))
  }

  /** A tuple the read returns as present, or the exception building it
      raised. */
  function Present(r: Result<DateTimeTuple>): Result<Option<DateTimeTuple>> {
    match r
    case Ok(t) => Ok(Some(t))
    case Err(e) => Err(e)
  }

  /** `__set__`: minute, hour and day go to payload indices 1, 2 and 3 (one
      past the documented layout), and the weekday store targets index 4 of
      the four-byte payload.  So the write always raises and never reaches the
      bus: ValueError when minute, hour or day is out of 0..159, otherwise
      IndexError.  The address byte and payload byte 0 are never touched, and
      a field is stored exactly when it and the fields before it are
      settable. */
  function Write(buffer: seq<byte>, value: AlarmTime): (r: Step<()>)
    requires |buffer| == Size
    ensures |r.buffer| == Size && r.buffer[..2] == buffer[..2]
    ensures r.outcome.Err? && r.frames == []
    ensures r.outcome.error == IndexError <==> AllSettable(Fields(value)[..3])
    ensures r.outcome.error == ValueError <==> !AllSettable(Fields(value)[..3])
    ensures forall j :: 2 <= j < Size ==>
              r.buffer[j] == (if AllSettable(Fields(value)[..j - 1]) then FieldByte(Fields(value)[j - 2])
                              else buffer[j])
  {
    var values := [
      FieldByte(value.minute),
      FieldByte(value.hour),
      FieldByte(value.day),
      WeekdayByte(value.weekday)];
    var s := StoreRun(buffer, 1, values);
    SettableStores(buffer, value, values, s);
    match s.failure
    case Some(e) => Step(s.buffer, [], Err(e))
    case None => Step(s.buffer, [s.buffer], Ok(()))
  }

  /** The stores of Write stop after the first three at the latest, since
      payload index 4 does not exist; the first n fields are settable exactly
      when the first n stores took effect. */
  lemma SettableStores(buffer: seq<byte>, value: AlarmTime, values: seq<int>, s: Stores)
    requires |buffer| == Size && |values| == 4
    requires forall i :: 0 <= i < 3 ==> values[i] == FieldByte(Fields(value)[i])
    requires RunEnded(buffer, 1, values, s)
    ensures s.count <= 3 && s.failure.Some?
    ensures s.failure.value == IndexError <==> AllSettable(Fields(value)[..3])
    ensures s.failure.value == ValueError <==> !AllSettable(Fields(value)[..3])
    ensures forall n :: 0 <= n <= 3 ==> (AllSettable(Fields(value)[..n]) <==> n <= s.count)
  {
    var fs := Fields(value);
    forall n | 0 <= n <= 3
      ensures AllSettable(fs[..n]) <==> n <= s.count
    {
      PrefixSettable(fs, values, n, s.count);
    }
  }

  /** With count the length of the run of leading bytes among values, the
      first n fields are settable exactly when n <= count. */
  lemma PrefixSettable(fs: seq<Option<int>>, values: seq<int>, n: nat, count: nat)
    requires |values| == |fs| == 4 && n <= 3 && count <= 3
    requires forall i :: 0 <= i < 3 ==> values[i] == FieldByte(fs[i])
    requires forall k :: 0 <= k < count ==> IsByte(values[k])
    requires count < 3 ==> !IsByte(values[count])
    ensures AllSettable(fs[..n]) <==> n <= count
  {
    if n > count {
      assert fs[..n][count] == fs[count];
    }
  }

  /** Writing an encodable minute m with hour, day and weekday wildcarded
      stores the BCD form of m, then 80, 80 (hex) at payload indices 1..3,
      leaves bytes 0 and 1 alone, and then raises IndexError. */
  lemma MinuteOnlyWrite(buffer: seq<byte>, m: int)
    requires |buffer| == Size && Encodable(m)
    ensures var w := Write(buffer, AlarmTime(Some(m), None, None, None));
      && w.buffer == [buffer[0], buffer[1], Bin2Bcd(m), Wildcard, Wildcard]
      && w.outcome == Err(IndexError)
  {
    var v := AlarmTime(Some(m), None, None, None);
    var w := Write(buffer, v);
    assert Fields(v)[..1] == [Some(m)];
    assert Fields(v)[..2] == [Some(m), None];
    assert Fields(v)[..3] == [Some(m), None, None];
    assert w.buffer[..2] == buffer[..2];
    assert w.buffer[0] == buffer[0] && w.buffer[1] == buffer[1];
    assert w.buffer == [w.buffer[0], w.buffer[1], w.buffer[2], w.buffer[3], w.buffer[4]];
  }

  /** Writing minute 30 with hour, day and weekday wildcarded stores 30, 80,
      80 (hex) at payload indices 1..3 and then raises IndexError. */
  lemma WildcardExample(buffer: seq<byte>)
    requires |buffer| == Size
    ensures var w := Write(buffer, AlarmTime(Some(30), None, None, None));
      && w.buffer == [buffer[0], buffer[1], 0x30, 0x80, 0x80]
      && w.outcome == Err(IndexError)
  {
    MinuteOnlyWrite(buffer, 30);
  }

  /** A concrete weekday 3 would be stored as 0x43: its BCD form with the
      enable bit 0x40 set. */
  lemma WeekdayEnableExample()
    ensures WeekdayByte(Some(3)) == 0x43
  {
  }

  /** The buffer after a sequence of accesses, and every frame written to the
      bus along the way.  The address byte stays what it was, and the only
      frames are the one-byte address frames that start each read. */
  function Run(buffer: seq<byte>, accesses: seq<Access<AlarmTime>>): (r: Trace)
    requires |buffer| == Size && Delivered(accesses, Size - 1)
    ensures |r.buffer| == Size && r.buffer[0] == buffer[0]
    ensures forall k :: 0 <= k < |r.frames| ==> r.frames[k] == [buffer[0]]
    decreases |accesses|
  {
    if accesses == [] then Trace(buffer, [])
    else
      var step := match accesses[0]
        case Get(received) => var s := Read(buffer, received); Step(s.buffer, s.frames, Ok(()))
        case Set(value) => Write(buffer, value);
      var rest := Run(step.buffer, accesses[1..]);
      Trace(rest.buffer, step.frames + rest.frames)
  }
}
