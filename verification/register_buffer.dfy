/** The buffer both registers own: a `bytearray` whose byte 0 is the
    register address and whose remaining bytes are seen through a memoryview
    as the payload.  Here the buffer is one `seq<byte>`; payload index i is
    buffer index i + 1. */
module RegisterBuffer {
  import opened Outcomes

  /** The effect of one access to a register: the buffer afterwards, the
      frames written to the bus, and what the access returns or raises. */
  datatype Step<T> = Step(buffer: seq<byte>, frames: seq<seq<byte>>, outcome: Result<T>)

  /** The state a sequence of accesses leaves behind: the buffer, and every
      frame written to the bus along the way. */
  datatype Trace = Trace(buffer: seq<byte>, frames: seq<seq<byte>>)

  /** One use of a register by its owner: a read, with the bytes the bus
      delivers into the payload, or a write of a value. */
  datatype Access<V> = Get(received: seq<byte>) | Set(value: V)

  /** Every read in accesses receives exactly payloadSize bytes, as the bus
      promises when it reads into a payload view of that size. */
  predicate Delivered<V>(accesses: seq<Access<V>>, payloadSize: nat) {
    forall i :: 0 <= i < |accesses| ==> accesses[i].Get? ==> |accesses[i].received| == payloadSize
  }

  /** `__init__` of either register: `bytearray(size)` followed by `buffer[0] = register_address`: the
      store raises ValueError unless the address is a byte. */
  function New(size: nat, address: int): (r: Result<seq<byte>>)
    requires size >= 1
    ensures r.Ok? <==> IsByte(address)
    ensures r.Err? ==> r.error == ValueError
    ensures r.Ok? ==> |r.value| == size && r.value[0] == address
    ensures r.Ok? ==> forall i :: 1 <= i < size ==> r.value[i] == 0
  {
    if IsByte(address) then Ok([address] + seq(size - 1, _ => 0)) else Err(ValueError)
  }

  /** `payload[i] = v` on the memoryview `buffer[1:]`.  The index is checked
      first (IndexError; a negative index counts from the end), then the value
      (ValueError); only the one addressed byte changes. */
  function StorePayload(buffer: seq<byte>, i: int, v: int): (r: Result<seq<byte>>)
    requires |buffer| >= 1
    ensures r == Err(IndexError) <==> !(-(|buffer| - 1) <= i < |buffer| - 1)
    ensures r == Err(ValueError) <==> -(|buffer| - 1) <= i < |buffer| - 1 && !IsByte(v)
    ensures r.Ok? ==> |r.value| == |buffer|
    ensures r.Ok? && i >= 0 ==> r.value[1 + i] == v
    ensures r.Ok? && i < 0 ==> r.value[|buffer| + i] == v
    ensures r.Ok? <==> -(|buffer| - 1) <= i < |buffer| - 1 && IsByte(v)
    ensures r.Ok? ==> forall j :: 0 <= j < |buffer| && j != 1 + (if i < 0 then i + |buffer| - 1 else i) ==>
                        r.value[j] == buffer[j]
  {
    var n := |buffer| - 1;
    if !(-n <= i < n) then Err(IndexError)
    else if !IsByte(v) then Err(ValueError)
    else Ok(buffer[1 + (if i < 0 then i + n else i) := v])
  }

  /** How a run of consecutive payload stores ended: the buffer afterwards,
      how many stores took effect, and the exception that stopped the run. */
  datatype Stores = Stores(buffer: seq<byte>, count: nat, failure: Option<Error>)

  /** The outcome r of the stores `payload[start + k] = values[k]`, k =
      0, 1, ..., run in order until one raises: the first r.count stores hit
      the payload (so the run never reaches past its end) and hold bytes; a store past the payload's end raises
      IndexError, a non-byte raises ValueError; the stores that took effect
      are in the buffer, and every other byte, the address included, is as
      before. */
  predicate RunEnded(buffer: seq<byte>, start: nat, values: seq<int>, r: Stores)
    requires |buffer| >= 1
  {
    && |r.buffer| == |buffer| && r.buffer[0] == buffer[0]
    && r.count <= |values|
    && (r.count > 0 ==> start + r.count <= |buffer| - 1)
    && (r.failure.None? <==> r.count == |values|)
    && (forall k :: 0 <= k < r.count ==> IsByte(values[k]) && start + k < |buffer| - 1)
    && (r.failure.Some? ==>
          r.failure.value == (if start + r.count < |buffer| - 1 then ValueError else IndexError))
    && (r.failure == Some(ValueError) ==> !IsByte(values[r.count]))
    && (forall j :: 1 <= j < |buffer| ==>
          r.buffer[j] == (if start <= j - 1 < start + r.count then values[j - 1 - start] else buffer[j]))
  }

  /** The statements `payload[start] = values[0]; payload[start + 1] =
      values[1]; ...`, stopping at the first that raises.  The stores before
      it stay written; the address byte is never touched. */
  function StoreRun(buffer: seq<byte>, start: nat, values: seq<int>): (r: Stores)
    requires |buffer| >= 1
    ensures RunEnded(buffer, start, values, r)
    decreases |values|
  {
    if values == [] then Stores(buffer, 0, None)
    else
      match StorePayload(buffer, start, values[0])
      case Err(e) => Stores(buffer, 0, Some(e))
      case Ok(next) =>
        var rest := StoreRun(next, start + 1, values[1..]);
        Stores(rest.buffer, rest.count + 1, rest.failure)
  }
}
