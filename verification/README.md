# BCD date/time registers, modelled in Dafny

This project models `adafruit_register/i2c_bcd_datetime.py`, the part of the
Adafruit CircuitPython Register library that reads and writes the clock and
alarm registers of I2C real-time-clock chips. These chips store every
calendar field as one binary-coded-decimal (BCD) byte: the tens digit goes in
the high nibble and the units digit in the low nibble, so 45 is stored as 0x45.

The file has four parts, and each is one Dafny module:

- `Bcd`: the codec `_bcd2bin` / `_bin2bcd`.
  - Python's `>> 4` and `// 10` are floor divisions, and so are Dafny's `/`
    and `%` for a positive divisor. So both functions are total over `int`,
    exactly as in Python.
  - Decoding undoes encoding for every integer, not only for 0..99.
- `DateTimeTuples`: the `DateTimeTuple` record, and the `datetime_tuple`
  helper seen as a keyword call.
  - A call that leaves out `year`, `month` or `day` raises TypeError.
  - Every other argument defaults to 0.
- `DateTimeRegister`: `BCDDateTimeRegister`, an 8-byte buffer.
  - Byte 0 holds the register address.
  - Bytes 1..7 hold second, minute, hour, weekday, day, month, and year - 2000.
- `AlarmRegister`: `BCDAlarmTimeRegister`, a 5-byte buffer, modelled exactly
  as the code runs. The proofs show two things:
  - Reading an alarm whose first payload byte has bit 0x80 set raises
    TypeError, because the `datetime_tuple` call leaves out `year` and `month`.
  - Every write raises. The stores land at payload indices 1..4 of a
    4-byte view, so the weekday store raises IndexError, or an earlier store
    raises ValueError. The bus write is never reached.

Three helper modules support these:

- `Outcomes`: the exceptions, `Result`, `Option`, and the `byte` type.
- `Bits`: the bit operations `& 0x80`, `& 0x7f` and `| 0x40`, written as
  integer arithmetic.
- `RegisterBuffer`: the `bytearray` constructor and the memoryview stores.

How the buffer and stores are modelled:

- A register's buffer is one `seq<byte>`. Index 0 is the address, and payload
  index i is buffer index i + 1.
- A store into the payload follows CPython's memoryview rule. The index is
  checked first, and an index past the end raises IndexError. Then the value
  is checked, and anything outside 0..255 raises ValueError.
- A write is a run of such stores that stops at the first exception. The
  stores before it stay in the buffer, which the register keeps.

How the bus is modelled:

- A read takes the bytes the bus delivers into the payload as a parameter.
- Each access returns the frames it writes to the bus:
  - the one-byte address frame before a read;
  - the whole buffer after a successful write.

What the code does, stated against its own docstrings:

- `BCDAlarmTimeRegister` is documented with the byte order minute, hour,
  day, weekday (i2c_bcd_datetime.py:89). Its write stores minute, hour and
  day one byte later, at payload indices 1..3. It then fails on the weekday
  store at index 4.
  - `MinuteOnlyWrite` and `WildcardExample` show the bytes a write leaves
    behind.
  - `WeekdayEnableExample` shows the weekday byte the code computes but
    never stores.
- The alarm register's values are documented as `DateTimeTuple`s with year,
  month and seconds ignored (i2c_bcd_datetime.py:91). Its read never returns
  one: it returns `None`, or raises TypeError.
- Neither register checks field ranges. Under CPython, a field whose BCD
  form is not a byte makes its store raise ValueError, and nothing is sent.
  Other runtimes differ: MicroPython keeps the low 8 bits, and
  CircuitPython raises OverflowError instead of ValueError; see
  "## Left out".
- `millisecond` is documented as not supported (i2c_bcd_datetime.py:21). A
  write ignores it, and a read always returns 0.
- Decoding a byte that is not BCD still gives a definite value,
  10 × high nibble + low nibble, at most 165 for a byte.
- Each register's `__init__` is `RegisterBuffer.New` with the register's
  size: 8 bytes for the date-time register (i2c_bcd_datetime.py:55-59) and
  5 bytes for the alarm register (i2c_bcd_datetime.py:95-99).

## Model

| member | source | states |
|---|---|---|
| Bcd.Bcd2Bin | adafruit_register/i2c_bcd_datetime.py:28-34 | the result is ten times the high nibble plus the low nibble, for every integer |
| Bcd.Bin2Bcd | adafruit_register/i2c_bcd_datetime.py:37-43 | the result's high nibble is value div 10 and its low nibble is value mod 10; it fits in a byte exactly when value is in 0..159 |
| Bcd.DecodeEncode | adafruit_register/i2c_bcd_datetime.py:28-43 | `_bcd2bin(_bin2bcd(x)) == x` for every integer x |
| Bcd.EncodeDecode | adafruit_register/i2c_bcd_datetime.py:28-43 | `_bin2bcd(_bcd2bin(y))` is y when y's low nibble is a decimal digit, and y + 6 otherwise |
| Bcd.BcdBijection | adafruit_register/i2c_bcd_datetime.py:28-43 | the codec maps 0..99 onto the BCD bytes 0x00..0x99 and back |
| Bcd.DecodeByte | adafruit_register/i2c_bcd_datetime.py:28-34 | decoding any byte succeeds and gives a value in 0..165 |
| Bits.Low7 | adafruit_register/i2c_bcd_datetime.py:108-111 | `x & 0x7f` is in 0..127 and agrees with x on the low seven bits |
| Bits.SetBit6 | adafruit_register/i2c_bcd_datetime.py:118 | OR-ing x with 0x40 sets bit 6 and leaves every other bit of x unchanged |
| Bits.ByteBit7 | adafruit_register/i2c_bcd_datetime.py:105 | for a byte, `y & 0x80` is set exactly when y >= 0x80, and masking with 0x7f then subtracts 0x80 |
| DateTimeTuples.DatetimeTuple | adafruit_register/i2c_bcd_datetime.py:10-26 | the call raises TypeError exactly when year, month or day is missing |
| DateTimeTuples.ArgumentsRoundTrip | adafruit_register/i2c_bcd_datetime.py:10-26 | naming all eight fields builds exactly that tuple; a built tuple names back its arguments, with 0 for those left out |
| DateTimeTuples.OmittedMeansZero | adafruit_register/i2c_bcd_datetime.py:10-11 | leaving out weekday, hour, minute, second or millisecond is the same as passing 0 |
| RegisterBuffer.New | adafruit_register/i2c_bcd_datetime.py:55-59 | `__init__` of either register: a zeroed buffer of the register's size holding the address at byte 0; ValueError exactly when the address is not a byte |
| RegisterBuffer.StorePayload | adafruit_register/i2c_bcd_datetime.py:76-82 | a memoryview store raises IndexError exactly for an index outside the view, otherwise ValueError exactly for a non-byte, and succeeds exactly when the index is in the view and the value a byte; then it changes just the addressed byte, a negative index counting from the end, and never the address byte |
| RegisterBuffer.StoreRun | adafruit_register/i2c_bcd_datetime.py:76-82 | a sequence of stores stops at the first one that raises, with the right exception; earlier stores stay written, the address and every other byte are unchanged |
| DateTimeRegister.Fields | adafruit_register/i2c_bcd_datetime.py:66-82 | the register layout documented at line 49: payload bytes 0..6 carry second, minute, hour, weekday, day, month and the year as years after 2000, one byte per field, millisecond having no byte |
| DateTimeRegister.Read | adafruit_register/i2c_bcd_datetime.py:61-73 | sends the address byte, never raises, and decodes payload bytes 0..6 into second, minute, hour, weekday, day, month, year - 2000, with millisecond 0 |
| DateTimeRegister.EncodedStores | adafruit_register/i2c_bcd_datetime.py:76-82 | the seven stores succeed exactly when every field is encodable; otherwise they raise ValueError, with exactly the fields before the first bad one written |
| DateTimeRegister.Write | adafruit_register/i2c_bcd_datetime.py:75-83 | succeeds and sends the whole buffer exactly when every field (year as year - 2000) is in 0..159; payload byte i is field i in BCD; otherwise ValueError, nothing sent, the fields before the first bad one stored; the address byte is never touched |
| DateTimeRegister.WrittenPayload | adafruit_register/i2c_bcd_datetime.py:76-82 | when every field is encodable the write succeeds and payload byte i holds field i in BCD |
| DateTimeRegister.ReadEncoded | adafruit_register/i2c_bcd_datetime.py:65-73 | reading a payload that holds every field of a tuple in BCD gives that tuple back with millisecond 0 |
| DateTimeRegister.WriteThenRead | adafruit_register/i2c_bcd_datetime.py:65-82 | reading back the payload of a successful write gives the written tuple with millisecond 0 |
| DateTimeRegister.ReadThenWrite | adafruit_register/i2c_bcd_datetime.py:65-82 | writing back a tuple read from well-formed BCD bytes succeeds and reproduces the buffer |
| DateTimeRegister.LayoutExample | adafruit_register/i2c_bcd_datetime.py:76-83 | 2024-03-15, weekday 5, 13:45:30 is sent as the address followed by 30 45 13 05 15 03 24 (hex) |
| DateTimeRegister.Run | adafruit_register/i2c_bcd_datetime.py:55-83 | after any sequence of reads and writes the buffer keeps its address byte, and every frame sent starts with it |
| AlarmRegister.Fields | adafruit_register/i2c_bcd_datetime.py:115-118 | the four alarm fields in the order documented at line 89 and stored in: minute, hour, day, weekday |
| AlarmRegister.FieldByte | adafruit_register/i2c_bcd_datetime.py:115-117 | `None` becomes 0x80; an int becomes the byte whose high nibble is its tens and low nibble its units, which decodes back to it; the byte is storable exactly when the field is None or in 0..159 |
| AlarmRegister.WeekdayByte | adafruit_register/i2c_bcd_datetime.py:118 | `None` becomes 0x80; a weekday becomes its BCD form with bit 0x40 set and no other bit changed |
| AlarmRegister.Read | adafruit_register/i2c_bcd_datetime.py:101-112 | sends the address byte; returns `None` exactly when payload byte 0 is below 0x80, whatever the other bytes hold, and otherwise raises TypeError |
| AlarmRegister.Write | adafruit_register/i2c_bcd_datetime.py:114-119 | always raises and sends nothing: ValueError exactly when minute, hour or day is an int outside 0..159, otherwise IndexError; buffer bytes 0 and 1 untouched; minute, hour and day land at buffer bytes 2..4, each stored exactly when it and the fields before it are storable |
| AlarmRegister.SettableStores | adafruit_register/i2c_bcd_datetime.py:115-118 | at most three stores take effect, the run always stops with an exception, and it is IndexError exactly when the first three fields are storable |
| AlarmRegister.MinuteOnlyWrite | adafruit_register/i2c_bcd_datetime.py:115-118 | any minute in 0..159 with hour, day and weekday wildcarded stores its BCD form then 80 80 (hex) at buffer bytes 2..4, leaves bytes 0 and 1 alone, then raises IndexError |
| AlarmRegister.WildcardExample | adafruit_register/i2c_bcd_datetime.py:115-118 | minute 30 with the rest wildcarded stores 30 80 80 (hex) at buffer bytes 2..4, then raises IndexError |
| AlarmRegister.WeekdayEnableExample | adafruit_register/i2c_bcd_datetime.py:118 | the byte computed for weekday 3 is 0x43 |
| AlarmRegister.Run | adafruit_register/i2c_bcd_datetime.py:95-119 | after any sequence of reads and writes the buffer keeps its address byte, and the only frames sent are one-byte address frames |

## Left out

- The I2C transactions (`writeto` with `stop=False`, `readfrom_into`) are not modelled as calls. A read takes the received payload bytes as a parameter, and the bus is assumed to deliver exactly one byte per payload byte. A write returns the frame it would send. Bus errors, which the code lets propagate, are not modelled.
- The descriptor protocol (`__get__`/`__set__` bound to an owner with `i2c` and `device_address`) is left out. Read and write are functions of the register's buffer.
- The `ucollections`/`collections` import fallback and the `namedtuple` machinery are left out. `DateTimeTuple` is a plain datatype.
- The memoryview aliasing is left out. The model uses one buffer with index offsets.
- Field values that are not ints (a float, or `None` in a date-time write) are not modelled. Date-time fields are `int`, and alarm fields are `int` or `None`.
- Byte stores follow CPython, where an out-of-range value raises ValueError. Other runtimes are not modelled. MicroPython keeps the low 8 bits of the value, so there a date-time write with an out-of-range field sends a byte where the model raises. CircuitPython raises OverflowError instead of ValueError, and nothing is sent.
- A corrected alarm layout is not modelled, because the code never runs one.
- Calendar validation is left out, because the code has none.
