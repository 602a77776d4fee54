# DS2482 1-Wire bridge driver — Dafny model

This project models the Python layer of the Zerynth DS2482 driver (`ds2482.py`):
the I2C-to-1-Wire bridge class `DS2482`, its 1-Wire byte wrappers, the serial-number
text codec `b2s`/`s2b`, and the constructor of the `OneWireSensor` base class.

- `results.dfy` — `Option` and `Result`, standing for Python's exceptions.
- `serial_codec.dfy` (module `SerialCodec`) — `hex(y, "")`, `int(y, 16)`, `str.split(":")`,
  `":".join`, `bytes(...)`, and `b2s`/`s2b` built from them, with the round trip
  `s2b(b2s(s)) == s` for every non-empty byte sequence, proved for any field padding.
- `onewire_bus.dfy` (module `OneWireBus`) — the native primitives `_init`, `_owreset`,
  `_owwritebyte`, `_owreadbyte` as a `Bus` object that keeps a trace of issued
  operations (`Init`, `Reset`, `Write(b)`, `Read`) and answers from oracles: the
  presence seen by the k-th reset, the byte delivered by the k-th read, and whether
  the k-th bridge initialisation is acknowledged. `_search_raw` is a `Bus` operation too,
  whose issued primitives and result are supplied from outside.
- `bridge.dfy` (module `Bridge`) — class `DS2482` with its field `ch` and the methods
  `start`, `set_channel`, `ow_reset`, `ow_write`, `ow_read`, `ow_match_rom`, each proved
  to append exactly the documented operations to the trace, and `search`.
- `onewire_sensor.dfy` (module `OneWireSensor`) — `OneWireSensor.__init__` as a function of
  the argument's run-time type.

A 1-Wire ROM code is 8 bytes, but `s2b` accepts any number of fields, each of any
length whose value fits a byte, and the model does the same. `ow_match_rom` returns
`None`, not `False`, when no device answers the reset (modelled as `false`). `typeid`
for a text serial is its first character, not the parsed family byte.

## Model

| member | source | states |
|---|---|---|
| SerialCodec.DigitChar | ds2482.py:181 | each digit value below 16 is rendered as a lowercase hexadecimal character that reads back as that value |
| SerialCodec.Hex | ds2482.py:181 | `hex(n, "")` is one or more lowercase hexadecimal digits, one digit exactly below 16, at most two for a byte |
| SerialCodec.HexRoundTrip | ds2482.py:181-192 | parsing the rendering of n in base 16 gives back n |
| SerialCodec.LeadingZeros | ds2482.py:192 | leading zeros do not change the value `int(y, 16)` returns |
| SerialCodec.Hex2RoundTrip | ds2482.py:192 | the two-digit zero-padded rendering of a byte parses back to that byte |
| SerialCodec.HexValue | ds2482.py:192 | a string of n hexadecimal digits denotes a value below 16^n |
| SerialCodec.ParseField | ds2482.py:192 | `int(y, 16)` succeeds exactly on a non-empty string of hexadecimal digits, with a value below 16^len(y), so below 256 for one or two digits |
| SerialCodec.Split | ds2482.py:191 | `split(":")` yields at least one field and no field holds a ':' |
| SerialCodec.Join | ds2482.py:182 | `":".join(fs)` begins with the first field and, for one or more colon-free fields, holds exactly len(fs)-1 colons (none for no fields) |
| SerialCodec.SplitFieldCount | ds2482.py:191 | the number of fields is the number of colons plus one |
| SerialCodec.JoinSplit | ds2482.py:182-191 | joining the fields of a split with ':' gives back the text |
| SerialCodec.SplitJoin | ds2482.py:182-191 | splitting the ':'-join of one or more colon-free fields gives back those fields |
| SerialCodec.ParseAll | ds2482.py:192 | the comprehension succeeds iff every field is hexadecimal, then gives each field's value in order; otherwise it reports the first non-hexadecimal field |
| SerialCodec.ToBytes | ds2482.py:193 | `bytes(x)` succeeds iff every value is below 256, keeping the values in order; otherwise it reports the first value above 255 |
| SerialCodec.S2B | ds2482.py:184-193 | `s2b(t)` succeeds iff every ':'-field is hexadecimal and at most 255, then yields one byte per field in order; a non-hex field is reported in preference to an out-of-range value; the empty text fails |
| SerialCodec.B2S | ds2482.py:173-182 | `b2s(s)` is empty exactly when s is, and otherwise holds len(s)-1 colons |
| SerialCodec.B2SFields | ds2482.py:173-182 | `b2s(s)` of a non-empty s splits into exactly len(s) fields, field i being the hex rendering of s[i] |
| SerialCodec.EmptySerialDoesNotRoundTrip | ds2482.py:173-193 | `b2s` of the empty serial is "", which `s2b` refuses |
| SerialCodec.S2BOfRendering | ds2482.py:184-193 | for a non-empty byte sequence, any ':'-join of one field per byte whose base-16 value is that byte parses back to the bytes, with or without padding |
| SerialCodec.S2BOfB2S | ds2482.py:173-193 | `s2b(b2s(s)) == s` for every non-empty byte sequence s |
| SerialCodec.S2BOfPadded | ds2482.py:184-193 | the zero-padded two-digit rendering parses back to the bytes too |
| SerialCodec.ShortFieldsParse | ds2482.py:184-193 | text whose every ':'-field is one or two hexadecimal digits always parses |
| OneWireBus.Writes | ds2482.py:110-112 | the writes for data are exactly one `Write(data[i])` per byte, in order |
| OneWireBus.Reads | ds2482.py:114-118 | n reads are exactly n `Read` entries |
| OneWireBus.CountsAppend | ds2482.py:114-124 | read and reset counts of a concatenated trace add up |
| OneWireBus.CountsOfWrites | ds2482.py:110-112 | byte writes consume no read and no reset answer |
| OneWireBus.CountsOfReads | ds2482.py:114-118 | n reads consume exactly n delivered bytes and no reset answer |
| OneWireBus.MatchRomOps | ds2482.py:120-124 | the operations of Match ROM: a single Reset without presence; with presence Reset, Write(0x55), then one write per ROM byte in order |
| OneWireBus.MatchRomOpsCounts | ds2482.py:120-124 | Match ROM consumes exactly one reset answer and no delivered byte |
| OneWireBus.Bus.constructor | ds2482.py:128-170 | a fresh bus has an empty trace and the given oracles |
| OneWireBus.Bus.BridgeInit | ds2482.py:128-137 | `_init` appends one `Init(drv, addr, channel)` and succeeds iff the bridge acknowledges this initialisation |
| OneWireBus.Bus.SearchRaw | ds2482.py:142-152 | `_search_raw` appends the primitives the native search issues and returns the serials it reports |
| OneWireBus.Bus.OwReset | ds2482.py:160-162 | `_owreset` appends `Reset` and reports the presence answer for this reset |
| OneWireBus.Bus.OwWriteByte | ds2482.py:164-166 | `_owwritebyte(b)` appends `Write(b)` |
| OneWireBus.Bus.OwReadByte | ds2482.py:168-170 | `_owreadbyte` appends `Read` and returns the next byte the devices deliver |
| Bridge.DS2482.constructor | ds2482.py:64-66 | a new driver has channel 0, the given address (default 0x18) and clock (default 100000), and issues nothing on the 1-Wire bus |
| Bridge.DS2482.Start | ds2482.py:68-70 | `start` issues one bridge initialisation on the current channel and reports whether the bridge acknowledged it |
| Bridge.DS2482.SetChannel | ds2482.py:72-74 | `set_channel(c)` sets `ch` to c, even when initialisation then fails, and issues one initialisation on c |
| Bridge.DS2482.OwReset | ds2482.py:107-108 | `ow_reset` issues one reset and returns its presence answer |
| Bridge.DS2482.OwWrite | ds2482.py:110-112 | `ow_write(data)` appends exactly the writes of data, in order, and nothing else |
| Bridge.DS2482.OwRead | ds2482.py:114-118 | `ow_read(n)` returns max(n, 0) bytes, the i-th being the i-th byte delivered from now on, and appends exactly that many reads |
| Bridge.DS2482.OwMatchRom | ds2482.py:120-124 | `ow_match_rom(rom)` returns the reset's presence answer and appends Reset, then 0x55 and the ROM bytes only when presence was seen |
| Bridge.Collect | ds2482.py:102-105 | the loop of `search` yields `sc(y)` for each discovered serial y, in order |
| Bridge.DS2482.SearchAsWritten | ds2482.py:87-105 | `search(sc)` as written always fails with TypeError, before anything is issued on the bus |
| Bridge.DS2482.Search | ds2482.py:87-105 | `search(sc)` with `search_raw()` called as declared appends what the native search issues and returns one item `sc(y)` per discovered serial, in order |
| OneWireSensor.NewSensor | ds2482.py:220-229 | text is converted with `s2b` (its failure raises), bytes and bytearrays are stored unchanged, other types raise TypeError; `typeid` is the first element of the argument as given; an empty byte serial raises IndexError |
| OneWireSensor.TextAndBytesAgree | ds2482.py:220-229 | a sensor from `b2s(s)` holds the same serial as one from s, but its `typeid` is the first hex character, not the family byte |
| OneWireSensor.TextTypeIdIsNotFamily | ds2482.py:221-229 | for the text "28:ff" the serial is [0x28, 0xff] and `typeid` is the character '2' |

## Left out

- The bodies of the native functions `_init`, `_search_raw`, `_get_ow_funcs`, `_owreset`, `_owwritebyte` and `_owreadbyte` (ds2482.py:128-170): they are C files that are not part of this model, so the DS2482 command set, the busy polling, the ROM search and the CRC-8 check are not modelled; the bus answers from oracles instead.
- `_get_ow_funcs` has no counterpart at all: nothing visible calls it.
- `search_raw` (ds2482.py:76-85) is only the native call: the primitives the C search issues and the serials it reports enter the model as the parameters `issued` and `found`, the set's iteration order as a sequence.
- OneWireBus.Bus: the native functions take no driver handle (ds2482.py:160-170) and act on state global to the module; the model gives each driver a `bus` field standing for that global state, but nothing forces two drivers onto one `Bus`; in the source every `DS2482` acts on the same native state, so drivers given different `Bus` objects have no counterpart.
- Bridge.DS2482.Search: `sc` is a total function; exceptions a real `sc` raises (a sensor subclass raising UnsupportedError for an unknown family, ds2482.py:209-210) are not modelled.
- The I2C base class (`i2c.I2C.__init__` and `i2c.I2C.start`, ds2482.py:65, 69) is a foreign library: the model takes `drvid` and `addr` to be the values given to the constructor and issues no I2C transaction.
- Bridge.DS2482.Start: an exception from `_init` is modelled as the result false; the native byte primitives are modelled as never raising (their timeouts are in the C code).
- Bridge.DS2482.OwMatchRom: the `None` the Python method returns without presence is modelled as false.
- SerialCodec.ParseField: `int(y, 16)` also accepts surrounding whitespace, a sign, a `0x` prefix and underscores between digits; the model accepts only plain hexadecimal digits.
- SerialCodec.Hex: whether the firmware's `hex(y, "")` pads to two digits is not visible; the model renders no padding, and the round trip is proved for any padding (S2BOfRendering).
- OneWireSensor.NewSensor: a bytes or bytearray argument is stored as a value, so the aliasing of a mutable bytearray with the caller's object and the bytes/bytearray distinction of the stored serial are not modelled; `owbus` is any value.
- `OneWireSensor.read` (ds2482.py:231-242) only raises NotImplementedError; `OneWireSensor.__str__` (ds2482.py:244-245) is `b2s` of the serial, covered by the codec.
- The usage example in the module documentation (ds2482.py:15-44) is I/O and exception handling around the driver.

## Findings

| source | as written | input that shows it | evidently intended | confidence | as-written member | corrected member |
|---|---|---|---|---|---|---|
| ds2482.py:101 | `search` calls `self.search_raw(self.ch)`, but `search_raw` (ds2482.py:76) takes no argument besides `self` | any call `ow.search(sc)`: Python raises TypeError before the bus is searched | call `self.search_raw()` and apply `sc` to every discovered serial | not executed | Bridge.DS2482.SearchAsWritten | Bridge.DS2482.Search |
