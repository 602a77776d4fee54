/**
 * The `OneWireSensor` base class: a serial number given either as text or as
 * a byte sequence, the bus the sensor sits on, and its family number.
 */
module OneWireSensor {
  import opened Results
  import opened SerialCodec

  /** The Python argument `serial`, by its run-time type. */
  datatype SerialArg =
    | PString(text: string)         // PSTRING
    | PBytes(data: seq<byte>)       // PBYTES
    | PByteArray(data: seq<byte>)   // PBYTEARRAY
    | Other                         // any other type

  /** `serial[0]`: a one-character string for text, an integer for bytes. */
  datatype TypeId = CharId(c: char) | ByteId(b: byte)

  /** The fields `__init__` assigns: `serial`, `owbus` and `typeid`. */
  datatype Sensor<B> = Sensor(serial: seq<byte>, owbus: B, typeid: TypeId)

  datatype SensorError =
    | TypeError                   // the argument is neither text nor bytes
    | ValueError(cause: CodecError)  // `s2b` refused the text
    | IndexError                  // `serial[0]` of an empty byte sequence

  /**
   * `OneWireSensor(serial, owbus)`. Text is converted with `s2b`; bytes and
   * bytearrays are kept as given; `typeid` is the first element of the
   * argument as given, so for text it is its first character.
   */
  function NewSensor<B>(serial: SerialArg, owbus: B): (r: Result<Sensor<B>, SensorError>)
    ensures serial.Other? ==> r == Failure(TypeError)
    ensures serial.PString? ==>
      match S2B(serial.text)
      case Failure(e) => r == Failure(ValueError(e))
      case Success(bytes) =>
        r.Success? && r.value.serial == bytes && |serial.text| >= 1 &&
        r.value.typeid == CharId(serial.text[0])
    ensures (serial.PBytes? || serial.PByteArray?) ==>
      (r.Success? <==> |serial.data| >= 1) &&
      (r.Failure? ==> r.error == IndexError) &&
      (r.Success? ==> r.value.serial == serial.data && r.value.typeid == ByteId(serial.data[0]))
    ensures r.Success? ==> r.value.owbus == owbus
  {
    var stored :- match serial
      case PString(text) => (match S2B(text)
        case Failure(e) => Failure(ValueError(e))
        case Success(bytes) => Success(bytes))
      case PBytes(data) => Success(data)
      case PByteArray(data) => Success(data)
      case Other => Failure(TypeError);
    match serial
    case PString(text) =>
      // Never taken: `s2b("")` already fails, so empty text raises ValueError, not IndexError.
      if |text| == 0 then Failure(IndexError) else Success(Sensor(stored, owbus, CharId(text[0])))
    case PBytes(data) =>
      if |data| == 0 then Failure(IndexError) else Success(Sensor(stored, owbus, ByteId(data[0])))
    case PByteArray(data) =>
      if |data| == 0 then Failure(IndexError) else Success(Sensor(stored, owbus, ByteId(data[0])))
  }

  /**
   * A sensor made from the text form of a serial holds the same serial as one
   * made from the bytes, but its `typeid` is the first hexadecimal digit of
   * the text, not the family byte.
   */
  lemma TextAndBytesAgree<B>(s: seq<byte>, owbus: B)
    requires |s| >= 1
    ensures NewSensor(PString(B2S(s)), owbus).Success?
    ensures NewSensor(PBytes(s), owbus).Success?
    ensures NewSensor(PString(B2S(s)), owbus).value.serial == NewSensor(PBytes(s), owbus).value.serial
    ensures NewSensor(PString(B2S(s)), owbus).value.typeid == CharId(Hex(s[0])[0])
    ensures NewSensor(PBytes(s), owbus).value.typeid == ByteId(s[0])
  {
    S2BOfB2S(s);
    B2SFields(s);
    var t := B2S(s);
    JoinSplit(t);
    var fs := Split(t);
    assert fs[0] == Hex(s[0]);
    if |fs| == 1 {
      assert t == fs[0];
    } else {
      assert t == fs[0] + [':'] + Join(fs[1..]);
    }
  }

  /** For the serial 28:ff the family byte is 0x28, yet `typeid` is the character '2'. */
  lemma TextTypeIdIsNotFamily<B>(owbus: B)
    ensures NewSensor(PString("28:ff"), owbus).Success?
    ensures NewSensor(PString("28:ff"), owbus).value.serial == [0x28, 0xff]
    ensures NewSensor(PString("28:ff"), owbus).value.typeid == CharId('2')
  {
    var t := "28:ff";
    assert t == Join(["28", "ff"]);
    assert HexValue("28") == 0x28 by {
      assert "28"[..1] == "2";
      assert "2"[..0] == "";
    }
    assert HexValue("ff") == 0xff by {
      assert "ff"[..1] == "f";
      assert "f"[..0] == "";
    }
    S2BOfRendering([0x28, 0xff], ["28", "ff"]);
  }
}
