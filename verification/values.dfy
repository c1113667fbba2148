/** Wire tags and the decoding of a record's value bytes (`ValueType` and
    `BootBuffer.parseValue`, BootBuffer.ts lines 21-32 and 338-368). */
module Values {
  import opened Binary
  import opened Wrappers
  import Ieee754

  /** The wire tag of a record, in the order of the source's `ValueType` enum. */
  datatype ValueType =
    | BufferType | StringType | UInt8 | UInt16 | UInt32
    | BigIntType | FloatType | DoubleType | BooleanType | JsonType
  {
    /** The ordinal written on the wire. */
    function Code(): nat {
      match this
      case BufferType => 0
      case StringType => 1
      case UInt8 => 2
      case UInt16 => 3
      case UInt32 => 4
      case BigIntType => 5
      case FloatType => 6
      case DoubleType => 7
      case BooleanType => 8
      case JsonType => 9
    }

    /** How many leading value bytes the reader for this tag needs; Node's
        `readUInt16LE(0)` and friends throw when the buffer is shorter. */
    function ReadWidth(): nat {
      match this
      case UInt8 => 1
      case UInt16 => 2
      case UInt32 => 4
      case BigIntType => 8
      case FloatType => 4
      case DoubleType => 8
      case _ => 0
    }
  }

  /** The `ValueType` a wire ordinal names, if any. */
  function TypeOf(code: nat): (t: Option<ValueType>)
    ensures t.Some? ==> t.value.Code() == code
    ensures t.None? <==> code > 9
  {
    if code == 0 then Some(BufferType)
    else if code == 1 then Some(StringType)
    else if code == 2 then Some(UInt8)
    else if code == 3 then Some(UInt16)
    else if code == 4 then Some(UInt32)
    else if code == 5 then Some(BigIntType)
    else if code == 6 then Some(FloatType)
    else if code == 7 then Some(DoubleType)
    else if code == 8 then Some(BooleanType)
    else if code == 9 then Some(JsonType)
    else None
  }

  /** Every tag survives the trip to its ordinal and back. */
  lemma TypeOfCode(t: ValueType)
    ensures TypeOf(t.Code()) == Some(t)
  {
  }

  /** What `parseValue` hands to the consumer. Strings, JSON text and keys are kept as
      their UTF-8 bytes; a float that is not integral is kept as its bit pattern, because
      the source's decimal normalisation of it is not modelled. */
  datatype Value =
    | BufferValue(bytes: Bytes)
    | StringValue(utf8: Bytes)
    | NumberValue(number: int)
    | InexactNumber(width: nat, bits: Bytes)
    | BigIntValue(big: nat)
    | BooleanValue(flag: bool)
    | JsonValue(text: Bytes)

  /** The `RangeError` Node throws when a fixed-width read runs past the buffer. */
  datatype ParseError = OutOfBounds(tag: nat, length: nat)

  /** The minimum value length a tag's reader accepts; unknown tags accept anything. */
  function MinLength(tag: nat): nat {
    match TypeOf(tag)
    case None => 0
    case Some(t) => t.ReadWidth()
  }

  /** `parseValue(valueBuffer, tag)`: the value a record carries. Unknown tags fall back
      to the raw buffer, as the source's `default` branch does. */
  function ParseValue(valueBuffer: Bytes, tag: nat): (r: Result<Value, ParseError>)
    ensures r.Failure? <==> |valueBuffer| < MinLength(tag)
    ensures r.Failure? ==> r.error == OutOfBounds(tag, |valueBuffer|)
  {
    match TypeOf(tag)
    case None => Success(BufferValue(valueBuffer))
    case Some(t) =>
      if |valueBuffer| < t.ReadWidth() then Failure(OutOfBounds(tag, |valueBuffer|))
      else Success(ParseTyped(valueBuffer, t))
  }

  function ParseTyped(valueBuffer: Bytes, t: ValueType): Value
    requires |valueBuffer| >= t.ReadWidth()
  {
    match t
    case BufferType => BufferValue(valueBuffer)
    case StringType => StringValue(valueBuffer)
    case BooleanType => BooleanValue(|valueBuffer| > 0 && valueBuffer[0] == 0x01)
    case BigIntType => BigIntValue(FromLittleEndian(valueBuffer[..8]))
    case UInt8 => NumberValue(FromLittleEndian(valueBuffer[..1]))
    case UInt16 => NumberValue(FromLittleEndian(valueBuffer[..2]))
    case UInt32 => NumberValue(FromLittleEndian(valueBuffer[..4]))
    case FloatType => ParseFloat(valueBuffer[..4], 8, 23)
    case DoubleType => ParseFloat(valueBuffer[..8], 11, 52)
    case JsonType => JsonValue(valueBuffer)
  }

  /** `readFloatLE` / `readDoubleLE`, returned as is when integral. */
  function ParseFloat(bits: Bytes, expWidth: nat, fracWidth: nat): Value
    requires expWidth >= 2
  {
    match Ieee754.IntegralValue(FromLittleEndian(bits), expWidth, fracWidth)
    case Some(n) => NumberValue(n)
    case None => InexactNumber(|bits|, bits)
  }

  /** A float is read as the integer n exactly when its bit pattern is finite and the
      number it denotes is n; any other pattern is kept as its bits. */
  lemma ParseFloatExact(bits: Bytes, expWidth: nat, fracWidth: nat, n: int)
    requires expWidth >= 2
    ensures ParseFloat(bits, expWidth, fracWidth) == NumberValue(n)
        <==> (var x := Ieee754.FiniteOf(FromLittleEndian(bits), expWidth, fracWidth);
              x.Some? && Ieee754.Equals(x.value, n))
    ensures ParseFloat(bits, expWidth, fracWidth).NumberValue?
         || ParseFloat(bits, expWidth, fracWidth) == InexactNumber(|bits|, bits)
  {
    Ieee754.IntegralValueExact(FromLittleEndian(bits), expWidth, fracWidth, n);
  }
}
