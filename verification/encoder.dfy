/** The writer: `BootBuffer.addEntry`, which picks a wire tag for a value and lays out one
    record, and `add` / `buffer`, which accumulate records (BootBuffer.ts lines 370-475).
    The source probes a dynamic value with `typeof`; here the caller states the kind of
    value with a closed datatype, whose constructors follow the order of the probes. */
module Encoder {
  import opened Binary
  import opened Wrappers
  import opened Values
  import Varint
  import Ieee754

  const UInt32MaxValue := 4294967295
  const UInt16MaxValue := 65535
  /** The ceiling of the one-byte width: 16 in the source, not 255. */
  const UInt8MaxValue := 16
  /** `Number.MAX_SAFE_INTEGER`. */
  const MaxSafeInteger := 0x1F_FFFF_FFFF_FFFF

  /** An integral JavaScript number that is exactly an integer (a safe integer). */
  type SafeInteger = n: int | -MaxSafeInteger <= n <= MaxSafeInteger

  /** The values `addEntry` accepts, one constructor per branch of its type probe. Text is
      given as its UTF-8 bytes; a structured value as the text `JSON.stringify` makes of
      it, or None when that fails or gives `undefined`. */
  datatype Input =
    | Boolean(flag: bool)
    | BigInt(big: int)
    | Buffer(bytes: Bytes)
    | Text(utf8: Bytes)
    | Number(number: SafeInteger)
    | Undefined
    | Structured(json: Option<Bytes>)

  /** Node's `RangeError` from a `writeUInt*` / `writeBigUInt64LE` out of range, and the
      source's own 'Unsupported type.' error. */
  datatype EncodeError = RangeError | UnsupportedType

  /** A tag and the value bytes written under it. */
  datatype Payload = Payload(valueType: ValueType, bytes: Bytes)

  /** The inputs `addEntry` throws on. */
  predicate Rejected(v: Input) {
    match v
    case Number(n) => n < 0
    case BigInt(n) => n < 0 || n >= Pow256(8)
    case Structured(json) => json.None?
    case _ => false
  }

  /** What the reader is meant to return for a value the writer accepted. */
  function Expected(v: Input): Value
    requires !v.Undefined? && !Rejected(v)
  {
    match v
    case Boolean(b) => BooleanValue(b)
    case BigInt(n) => BigIntValue(n)
    case Buffer(b) => BufferValue(b)
    case Text(s) => StringValue(s)
    case Number(n) => NumberValue(n)
    case Structured(json) => JsonValue(json.value)
  }

  /** The integer width ladder for a non-fractional number (lines 391-411). Above the
      32-bit range the number is written as a binary64 double. */
  function EncodeNumber(n: SafeInteger): (r: Result<Payload, EncodeError>)
    ensures r.Failure? <==> n < 0
    ensures 0 <= n <= UInt8MaxValue ==> r.Success? && r.value.valueType == UInt8 && |r.value.bytes| == 1
    ensures UInt8MaxValue < n <= UInt16MaxValue ==>
      r.Success? && r.value.valueType == UInt16 && |r.value.bytes| == 2
    ensures UInt16MaxValue < n <= UInt32MaxValue ==>
      r.Success? && r.value.valueType == UInt32 && |r.value.bytes| == 4
    ensures UInt32MaxValue < n ==> r.Success? && r.value.valueType == DoubleType && |r.value.bytes| == 8
    ensures r.Success? ==> |r.value.bytes| == r.value.valueType.ReadWidth()
  {
    if n > UInt32MaxValue then Success(DoublePayload(n))
    else if n > UInt16MaxValue then Success(UIntPayload(n, UInt32))
    else if n > UInt8MaxValue then Success(UIntPayload(n, UInt16))
    else if n < 0 then Failure(RangeError)
    else Success(UIntPayload(n, UInt8))
  }

  /** `writeUInt8` / `writeUInt16LE` / `writeUInt32LE` of a number that fits. */
  function UIntPayload(n: nat, t: ValueType): (p: Payload)
    requires t == UInt8 || t == UInt16 || t == UInt32
    requires n <= UInt32MaxValue && (t == UInt16 ==> n <= UInt16MaxValue) && (t == UInt8 ==> n <= UInt8MaxValue)
    ensures p.valueType == t && |p.bytes| == t.ReadWidth()
  {
    Pow256Values();
    Payload(t, LittleEndian(n, t.ReadWidth()))
  }

  /** `writeDoubleLE` of a safe integer above the 32-bit range. */
  function DoublePayload(n: SafeInteger): (p: Payload)
    requires n > UInt32MaxValue
    ensures p.valueType == DoubleType && |p.bytes| == 8
  {
    DoubleRange(n);
    DoubleFits(n);
    Payload(DoubleType, LittleEndian(Ieee754.DoubleBits(n), 8))
  }

  /** Whatever width the ladder picks, the reader gets the number back. */
  lemma NumberReadsBack(n: SafeInteger)
    requires n >= 0
    ensures var p := EncodeNumber(n).value;
      ParseValue(p.bytes, p.valueType.Code()) == Success(NumberValue(n))
  {
    Pow256Values();
    if n > UInt32MaxValue {
      DoubleRange(n);
      DoubleRoundTrip(n);
    } else if n > UInt16MaxValue {
      UIntRoundTrip(n, UInt32);
    } else if n > UInt8MaxValue {
      UIntRoundTrip(n, UInt16);
    } else {
      UIntRoundTrip(n, UInt8);
    }
  }

  /** An unsigned integer written at a tag's width reads back as itself. */
  lemma UIntRoundTrip(n: nat, t: ValueType)
    requires t == UInt8 || t == UInt16 || t == UInt32
    requires n <= UInt32MaxValue && n < Pow256(t.ReadWidth())
    ensures ParseValue(LittleEndian(n, t.ReadWidth()), t.Code()) == Success(NumberValue(n))
  {
    var w := t.ReadWidth();
    var b := LittleEndian(n, w);
    assert b[..w] == b;
    assert TypeOf(t.Code()) == Some(t);
  }

  /** The safe integers above the 32-bit range are the ones a double holds exactly with an
      exponent of at least 32. */
  lemma DoubleRange(n: SafeInteger)
    requires n > UInt32MaxValue
    ensures Pow2(32) <= n < Pow2(53)
  {
    Pow2Values();
  }

  lemma DoubleFits(n: nat)
    requires Pow2(32) <= n < Pow2(53)
    ensures Ieee754.DoubleBits(n) < Pow256(8)
  {
    Pow256IsPow2(8);
  }

  /** A number in that range, written as a binary64 double, reads back as itself. */
  lemma DoubleRoundTrip(n: nat)
    requires Pow2(32) <= n < Pow2(53)
    ensures Ieee754.DoubleBits(n) < Pow256(8)
    ensures ParseValue(LittleEndian(Ieee754.DoubleBits(n), 8), DoubleType.Code()) == Success(NumberValue(n))
  {
    Pow256IsPow2(8);
    Ieee754.DoubleBitsExact(n);
    DoubleBytes(n, Ieee754.DoubleBits(n));
  }

  /** Eight bytes whose binary64 pattern denotes an integer read as that integer. */
  lemma DoubleBytes(n: nat, bits: nat)
    requires bits < Pow256(8)
    requires Ieee754.IntegralValue(bits, Ieee754.DoubleExponentWidth, Ieee754.DoubleFractionWidth) == Some(n)
    ensures ParseValue(LittleEndian(bits, 8), DoubleType.Code()) == Success(NumberValue(n))
  {
    var b := LittleEndian(bits, 8);
    ParseDouble(b);
    Ieee754.IntegralValueExact(bits, Ieee754.DoubleExponentWidth, Ieee754.DoubleFractionWidth, n);
    ParseFloatExact(b, Ieee754.DoubleExponentWidth, Ieee754.DoubleFractionWidth, n);
  }

  /** Eight value bytes under the double tag are read as a binary64 float. */
  lemma ParseDouble(b: Bytes)
    requires |b| == 8
    ensures ParseValue(b, DoubleType.Code())
         == Success(ParseFloat(b, Ieee754.DoubleExponentWidth, Ieee754.DoubleFractionWidth))
  {
    assert b[..8] == b;
    assert TypeOf(DoubleType.Code()) == Some(DoubleType);
  }

  lemma Pow2Values()
    ensures Pow2(32) == 0x1_0000_0000
    ensures Pow2(53) == 0x20_0000_0000_0000
  {
    assert Pow2(8) == 0x100;
    Pow2Add(8, 8);
    Pow2Add(16, 16);
    assert Pow2(5) == 32;
    Pow2Add(16, 5);
    Pow2Add(32, 21);
  }

  /** The value half of `addEntry` for a defined value: its tag and bytes. */
  function EncodeValue(v: Input): (r: Result<Payload, EncodeError>)
    requires !v.Undefined?
    ensures r.Failure? <==> Rejected(v)
    ensures r.Success? ==> |r.value.bytes| >= r.value.valueType.ReadWidth()
  {
    match v
    case Boolean(b) =>
      Success(Payload(BooleanType, [if b then 0x01 else 0x00]))
    case BigInt(n) =>
      if n < 0 || n >= Pow256(8) then Failure(RangeError)
      else Success(BigIntPayload(n))
    case Buffer(b) => Success(Payload(BufferType, b))
    case Text(s) => Success(Payload(StringType, s))
    case Number(n) => EncodeNumber(n)
    case Structured(json) =>
      match json
      case None => Failure(UnsupportedType)
      case Some(text) => Success(Payload(JsonType, text))
  }

  /** Every value the writer accepts is read back as the value the reader is meant to
      return for it. */
  lemma ValueReadsBack(v: Input)
    requires !v.Undefined? && !Rejected(v)
    ensures var p := EncodeValue(v).value;
      ParseValue(p.bytes, p.valueType.Code()) == Success(Expected(v))
  {
    match v
    case Boolean(b) => TypeOfCode(BooleanType);
    case BigInt(n) => BigIntRoundTrip(n);
    case Buffer(b) => TypeOfCode(BufferType);
    case Text(s) => TypeOfCode(StringType);
    case Number(n) => NumberReadsBack(n);
    case Structured(json) => TypeOfCode(JsonType);
  }

  /** `writeBigUInt64LE` of a bigint that fits. */
  function BigIntPayload(n: nat): (p: Payload)
    requires n < Pow256(8)
    ensures p.valueType == BigIntType && |p.bytes| == 8
  {
    Payload(BigIntType, LittleEndian(n, 8))
  }

  /** A bigint written as eight little-endian bytes reads back as itself. */
  lemma BigIntRoundTrip(n: nat)
    requires n < Pow256(8)
    ensures ParseValue(LittleEndian(n, 8), BigIntType.Code()) == Success(BigIntValue(n))
  {
    var b := LittleEndian(n, 8);
    assert b[..8] == b;
    assert TypeOf(BigIntType.Code()) == Some(BigIntType);
  }

  /** One record as laid out on the wire (line 8): the tag, the key length and the value
      length as varints, then the key and value bytes. */
  datatype Record = Record(tag: nat, key: Bytes, payload: Bytes)

  function EncodeRecord(r: Record): Bytes {
    Varint.Encode(r.tag) + Varint.Encode(|r.key|) + Varint.Encode(|r.payload|) + r.key + r.payload
  }

  /** The bytes of a sequence of records written one after another. */
  function EncodeRecords(rs: seq<Record>): Bytes {
    if |rs| == 0 then [] else EncodeRecord(rs[0]) + EncodeRecords(rs[1..])
  }

  /** The record `addEntry(key, v)` writes for a defined value. */
  function RecordOf(key: Bytes, p: Payload): Record {
    Record(p.valueType.Code(), key, p.bytes)
  }

  /** `addEntry(key, value)`: no bytes at all for an undefined value, otherwise one record. */
  function AddEntry(key: Bytes, v: Input): (r: Result<Bytes, EncodeError>)
    ensures v.Undefined? ==> r == Success([])
    ensures !v.Undefined? ==> (r.Failure? <==> Rejected(v))
    ensures r.Success? && !v.Undefined? ==>
      EncodeValue(v).Success? && r.value == EncodeRecord(RecordOf(key, EncodeValue(v).value))
  {
    if v.Undefined? then Success([])
    else
      var p :- EncodeValue(v);
      Success(EncodeRecord(RecordOf(key, p)))
  }

  /** The record-accumulating writer (`new BootBuffer()`, `add`, `buffer`). */
  datatype BootBuffer = BootBuffer(buffer: Bytes)

  const Empty := BootBuffer([])

  /** `add(key, value)`: append the bytes of `addEntry(key, value)`; a throw leaves the
      writer as it was. */
  function Add(bb: BootBuffer, key: Bytes, v: Input): (r: Result<BootBuffer, EncodeError>)
    ensures v.Undefined? ==> r == Success(bb)
    ensures r.Success? ==> |bb.buffer| <= |r.value.buffer| && r.value.buffer[..|bb.buffer|] == bb.buffer
    ensures r.Failure? <==> AddEntry(key, v).Failure?
  {
    var bytes :- AddEntry(key, v);
    assert v.Undefined? ==> bb.buffer + bytes == bb.buffer;
    Success(BootBuffer(bb.buffer + bytes))
  }
}
