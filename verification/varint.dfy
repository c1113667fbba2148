/** Unsigned LEB128, the variable-length integer of section 7.6 of the DWARF Debugging
    Information Format (versions 4 and 5): seven payload bits per byte, least significant
    group first, the high bit set on every byte but the last. The codec uses it for the
    tag and the two length prefixes of every record (BootBuffer.ts lines 10 and 451-453). */
module Varint {
  import opened Binary

  const ContinuationBit := 0x80

  /** The LEB128 bytes of `n` (`varint.encode`). */
  function Encode(n: nat): (r: Bytes)
    ensures 1 <= |r|
    ensures r[|r| - 1] < ContinuationBit
    decreases n
  {
    if n < ContinuationBit then [n]
    else
      [n % ContinuationBit + ContinuationBit] + Encode(n / ContinuationBit)
  }

  /** What `varint.decode` makes of the bytes at the head of a buffer: the value and the
      number of bytes it took (`varint.decode.bytes`), or the report that the buffer ended
      before a byte without the continuation bit, which the source receives as a throw. */
  datatype Decoded = Complete(value: nat, size: nat) | Incomplete

  function Decode(s: Bytes): (r: Decoded)
    ensures r.Incomplete? <==> forall i :: 0 <= i < |s| ==> s[i] >= ContinuationBit
    ensures r.Complete? ==>
      && 1 <= r.size <= |s|
      && s[r.size - 1] < ContinuationBit
      && forall i :: 0 <= i < r.size - 1 ==> s[i] >= ContinuationBit
  {
    if |s| == 0 then Incomplete
    else if s[0] < ContinuationBit then Complete(s[0], 1)
    else
      match Decode(s[1..])
      case Incomplete => Incomplete
      case Complete(v, k) => Complete(s[0] - ContinuationBit + ContinuationBit * v, k + 1)
  }

  /** Decoding looks at nothing after the first byte without the continuation bit: bytes
      appended after a complete varint leave the result alone. */
  lemma {:induction false} DecodeExtend(s: Bytes, t: Bytes)
    requires Decode(s).Complete?
    ensures Decode(s + t) == Decode(s)
  {
    if s[0] >= ContinuationBit {
      assert (s + t)[1..] == s[1..] + t;
      DecodeExtend(s[1..], t);
    }
  }

  /** Round trip: the encoding of `n`, followed by anything, decodes to `n` and consumes
      exactly the encoding; every proper prefix of the encoding is incomplete. */
  lemma {:induction false} DecodeEncode(n: nat, rest: Bytes)
    ensures Decode(Encode(n) + rest) == Complete(n, |Encode(n)|)
    ensures forall k :: 0 <= k < |Encode(n)| ==> Decode(Encode(n)[..k]) == Incomplete
    decreases n
  {
    var e := Encode(n);
    EncodeContinues(n);
    if n >= ContinuationBit {
      assert (e + rest)[1..] == Encode(n / ContinuationBit) + rest;
      DecodeEncode(n / ContinuationBit, rest);
    }
    forall k | 0 <= k < |e|
      ensures Decode(e[..k]) == Incomplete
    {
      assert forall i :: 0 <= i < k ==> e[..k][i] == e[i];
    }
  }

  /** Every byte of an encoding but the last has the continuation bit set. */
  lemma {:induction false} EncodeContinues(n: nat)
    ensures forall i :: 0 <= i < |Encode(n)| - 1 ==> Encode(n)[i] >= ContinuationBit
    decreases n
  {
    if n >= ContinuationBit {
      EncodeContinues(n / ContinuationBit);
      var e := Encode(n);
      assert forall i :: 1 <= i < |e| ==> e[i] == Encode(n / ContinuationBit)[i - 1];
    }
  }

  /** A number below 2^(7k) takes at most k bytes, and never less than one. */
  lemma {:induction false} EncodeLength(n: nat, k: nat)
    requires 1 <= k && n < Pow2(7 * k)
    ensures |Encode(n)| <= k
    decreases k
  {
    if n >= ContinuationBit && k > 1 {
      Pow2Add(7 * (k - 1), 7);
      assert Pow2(7) == ContinuationBit;
      assert n / ContinuationBit < Pow2(7 * (k - 1));
      EncodeLength(n / ContinuationBit, k - 1);
    }
  }

  /** A number takes at most one byte more than its value: a crude bound for small numbers
      such as key lengths. */
  lemma {:induction false} EncodeShort(n: nat)
    ensures |Encode(n)| <= n + 1
    decreases n
  {
    if n >= ContinuationBit {
      EncodeShort(n / ContinuationBit);
    }
  }
}
