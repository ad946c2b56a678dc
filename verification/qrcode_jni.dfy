/** The Android JNI glue (`android-jni/qrcode_jni.c`): the UTF-8 to UTF-16
    conversion applied to result texts, and the size check in front of the
    pixel entry point.

    The decoder works on unbounded integers. The C code builds code points
    with masks, shifts and `|`; `BitLevel` and `SurrogateBitLevel` show that
    on the values that occur these are the ranges, remainders, products and
    sums used here. */
module Jni {
  import opened Common
  import Api = QrcodeApi
  import H = HandleRegistry
  import W = WeChatQRCode

  /** A UTF-16 code unit (`char16_t`). */
  type CodeUnit = u: int | 0 <= u < 0x1_0000

  /** U+FFFD REPLACEMENT CHARACTER. */
  const Replacement: CodeUnit := 0xFFFD

  // ---------------------------------------------------------------------
  // Bit-level justification

  /** The lead-byte masks select ranges, and on a byte of the selected
      range the payload mask subtracts the marker bits. */
  lemma BitLevel(b: bv8)
    ensures ((b & 0xE0) == 0xC0) <==> (0xC0 <= b as int < 0xE0)
    ensures ((b & 0xF0) == 0xE0) <==> (0xE0 <= b as int < 0xF0)
    ensures ((b & 0xF8) == 0xF0) <==> (0xF0 <= b as int < 0xF8)
    ensures ((b & 0xC0) == 0x80) <==> (0x80 <= b as int < 0xC0)
    ensures 0x80 <= b as int < 0xC0 ==> (b & 0x3F) as int == b as int - 0x80
    ensures 0xC0 <= b as int < 0xE0 ==> (b & 0x1F) as int == b as int - 0xC0
    ensures 0xE0 <= b as int < 0xF0 ==> (b & 0x0F) as int == b as int - 0xE0
    ensures 0xF0 <= b as int < 0xF8 ==> (b & 0x07) as int == b as int - 0xF0
  {
  }

  /** On 32-bit code points below 2^15, shifting in six bits is `64 * cp + x`;
      below 2^20, the surrogate halves are sums with the high and low ten
      bits. */
  lemma SurrogateBitLevel(cp: bv32, x: bv32, c: bv32)
    requires cp < 0x8000 && c < 0x10_0000
    ensures (cp << 6) | (x & 0x3F) == cp * 64 + (x & 0x3F)
    ensures (0xD800 | (c >> 10)) == 0xD800 + (c >> 10) && (c >> 10) < 0x400
    ensures (0xDC00 | (c & 0x3FF)) == 0xDC00 + (c & 0x3FF)
    ensures c == (c >> 10) * 0x400 + (c & 0x3FF)
  {
    ShiftInSix(cp, x);
    HighSurrogate(c);
    LowSurrogate(c);
  }

  lemma ShiftInSix(cp: bv32, x: bv32)
    requires cp < 0x8000
    ensures (cp << 6) | (x & 0x3F) == cp * 64 + (x & 0x3F)
  {
  }

  lemma HighSurrogate(c: bv32)
    requires c < 0x10_0000
    ensures (0xD800 | (c >> 10)) == 0xD800 + (c >> 10) && (c >> 10) < 0x400
  {
  }

  lemma LowSurrogate(c: bv32)
    ensures (0xDC00 | (c & 0x3FF)) == 0xDC00 + (c & 0x3FF)
    ensures c == (c >> 10) * 0x400 + (c & 0x3FF)
  {
  }

  // ---------------------------------------------------------------------
  // The standards: RFC 3629 and RFC 2781

  /** A Unicode scalar value: at most U+10FFFF and not a surrogate. */
  predicate ScalarValue(cp: int) {
    0 <= cp <= 0x10FFFF && !(0xD800 <= cp <= 0xDFFF)
  }

  /** The shortest UTF-8 form of a scalar value (section 3 of RFC 3629). */
  function EncodeScalar(cp: int): (bytes: seq<byte>)
    requires ScalarValue(cp)
    ensures 1 <= |bytes| <= 4
    ensures |bytes| == 1 <==> cp < 0x80
  {
    if cp < 0x80 then [cp as byte]
    else if cp < 0x800 then [(0xC0 + cp / 64) as byte, (0x80 + cp % 64) as byte]
    else if cp < 0x1_0000 then
      [(0xE0 + cp / 4096) as byte, (0x80 + cp / 64 % 64) as byte, (0x80 + cp % 64) as byte]
    else
      [(0xF0 + cp / 262144) as byte, (0x80 + cp / 4096 % 64) as byte,
       (0x80 + cp / 64 % 64) as byte, (0x80 + cp % 64) as byte]
  }

  /** The UTF-16 form of a scalar value (section 2.1 of RFC 2781). */
  function EncodeUnit(cp: int): (units: seq<CodeUnit>)
    requires ScalarValue(cp)
    ensures |units| == (if cp <= 0xFFFF then 1 else 2)
  {
    if cp <= 0xFFFF then [cp]
    else [0xD800 + (cp - 0x1_0000) / 1024, 0xDC00 + (cp - 0x1_0000) % 1024]
  }

  /** Text without NUL characters, as a sequence of scalar values. */
  predicate Text(cps: seq<int>) {
    forall k :: 0 <= k < |cps| ==> ScalarValue(cps[k]) && cps[k] != 0
  }

  function EncodeUtf8(cps: seq<int>): (bytes: seq<byte>)
    requires Text(cps)
  {
    if cps == [] then [] else EncodeScalar(cps[0]) + EncodeUtf8(cps[1..])
  }

  function EncodeUtf16(cps: seq<int>): (units: seq<CodeUnit>)
    requires Text(cps)
  {
    if cps == [] then [] else EncodeUnit(cps[0]) + EncodeUtf16(cps[1..])
  }

  /** UTF-16 never needs more units than UTF-8 needs bytes. */
  lemma {:induction false} Utf16NoLonger(cps: seq<int>)
    requires Text(cps)
    ensures |EncodeUtf16(cps)| <= |EncodeUtf8(cps)|
  {
    if cps != [] {
      Utf16NoLonger(cps[1..]);
    }
  }

  // ---------------------------------------------------------------------
  // One step of `utf8_to_utf16`

  /** The sequence length announced by a lead byte; 0 for an invalid one. */
  function LeadLength(b: int): (len: nat)
    ensures len <= 4
  {
    if b < 0x80 then 1
    else if 0xC0 <= b < 0xE0 then 2
    else if 0xE0 <= b < 0xF0 then 3
    else if 0xF0 <= b < 0xF8 then 4
    else 0
  }

  /** The payload bits of a valid lead byte. */
  function LeadBits(b: int): int {
    if b < 0x80 then b
    else if b < 0xE0 then b - 0xC0
    else if b < 0xF0 then b - 0xE0
    else b - 0xF0
  }

  predicate Continuation(b: int) {
    0x80 <= b < 0xC0
  }

  /** The inner loop: append the six payload bits of continuation bytes
      `j .. len-1`; `None` at the first byte that is not a continuation. */
  function Accumulate(t: seq<byte>, j: nat, len: nat, cp: int): (r: Option<int>)
    requires j <= len <= |t|
    decreases len - j
  {
    if j == len then Some(cp)
    else if !Continuation(t[j] as int) then None
    else Accumulate(t, j + 1, len, cp * 64 + (t[j] as int - 0x80))
  }

  /** What one iteration of the outer loop finds at the start of `t`. */
  datatype Step =
    | Nul                     // a NUL byte: decoding ends
    | BadLead                 // U+FFFD, skip one byte
    | Truncated               // U+FFFD, decoding ends
    | BadContinuation         // U+FFFD, skip only the lead byte
    | Rejected(len: nat)      // overlong, surrogate or too large: U+FFFD, skip the sequence
    | Scalar(cp: int, len: nat)

  /** The overlong, surrogate and range test. */
  predicate Unacceptable(cp: int, len: nat) {
    || (len == 2 && cp < 0x80)
    || (len == 3 && cp < 0x800)
    || (len == 4 && cp < 0x1_0000)
    || (0xD800 <= cp <= 0xDFFF)
    || cp > 0x10FFFF
  }

  function StepAt(t: seq<byte>): (r: Step)
    requires |t| > 0
    ensures r == Nul <==> t[0] == 0
    ensures r == BadLead <==> (0x80 <= t[0] as int < 0xC0 || t[0] as int >= 0xF8)
    ensures r == Truncated <==> (LeadLength(t[0] as int) > |t| && t[0] != 0)
    ensures r.Rejected? ==> 2 <= r.len <= |t|
    ensures r.Scalar? ==> 1 <= r.len <= |t| && ScalarValue(r.cp) && r.cp != 0
  {
    var b := t[0] as int;
    if b == 0 then Nul
    else
      var len := LeadLength(b);
      if len == 0 then BadLead
      else if len > |t| then Truncated
      else
        match Accumulate(t, 1, len, LeadBits(b))
        case None => BadContinuation
        case Some(cp) => if Unacceptable(cp, len) then Rejected(len) else Scalar(cp, len)
  }

  // ---------------------------------------------------------------------
  // The conversion

  /** The outer loop, from the unread input `t`, with `out` written so far. */
  function ConvertFrom(t: seq<byte>, out: seq<CodeUnit>, dstMax: int): (r: seq<CodeUnit>)
    requires |out| <= dstMax
    ensures |out| <= |r| <= dstMax && r[..|out|] == out
    decreases |t|
  {
    if t == [] || |out| >= dstMax then out
    else
      match StepAt(t)
      case Nul => out
      case BadLead => ConvertFrom(t[1..], out + [Replacement], dstMax)
      case Truncated => out + [Replacement]
      case BadContinuation => ConvertFrom(t[1..], out + [Replacement], dstMax)
      case Rejected(len) => ConvertFrom(t[len..], out + [Replacement], dstMax)
      case Scalar(cp, len) =>
        if cp <= 0xFFFF then ConvertFrom(t[len..], out + [cp], dstMax)
        else if |out| + 1 < dstMax then ConvertFrom(t[len..], out + EncodeUnit(cp), dstMax)
        else out
  }

  /** `utf8_to_utf16`: the units written to `dst`, whose count is the return
      value. `src` and `dst` are `None` / `false` for null pointers; the
      caller must own `srcLen` bytes at `src`. */
  function Utf8ToUtf16(src: Option<seq<byte>>, srcLen: int, dstProvided: bool, dstMax: int): (r: seq<CodeUnit>)
    requires src.Some? ==> srcLen <= |src.value|
    ensures src.None? || srcLen <= 0 || !dstProvided || dstMax <= 0 ==> r == []
    ensures |r| <= Max(dstMax, 0)
  {
    if src.None? || srcLen <= 0 || !dstProvided || dstMax <= 0 then []
    else ConvertFrom(src.value[..srcLen], [], dstMax)
  }

  /** `utf8_to_utf16` with the source's loops. */
  method Utf8ToUtf16Loop(src: Option<seq<byte>>, srcLen: int, dstProvided: bool, dstMax: int) returns (dst: seq<CodeUnit>)
    requires src.Some? ==> srcLen <= |src.value|
    ensures dst == Utf8ToUtf16(src, srcLen, dstProvided, dstMax)
  {
    if src.None? || srcLen <= 0 || !dstProvided || dstMax <= 0 {
      return [];
    }
    var s := src.value[..srcLen];
    var i := 0;
    dst := [];
    while i < |s| && |dst| < dstMax
      invariant 0 <= i <= |s| && |dst| <= dstMax
      invariant ConvertFrom(s[i..], dst, dstMax) == ConvertFrom(s, [], dstMax)
      decreases |s| - i
    {
      var t := s[i..];
      ghost var before := dst;
      var b := s[i] as int;
      var cp := 0;
      var len := 0;
      if b == 0 {
        break;
      } else if b < 0x80 {
        cp, len := b, 1;
      } else if 0xC0 <= b < 0xE0 {
        cp, len := b - 0xC0, 2;
      } else if 0xE0 <= b < 0xF0 {
        cp, len := b - 0xE0, 3;
      } else if 0xF0 <= b < 0xF8 {
        cp, len := b - 0xF0, 4;
      } else {
        dst := dst + [Replacement];
        i := i + 1;
        ConvertReplaces(t, before, dstMax, 1);
        assert t[1..] == s[i..];
        continue;
      }
      assert len == LeadLength(b) && cp == LeadBits(b);
      if i + len > |s| {
        dst := dst + [Replacement];
        break;
      }
      var valid;
      valid, cp := Continue(t, len, cp);
      if !valid {
        dst := dst + [Replacement];
        i := i + 1;
        ConvertReplaces(t, before, dstMax, 1);
        assert t[1..] == s[i..];
        continue;
      }
      if Unacceptable(cp, len) {
        dst := dst + [Replacement];
        i := i + len;
        ConvertReplaces(t, before, dstMax, len);
        assert t[len..] == s[i..];
        continue;
      }
      if cp <= 0xFFFF {
        dst := dst + [cp];
      } else if |dst| + 1 < dstMax {
        dst := dst + [0xD800 + (cp - 0x1_0000) / 1024, 0xDC00 + (cp - 0x1_0000) % 1024];
      } else {
        break;
      }
      ConvertScalar(t, before, dstMax, cp, len);
      i := i + len;
      assert t[len..] == s[i..];
    }
    if i == |s| {
      assert s[i..] == [];
    }
  }

  /** The inner loop of `utf8_to_utf16`: the continuation bytes of a
      sequence of `len` bytes, starting from the lead byte's payload. */
  method Continue(t: seq<byte>, len: nat, lead: int) returns (valid: bool, cp: int)
    requires 1 <= len <= |t|
    ensures valid <==> Accumulate(t, 1, len, lead).Some?
    ensures valid ==> cp == Accumulate(t, 1, len, lead).value
  {
    valid := true;
    cp := lead;
    var j := 1;
    while j < len
      invariant 1 <= j <= len
      invariant Accumulate(t, 1, len, lead) == Accumulate(t, j, len, cp)
    {
      if !Continuation(t[j] as int) {
        valid := false;
        break;
      }
      cp := cp * 64 + (t[j] as int - 0x80);
      j := j + 1;
    }
  }

  // ---------------------------------------------------------------------
  // Properties

  /** ASCII text without NUL comes out unit for unit, as far as there is
      room. */
  lemma {:induction false} AsciiUnchanged(t: seq<byte>, out: seq<CodeUnit>, dstMax: int)
    requires forall k :: 0 <= k < |t| ==> 0 < t[k] as int < 0x80
    requires |out| + |t| <= dstMax
    ensures ConvertFrom(t, out, dstMax) == out + seq(|t|, k requires 0 <= k < |t| => t[k] as int)
  {
    if t != [] {
      assert StepAt(t) == Scalar(t[0] as int, 1);
      AsciiUnchanged(t[1..], out + [t[0] as int], dstMax);
      assert out + [t[0] as int] + seq(|t| - 1, k requires 0 <= k < |t| - 1 => t[1..][k] as int)
          == out + seq(|t|, k requires 0 <= k < |t| => t[k] as int);
    }
  }

  /** The inner loop over the continuation bytes of a sequence of each
      length. */
  lemma AccumulateTwo(t: seq<byte>, x0: int)
    requires |t| >= 2
    ensures Accumulate(t, 1, 2, x0) ==
      if Continuation(t[1] as int) then Some(x0 * 64 + (t[1] as int - 0x80)) else None
  {
  }

  lemma AccumulateThree(t: seq<byte>, x0: int)
    requires |t| >= 3
    ensures Accumulate(t, 1, 3, x0) ==
      if Continuation(t[1] as int) && Continuation(t[2] as int)
      then Some((x0 * 64 + (t[1] as int - 0x80)) * 64 + (t[2] as int - 0x80))
      else None
  {
    if Continuation(t[1] as int) {
      assert Accumulate(t, 1, 3, x0) == Accumulate(t, 2, 3, x0 * 64 + (t[1] as int - 0x80));
    }
  }

  lemma AccumulateFour(t: seq<byte>, x0: int)
    requires |t| >= 4
    ensures Accumulate(t, 1, 4, x0) ==
      if Continuation(t[1] as int) && Continuation(t[2] as int) && Continuation(t[3] as int)
      then Some(((x0 * 64 + (t[1] as int - 0x80)) * 64 + (t[2] as int - 0x80)) * 64 + (t[3] as int - 0x80))
      else None
  {
    if Continuation(t[1] as int) {
      var x := x0 * 64 + (t[1] as int - 0x80);
      assert Accumulate(t, 1, 4, x0) == Accumulate(t, 2, 4, x);
      if Continuation(t[2] as int) {
        assert Accumulate(t, 2, 4, x) == Accumulate(t, 3, 4, x * 64 + (t[2] as int - 0x80));
      }
    }
  }

  lemma DivDiv(x: int)
    requires 0 <= x
    ensures x / 64 / 64 == x / 4096
  {
    var q := x / 4096;
    var r := x % 4096;
    assert x == q * 4096 + r;
    assert x / 64 == q * 64 + r / 64;
    assert (q * 64 + r / 64) / 64 == q;
  }

  /** A value in three base-64 digits, and the digits read back. */
  lemma DigitsThree(cp: int)
    requires 0 <= cp
    ensures cp == (cp / 4096 * 64 + cp / 64 % 64) * 64 + cp % 64
  {
    var q := cp / 64;
    assert cp == q * 64 + cp % 64;
    assert q / 64 == cp / 4096 by { DivDiv(cp); }
    assert q == q / 64 * 64 + q % 64;
  }

  lemma ThreeDigits(cp: int, d0: int, d1: int, d2: int)
    requires 0 <= d0 < 64 && 0 <= d1 < 64 && 0 <= d2 < 64 && cp == (d0 * 64 + d1) * 64 + d2
    ensures cp / 4096 == d0 && cp / 64 % 64 == d1 && cp % 64 == d2
  {
    assert cp / 64 == d0 * 64 + d1;
    assert cp / 4096 == d0 by { DivDiv(cp); }
  }

  /** A value in four base-64 digits, and the digits read back. */
  lemma DigitsFour(cp: int)
    requires 0 <= cp
    ensures cp == ((cp / 262144 * 64 + cp / 4096 % 64) * 64 + cp / 64 % 64) * 64 + cp % 64
  {
    DigitsThree(cp);
    var q := cp / 4096;
    assert q / 64 == cp / 262144 by { DivDiv(cp / 64); DivDiv(cp); assert cp / 262144 == cp / 64 / 4096; }
    assert q == q / 64 * 64 + q % 64;
  }

  lemma FourDigits(cp: int, d0: int, d1: int, d2: int, d3: int)
    requires 0 <= d0 < 64 && 0 <= d1 < 64 && 0 <= d2 < 64 && 0 <= d3 < 64
    requires cp == ((d0 * 64 + d1) * 64 + d2) * 64 + d3
    ensures cp / 262144 == d0 && cp / 4096 % 64 == d1 && cp / 64 % 64 == d2 && cp % 64 == d3
  {
    var y := (d0 * 64 + d1) * 64 + d2;
    assert cp / 64 == y && cp % 64 == d3;
    ThreeDigits(y, d0, d1, d2);
    assert cp / 4096 == y / 64 by { DivDiv(cp); }
    assert cp / 262144 == y / 4096 by { DivDiv(cp / 64); DivDiv(cp); assert cp / 262144 == cp / 64 / 4096; }
  }

  /** The encodings of each length, byte by byte. */
  lemma EncodeTwo(cp: int, d0: int, d1: int)
    requires 0x80 <= cp < 0x800 && cp / 64 == d0 && cp % 64 == d1
    ensures EncodeScalar(cp) == [(0xC0 + d0) as byte, (0x80 + d1) as byte]
  {
  }

  lemma EncodeThree(cp: int, d0: int, d1: int, d2: int)
    requires 0x800 <= cp < 0x1_0000 && ScalarValue(cp)
    requires cp / 4096 == d0 && cp / 64 % 64 == d1 && cp % 64 == d2
    ensures EncodeScalar(cp) == [(0xE0 + d0) as byte, (0x80 + d1) as byte, (0x80 + d2) as byte]
  {
  }

  lemma EncodeFour(cp: int, d0: int, d1: int, d2: int, d3: int)
    requires 0x1_0000 <= cp <= 0x10FFFF
    requires cp / 262144 == d0 && cp / 4096 % 64 == d1 && cp / 64 % 64 == d2 && cp % 64 == d3
    ensures EncodeScalar(cp) == [(0xF0 + d0) as byte, (0x80 + d1) as byte, (0x80 + d2) as byte, (0x80 + d3) as byte]
  {
  }

  lemma DecodesTwo(t: seq<byte>, cp: int)
    requires 0x80 <= cp < 0x800 && |t| >= 2 && t[..2] == EncodeScalar(cp)
    ensures StepAt(t) == Scalar(cp, 2)
  {
    var d0, d1 := cp / 64, cp % 64;
    EncodeTwo(cp, d0, d1);
    assert t[0] as int == 0xC0 + d0 && t[1] as int == 0x80 + d1 by {
      assert t[..2][0] == t[0] && t[..2][1] == t[1];
    }
    AccumulateTwo(t, d0);
  }

  lemma DecodesThree(t: seq<byte>, cp: int)
    requires 0x800 <= cp < 0x1_0000 && ScalarValue(cp) && |t| >= 3 && t[..3] == EncodeScalar(cp)
    ensures StepAt(t) == Scalar(cp, 3)
  {
    var d0, d1, d2 := cp / 4096, cp / 64 % 64, cp % 64;
    EncodeThree(cp, d0, d1, d2);
    assert t[0] as int == 0xE0 + d0 && t[1] as int == 0x80 + d1 && t[2] as int == 0x80 + d2 by {
      assert t[..3][0] == t[0] && t[..3][1] == t[1] && t[..3][2] == t[2];
    }
    AccumulateThree(t, d0);
    DigitsThree(cp);
  }

  lemma DecodesFour(t: seq<byte>, cp: int)
    requires 0x1_0000 <= cp <= 0x10FFFF && |t| >= 4 && t[..4] == EncodeScalar(cp)
    ensures StepAt(t) == Scalar(cp, 4)
  {
    var d0, d1, d2, d3 := cp / 262144, cp / 4096 % 64, cp / 64 % 64, cp % 64;
    EncodeFour(cp, d0, d1, d2, d3);
    assert t[0] as int == 0xF0 + d0 && t[1] as int == 0x80 + d1 && t[2] as int == 0x80 + d2 && t[3] as int == 0x80 + d3 by {
      assert t[..4][0] == t[0] && t[..4][1] == t[1] && t[..4][2] == t[2] && t[..4][3] == t[3];
    }
    AccumulateFour(t, d0);
    DigitsFour(cp);
  }

  /** Every shortest-form encoding decodes to its scalar value. */
  lemma DecodesEncoding(t: seq<byte>, cp: int)
    requires ScalarValue(cp) && cp != 0
    requires |EncodeScalar(cp)| <= |t| && t[..|EncodeScalar(cp)|] == EncodeScalar(cp)
    ensures StepAt(t) == Scalar(cp, |EncodeScalar(cp)|)
  {
    if cp < 0x80 {
      assert t[0] == EncodeScalar(cp)[0];
    } else if cp < 0x800 {
      DecodesTwo(t, cp);
    } else if cp < 0x1_0000 {
      DecodesThree(t, cp);
    } else {
      DecodesFour(t, cp);
    }
  }

  lemma OnlyEncodingTwo(t: seq<byte>)
    requires |t| >= 2 && LeadLength(t[0] as int) == 2 && StepAt(t).Scalar?
    ensures StepAt(t).len == 2 && t[..2] == EncodeScalar(StepAt(t).cp)
  {
    var d0, d1 := t[0] as int - 0xC0, t[1] as int - 0x80;
    AccumulateTwo(t, d0);
    var cp := d0 * 64 + d1;
    assert cp / 64 == d0 && cp % 64 == d1;
    EncodeTwo(cp, d0, d1);
    assert t[..2] == [t[0], t[1]];
  }

  lemma OnlyEncodingThree(t: seq<byte>)
    requires |t| >= 3 && LeadLength(t[0] as int) == 3 && StepAt(t).Scalar?
    ensures StepAt(t).len == 3 && t[..3] == EncodeScalar(StepAt(t).cp)
  {
    var d0, d1, d2 := t[0] as int - 0xE0, t[1] as int - 0x80, t[2] as int - 0x80;
    AccumulateThree(t, d0);
    var cp := (d0 * 64 + d1) * 64 + d2;
    ThreeDigits(cp, d0, d1, d2);
    EncodeThree(cp, d0, d1, d2);
    assert t[..3] == [t[0], t[1], t[2]];
  }

  lemma OnlyEncodingFour(t: seq<byte>)
    requires |t| >= 4 && LeadLength(t[0] as int) == 4 && StepAt(t).Scalar?
    ensures StepAt(t).len == 4 && t[..4] == EncodeScalar(StepAt(t).cp)
  {
    var d0, d1, d2, d3 := t[0] as int - 0xF0, t[1] as int - 0x80, t[2] as int - 0x80, t[3] as int - 0x80;
    AccumulateFour(t, d0);
    var cp := ((d0 * 64 + d1) * 64 + d2) * 64 + d3;
    FourDigits(cp, d0, d1, d2, d3);
    EncodeFour(cp, d0, d1, d2, d3);
    assert t[..4] == [t[0], t[1], t[2], t[3]];
  }

  /** Every sequence the decoder accepts is the shortest-form encoding of
      the scalar value it yields. */
  lemma AcceptsOnlyEncodings(t: seq<byte>)
    requires |t| > 0 && StepAt(t).Scalar?
    ensures var s := StepAt(t);
            s.len == |EncodeScalar(s.cp)| && t[..s.len] == EncodeScalar(s.cp)
  {
    var len := LeadLength(t[0] as int);
    if len == 1 {
      assert t[..1] == EncodeScalar(StepAt(t).cp);
    } else if len == 2 {
      OnlyEncodingTwo(t);
    } else if len == 3 {
      OnlyEncodingThree(t);
    } else {
      OnlyEncodingFour(t);
    }
  }

  /** The decoder accepts a sequence exactly when it is the shortest-form
      encoding of a scalar value other than U+0000 (section 3 of RFC 3629). */
  lemma AcceptsExactlyEncodings(t: seq<byte>, cp: int, len: nat)
    requires |t| > 0
    ensures StepAt(t) == Scalar(cp, len) <==>
      (ScalarValue(cp) && cp != 0 && len == |EncodeScalar(cp)| && len <= |t| && t[..len] == EncodeScalar(cp))
  {
    if StepAt(t) == Scalar(cp, len) {
      AcceptsOnlyEncodings(t);
    }
    if ScalarValue(cp) && cp != 0 && len == |EncodeScalar(cp)| && len <= |t| && t[..len] == EncodeScalar(cp) {
      DecodesEncoding(t, cp);
    }
  }

  /** One accepted scalar with room for its units. */
  lemma ConvertScalar(t: seq<byte>, out: seq<CodeUnit>, dstMax: int, cp: int, len: nat)
    requires |t| > 0 && StepAt(t) == Scalar(cp, len)
    requires |out| + |EncodeUnit(cp)| <= dstMax
    ensures ConvertFrom(t, out, dstMax) == ConvertFrom(t[len..], out + EncodeUnit(cp), dstMax)
  {
    if cp <= 0xFFFF {
      assert EncodeUnit(cp) == [cp];
    }
  }

  /** A replaced sequence: one U+FFFD, then on after `skip` bytes. */
  lemma ConvertReplaces(t: seq<byte>, out: seq<CodeUnit>, dstMax: int, skip: nat)
    requires |t| > 0 && |out| < dstMax
    requires StepAt(t) == BadLead || StepAt(t) == BadContinuation || StepAt(t) == Rejected(skip)
    requires StepAt(t).Rejected? || skip == 1
    ensures skip <= |t|
    ensures ConvertFrom(t, out, dstMax) == ConvertFrom(t[skip..], out + [Replacement], dstMax)
  {
  }

  /** Decoding encoded text writes its UTF-16 form, provided the output has
      room for it. */
  lemma {:induction false} DecodesText(cps: seq<int>, rest: seq<byte>, out: seq<CodeUnit>, dstMax: int)
    requires Text(cps)
    requires |out| + |EncodeUtf16(cps)| <= dstMax
    ensures ConvertFrom(EncodeUtf8(cps) + rest, out, dstMax) == ConvertFrom(rest, out + EncodeUtf16(cps), dstMax)
  {
    if cps == [] {
      assert EncodeUtf8(cps) + rest == rest;
      assert out + EncodeUtf16(cps) == out;
    } else {
      var out' := out + EncodeUnit(cps[0]);
      SplitFirst(cps, rest);
      ConcatAssoc(out, EncodeUnit(cps[0]), EncodeUtf16(cps[1..]));
      DecodesFirst(cps, rest, out, dstMax);
      DecodesText(cps[1..], rest, out', dstMax);
    }
  }

  /** The step of `DecodesText`: the first scalar value is decoded. */
  lemma DecodesFirst(cps: seq<int>, rest: seq<byte>, out: seq<CodeUnit>, dstMax: int)
    requires Text(cps) && cps != []
    requires |out| + |EncodeUnit(cps[0])| <= dstMax
    ensures ConvertFrom(EncodeUtf8(cps) + rest, out, dstMax)
         == ConvertFrom(EncodeUtf8(cps[1..]) + rest, out + EncodeUnit(cps[0]), dstMax)
  {
    var cp := cps[0];
    var e := EncodeScalar(cp);
    var tail := EncodeUtf8(cps[1..]) + rest;
    var t := e + tail;
    SplitFirst(cps, rest);
    assert t[..|e|] == e && t[|e|..] == tail;
    DecodesEncoding(t, cp);
    ConvertScalar(t, out, dstMax, cp, |e|);
  }

  /** Peeling the first scalar value off both encodings. */
  lemma SplitFirst(cps: seq<int>, rest: seq<byte>)
    requires Text(cps) && cps != []
    ensures EncodeUtf8(cps) + rest == EncodeScalar(cps[0]) + (EncodeUtf8(cps[1..]) + rest)
    ensures EncodeUtf16(cps) == EncodeUnit(cps[0]) + EncodeUtf16(cps[1..])
  {
    var e := EncodeUtf8(cps[1..]);
    assert EncodeUtf8(cps) == EncodeScalar(cps[0]) + e;
    ConcatAssoc(EncodeScalar(cps[0]), e, rest);
  }

  /** The round trip through the standards: the UTF-8 form of a text,
      NUL-terminated as the result accessor delivers it, converts to the
      text's UTF-16 form when `dstMax` leaves room for it. */
  lemma RoundTrip(cps: seq<int>, dstMax: int)
    requires Text(cps) && |EncodeUtf16(cps)| <= dstMax && dstMax > 0
    ensures var bytes := EncodeUtf8(cps) + [0 as byte];
            Utf8ToUtf16(Some(bytes), |bytes|, true, dstMax) == EncodeUtf16(cps)
  {
    var bytes := EncodeUtf8(cps) + [0 as byte];
    assert bytes[..|bytes|] == bytes;
    DecodesText(cps, [0 as byte], [], dstMax);
    assert [] + EncodeUtf16(cps) == EncodeUtf16(cps);
  }

  /** `zzt_qrcode_get_result_text_jni` sizes the UTF-16 buffer with the
      UTF-8 length including the terminator, which always suffices: valid
      text comes back whole. */
  lemma ResultTextBufferSuffices(cps: seq<int>)
    requires Text(cps)
    ensures var bytes := EncodeUtf8(cps) + [0 as byte];
            Utf8ToUtf16(Some(bytes), |bytes|, true, |bytes|) == EncodeUtf16(cps)
  {
    Utf16NoLonger(cps);
    RoundTrip(cps, |EncodeUtf8(cps)| + 1);
  }

  /** `zzt_qrcode_get_result_text_jni`: the new `last_error` and the Java
      string, `None` for null. It asks for the size with a null buffer,
      fetches the text into a buffer of that size and converts it with the
      same size as the UTF-16 capacity. Allocation is assumed to succeed. */
  function GetResultTextJni(api: Api.Api, h: H.Handle, index: int): (r: (Api.ErrorCode, Option<seq<CodeUnit>>))
    ensures h !in api.results.entries ==> r == (Api.InvalidHandle, None)
    ensures h in api.results.entries && !(0 <= index < |api.results.entries[h]|) ==> r == (Api.InvalidIndex, None)
    ensures r.1.Some? ==> r.0 == Api.Ok
  {
    var first := Api.GetResultText(api, h, index, false, Some(0));
    if first.code == Api.Ok && first.size.value > 0 then
      var len := first.size.value;
      var second := Api.GetResultText(api, h, index, true, Some(len));
      if second.code == Api.Ok && second.size.value > 0 then
        (Api.Ok, Some(Utf8ToUtf16(second.written, len, true, len)))
      else (second.code, None)
    else (first.code, None)
  }

  /** A stored result whose bytes are the UTF-8 encoding of some text reaches
      Java as exactly that text in UTF-16. */
  lemma ResultTextReachesJava(api: Api.Api, h: H.Handle, index: int, cps: seq<int>)
    requires h in api.results.entries && 0 <= index < |api.results.entries[h]|
    requires Text(cps) && api.results.entries[h][index].text == EncodeUtf8(cps)
    ensures GetResultTextJni(api, h, index) == (Api.Ok, Some(EncodeUtf16(cps)))
  {
    ResultTextBufferSuffices(cps);
  }

  // ---------------------------------------------------------------------
  // The pixel entry point

  /** The bytes per pixel assumed by the JNI check (unknown formats keep
      the initial 1). */
  function JniBpp(format: int): (bpp: int)
    ensures bpp in {1, 3, 4}
    ensures bpp == 3 <==> format == 1 || format == 2
    ensures bpp == 4 <==> 3 <= format <= 6
  {
    if format == 1 || format == 2 then 3
    else if 3 <= format <= 6 then 4
    else 1
  }

  /** The bytes a buffer must hold: `height` rows of the stride, or of
      `width * bpp` when the stride is not positive. */
  function JniRequired(format: int, width: int, height: int, stride: int): int {
    (if stride <= 0 then width * JniBpp(format) else stride) * height
  }

  /** Whether `zzt_qrcode_detect_and_decode_pixels_jni` passes the call on. */
  predicate JniAccepts(pixelLen: int, format: int, width: int, height: int, stride: int) {
    width > 0 && height > 0 && JniRequired(format, width, height, stride) <= pixelLen
  }

  /** The JNI outcome: the new `last_error` and the returned handle. */
  datatype JniOutcome = JniOutcome(lastError: Api.ErrorCode, result: H.Handle, api: Api.Api)

  /** `zzt_qrcode_detect_and_decode_pixels_jni`, reached from the byte-array
      overload (`pixels` is the array) or the int-array overload (`pixels`
      is its 4n bytes). */
  function DetectAndDecodePixelsJni(api: Api.Api, be: W.Backend, det: H.Handle, pixels: seq<byte>, format: int,
                                    width: int, height: int, stride: int,
                                    convert: (seq<byte>, Api.PixelType, int, int, Option<int>) -> (int, int) -> byte,
                                    fuel: nat): (r: Option<JniOutcome>)
    ensures !JniAccepts(|pixels|, format, width, height, stride) ==>
      r == Some(JniOutcome(Api.InvalidArgument, H.Null, api))
    ensures r.Some? && r.value.lastError != Api.Ok ==> r.value.result == H.Null && r.value.api == api
    ensures r.Some? && r.value.lastError == Api.Ok ==>
      JniAccepts(|pixels|, format, width, height, stride) && 0 <= format <= 6 && r.value.result != H.Null
  {
    if width <= 0 || height <= 0 then Some(JniOutcome(Api.InvalidArgument, H.Null, api))
    else if JniRequired(format, width, height, stride) > |pixels| then Some(JniOutcome(Api.InvalidArgument, H.Null, api))
    else
      match Api.DetectAndDecodePixels(api, be, det, Some(pixels), format, width, height, stride, true, convert, fuel)
      case None => None
      case Some(d) => Some(JniOutcome(d.code, d.out.value, d.api))
  }

  // ---------------------------------------------------------------------
  // Where the conversion stops

  /** A NUL byte ends the conversion: nothing after it is read or written. */
  lemma NulStops(rest: seq<byte>, out: seq<CodeUnit>, dstMax: int)
    requires |out| <= dstMax
    ensures ConvertFrom([0 as byte] + rest, out, dstMax) == out
  {
    assert ([0 as byte] + rest)[0] == 0;
  }

  /** A lead byte announcing more bytes than remain writes one U+FFFD and
      ends the conversion, whatever the remaining bytes are. */
  lemma TruncatedStops(t: seq<byte>, out: seq<CodeUnit>, dstMax: int)
    requires |out| < dstMax && |t| > 0 && t[0] != 0 && LeadLength(t[0] as int) > |t|
    ensures ConvertFrom(t, out, dstMax) == out + [Replacement]
  {
  }

  /** A scalar above U+FFFF when only one unit of room is left ends the
      conversion without writing half of its surrogate pair. */
  lemma NoRoomStops(cp: int, rest: seq<byte>, out: seq<CodeUnit>, dstMax: int)
    requires ScalarValue(cp) && cp > 0xFFFF && |out| + 1 == dstMax
    ensures ConvertFrom(EncodeScalar(cp) + rest, out, dstMax) == out
  {
  }
}
