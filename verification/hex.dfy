/** Base16 rendering of byte strings with the lower-case alphabet of section 8 of RFC 4648,
    its decoder, and the number-based renderings (minimal base-16 numerals, left padding,
    big-endian values) that some languages use instead of a byte-by-byte encoder. */
module Hex {
  import opened Wrappers

  type byte = b: int | 0 <= b < 256

  predicate IsLowerHexChar(c: char) { '0' <= c <= '9' || 'a' <= c <= 'f' }

  predicate IsLowerHex(s: string) {
    forall i :: 0 <= i < |s| ==> IsLowerHexChar(s[i])
  }

  /** The lower-case digit for a value below 16. */
  function HexDigit(n: int): (c: char)
    requires 0 <= n < 16
    ensures IsLowerHexChar(c)
  {
    if n < 10 then ('0' as int + n) as char else ('a' as int + n - 10) as char
  }

  /** The value of a lower-case digit; None for every other character. */
  function HexValue(c: char): (r: Option<int>)
    ensures r.Some? <==> IsLowerHexChar(c)
    ensures r.Some? ==> 0 <= r.value < 16 && HexDigit(r.value) == c
  {
    if '0' <= c <= '9' then Some(c as int - '0' as int)
    else if 'a' <= c <= 'f' then Some(c as int - 'a' as int + 10)
    else None
  }

  lemma HexValueOfDigit(n: int)
    requires 0 <= n < 16
    ensures HexValue(HexDigit(n)) == Some(n)
  {
  }

  /** One byte as two digits, high nibble first. */
  function ByteHex(b: byte): string {
    [HexDigit(b / 16), HexDigit(b % 16)]
  }

  /** Every byte as two lower-case digits, no separators: hex::encode, hex.EncodeToString,
      hexdigest and hash_hmac's default output. */
  function ToHex(bs: seq<byte>): (r: string)
    ensures |r| == 2 * |bs|
    ensures IsLowerHex(r)
    decreases |bs|
  {
    if |bs| == 0 then [] else ToHex(bs[..|bs| - 1]) + ByteHex(bs[|bs| - 1])
  }

  lemma ToHexSnoc(bs: seq<byte>, b: byte)
    ensures ToHex(bs + [b]) == ToHex(bs) + ByteHex(b)
  {
    assert (bs + [b])[..|bs|] == bs;
  }

  /** The decoder: a string of lower-case digit pairs back to bytes; None for an odd length
      or any other character. */
  function FromHex(s: string): (r: Option<seq<byte>>)
    ensures r.Some? ==> 2 * |r.value| == |s|
    decreases |s|
  {
    if |s| == 0 then Some([])
    else if |s| == 1 then None
    else
      var prefix, hi, lo := FromHex(s[..|s| - 2]), HexValue(s[|s| - 2]), HexValue(s[|s| - 1]);
      if prefix.Some? && hi.Some? && lo.Some? then Some(prefix.value + [hi.value * 16 + lo.value])
      else None
  }

  /** Appending two digits appends their byte to the decoding, if any. */
  lemma FromHexSnoc(t: string, hi: int, lo: int)
    requires 0 <= hi < 16 && 0 <= lo < 16
    ensures FromHex(t + [HexDigit(hi), HexDigit(lo)])
            == if FromHex(t).Some? then Some(FromHex(t).value + [hi * 16 + lo]) else None
  {
    var s := t + [HexDigit(hi), HexDigit(lo)];
    assert s[..|s| - 2] == t;
    assert HexValue(s[|s| - 2]) == Some(hi) by {
      HexValueOfDigit(hi);
    }
    assert HexValue(s[|s| - 1]) == Some(lo) by {
      HexValueOfDigit(lo);
    }
    FromHexLastPair(s, t, hi, lo);
  }

  /** The decoding of a string of length two or more, in terms of its last two digits. */
  lemma FromHexLastPair(s: string, t: string, hi: int, lo: int)
    requires |s| >= 2 && t == s[..|s| - 2]
    requires HexValue(s[|s| - 2]) == Some(hi) && HexValue(s[|s| - 1]) == Some(lo)
    ensures FromHex(s) == if FromHex(t).Some? then Some(FromHex(t).value + [hi * 16 + lo]) else None
  {
  }

  /** Decoding an encoding gives back the bytes. */
  lemma {:induction false} FromHexToHex(bs: seq<byte>)
    ensures FromHex(ToHex(bs)) == Some(bs)
    decreases |bs|
  {
    if |bs| > 0 {
      var prefix := bs[..|bs| - 1];
      var b := bs[|bs| - 1];
      var hi, lo := b / 16, b % 16;
      assert ToHex(bs) == ToHex(prefix) + [HexDigit(hi), HexDigit(lo)] by {
        assert prefix + [b] == bs;
        ToHexSnoc(prefix, b);
      }
      assert FromHex(ToHex(prefix)) == Some(prefix) by {
        FromHexToHex(prefix);
      }
      FromHexSnoc(ToHex(prefix), hi, lo);
      assert prefix + [hi * 16 + lo] == bs;
    }
  }

  /** The byte made of two nibbles is written as those two digits. */
  lemma ByteHexOfNibbles(hi: int, lo: int)
    requires 0 <= hi < 16 && 0 <= lo < 16
    ensures 0 <= hi * 16 + lo < 256
    ensures ByteHex(hi * 16 + lo) == [HexDigit(hi), HexDigit(lo)]
  {
    var b := hi * 16 + lo;
    assert b / 16 == hi && b % 16 == lo;
  }

  /** Encoding a successful decoding gives back the string. */
  lemma {:induction false} ToHexFromHex(s: string)
    requires FromHex(s).Some?
    ensures ToHex(FromHex(s).value) == s
    decreases |s|
  {
    if |s| > 0 {
      var t := s[..|s| - 2];
      var hi := HexValue(s[|s| - 2]).value;
      var lo := HexValue(s[|s| - 1]).value;
      assert s == t + [HexDigit(hi), HexDigit(lo)];
      assert FromHex(s).value == FromHex(t).value + [hi * 16 + lo] by {
        FromHexSnoc(t, hi, lo);
      }
      assert ToHex(FromHex(t).value) == t by {
        ToHexFromHex(t);
      }
      ByteHexOfNibbles(hi, lo);
      ToHexSnoc(FromHex(t).value, hi * 16 + lo);
    }
  }

  /** Distinct byte strings have distinct encodings. */
  lemma ToHexInjective(a: seq<byte>, b: seq<byte>)
    requires ToHex(a) == ToHex(b)
    ensures a == b
  {
    FromHexToHex(a);
    FromHexToHex(b);
  }

  // ---------------------------------------------------------------------------------------
  // Number-based renderings
  // ---------------------------------------------------------------------------------------

  function Pow16(k: nat): (r: nat)
    ensures r >= 1
  {
    if k == 0 then 1 else 16 * Pow16(k - 1)
  }

  /** The big-endian unsigned value of a byte string (BigInteger(1, bytes)). */
  function BigEndian(bs: seq<byte>): nat
    decreases |bs|
  {
    if |bs| == 0 then 0 else BigEndian(bs[..|bs| - 1]) * 256 + bs[|bs| - 1]
  }

  lemma {:induction false} BigEndianBound(bs: seq<byte>)
    ensures BigEndian(bs) < Pow16(2 * |bs|)
    decreases |bs|
  {
    if |bs| > 0 {
      BigEndianBound(bs[..|bs| - 1]);
      assert Pow16(2 * |bs|) == 256 * Pow16(2 * |bs| - 2);
    }
  }

  /** The shortest base-16 numeral of `n`, "0" for zero (Integer.toHexString,
      BigInteger.toString(16), the `std::hex` stream manipulator). */
  function MinimalHex(n: nat): (r: string)
    ensures 1 <= |r|
    ensures IsLowerHex(r)
    decreases n
  {
    if n < 16 then [HexDigit(n)] else MinimalHex(n / 16) + [HexDigit(n % 16)]
  }

  /** `n` modulo 16^k as exactly `k` digits. */
  function FixedHex(n: nat, k: nat): (r: string)
    ensures |r| == k
    decreases k
  {
    if k == 0 then [] else FixedHex(n / 16, k - 1) + [HexDigit(n % 16)]
  }

  /** `s` left-padded with `c` to `width` characters; unchanged when already that long
      (Kotlin's padStart, `std::setw` with `std::setfill`). */
  function PadStart(s: string, width: nat, c: char): (r: string)
    ensures |r| == if |s| >= width then |s| else width
  {
    if |s| >= width then s else seq(width - |s|, _ => c) + s
  }

  lemma {:induction false} MinimalHexLength(n: nat, k: nat)
    requires 1 <= k && n < Pow16(k)
    ensures |MinimalHex(n)| <= k
    decreases k
  {
    if n >= 16 {
      MinimalHexLength(n / 16, k - 1);
    }
  }

  lemma {:induction false} FixedHexOfZero(k: nat)
    ensures FixedHex(0, k) == seq(k, _ => '0')
    decreases k
  {
    if k > 0 {
      FixedHexOfZero(k - 1);
    }
  }

  /** Left-padding the minimal numeral with zeros to `k` digits gives the `k`-digit numeral,
      whenever the value fits in `k` digits. */
  lemma {:induction false} PadMinimalIsFixed(n: nat, k: nat)
    requires 1 <= k && n < Pow16(k)
    ensures PadStart(MinimalHex(n), k, '0') == FixedHex(n, k)
    decreases k
  {
    if n < 16 {
      FixedHexOfZero(k - 1);
      assert n / 16 == 0;
    } else {
      MinimalHexLength(n / 16, k - 1);
      PadMinimalIsFixed(n / 16, k - 1);
      var m := MinimalHex(n / 16);
      if |m| < k - 1 {
        assert seq(k - (|m| + 1), _ => '0') == seq(k - 1 - |m|, _ => '0');
      }
    }
  }

  lemma ByteSplit(v: nat, b: byte)
    ensures v * 256 + b == (v * 16 + b / 16) * 16 + b % 16
  {
    assert b == b / 16 * 16 + b % 16;
    assert (v * 16 + b / 16) * 16 == v * 256 + b / 16 * 16;
  }

  lemma DivMod16(q: nat, r: nat)
    requires r < 16
    ensures (q * 16 + r) / 16 == q && (q * 16 + r) % 16 == r
  {
  }

  /** The byte-wise encoding is the 2n-digit numeral of the big-endian value. */
  lemma {:induction false} ToHexIsFixedHex(bs: seq<byte>)
    ensures ToHex(bs) == FixedHex(BigEndian(bs), 2 * |bs|)
    decreases |bs|
  {
    if |bs| > 0 {
      var p := bs[..|bs| - 1];
      var b := bs[|bs| - 1];
      var v := BigEndian(p);
      var hi, lo := b / 16, b % 16;
      var n := v * 256 + b;
      assert n == (v * 16 + hi) * 16 + lo by {
        ByteSplit(v, b);
      }
      assert FixedHex(n, 2 * |bs|) == FixedHex(v * 16 + hi, 2 * |bs| - 1) + [HexDigit(lo)] by {
        DivMod16(v * 16 + hi, lo);
      }
      assert FixedHex(v * 16 + hi, 2 * |bs| - 1) == FixedHex(v, 2 * |p|) + [HexDigit(hi)] by {
        DivMod16(v, hi);
      }
      assert ToHex(p) == FixedHex(v, 2 * |p|) by {
        ToHexIsFixedHex(p);
      }
    }
  }

  /** A byte's minimal numeral padded to two digits is its two-digit encoding. */
  lemma PaddedByteIsByteHex(b: byte)
    ensures PadStart(MinimalHex(b), 2, '0') == ByteHex(b)
  {
    PadMinimalIsFixed(b, 2);
    assert FixedHex(b, 2) == FixedHex(b / 16, 1) + [HexDigit(b % 16)];
    assert FixedHex(b / 16, 1) == FixedHex(b / 256, 0) + [HexDigit((b / 16) % 16)];
  }

  /** The full-width numeral of the big-endian value, zero padded to twice the length, is the
      byte-wise encoding. */
  lemma PaddedValueIsToHex(bs: seq<byte>)
    requires |bs| >= 1
    ensures PadStart(MinimalHex(BigEndian(bs)), 2 * |bs|, '0') == ToHex(bs)
  {
    BigEndianBound(bs);
    PadMinimalIsFixed(BigEndian(bs), 2 * |bs|);
    ToHexIsFixedHex(bs);
  }
}
