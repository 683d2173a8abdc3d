/**
 * Code-point helpers of src/utils.rs: stripping U+FE0F and the conversions
 * between strings and code-point sequences.
 *
 * Strings are Dafny strings, whose characters are Unicode scalar values,
 * as Rust `char`s are.
 */
module Utils {

  /** A code point as the source stores it: an unsigned 32-bit integer. */
  type CodePoint = x: int | 0 <= x < 0x1_0000_0000

  /** VARIATION SELECTOR-16, the emoji presentation selector. */
  const FE0F: CodePoint := 0xFE0F

  /** The code points of `cps` other than U+FE0F, in their original order. */
  function FilterFe0f(cps: seq<CodePoint>): (r: seq<CodePoint>)
    ensures FE0F !in r
    ensures |r| <= |cps|
    ensures forall x :: x in r ==> x in cps
    decreases |cps|
  {
    if |cps| == 0 then []
    else (if cps[0] == FE0F then [] else [cps[0]]) + FilterFe0f(cps[1..])
  }

  /** Filtering distributes over concatenation. */
  lemma {:induction false} FilterFe0fAppend(a: seq<CodePoint>, b: seq<CodePoint>)
    ensures FilterFe0f(a + b) == FilterFe0f(a) + FilterFe0f(b)
    decreases |a|
  {
    if |a| == 0 {
      assert a + b == b;
    } else {
      var head := if a[0] == FE0F then [] else [a[0]];
      assert (a + b)[0] == a[0];
      assert (a + b)[1..] == a[1..] + b;
      assert FilterFe0f(a + b) == head + FilterFe0f(a[1..] + b);
      FilterFe0fAppend(a[1..], b);
      assert FilterFe0f(a) == head + FilterFe0f(a[1..]);
    }
  }

  /** Every code point except U+FE0F is kept as often as it occurs; U+FE0F never. */
  lemma {:induction false} FilterFe0fCounts(cps: seq<CodePoint>)
    ensures multiset(FilterFe0f(cps)) == multiset(cps)[FE0F := 0]
    decreases |cps|
  {
    if |cps| > 0 {
      FilterFe0fCounts(cps[1..]);
      assert cps == [cps[0]] + cps[1..];
    }
  }

  /** The input comes back unchanged exactly when it holds no U+FE0F. */
  lemma {:induction false} FilterFe0fUnchanged(cps: seq<CodePoint>)
    ensures FilterFe0f(cps) == cps <==> FE0F !in cps
    decreases |cps|
  {
    if |cps| > 0 {
      FilterFe0fUnchanged(cps[1..]);
      assert cps == [cps[0]] + cps[1..];
      if cps[0] == FE0F {
        assert |FilterFe0f(cps)| < |cps| by {
          assert FilterFe0f(cps) == FilterFe0f(cps[1..]);
        }
      }
    }
  }

  /** Filtering twice is filtering once. */
  lemma FilterFe0fIdempotent(cps: seq<CodePoint>)
    ensures FilterFe0f(FilterFe0f(cps)) == FilterFe0f(cps)
  {
    FilterFe0fUnchanged(FilterFe0f(cps));
  }

  /** The code points Rust's `char` can hold. */
  predicate IsScalarValue(cp: int)
  {
    0 <= cp < 0xD800 || 0xE000 <= cp < 0x11_0000
  }

  /** One code point per character, in order (`str2cps`). */
  function Str2Cps(s: string): (r: seq<CodePoint>)
    ensures |r| == |s|
    decreases |s|
  {
    if |s| == 0 then [] else [s[0] as int] + Str2Cps(s[1..])
  }

  /** Each code point is the value of the character at the same position, and a scalar value. */
  lemma {:induction false} Str2CpsValues(s: string)
    ensures forall i :: 0 <= i < |s| ==> Str2Cps(s)[i] == s[i] as int && IsScalarValue(Str2Cps(s)[i])
    decreases |s|
  {
    if |s| > 0 {
      Str2CpsValues(s[1..]);
      assert forall i :: 1 <= i < |s| ==> Str2Cps(s)[i] == Str2Cps(s[1..])[i - 1];
    }
  }

  lemma {:induction false} Str2CpsAppend(a: string, b: string)
    ensures Str2Cps(a + b) == Str2Cps(a) + Str2Cps(b)
    decreases |a|
  {
    if |a| == 0 {
      assert a + b == b;
    } else {
      assert (a + b)[1..] == a[1..] + b;
      Str2CpsAppend(a[1..], b);
    }
  }

  /** The code points of a prefix are the prefix of the code points. */
  lemma Str2CpsPrefix(s: string, n: nat)
    requires n <= |s|
    ensures Str2Cps(s[..n]) == Str2Cps(s)[..n]
  {
    assert s == s[..n] + s[n..];
    Str2CpsAppend(s[..n], s[n..]);
  }

  /**
   * `cps2str` as the authors evidently meant it: each code point becomes the
   * character with that value; a value that is no character is dropped.
   */
  function Cps2Str(cps: seq<CodePoint>): (s: string)
    ensures |s| <= |cps|
    decreases |cps|
  {
    if |cps| == 0 then []
    else (if IsScalarValue(cps[0]) then [cps[0] as char] else []) + Cps2Str(cps[1..])
  }

  /** Every sequence of characters survives the trip through `Cps2Str`. */
  lemma {:induction false} Cps2StrRoundTrip(cps: seq<CodePoint>)
    requires forall i :: 0 <= i < |cps| ==> IsScalarValue(cps[i])
    ensures Str2Cps(Cps2Str(cps)) == cps
    decreases |cps|
  {
    if |cps| > 0 {
      Cps2StrRoundTrip(cps[1..]);
      Str2CpsAppend([cps[0] as char], Cps2Str(cps[1..]));
    }
  }

  /** And every string survives the trip through `Str2Cps`. */
  lemma {:induction false} Str2CpsRoundTrip(s: string)
    ensures Cps2Str(Str2Cps(s)) == s
    decreases |s|
  {
    if |s| > 0 {
      Str2CpsRoundTrip(s[1..]);
      assert Str2Cps(s)[1..] == Str2Cps(s[1..]);
    }
  }

  lemma {:induction false} Cps2StrAppend(a: seq<CodePoint>, b: seq<CodePoint>)
    ensures Cps2Str(a + b) == Cps2Str(a) + Cps2Str(b)
    decreases |a|
  {
    if |a| == 0 {
      assert a + b == b;
    } else {
      var head: string := if IsScalarValue(a[0]) then [a[0] as char] else [];
      assert (a + b)[0] == a[0];
      assert (a + b)[1..] == a[1..] + b;
      assert Cps2Str(a + b) == head + Cps2Str(a[1..] + b);
      Cps2StrAppend(a[1..], b);
      assert Cps2Str(a) == head + Cps2Str(a[1..]);
    }
  }

  // ---- cps2str as written: a cast to u16, then String::from_utf16_lossy ----

  type CodeUnit = x: int | 0 <= x < 0x1_0000

  predicate IsHighSurrogate(u: CodeUnit) { 0xD800 <= u < 0xDC00 }
  predicate IsLowSurrogate(u: CodeUnit) { 0xDC00 <= u < 0xE000 }

  /** The supplementary-plane character a surrogate pair encodes. */
  function CombineSurrogates(hi: CodeUnit, lo: CodeUnit): (c: char)
    requires IsHighSurrogate(hi) && IsLowSurrogate(lo)
    ensures 0x1_0000 <= c as int < 0x11_0000
  {
    assert (hi - 0xD800) * 0x400 <= 0x3FF * 0x400;
    (0x1_0000 + (hi - 0xD800) * 0x400 + (lo - 0xDC00)) as char
  }

  /**
   * Rust's `String::from_utf16_lossy`: a high surrogate followed by a low one
   * decodes to one character, any other surrogate to U+FFFD, and every other
   * unit to itself.
   */
  function DecodeUtf16Lossy(units: seq<CodeUnit>): (s: string)
    ensures |s| <= |units|
    decreases |units|
  {
    if |units| == 0 then []
    else if IsHighSurrogate(units[0]) && |units| > 1 && IsLowSurrogate(units[1]) then
      [CombineSurrogates(units[0], units[1])] + DecodeUtf16Lossy(units[2..])
    else if 0xD800 <= units[0] < 0xE000 then
      ['\U{FFFD}'] + DecodeUtf16Lossy(units[1..])
    else
      [units[0] as char] + DecodeUtf16Lossy(units[1..])
  }

  /** `cps2str` as written: every code point is cut to its low 16 bits first. */
  function Cps2StrTruncating(cps: seq<CodePoint>): (s: string)
    ensures |s| <= |cps|
  {
    DecodeUtf16Lossy(seq(|cps|, i requires 0 <= i < |cps| => cps[i] % 0x1_0000))
  }

  /** Below the surrogate block the truncating version agrees with `Cps2Str`, so those round-trip. */
  lemma {:induction false} Cps2StrTruncatingBelowSurrogates(cps: seq<CodePoint>)
    requires forall i :: 0 <= i < |cps| ==> cps[i] < 0xD800
    ensures Cps2StrTruncating(cps) == Cps2Str(cps)
    ensures Str2Cps(Cps2StrTruncating(cps)) == cps
    decreases |cps|
  {
    if |cps| > 0 {
      Cps2StrTruncatingBelowSurrogates(cps[1..]);
      var units := seq(|cps|, i requires 0 <= i < |cps| => cps[i] % 0x1_0000);
      assert units[1..] == seq(|cps| - 1, i requires 0 <= i < |cps| - 1 => cps[1..][i] % 0x1_0000);
      assert units[0] == cps[0];
    }
    Cps2StrRoundTrip(cps);
  }

  /** A supplementary-plane code point (U+1F525, FIRE) does not survive: it comes back as U+F525. */
  lemma Cps2StrTruncatingLosesAstral()
    ensures Str2Cps(Cps2StrTruncating([0x1F525])) == [0xF525]
    ensures Str2Cps(Cps2Str([0x1F525])) == [0x1F525]
  {
    var fire: seq<CodePoint> := [0x1F525];
    var units := seq(1, i requires 0 <= i < 1 => fire[i] % 0x1_0000);
    assert units == [0xF525];
    assert DecodeUtf16Lossy(units) == [0xF525 as char] + DecodeUtf16Lossy([]);
    Cps2StrRoundTrip([0x1F525]);
  }

  /** `utils::is_ascii`, which this model takes as "below U+0080". */
  predicate IsAscii(cp: CodePoint)
  {
    cp < 0x80
  }
}
