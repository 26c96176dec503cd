/** Text primitives the ledger engine relies on, as Rust's standard library
    defines them: `str::starts_with`, `str::split` on one character, decimal
    integer parsing (`str::parse::<i32>` / `::<u8>`), zero-padded decimal
    formatting (`{:04}`, `{:02}`), the UTF-8 byte width of a string, byte-offset
    slicing (`&s[k..]`), and the lexicographic order of `String`.

    A string is a sequence of Unicode scalar values (`char`). */
module Text {
  import opened Wrappers

  // ---------------------------------------------------------------------------
  // Prefixes and substrings
  // ---------------------------------------------------------------------------

  predicate StartsWith(s: string, prefix: string) {
    |prefix| <= |s| && s[..|prefix|] == prefix
  }

  /** `s` contains `sub` somewhere (Rust's `str::contains` on a string pattern). */
  ghost predicate Contains(s: string, sub: string) {
    exists i :: 0 <= i <= |s| && StartsWith(s[i..], sub)
  }

  lemma StartsWithEmpty(s: string)
    ensures StartsWith(s, "")
  {
  }

  /** What follows a prefix `a` of a prefix `a + b` starts with `b`. */
  lemma StartsWithTail(s: string, a: string, b: string)
    requires StartsWith(s, a + b)
    ensures StartsWith(s[|a|..], b)
  {
    assert s[|a|..][..|b|] == s[..|a + b|][|a|..];
    assert (a + b)[|a|..] == b;
  }

  /** A string starting with `b + c` starts with `b`. */
  lemma StartsWithShorter(s: string, b: string, c: string)
    requires StartsWith(s, b + c)
    ensures StartsWith(s, b)
  {
    assert s[..|b|] == s[..|b + c|][..|b|];
    assert (b + c)[..|b|] == b;
  }

  // ---------------------------------------------------------------------------
  // Splitting on one character (Rust's `str::split(c)`)
  // ---------------------------------------------------------------------------

  /** The pieces of `s` between occurrences of `c`: `"a-b-"` gives
      `["a", "b", ""]` and `""` gives `[""]`, as Rust's `split` does. */
  function Split(s: string, c: char): (parts: seq<string>)
    ensures |parts| >= 1
  {
    if |s| == 0 then [""]
    else
      var rest := Split(s[1..], c);
      if s[0] == c then [""] + rest else [[s[0]] + rest[0]] + rest[1..]
  }

  /** Splitting a string joined by the separator splits both halves. */
  lemma {:induction false} SplitAppend(a: string, b: string, c: char)
    ensures Split(a + [c] + b, c) == Split(a, c) + Split(b, c)
  {
    var s := a + [c] + b;
    if |a| == 0 {
      assert s == [c] + b;
      assert s[1..] == b;
    } else {
      assert s[1..] == a[1..] + [c] + b;
      SplitAppend(a[1..], b, c);
    }
  }

  /** Three separator-free pieces joined by the separator split back apart. */
  lemma SplitThree(a: string, b: string, d: string, c: char)
    requires c !in a && c !in b && c !in d
    ensures Split(a + [c] + b + [c] + d, c) == [a, b, d]
  {
    SplitAppend(a + [c] + b, d, c);
    SplitAppend(a, b, c);
    SplitWithoutSeparator(a, c);
    SplitWithoutSeparator(b, c);
    SplitWithoutSeparator(d, c);
  }

  /** A string without the separator is a single piece. */
  lemma {:induction false} SplitWithoutSeparator(s: string, c: char)
    requires c !in s
    ensures Split(s, c) == [s]
  {
    if |s| > 0 {
      assert c !in s[1..];
      SplitWithoutSeparator(s[1..], c);
      assert s == [s[0]] + s[1..];
    }
  }

  /** No piece contains the separator, and a character absent from `s` is
      absent from every piece. */
  lemma {:induction false} SplitPieces(s: string, c: char, x: char)
    ensures forall k :: 0 <= k < |Split(s, c)| ==> c !in Split(s, c)[k]
    ensures x !in s ==> forall k :: 0 <= k < |Split(s, c)| ==> x !in Split(s, c)[k]
  {
    if |s| > 0 {
      SplitPieces(s[1..], c, x);
      assert x !in s ==> x !in s[1..];
      var rest := Split(s[1..], c);
      if s[0] != c {
        assert forall k :: 1 <= k < |Split(s, c)| ==> Split(s, c)[k] == rest[k];
      }
    }
  }

  // ---------------------------------------------------------------------------
  // Decimal digits
  // ---------------------------------------------------------------------------

  predicate IsDigit(c: char) {
    '0' <= c <= '9'
  }

  predicate AllDigits(s: string) {
    forall k :: 0 <= k < |s| ==> IsDigit(s[k])
  }

  function DigitValue(c: char): nat
    requires IsDigit(c)
  {
    (c as int) - ('0' as int)
  }

  function DigitChar(n: nat): (c: char)
    requires n < 10
    ensures IsDigit(c) && DigitValue(c) == n
  {
    (('0' as int) + n) as char
  }

  /** The number a string of decimal digits denotes (leading zeros allowed). */
  function DigitsValue(s: string): nat
    requires AllDigits(s)
  {
    if |s| == 0 then 0 else 10 * DigitsValue(s[..|s| - 1]) + DigitValue(s[|s| - 1])
  }

  /** The shortest decimal text of `n`, as Rust's `{}` prints an unsigned integer. */
  function NatToDigits(n: nat): (s: string)
    ensures |s| >= 1 && AllDigits(s)
    ensures n < 10 ==> |s| == 1
    ensures 10 <= n < 100 ==> |s| == 2
    ensures 100 <= n < 1000 ==> |s| == 3
    ensures 1000 <= n < 10000 ==> |s| == 4
  {
    if n < 10 then [DigitChar(n)] else NatToDigits(n / 10) + [DigitChar(n % 10)]
  }

  lemma {:induction false} NatToDigitsValue(n: nat)
    ensures DigitsValue(NatToDigits(n)) == n
  {
    if n >= 10 {
      var s := NatToDigits(n);
      assert s[..|s| - 1] == NatToDigits(n / 10);
      NatToDigitsValue(n / 10);
    }
  }

  function Zeros(k: nat): (s: string)
    ensures |s| == k && AllDigits(s)
    ensures forall i :: 0 <= i < k ==> s[i] == '0'
  {
    seq(k, _ => '0')
  }

  /** Leading zeros do not change the value of a digit string. */
  lemma {:induction false} LeadingZerosValue(k: nat, s: string)
    requires AllDigits(s)
    ensures AllDigits(Zeros(k) + s)
    ensures DigitsValue(Zeros(k) + s) == DigitsValue(s)
    decreases |s|
  {
    var z := Zeros(k) + s;
    assert AllDigits(z) by {
      forall i | 0 <= i < |z| ensures IsDigit(z[i]) {
        if i < k { assert z[i] == Zeros(k)[i]; } else { assert z[i] == s[i - k]; }
      }
    }
    if |s| == 0 {
      assert z == Zeros(k);
      ZerosValue(k);
    } else {
      assert z[..|z| - 1] == Zeros(k) + s[..|s| - 1];
      LeadingZerosValue(k, s[..|s| - 1]);
    }
  }

  lemma {:induction false} ZerosValue(k: nat)
    ensures DigitsValue(Zeros(k)) == 0
  {
    if k > 0 {
      assert Zeros(k)[..k - 1] == Zeros(k - 1);
      ZerosValue(k - 1);
    }
  }

  /** Rust's `{:0w}` on a non-negative integer: decimal text, left-padded with
      zeros to at least `width` characters. */
  function ZeroPad(n: nat, width: nat): (s: string)
    ensures AllDigits(s) && |s| >= 1 && |s| >= width
    ensures n < 10 && width <= 1 ==> |s| == 1
  {
    var d := NatToDigits(n);
    if |d| >= width then d else Zeros(width - |d|) + d
  }

  lemma ZeroPadValue(n: nat, width: nat)
    ensures DigitsValue(ZeroPad(n, width)) == n
  {
    var d := NatToDigits(n);
    NatToDigitsValue(n);
    if |d| < width {
      LeadingZerosValue(width - |d|, d);
    }
  }

  /** The exact length of a zero-padded number that fits in the width. */
  lemma ZeroPadLength(n: nat, width: nat)
    requires 1 <= width <= 4
    requires n < if width == 1 then 10 else if width == 2 then 100 else if width == 3 then 1000 else 10000
    ensures |ZeroPad(n, width)| == width
  {
  }

  /** Rust's `{:0w}` on a signed integer: a minus sign, then the digits padded
      so that sign and digits together take at least `width` characters. */
  function PadInt(i: int, width: nat): (s: string)
    ensures |s| >= 1
    ensures i >= 0 ==> s == ZeroPad(i, width)
    ensures i < 0 ==> s[0] == '-'
  {
    if i >= 0 then ZeroPad(i, width)
    else "-" + ZeroPad(-i, if width == 0 then 0 else width - 1)
  }

  // ---------------------------------------------------------------------------
  // Integer parsing (Rust's `str::parse` for a primitive integer type)
  // ---------------------------------------------------------------------------

  /** Rust's `FromStr` for an integer type with range `lo..=hi`: an optional
      `+` (or `-` when the type is signed) followed by at least one ASCII digit
      and nothing else, whose value lies in the range. */
  function ParseInteger(s: string, signed: bool, lo: int, hi: int): (r: Option<int>)
    ensures r.Some? ==> lo <= r.value <= hi
    ensures r.Some? && '-' !in s ==> r.value >= 0
  {
    if |s| == 0 then None
    else if |s| == 1 && (s[0] == '+' || s[0] == '-') then None
    else
      var negative := signed && s[0] == '-';
      var digits := if s[0] == '+' || negative then s[1..] else s;
      if !AllDigits(digits) then None
      else
        var v: int := if negative then 0 - DigitsValue(digits) else DigitsValue(digits);
        if lo <= v <= hi then Some(v) else None
  }

  const I32Min: int := -0x8000_0000
  const I32Max: int := 0x7FFF_FFFF
  const U8Max: int := 0xFF

  /** `str::parse::<i32>`. */
  function ParseI32(s: string): Option<int> {
    ParseInteger(s, true, I32Min, I32Max)
  }

  /** `str::parse::<u8>`: a `-` sign is not accepted for an unsigned type. */
  function ParseU8(s: string): (r: Option<int>)
    ensures r.Some? ==> 0 <= r.value <= U8Max
  {
    ParseInteger(s, false, 0, U8Max)
  }

  /** Every digit string whose value fits the range parses back to that value. */
  lemma ParseIntegerDigits(s: string, signed: bool, lo: int, hi: int)
    requires |s| >= 1 && AllDigits(s)
    requires lo <= DigitsValue(s) <= hi
    ensures ParseInteger(s, signed, lo, hi) == Some(DigitsValue(s))
  {
    assert IsDigit(s[0]);
  }

  // ---------------------------------------------------------------------------
  // UTF-8 widths and byte-offset slicing
  // ---------------------------------------------------------------------------

  /** How many bytes UTF-8 uses for a scalar value. */
  function Utf8Width(c: char): (w: nat)
    ensures 1 <= w <= 4
    ensures w == 1 <==> (c as int) < 0x80
  {
    var n := c as int;
    if n < 0x80 then 1 else if n < 0x800 then 2 else if n < 0x1_0000 then 3 else 4
  }

  /** The byte length of `s` in UTF-8 (Rust's `str::len`). */
  function Utf8Len(s: string): nat {
    if |s| == 0 then 0 else Utf8Width(s[0]) + Utf8Len(s[1..])
  }

  predicate IsAscii(s: string) {
    forall k :: 0 <= k < |s| ==> (s[k] as int) < 0x80
  }

  lemma {:induction false} Utf8LenAppend(a: string, b: string)
    ensures Utf8Len(a + b) == Utf8Len(a) + Utf8Len(b)
    decreases |a|
  {
    if |a| > 0 {
      assert (a + b)[1..] == a[1..] + b;
      Utf8LenAppend(a[1..], b);
    } else {
      assert a + b == b;
    }
  }

  /** A string never has fewer bytes than characters, and exactly as many
      precisely when it is ASCII. */
  lemma {:induction false} Utf8LenBounds(s: string)
    ensures |s| <= Utf8Len(s) <= 4 * |s|
    ensures Utf8Len(s) == |s| <==> IsAscii(s)
  {
    if |s| > 0 {
      Utf8LenBounds(s[1..]);
      if IsAscii(s) {
        assert IsAscii(s[1..]) by { forall k | 0 <= k < |s| - 1 ensures (s[1..][k] as int) < 0x80 { assert s[1..][k] == s[k + 1]; } }
      }
      if Utf8Len(s) == |s| {
        assert Utf8Width(s[0]) == 1;
        forall k | 0 <= k < |s| ensures (s[k] as int) < 0x80 {
          if k > 0 { assert s[k] == s[1..][k - 1]; }
        }
      }
    }
  }

  /** Rust's `&s[k..]` with `k` a byte offset: the characters from byte `k`
      on, or `None` where Rust panics because `k` is past the end or falls
      inside the encoding of a character. */
  function ByteSliceFrom(s: string, k: nat): (r: Option<string>)
    decreases |s|
  {
    if k == 0 then Some(s)
    else if |s| == 0 then None
    else if k < Utf8Width(s[0]) then None
    else ByteSliceFrom(s[1..], k - Utf8Width(s[0]))
  }

  /** Slicing at the byte offset of a character boundary yields the
      characters from that boundary on. */
  lemma {:induction false} ByteSliceAtBoundary(s: string, j: nat)
    requires j <= |s|
    ensures ByteSliceFrom(s, Utf8Len(s[..j])) == Some(s[j..])
    decreases j
  {
    if j > 0 {
      assert s[..j][1..] == s[1..][..j - 1];
      ByteSliceAtBoundary(s[1..], j - 1);
      assert s[1..][j - 1..] == s[j..];
      var w := Utf8Width(s[0]);
      if Utf8Len(s[1..][..j - 1]) == 0 {
        assert ByteSliceFrom(s, w) == ByteSliceFrom(s[1..], 0);
      }
    }
  }

  // ---------------------------------------------------------------------------
  // Lexicographic order of strings (Rust's `Ord for String`)
  // ---------------------------------------------------------------------------

  /** Strict lexicographic order by scalar value, a proper prefix first. This
      agrees with Rust's byte-wise order on the UTF-8 encodings, since UTF-8
      preserves the order of scalar values. */
  predicate StrLt(a: string, b: string)
    decreases |a|
  {
    if |b| == 0 then false
    else if |a| == 0 then true
    else if a[0] != b[0] then a[0] < b[0]
    else StrLt(a[1..], b[1..])
  }

  lemma {:induction false} StrLtIrreflexive(a: string)
    ensures !StrLt(a, a)
    decreases |a|
  {
    if |a| > 0 { StrLtIrreflexive(a[1..]); }
  }

  lemma {:induction false} StrLtTransitive(a: string, b: string, c: string)
    requires StrLt(a, b) && StrLt(b, c)
    ensures StrLt(a, c)
    decreases |a|
  {
    if |a| > 0 && a[0] == b[0] && b[0] == c[0] {
      StrLtTransitive(a[1..], b[1..], c[1..]);
    }
  }

  lemma {:induction false} StrLtTotal(a: string, b: string)
    ensures a == b || StrLt(a, b) || StrLt(b, a)
    decreases |a|
  {
    if |a| > 0 && |b| > 0 && a[0] == b[0] {
      StrLtTotal(a[1..], b[1..]);
      if a[1..] == b[1..] {
        assert a == [a[0]] + a[1..] && b == [b[0]] + b[1..];
      }
    }
  }

  lemma {:induction false} StrLtAsymmetric(a: string, b: string)
    requires StrLt(a, b)
    ensures !StrLt(b, a)
    decreases |a|
  {
    if |a| > 0 && a[0] == b[0] {
      StrLtAsymmetric(a[1..], b[1..]);
    }
  }
}
