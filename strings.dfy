/** Text operations of Rust's `str` and `String` that the diary relies on:
    per-character replacement, splitting, prefix stripping, `chars().take(n)`
    truncation, UTF-8 byte lengths, decimal numerals (`to_string`, `parse`,
    `{:0w}` padding) and the byte-wise order SQLite uses to compare TEXT. */
module Strings {
  import opened Wrappers

  const U32_MAX: nat := 0xFFFF_FFFF
  const I32_MAX: int := 0x7FFF_FFFF
  const I32_MIN: int := -0x8000_0000

  // ---------------------------------------------------------------------
  // Decimal digits and numerals
  // ---------------------------------------------------------------------

  predicate IsDigit(c: char) { '0' <= c <= '9' }

  predicate AllDigits(s: string) { forall i :: 0 <= i < |s| ==> IsDigit(s[i]) }

  function DigitValue(c: char): (v: nat)
    requires IsDigit(c)
    ensures v < 10
  {
    c as int - '0' as int
  }

  function DigitChar(v: nat): (c: char)
    requires v < 10
    ensures IsDigit(c) && DigitValue(c) == v
  {
    ('0' as int + v) as char
  }

  /** The value of a string of decimal digits, most significant first. */
  function Value(s: string): nat
    requires AllDigits(s)
  {
    if |s| == 0 then 0 else Value(s[..|s| - 1]) * 10 + DigitValue(s[|s| - 1])
  }

  /** `n.to_string()`: the shortest decimal numeral of `n`. */
  function Decimal(n: nat): (s: string)
    ensures 1 <= |s| && AllDigits(s)
    ensures Value(s) == n
    ensures |s| > 1 ==> s[0] != '0'
  {
    if n < 10 then [DigitChar(n)]
    else
      var p := Decimal(n / 10);
      assert (p + [DigitChar(n % 10)])[..|p|] == p;
      p + [DigitChar(n % 10)]
  }

  function Repeat(c: char, k: nat): (s: string)
    ensures |s| == k && forall i :: 0 <= i < k ==> s[i] == c
  {
    seq(k, _ => c)
  }

  /** `format!("{:0w$}", n)` for a non-negative `n`: zero-padded on the left
      to at least `w` characters, never cut. */
  function ZeroPad(n: nat, w: nat): (s: string)
    ensures AllDigits(s) && Value(s) == n
    ensures |s| == if |Decimal(n)| < w then w else |Decimal(n)|
  {
    var d := Decimal(n);
    var z := Repeat('0', if |d| < w then w - |d| else 0);
    LeadingZeros(z, d);
    z + d
  }

  /** `format!("{:0w$}", v)` for a signed `v`: the sign counts towards the width. */
  function SignedZeroPad(v: int, w: nat): string
  {
    if v < 0 then "-" + ZeroPad(-v, if w == 0 then 0 else w - 1) else ZeroPad(v, w)
  }

  /** `format!("{}", v)` for a signed integer. */
  function SignedDecimal(v: int): string
  {
    if v < 0 then "-" + Decimal(-v) else Decimal(v)
  }

  lemma {:induction false} LeadingZeros(z: string, d: string)
    requires forall i :: 0 <= i < |z| ==> z[i] == '0'
    requires AllDigits(d)
    ensures AllDigits(z + d) && Value(z + d) == Value(d)
    decreases |z| + |d|
  {
    if |d| == 0 {
      assert z + d == z;
      if |z| > 0 {
        LeadingZeros(z[..|z| - 1], d);
        assert z[..|z| - 1] + d == z[..|z| - 1];
      }
    } else {
      var d' := d[..|d| - 1];
      LeadingZeros(z, d');
      assert (z + d)[..|z + d| - 1] == z + d';
      assert d[..|d| - 1] == d';
    }
  }

  /** Rust's `u32::from_str` (what `.parse::<u32>()` runs): an optional `+`,
      then at least one decimal digit, the value at most `u32::MAX`. */
  function ParseU32(s: string): (r: Option<nat>)
    ensures r.Some? ==> r.value <= U32_MAX
  {
    var digits := if |s| > 0 && s[0] == '+' then s[1..] else s;
    if |digits| == 0 || !AllDigits(digits) || Value(digits) > U32_MAX then None
    else Some(Value(digits))
  }

  /** Rust's `i32::from_str`: an optional `+` or `-`, then at least one
      decimal digit, the value within `i32::MIN ..= i32::MAX`. */
  function ParseI32(s: string): (r: Option<int>)
    ensures r.Some? ==> I32_MIN <= r.value <= I32_MAX
    ensures r.Some? && r.value < 0 ==> '-' in s
  {
    var negative := |s| > 0 && s[0] == '-';
    var digits := if |s| > 0 && (s[0] == '+' || s[0] == '-') then s[1..] else s;
    if |digits| == 0 || !AllDigits(digits) then None
    else
      var v := if negative then -(Value(digits) as int) else Value(digits);
      if v < I32_MIN || v > I32_MAX then None else Some(v)
  }

  lemma {:induction false} ValueInjective(s: string, t: string)
    requires AllDigits(s) && AllDigits(t) && |s| == |t|
    requires Value(s) == Value(t)
    ensures s == t
  {
    if |s| > 0 {
      var k := |s| - 1;
      ValueInjective(s[..k], t[..k]);
      assert s == s[..k] + [s[k]] && t == t[..k] + [t[k]];
    }
  }

  function Pow10(k: nat): (p: nat)
    ensures p >= 1
  {
    if k == 0 then 1 else 10 * Pow10(k - 1)
  }

  lemma {:induction false} ValueBound(s: string)
    requires AllDigits(s)
    ensures Value(s) < Pow10(|s|)
  {
    if |s| > 0 {
      ValueBound(s[..|s| - 1]);
    }
  }

  lemma {:induction false} DecimalLength(n: nat, k: nat)
    requires 1 <= k && n < Pow10(k)
    ensures |Decimal(n)| <= k
  {
    if n >= 10 {
      assert Pow10(1) == 10;
      DecimalLength(n / 10, k - 1);
    }
  }

  /** A digit string is the zero-padded numeral of its own value. */
  lemma ZeroPadExact(s: string)
    requires AllDigits(s) && |s| >= 1
    ensures ZeroPad(Value(s), |s|) == s
  {
    ValueBound(s);
    DecimalLength(Value(s), |s|);
    ValueInjective(ZeroPad(Value(s), |s|), s);
  }

  lemma ZeroPadWidth(n: nat, w: nat)
    requires 1 <= w && n < Pow10(w)
    ensures |ZeroPad(n, w)| == w
  {
    DecimalLength(n, w);
  }

  lemma {:induction false} DecimalRoundTrip(n: nat)
    requires n <= U32_MAX
    ensures ParseU32(Decimal(n)) == Some(n)
  {
    var d := Decimal(n);
    assert d[0] != '+';
  }

  /** Two-digit padding spelled out digit by digit. */
  lemma ZeroPadTwoDigits(n: nat)
    requires n < 100
    ensures ZeroPad(n, 2) == [DigitChar(n / 10), DigitChar(n % 10)]
  {
    if n >= 10 {
      assert Decimal(n) == Decimal(n / 10) + [DigitChar(n % 10)];
    }
  }

  /** Four-digit padding of a four-digit number spelled out digit by digit. */
  lemma ZeroPadFourDigits(n: nat)
    requires 1000 <= n < 10000
    ensures ZeroPad(n, 4) == [DigitChar(n / 1000), DigitChar(n / 100 % 10), DigitChar(n / 10 % 10), DigitChar(n % 10)]
  {
    assert Decimal(n) == Decimal(n / 10) + [DigitChar(n % 10)];
    assert Decimal(n / 10) == Decimal(n / 100) + [DigitChar(n / 10 % 10)];
    assert Decimal(n / 100) == Decimal(n / 1000) + [DigitChar(n / 100 % 10)];
  }

  lemma {:induction false} ZeroPadParsesI32(n: nat, w: nat)
    requires n <= I32_MAX
    ensures ParseI32(ZeroPad(n, w)) == Some(n)
  {
    var s := ZeroPad(n, w);
    assert IsDigit(s[0]);
  }

  lemma {:induction false} ZeroPadParsesU32(n: nat, w: nat)
    requires n <= U32_MAX
    ensures ParseU32(ZeroPad(n, w)) == Some(n)
  {
    var s := ZeroPad(n, w);
    assert IsDigit(s[0]);
  }

  lemma {:induction false} Pow10Monotone(j: nat, k: nat)
    requires j <= k
    ensures Pow10(j) <= Pow10(k)
    decreases k - j
  {
    if j < k { Pow10Monotone(j, k - 1); }
  }

  /** A numeral of at most `k` characters parses to less than `10^k`. */
  lemma ParseU32Bound(s: string, k: nat)
    requires |s| <= k && ParseU32(s).Some?
    ensures ParseU32(s).value < Pow10(k)
  {
    var digits := if |s| > 0 && s[0] == '+' then s[1..] else s;
    ValueBound(digits);
    Pow10Monotone(|digits|, k);
  }

  lemma ParseI32Bound(s: string, k: nat)
    requires |s| <= k && ParseI32(s).Some?
    ensures -(Pow10(k) as int) < ParseI32(s).value < Pow10(k)
  {
    var digits := if |s| > 0 && (s[0] == '+' || s[0] == '-') then s[1..] else s;
    ValueBound(digits);
    Pow10Monotone(|digits|, k);
  }

  // ---------------------------------------------------------------------
  // Lexicographic order by code point
  // ---------------------------------------------------------------------

  /** Strict lexicographic order by code point. Comparing UTF-8 encodings
      byte by byte (SQLite's BINARY collation) gives the same order. */
  predicate LexLess(a: string, b: string)
  {
    if |a| == 0 then |b| > 0
    else if |b| == 0 then false
    else a[0] < b[0] || (a[0] == b[0] && LexLess(a[1..], b[1..]))
  }

  lemma {:induction false} LexIrreflexive(a: string)
    ensures !LexLess(a, a)
  {
    if |a| > 0 { LexIrreflexive(a[1..]); }
  }

  lemma {:induction false} LexAsymmetric(a: string, b: string)
    ensures !(LexLess(a, b) && LexLess(b, a))
  {
    if |a| > 0 && |b| > 0 { LexAsymmetric(a[1..], b[1..]); }
  }

  lemma {:induction false} LexTransitive(a: string, b: string, c: string)
    requires LexLess(a, b) && LexLess(b, c)
    ensures LexLess(a, c)
  {
    if |a| > 0 && |b| > 0 && |c| > 0 && a[0] == b[0] == c[0] {
      LexTransitive(a[1..], b[1..], c[1..]);
    }
  }

  lemma {:induction false} LexTotal(a: string, b: string)
    requires a != b
    ensures LexLess(a, b) || LexLess(b, a)
  {
    if |a| > 0 && |b| > 0 && a[0] == b[0] {
      assert a == [a[0]] + a[1..] && b == [b[0]] + b[1..];
      LexTotal(a[1..], b[1..]);
    }
  }

  /** Comparing two concatenations whose first parts have the same length
      compares the first parts, and the second parts on a tie. */
  lemma {:induction false} LexAppend(p: string, q: string, p': string, q': string)
    requires |p| == |p'|
    ensures LexLess(p + q, p' + q') <==> LexLess(p, p') || (p == p' && LexLess(q, q'))
  {
    if |p| == 0 {
      assert p + q == q && p' + q' == q';
    } else {
      assert (p + q)[1..] == p[1..] + q && (p' + q')[1..] == p'[1..] + q';
      LexAppend(p[1..], q, p'[1..], q');
      if p[0] == p'[0] && p[1..] == p'[1..] {
        assert p == p';
      }
      if p == p' {
        assert p[1..] == p'[1..];
        LexIrreflexive(p[1..]);
      }
    }
  }

  /** On digit strings of one length, string order is numeric order. */
  lemma {:induction false} LexDigits(s: string, t: string)
    requires AllDigits(s) && AllDigits(t) && |s| == |t|
    ensures LexLess(s, t) <==> Value(s) < Value(t)
  {
    if |s| > 0 {
      var k := |s| - 1;
      LexDigits(s[..k], t[..k]);
      assert s == s[..k] + [s[k]] && t == t[..k] + [t[k]];
      LexAppend(s[..k], [s[k]], t[..k], [t[k]]);
      assert LexLess([s[k]], [t[k]]) <==> s[k] < t[k];
      if Value(s[..k]) == Value(t[..k]) {
        ValueInjective(s[..k], t[..k]);
      }
    } else {
      assert s == t;
      LexIrreflexive(s);
    }
  }

  // ---------------------------------------------------------------------
  // Replace, split, strip, truncate
  // ---------------------------------------------------------------------

  /** `s.replace(c, rep)`: every occurrence of the character `c` replaced. */
  function ReplaceChar(s: string, c: char, rep: string): (r: string)
    ensures c !in rep ==> c !in r
  {
    if |s| == 0 then [] else (if s[0] == c then rep else [s[0]]) + ReplaceChar(s[1..], c, rep)
  }

  /** Replacing never introduces a character that neither the text nor the
      replacement holds. */
  lemma {:induction false} ReplaceCharKeepsAbsent(s: string, c: char, rep: string, x: char)
    requires x !in s && x !in rep
    ensures x !in ReplaceChar(s, c, rep)
  {
    if |s| > 0 {
      assert x != s[0];
      assert x !in s[1..] by {
        assert forall i :: 0 <= i < |s[1..]| ==> s[1..][i] == s[i + 1];
      }
      ReplaceCharKeepsAbsent(s[1..], c, rep, x);
    }
  }

  lemma {:induction false} ReplaceCharAppend(a: string, b: string, c: char, rep: string)
    ensures ReplaceChar(a + b, c, rep) == ReplaceChar(a, c, rep) + ReplaceChar(b, c, rep)
  {
    if |a| == 0 {
      assert a + b == b;
    } else {
      assert (a + b)[1..] == a[1..] + b;
      ReplaceCharAppend(a[1..], b, c, rep);
    }
  }

  lemma {:induction false} ReplaceCharAbsent(s: string, c: char, rep: string)
    requires c !in s
    ensures ReplaceChar(s, c, rep) == s
  {
    if |s| > 0 {
      assert s[1..] == s[1..];
      ReplaceCharAbsent(s[1..], c, rep);
    }
  }

  function Count(s: string, c: char): nat
  {
    if |s| == 0 then 0 else (if s[0] == c then 1 else 0) + Count(s[1..], c)
  }

  /** `s.split(sep).collect::<Vec<_>>()`: the pieces between the separators;
      an empty string gives one empty piece. */
  function Split(s: string, sep: char): (r: seq<string>)
    ensures |r| == Count(s, sep) + 1
    ensures forall i :: 0 <= i < |r| ==> sep !in r[i]
  {
    if |s| == 0 then [""]
    else
      var rest := Split(s[1..], sep);
      if s[0] == sep then [""] + rest
      else [[s[0]] + rest[0]] + rest[1..]
  }

  /** The inverse of `Split`: the pieces joined with the separator. */
  function Join(pieces: seq<string>, sep: char): string
  {
    if |pieces| == 0 then ""
    else if |pieces| == 1 then pieces[0]
    else pieces[0] + [sep] + Join(pieces[1..], sep)
  }

  lemma {:induction false} SplitJoin(s: string, sep: char)
    ensures Join(Split(s, sep), sep) == s
  {
    if |s| > 0 {
      var rest := Split(s[1..], sep);
      SplitJoin(s[1..], sep);
      if s[0] == sep {
        assert ([""] + rest)[1..] == rest;
        assert s == [s[0]] + s[1..];
      } else {
        var r := [[s[0]] + rest[0]] + rest[1..];
        if |rest| == 1 {
          assert s == [s[0]] + s[1..];
        } else {
          assert r[1..] == rest[1..];
          assert Join(rest, sep) == rest[0] + [sep] + Join(rest[1..], sep);
          assert s == [s[0]] + s[1..];
        }
      }
    }
  }

  /** A three-piece split accounts for every character but the two separators. */
  lemma SplitThreeLengths(s: string, sep: char)
    requires |Split(s, sep)| == 3
    ensures var r := Split(s, sep); |r[0]| + |r[1]| + |r[2]| + 2 == |s|
  {
    var r := Split(s, sep);
    SplitJoin(s, sep);
    assert Join(r, sep) == r[0] + [sep] + Join(r[1..], sep);
    assert r[1..][1..] == [r[2]];
    assert Join(r[1..], sep) == r[1] + [sep] + r[2];
  }

  lemma {:induction false} SplitWithout(x: string, sep: char)
    requires sep !in x
    ensures Split(x, sep) == [x]
  {
    if |x| > 0 {
      SplitWithout(x[1..], sep);
      assert [x[0]] + x[1..] == x;
    }
  }

  lemma {:induction false} SplitFirst(x: string, y: string, sep: char)
    requires sep !in x
    ensures Split(x + [sep] + y, sep) == [x] + Split(y, sep)
  {
    if |x| == 0 {
      assert x + [sep] + y == [sep] + y;
      assert ([sep] + y)[1..] == y;
    } else {
      assert (x + [sep] + y)[1..] == x[1..] + [sep] + y;
      SplitFirst(x[1..], y, sep);
      assert [x[0]] + x[1..] == x;
    }
  }

  /** Splitting three separator-free pieces joined by the separator gives them back. */
  lemma SplitThree(a: string, b: string, c: string, sep: char)
    requires sep !in a && sep !in b && sep !in c
    ensures Split(a + [sep] + b + [sep] + c, sep) == [a, b, c]
  {
    assert a + [sep] + b + [sep] + c == a + [sep] + (b + [sep] + c);
    SplitFirst(a, b + [sep] + c, sep);
    SplitFirst(b, c, sep);
    SplitWithout(c, sep);
  }

  /** `s.strip_prefix(p)`. */
  function StripPrefix(s: string, p: string): (r: Option<string>)
    ensures r.Some? <==> |p| <= |s| && s[..|p|] == p
    ensures r.Some? ==> s == p + r.value
  {
    if |p| <= |s| && s[..|p|] == p then Some(s[|p|..]) else None
  }

  /** The truncation rule of the feed and of the previews: a text of more
      than `n` characters becomes its first `n` characters followed by `...`
      (`s.chars().take(n).collect()` plus the marker); a shorter one is kept.
      Characters are Unicode scalar values, as Rust's `chars()` counts them. */
  function TruncateChars(s: string, n: nat): (r: string)
    ensures |r| == if |s| <= n then |s| else n + 3
    ensures |r| <= n + 3
    ensures |s| <= n ==> r == s
    ensures |s| > n ==> r[..n] == s[..n] && r[n..] == "..."
  {
    if |s| > n then s[..n] + "..." else s
  }

  /** Truncation leaves a text unchanged exactly when it is short enough,
      or when the text already is its own first `n` characters and `...`. */
  lemma TruncateFixpoint(s: string, n: nat)
    ensures TruncateChars(s, n) == s <==> |s| <= n || (|s| == n + 3 && s[n..] == "...")
  {
    if |s| == n + 3 && s[n..] == "..." {
      assert s == s[..n] + s[n..];
    }
  }

  // ---------------------------------------------------------------------
  // UTF-8 byte lengths
  // ---------------------------------------------------------------------

  /** The number of bytes UTF-8 uses for a character. */
  function Utf8Width(c: char): (w: nat)
    ensures 1 <= w <= 4
    ensures w == 1 <==> c as int < 0x80
  {
    if c as int < 0x80 then 1 else if c as int < 0x800 then 2 else if c as int < 0x1_0000 then 3 else 4
  }

  /** `s.len()` in Rust: the UTF-8 byte length. */
  function ByteLen(s: string): (n: nat)
    ensures n >= |s|
  {
    if |s| == 0 then 0 else Utf8Width(s[0]) + ByteLen(s[1..])
  }

  /** The number of characters that occupy the first `b` bytes of `s`, or
      `None` when byte offset `b` is not a character boundary of `s` (Rust
      panics when it slices there). */
  function CharsForBytes(s: string, b: nat): (r: Option<nat>)
    ensures r.Some? ==> r.value <= |s| && ByteLen(s[..r.value]) == b
  {
    if b == 0 then (assert s[..0] == []; Some(0))
    else if |s| == 0 || Utf8Width(s[0]) > b then None
    else match CharsForBytes(s[1..], b - Utf8Width(s[0]))
      case None => None
      case Some(k) =>
        assert s[..k + 1][1..] == s[1..][..k];
        Some(k + 1)
  }

  predicate IsAscii(s: string) { forall i :: 0 <= i < |s| ==> s[i] as int < 0x80 }

  lemma {:induction false} AsciiByteLen(s: string)
    requires IsAscii(s)
    ensures ByteLen(s) == |s|
  {
    if |s| > 0 { AsciiByteLen(s[1..]); }
  }

  lemma {:induction false} AsciiBoundaries(s: string, b: nat)
    requires IsAscii(s) && b <= |s|
    ensures CharsForBytes(s, b) == Some(b)
  {
    if b > 0 { AsciiBoundaries(s[1..], b - 1); }
  }

  lemma AsciiAppend(a: string, b: string)
    requires IsAscii(a) && IsAscii(b)
    ensures IsAscii(a + b)
  {
    assert forall i :: |a| <= i < |a + b| ==> (a + b)[i] == b[i - |a|];
  }

  lemma DigitsAscii(s: string)
    requires AllDigits(s)
    ensures IsAscii(s)
  {
    assert forall i :: 0 <= i < |s| ==> IsDigit(s[i]);
  }

  /** Later character boundaries lie at later character positions. */
  lemma {:induction false} CharsForBytesMonotone(s: string, a: nat, b: nat)
    requires a <= b && CharsForBytes(s, a).Some? && CharsForBytes(s, b).Some?
    ensures CharsForBytes(s, a).value <= CharsForBytes(s, b).value
  {
    if a > 0 {
      CharsForBytesMonotone(s[1..], a - Utf8Width(s[0]), b - Utf8Width(s[0]));
    }
  }
}
