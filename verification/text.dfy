/** Decimal digits, joining and splitting of strings. */
module Text {
  import opened Wrappers

  predicate IsDigit(c: char) {
    '0' <= c <= '9'
  }

  predicate AllDigits(s: string) {
    forall i :: 0 <= i < |s| ==> IsDigit(s[i])
  }

  function DigitChar(n: nat): (c: char)
    requires n < 10
    ensures IsDigit(c) && c as int - '0' as int == n
  {
    ('0' as int + n) as char
  }

  function DigitValue(c: char): (n: nat)
    requires IsDigit(c)
    ensures n < 10 && DigitChar(n) == c
  {
    c as int - '0' as int
  }

  function Pow10(n: nat): (p: nat)
    ensures p >= 1
  {
    if n == 0 then 1 else 10 * Pow10(n - 1)
  }

  /** The value of a string of decimal digits, most significant first. */
  function ParseDigits(s: string): (n: nat)
    requires AllDigits(s)
    ensures n < Pow10(|s|)
  {
    if |s| == 0 then 0
    else 10 * ParseDigits(s[..|s| - 1]) + DigitValue(s[|s| - 1])
  }

  /** Python's `str(n)` for a non-negative integer. */
  function NatToString(n: nat): (s: string)
    ensures |s| >= 1 && AllDigits(s)
  {
    if n < 10 then [DigitChar(n)]
    else NatToString(n / 10) + [DigitChar(n % 10)]
  }

  /** `n` printed in exactly `w` digits with leading zeros (C's `%0wd`). */
  function FixedWidth(n: nat, w: nat): (s: string)
    ensures |s| == w && AllDigits(s)
    ensures w > 0 ==> s[w - 1] == DigitChar(n % 10)
  {
    if w == 0 then ""
    else FixedWidth(n / 10, w - 1) + [DigitChar(n % 10)]
  }

  lemma {:induction false} ParseNatToString(n: nat)
    ensures ParseDigits(NatToString(n)) == n
  {
    var s := NatToString(n);
    if n >= 10 {
      assert s[..|s| - 1] == NatToString(n / 10);
      ParseNatToString(n / 10);
    }
  }

  lemma {:induction false} ParseFixedWidth(n: nat, w: nat)
    requires n < Pow10(w)
    ensures ParseDigits(FixedWidth(n, w)) == n
  {
    if w > 0 {
      var s := FixedWidth(n, w);
      assert s[..|s| - 1] == FixedWidth(n / 10, w - 1);
      ParseFixedWidth(n / 10, w - 1);
    }
  }

  /** Digits written after others shift the earlier ones left. */
  lemma {:induction false} ParseDigitsAppend(x: string, y: string)
    requires AllDigits(x) && AllDigits(y)
    ensures AllDigits(x + y)
    ensures ParseDigits(x + y) == ParseDigits(x) * Pow10(|y|) + ParseDigits(y)
  {
    var z := x + y;
    forall i | 0 <= i < |z| ensures IsDigit(z[i]) {
      if i < |x| {
        assert z[i] == x[i];
      } else {
        assert z[i] == y[i - |x|];
      }
    }
    if |y| == 0 {
      assert z == x;
    } else {
      var y' := y[..|y| - 1];
      var d := DigitValue(y[|y| - 1]);
      assert AllDigits(y');
      assert z[..|z| - 1] == x + y';
      assert z[|z| - 1] == y[|y| - 1];
      ParseDigitsAppend(x, y');
      var px, py := ParseDigits(x), ParseDigits(y');
      assert ParseDigits(z) == 10 * ParseDigits(x + y') + d;
      assert ParseDigits(y) == 10 * py + d;
      assert Pow10(|y|) == 10 * Pow10(|y'|);
      ShiftLeft(px, Pow10(|y'|));
    }
  }

  lemma ShiftLeft(a: int, b: int)
    ensures 10 * (a * b) == a * (10 * b)
  {
  }

  lemma {:induction false} Pow10Monotone(a: nat, b: nat)
    requires a <= b
    ensures Pow10(a) <= Pow10(b)
  {
    if a < b {
      Pow10Monotone(a, b - 1);
    }
  }

  lemma {:induction false} FixedWidthParse(s: string)
    requires AllDigits(s)
    ensures FixedWidth(ParseDigits(s), |s|) == s
  {
    if |s| > 0 {
      var p := s[..|s| - 1];
      var n := ParseDigits(s);
      assert n / 10 == ParseDigits(p) && n % 10 == DigitValue(s[|s| - 1]);
      FixedWidthParse(p);
      assert s == p + [s[|s| - 1]];
    }
  }

  /** Python's `sep.join(parts)`. */
  function Join(parts: seq<string>, sep: string): (s: string)
    ensures |parts| > 0 ==> parts[0] <= s
    ensures |parts| > 1 ==> parts[0] + sep <= s
    ensures |parts| == 1 ==> s == parts[0]
  {
    if |parts| == 0 then ""
    else if |parts| == 1 then parts[0]
    else parts[0] + sep + Join(parts[1..], sep)
  }

  /** Python's `s.split(sep)` for a one-character separator: never empty,
      and `"".split(sep) == [""]`. */
  function Split(s: string, sep: char): (r: seq<string>)
    ensures |r| >= 1
  {
    if |s| == 0 then [""]
    else
      var rest := Split(s[1..], sep);
      if s[0] == sep then [""] + rest
      else [[s[0]] + rest[0]] + rest[1..]
  }

  /** Splitting a separator-free prefix glues it onto the first piece. */
  lemma {:induction false} SplitPrefix(p: string, tail: string, sep: char)
    requires sep !in p
    ensures Split(p + tail, sep) == [p + Split(tail, sep)[0]] + Split(tail, sep)[1..]
  {
    if |p| > 0 {
      assert (p + tail)[1..] == p[1..] + tail;
      SplitPrefix(p[1..], tail, sep);
      assert [p[0]] + (p[1..] + Split(tail, sep)[0]) == p + Split(tail, sep)[0];
    } else {
      var r := Split(tail, sep);
      assert p + tail == tail && p + r[0] == r[0];
      assert r == [r[0]] + r[1..];
    }
  }

  /** Splitting undoes joining when no part contains the separator. */
  lemma {:induction false} SplitJoin(parts: seq<string>, sep: char)
    requires |parts| >= 1
    requires forall i :: 0 <= i < |parts| ==> sep !in parts[i]
    ensures Split(Join(parts, [sep]), sep) == parts
  {
    if |parts| == 1 {
      SplitPrefix(parts[0], "", sep);
      assert parts[0] + "" == parts[0];
    } else {
      var rest := Join(parts[1..], [sep]);
      assert Join(parts, [sep]) == parts[0] + ([sep] + rest);
      SplitPrefix(parts[0], [sep] + rest, sep);
      assert ([sep] + rest)[1..] == rest;
      SplitJoin(parts[1..], sep);
      assert parts[0] + "" == parts[0];
      assert parts == [parts[0]] + parts[1..];
    }
  }

  /** The text before and after the first occurrence of `c`, as
      `s.partition(c)` would give it; `None` when `c` does not occur. */
  function SplitAtFirst(s: string, c: char): (r: Option<(string, string)>)
    ensures r.None? <==> c !in s
    ensures r.Some? ==> s == r.value.0 + [c] + r.value.1 && c !in r.value.0
  {
    if |s| == 0 then None
    else if s[0] == c then Some(("", s[1..]))
    else match SplitAtFirst(s[1..], c)
      case None => None
      case Some(kv) => Some(([s[0]] + kv.0, kv.1))
  }

  /** A key without `c`, then `c`, then a value: partitioning recovers both. */
  lemma {:induction false} SplitAtFirstOf(k: string, v: string, c: char)
    requires c !in k
    ensures SplitAtFirst(k + [c] + v, c) == Some((k, v))
  {
    var s := k + [c] + v;
    if |k| == 0 {
      assert s == [c] + v;
    } else {
      assert s[0] == k[0] && s[1..] == k[1..] + [c] + v;
      SplitAtFirstOf(k[1..], v, c);
      assert [k[0]] + k[1..] == k;
    }
  }
}
