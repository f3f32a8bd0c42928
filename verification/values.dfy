/** The Python values that travel between the form and the pipeline. */
module Values {
  import opened Wrappers
  import opened Text
  import opened Dates

  /** A value as the browser form hands it over: JSON-shaped Python data.
      A float is held as the decimal `mant * 10^-scale`; several pairs denote
      the same float (`Float(45, 1)` and `Float(450, 2)` are both `4.5`). */
  datatype Raw =
    | Null
    | Bool(b: bool)
    | Int(i: int)
    | Float(mant: int, scale: nat)
    | Str(s: string)
    | List(items: seq<Raw>)

  /** A value after coercion: untouched form data, or a parsed calendar date. */
  datatype Value = Plain(raw: Raw) | Day(date: Date)

  const PyNone: Value := Plain(Null)

  /** Python's `bool(r)`. */
  predicate RawTruthy(r: Raw) {
    match r
    case Null => false
    case Bool(b) => b
    case Int(i) => i != 0
    case Float(m, _) => m != 0
    case Str(s) => |s| > 0
    case List(items) => |items| > 0
  }

  /** Python's `bool(v)`; a `date` object is always true. */
  predicate Truthy(v: Value): (b: bool)
    ensures v.Day? ==> b
    ensures v == PyNone ==> !b
    ensures v.Plain? && EqualsTrue(v.raw) ==> b
  {
    match v
    case Plain(r) => RawTruthy(r)
    case Day(_) => true
  }

  /** Python's `r == True`, under which `True == 1 == 1.0`; no string,
      list or `None` equals `True`. */
  predicate EqualsTrue(r: Raw): (b: bool)
    ensures !(r.Bool? || r.Int? || r.Float?) ==> !b
    ensures b ==> RawTruthy(r)
  {
    match r
    case Bool(b) => b
    case Int(i) => i == 1
    case Float(m, sc) => m == Pow10(sc)
    case _ => false
  }

  /** Python's `v == [True]`: a one-element list whose element equals `True`. */
  predicate IsCheckedList(v: Value): (b: bool)
    ensures b ==> Truthy(v)
    ensures v == Plain(List([Bool(true)])) ==> b
    ensures v == Plain(List([Int(1)])) ==> b
    ensures v == Plain(List([])) ==> !b
    ensures v == Plain(List([Bool(true), Bool(true)])) ==> !b
  {
    v.Plain? && v.raw.List? && |v.raw.items| == 1 && EqualsTrue(v.raw.items[0])
  }

  /** The number `v / 100` divides, or `None` when Python raises `TypeError`
      (`bool` is an `int` subclass, so `True / 100` is `0.01`). */
  function AsNumber(v: Value): (r: Option<real>)
    ensures r.Some? <==> v.Plain? && (v.raw.Bool? || v.raw.Int? || v.raw.Float?)
    ensures v.Plain? && v.raw.Int? ==> r == Some(v.raw.i as real)
    ensures v.Plain? && v.raw.Float? ==> r.Some? && r.value * Pow10(v.raw.scale) as real == v.raw.mant as real
    ensures r.Some? ==> (r.value == 1.0 <==> EqualsTrue(v.raw))
    ensures r.Some? ==> (r.value != 0.0 <==> Truthy(v))
  {
    match v
    case Plain(Bool(b)) => Some(if b then 1.0 else 0.0)
    case Plain(Int(i)) => Some(i as real)
    case Plain(Float(m, sc)) =>
      Quotient(m, Pow10(sc));
      Some(m as real / Pow10(sc) as real)
    case _ => None
  }

  /** The real quotient `m / p` by a positive power of ten. */
  lemma Quotient(m: int, p: nat)
    requires p >= 1
    ensures (m as real / p as real) * p as real == m as real
    ensures m as real / p as real == 1.0 <==> m == p
    ensures m as real / p as real != 0.0 <==> m != 0
  {
    var q := m as real / p as real;
    assert q * p as real == m as real;
  }

  /** `True / 100` is `0.01`, and `4.5` divides the same whether written
      with one decimal or two. */
  lemma AsNumberExamples()
    ensures AsNumber(Plain(Bool(true))) == Some(1.0)
    ensures AsNumber(Plain(Float(45, 1))) == Some(4.5)
    ensures AsNumber(Plain(Float(450, 2))) == Some(4.5)
  {
    assert Pow10(1) == 10;
    assert Pow10(2) == 100;
  }

  /** Python's `str(i)`. */
  function ShowInt(i: int): (s: string)
    ensures |s| >= 1
  {
    if i < 0 then "-" + NatToString(-i) else NatToString(i)
  }

  /** Reads back an integer printed by `ShowInt`. */
  function ParseInt(s: string): Option<int> {
    if |s| >= 2 && s[0] == '-' && AllDigits(s[1..]) then Some(0 - ParseDigits(s[1..]) as int)
    else if |s| >= 1 && AllDigits(s) then Some(ParseDigits(s))
    else None
  }

  lemma ParseShowInt(i: int)
    ensures ParseInt(ShowInt(i)) == Some(i)
  {
    if i < 0 {
      ParseShowNegative(i);
    } else {
      ParseShowNonNegative(i);
    }
  }

  lemma ParseShowNegative(i: int)
    requires i < 0
    ensures ParseInt(ShowInt(i)) == Some(i)
  {
    var digits := NatToString(-i);
    var s := ShowInt(i);
    assert s == "-" + digits;
    assert s[1..] == digits;
    ParseNatToString(-i);
    assert ParseDigits(s[1..]) == -i;
    assert |s| >= 2 && s[0] == '-' && AllDigits(s[1..]);
  }

  lemma ParseShowNonNegative(i: int)
    requires i >= 0
    ensures ParseInt(ShowInt(i)) == Some(i)
  {
    var s := ShowInt(i);
    assert s == NatToString(i);
    assert IsDigit(s[0]);
    assert s[0] != '-';
    ParseNatToString(i);
  }

  /** The digits of `n * 10^-scale` before and after the decimal point: at
      least one on each side, zero-padded on the left when `n` is short. */
  function FloatDigits(n: nat, scale: nat): (r: (string, string))
    ensures |r.0| >= 1 && AllDigits(r.0)
    ensures |r.1| >= 1 && AllDigits(r.1)
    ensures scale > 0 ==> |r.1| == scale && r.1[scale - 1] == DigitChar(n % 10)
    ensures scale == 0 ==> r.1 == "0"
  {
    var len := |NatToString(n)|;
    var w := if len > scale then len else scale + 1;
    var digits := FixedWidth(n, w);
    (digits[..w - scale], if scale == 0 then "0" else digits[w - scale..])
  }

  /** The pair a float is printed from: no trailing zero after the point. */
  predicate IsNormal(mant: int, scale: nat) {
    scale == 0 || mant % 10 != 0
  }

  /** Strips the trailing fractional zeros of `mant * 10^-scale`. */
  function Normalize(mant: int, scale: nat): (r: (int, nat))
    ensures IsNormal(r.0, r.1)
    ensures r.1 <= scale && mant == r.0 * Pow10(scale - r.1)
    decreases scale
  {
    if scale > 0 && mant % 10 == 0 then
      var r := Normalize(mant / 10, scale - 1);
      assert Pow10(scale - r.1) == 10 * Pow10(scale - 1 - r.1);
      assert mant == 10 * (mant / 10);
      r
    else (mant, scale)
  }

  /** Python's `str(x)` of a float held as `mant * 10^-scale`: the shortest
      positional form, with at least one fractional digit (`100.0`, `4.5`,
      `0.05`) and no trailing zero after the first. */
  function ShowFloat(mant: int, scale: nat): (s: string)
    ensures |s| >= 3
    ensures s[0] == '-' <==> mant < 0
    ensures s[|s| - 1] != '0' || s[|s| - 2] == '.'
  {
    var n := Normalize(mant, scale);
    SameSign(mant, n.0, Pow10(scale - n.1));
    FloatText(n.0, n.1);
    PointText(n.0, n.1)
  }

  /** The printed float: a sign only when negative, and a last digit that is
      `0` only right after the point when the mantissa has no trailing zero. */
  lemma FloatText(x: int, k: nat)
    requires IsNormal(x, k)
    ensures var s := PointText(x, k);
      && |s| >= 3
      && (s[0] == '-' <==> x < 0)
      && (s[|s| - 1] != '0' || s[|s| - 2] == '.')
  {
    var a := if x < 0 then -x else x;
    NegatedMultiple(x);
    var parts := FloatDigits(a, k);
    var s := PointText(x, k);
    assert s == (if x < 0 then "-" else "") + parts.0 + "." + parts.1;
    assert s[|s| - 1] == parts.1[|parts.1| - 1];
    if k == 0 {
      assert s[|s| - 2] == '.';
    }
    assert s[0] == if x < 0 then '-' else parts.0[0];
  }

  /** Reads `digits.digits` as a mantissa and a scale: `"4.5"` is `(45, 1)`. */
  function ParseUnsignedDecimal(s: string): (r: Option<(nat, nat)>)
    ensures r.Some? ==> r.value.1 >= 1
  {
    match SplitAtFirst(s, '.')
    case None => None
    case Some(parts) =>
      if |parts.0| >= 1 && AllDigits(parts.0) && |parts.1| >= 1 && AllDigits(parts.1)
      then Some((ParseDigits(parts.0) * Pow10(|parts.1|) + ParseDigits(parts.1), |parts.1|))
      else None
  }

  /** Reads `[-]digits.digits`, the positional text of a float, as a
      mantissa and a scale; `None` for any other text. */
  function ParseDecimal(s: string): (r: Option<(int, nat)>)
    ensures r.Some? ==> r.value.1 >= 1
  {
    if |s| >= 1 && s[0] == '-' then
      match ParseUnsignedDecimal(s[1..])
      case None => None
      case Some(p) => Some((0 - p.0, p.1))
    else
      match ParseUnsignedDecimal(s)
      case None => None
      case Some(p) => Some((p.0 as int, p.1))
  }

  /** The printed text of a float reads back as the same number: the pair
      read, `(mant', scale')`, denotes `mant * 10^-scale`. */
  lemma ShowFloatReadsBack(mant: int, scale: nat)
    ensures var r := ParseDecimal(ShowFloat(mant, scale));
      r.Some? && r.value.0 * Pow10(scale) == mant * Pow10(r.value.1)
  {
    var n := Normalize(mant, scale);
    ParseShowFloat(mant, scale);
    ReadPairCross(mant, n.0, scale, n.1);
  }

  /** Read back as a float, the printed text divides to the same number as
      the float printed. */
  lemma ShowFloatReadsBackValue(mant: int, scale: nat)
    ensures var r := ParseDecimal(ShowFloat(mant, scale));
      r.Some? && AsNumber(Plain(Float(r.value.0, r.value.1))) == AsNumber(Plain(Float(mant, scale)))
  {
    ShowFloatReadsBack(mant, scale);
    var r := ParseDecimal(ShowFloat(mant, scale)).value;
    var p1, p2 := Pow10(r.1), Pow10(scale);
    assert AsNumber(Plain(Float(r.0, r.1))) == Some(r.0 as real / p1 as real);
    assert AsNumber(Plain(Float(mant, scale))) == Some(mant as real / p2 as real);
    CrossQuotients(r.0, p1, mant, p2);
  }

  /** Equal cross products give equal quotients. */
  lemma CrossQuotients(m1: int, p1: int, m2: int, p2: int)
    requires p1 >= 1 && p2 >= 1 && m1 * p2 == m2 * p1
    ensures m1 as real / p1 as real == m2 as real / p2 as real
  {
    var q1, q2 := m1 as real / p1 as real, m2 as real / p2 as real;
    assert q1 * p1 as real == m1 as real;
    assert q2 * p2 as real == m2 as real;
    assert q1 * p1 as real * p2 as real == (m1 * p2) as real;
    assert q2 * p2 as real * p1 as real == (m2 * p1) as real;
    assert (q1 - q2) * (p1 as real * p2 as real) == 0.0;
  }

  /** The arithmetic of the read-back: `mant == x * 10^(scale - k)` and the
      pair read is `(x, k)`, or `(10 * x, 1)` when `k` is zero. */
  lemma ReadPairCross(mant: int, x: int, scale: nat, k: nat)
    requires k <= scale && mant == x * Pow10(scale - k)
    ensures (if k == 0 then 10 * x else x) * Pow10(scale) == mant * Pow10(if k == 0 then 1 else k)
  {
    if k == 0 {
      assert Pow10(1) == 10;
      MulAssoc(x, Pow10(scale), 10);
    } else {
      Pow10Add(scale - k, k);
      MulAssoc(x, Pow10(scale - k), Pow10(k));
    }
  }

  /** What the reader makes of a printed float: the normalised pair, with a
      whole number read as one tenth-digit `0` more. */
  lemma ParseShowFloat(mant: int, scale: nat)
    ensures var n := Normalize(mant, scale);
      ParseDecimal(ShowFloat(mant, scale)) == Some(if n.1 == 0 then (10 * n.0, 1) else (n.0, n.1))
  {
    var n := Normalize(mant, scale);
    ParsePointText(n.0, n.1);
  }

  /** `x * 10^-k` in positional notation: a sign, the whole digits, a point
      and the fractional digits. */
  function PointText(x: int, k: nat): string {
    var a := if x < 0 then -x else x;
    var parts := FloatDigits(a, k);
    (if x < 0 then "-" else "") + parts.0 + "." + parts.1
  }

  lemma ParsePointText(x: int, k: nat)
    ensures ParseDecimal(PointText(x, k)) == Some(if k == 0 then (10 * x, 1) else (x, k))
  {
    var a := if x < 0 then -x else x;
    var parts := FloatDigits(a, k);
    var u := parts.0 + "." + parts.1;
    assert PointText(x, k) == (if x < 0 then "-" else "") + u;
    ParseUnsignedFloat(a, k);
    assert u[0] == parts.0[0];
    assert IsDigit(parts.0[0]);
    var v := if k == 0 then 10 * a else a;
    ParseSigned(x < 0, u, v, if k == 0 then 1 else k);
  }

  /** A leading `-` negates what the rest of the text reads as. */
  lemma ParseSigned(neg: bool, u: string, v: nat, k: nat)
    requires |u| >= 1 && u[0] != '-' && ParseUnsignedDecimal(u) == Some((v, k))
    ensures ParseDecimal((if neg then "-" else "") + u) == Some((if neg then 0 - v else v, k))
  {
    var s := (if neg then "-" else "") + u;
    if neg {
      assert s[0] == '-' && s[1..] == u;
      assert ParseUnsignedDecimal(s[1..]) == Some((v, k));
    } else {
      assert s == u;
    }
  }

  /** The unsigned part of a printed float reads back as its digits. */
  lemma ParseUnsignedFloat(a: nat, scale: nat)
    ensures var parts := FloatDigits(a, scale);
      ParseUnsignedDecimal(parts.0 + "." + parts.1)
        == Some(if scale == 0 then (10 * a, 1) else (a, scale))
  {
    var parts := FloatDigits(a, scale);
    FloatDigitsValue(a, scale);
    assert '.' !in parts.0 by {
      forall i | 0 <= i < |parts.0| ensures parts.0[i] != '.' {
        assert IsDigit(parts.0[i]);
      }
    }
    SplitAtFirstOf(parts.0, parts.1, '.');
  }

  /** The digits before and after the point spell `a`, or `10 * a` when the
      one fractional digit is the padding `0` of a whole number. */
  lemma FloatDigitsValue(a: nat, scale: nat)
    ensures var parts := FloatDigits(a, scale);
      && |parts.1| == (if scale == 0 then 1 else scale)
      && ParseDigits(parts.0) * Pow10(|parts.1|) + ParseDigits(parts.1)
         == (if scale == 0 then 10 * a else a)
  {
    if scale == 0 {
      WholeDigitsValue(a);
    } else {
      FractionDigitsValue(a, scale);
    }
  }

  lemma WholeDigitsValue(a: nat)
    ensures FloatDigits(a, 0).1 == "0" && ParseDigits(FloatDigits(a, 0).0) == a
  {
    var len := |NatToString(a)|;
    PaddedDigits(a, len);
    assert FloatDigits(a, 0).0 == FixedWidth(a, len);
  }

  lemma FractionDigitsValue(a: nat, scale: nat)
    requires scale > 0
    ensures var parts := FloatDigits(a, scale);
      ParseDigits(parts.0) * Pow10(|parts.1|) + ParseDigits(parts.1) == a
  {
    var len := |NatToString(a)|;
    var w := if len > scale then len else scale + 1;
    var digits := FixedWidth(a, w);
    PaddedDigits(a, w);
    var parts := FloatDigits(a, scale);
    assert parts.0 == digits[..w - scale] && parts.1 == digits[w - scale..];
    assert digits == parts.0 + parts.1;
    ParseDigitsAppend(parts.0, parts.1);
  }

  /** Zero-padding `a` to at least its own length keeps its value. */
  lemma PaddedDigits(a: nat, w: nat)
    requires w >= |NatToString(a)|
    ensures ParseDigits(FixedWidth(a, w)) == a
  {
    ParseNatToString(a);
    Pow10Monotone(|NatToString(a)|, w);
    ParseFixedWidth(a, w);
  }

  /** A number and its negation have the same last digit being zero or not. */
  lemma NegatedMultiple(x: int)
    ensures x % 10 == 0 <==> (-x) % 10 == 0
  {
    if x % 10 == 0 {
      assert -x == 10 * (-(x / 10));
    }
    if (-x) % 10 == 0 {
      assert x == 10 * (-((-x) / 10));
    }
  }

  /** A positive factor keeps the sign. */
  lemma SameSign(x: int, y: int, p: nat)
    requires p > 0 && x == y * p
    ensures x < 0 <==> y < 0
  {
    if y < 0 {
      assert y * p <= y;
    } else {
      assert y * p >= 0;
    }
  }

  /** `4.50` prints as `4.5`: the trailing zero is dropped. */
  lemma ShowFloatDropsTrailingZero()
    ensures ShowFloat(450, 2) == "4.5"
  {
    assert Normalize(45, 1) == (45, 1);
    assert Normalize(450, 2) == (45, 1);
    assert NatToString(45) == "45";
    assert FixedWidth(45, 2) == "45";
  }

  /** `100.0` keeps its one fractional zero. */
  lemma ShowFloatKeepsOneZero()
    ensures ShowFloat(1000, 1) == "100.0"
  {
    assert Normalize(100, 0) == (100, 0);
    assert Normalize(1000, 1) == (100, 0);
    assert NatToString(100) == "100";
    assert FixedWidth(100, 3) == "100";
  }

  /** `0.05` is padded with zeros before its digit. */
  lemma ShowFloatPadsZeros()
    ensures ShowFloat(5, 2) == "0.05"
  {
    assert Normalize(5, 2) == (5, 2);
    assert NatToString(5) == "5";
    assert FixedWidth(5, 3) == "005";
  }

  /** `mant * 10^-scale` written with one scale or another still prints the
      same: `str()` of a float depends only on its value. */
  lemma ShowFloatSameValue(m1: int, s1: nat, m2: int, s2: nat)
    requires m1 * Pow10(s2) == m2 * Pow10(s1)
    ensures ShowFloat(m1, s1) == ShowFloat(m2, s2)
  {
    var n1 := Normalize(m1, s1);
    var n2 := Normalize(m2, s2);
    var a1, t1, k1 := n1.0, n1.1, s1 - n1.1;
    var a2, t2, k2 := n2.0, n2.1, s2 - n2.1;
    assert m1 == a1 * Pow10(k1) && m2 == a2 * Pow10(k2);
    assert s2 == t2 + k2 && s1 == t1 + k1;
    assert (a1 * Pow10(k1)) * Pow10(t2 + k2) == (a2 * Pow10(k2)) * Pow10(t1 + k1);
    CrossOfReduced(a1, t1, k1, a2, t2, k2);
    NormalUnique(a1, t1, a2, t2);
  }

  /** Cross-multiplication survives removing common powers of ten. */
  lemma CrossOfReduced(a1: int, t1: nat, k1: nat, a2: int, t2: nat, k2: nat)
    requires (a1 * Pow10(k1)) * Pow10(t2 + k2) == (a2 * Pow10(k2)) * Pow10(t1 + k1)
    ensures a1 * Pow10(t2) == a2 * Pow10(t1)
  {
    var k := k1 + k2;
    Pow10Add(k1, t2 + k2);
    Pow10Add(k2, t1 + k1);
    Pow10Add(t2, k);
    Pow10Add(t1, k);
    assert k1 + (t2 + k2) == t2 + k && k2 + (t1 + k1) == t1 + k;
    MulAssoc(a1, Pow10(k1), Pow10(t2 + k2));
    MulAssoc(a2, Pow10(k2), Pow10(t1 + k1));
    MulAssoc(a1, Pow10(t2), Pow10(k));
    MulAssoc(a2, Pow10(t1), Pow10(k));
    Cancel(a1 * Pow10(t2), a2 * Pow10(t1), Pow10(k));
  }

  /** Two floats that divide to the same number print alike. */
  lemma FloatShowDependsOnValue(a: Raw, b: Raw)
    requires a.Float? && b.Float?
    requires AsNumber(Plain(a)) == AsNumber(Plain(b))
    ensures Show(Plain(a)) == Show(Plain(b))
  {
    var p1, p2 := Pow10(a.scale), Pow10(b.scale);
    assert AsNumber(Plain(a)) == Some(a.mant as real / p1 as real);
    assert AsNumber(Plain(b)) == Some(b.mant as real / p2 as real);
    QuotientsEqual(a.mant, p1, b.mant, p2);
    ShowFloatSameValue(a.mant, a.scale, b.mant, b.scale);
    FloatShow(a);
    FloatShow(b);
  }

  lemma FloatShow(r: Raw)
    requires r.Float?
    ensures Show(Plain(r)) == ShowFloat(r.mant, r.scale)
  {
  }

  /** Equal quotients by positive integers have equal cross products. */
  lemma QuotientsEqual(m1: int, p1: int, m2: int, p2: int)
    requires p1 >= 1 && p2 >= 1
    requires m1 as real / p1 as real == m2 as real / p2 as real
    ensures m1 * p2 == m2 * p1
  {
    var q := m1 as real / p1 as real;
    assert q * p1 as real == m1 as real;
    assert q * p2 as real == m2 as real;
    CrossProducts(q, m1, p1, m2, p2);
  }

  /** Two integers that are multiples `q * p1` and `q * p2` of one number
      have equal cross products. */
  lemma CrossProducts(q: real, m1: int, p1: int, m2: int, p2: int)
    requires q * p1 as real == m1 as real && q * p2 as real == m2 as real
    ensures m1 * p2 == m2 * p1
  {
    assert m1 as real * p2 as real == q * p1 as real * p2 as real;
    assert m2 as real * p1 as real == q * p2 as real * p1 as real;
    assert (m1 * p2) as real == m1 as real * p2 as real;
    assert (m2 * p1) as real == m2 as real * p1 as real;
  }

  /** Two normal pairs denoting the same number are the same pair. */
  lemma NormalUnique(m1: int, s1: nat, m2: int, s2: nat)
    requires IsNormal(m1, s1) && IsNormal(m2, s2)
    requires m1 * Pow10(s2) == m2 * Pow10(s1)
    ensures m1 == m2 && s1 == s2
  {
    ScaledIsMultipleOfTen(m1, s1, m2, s2);
    ScaledIsMultipleOfTen(m2, s2, m1, s1);
    Cancel(m1, m2, Pow10(s1));
  }

  /** Of two pairs for one number, the one with the larger scale has a
      trailing zero. */
  lemma ScaledIsMultipleOfTen(m1: int, s1: nat, m2: int, s2: nat)
    requires m1 * Pow10(s2) == m2 * Pow10(s1)
    ensures s1 < s2 ==> m2 % 10 == 0
  {
    if s1 < s2 {
      ScaledFactor(m1, s1, m2, s2);
      var r := Pow10(s2 - s1 - 1);
      assert Pow10(s2 - s1) == 10 * r;
      MulAssoc(m1, 10, r);
      TimesTen(m1 * r);
    }
  }

  /** The pair with the larger scale is the other's mantissa times a power of ten. */
  lemma ScaledFactor(m1: int, s1: nat, m2: int, s2: nat)
    requires m1 * Pow10(s2) == m2 * Pow10(s1)
    requires s1 < s2
    ensures m2 == m1 * Pow10(s2 - s1)
  {
    var p, q := Pow10(s1), Pow10(s2 - s1);
    Pow10Add(s1, s2 - s1);
    assert Pow10(s2) == p * q;
    MulAssoc(m1, q, p);
    Cancel(m1 * q, m2, p);
  }

  lemma TimesTen(x: int)
    ensures (10 * x) % 10 == 0
  {
  }

  lemma {:induction false} Pow10Add(a: nat, b: nat)
    ensures Pow10(a + b) == Pow10(a) * Pow10(b)
  {
    if a > 0 {
      Pow10Add(a - 1, b);
      MulAssoc(10, Pow10(a - 1), Pow10(b));
    }
  }

  lemma MulAssoc(a: int, b: int, c: int)
    ensures a * b * c == a * (b * c) && a * b * c == a * c * b
  {
  }

  lemma Cancel(a: int, b: int, p: int)
    requires p >= 1 && a * p == b * p
    ensures a == b
  {
    assert (a - b) * p == 0;
  }

  /** Python's `str(r)` when `quoted` is false and `repr(r)` when it is true;
      the two differ only for strings (quote escaping is not modelled). */
  function ShowRaw(r: Raw, quoted: bool): (s: string)
    ensures r.Int? ==> ParseInt(s) == Some(r.i)
    ensures r.Str? ==> (s == r.s <==> !quoted)
    ensures r.List? ==> |s| >= 2 && s[0] == '[' && s[|s| - 1] == ']'
    decreases r
  {
    match r
    case Null => "None"
    case Bool(b) => if b then "True" else "False"
    case Int(i) =>
      ParseShowInt(i);
      ShowInt(i)
    case Float(m, sc) => ShowFloat(m, sc)
    case Str(s) => if quoted then "'" + s + "'" else s
    case List(items) =>
      "[" + Join(seq(|items|, j requires 0 <= j < |items| => ShowRaw(items[j], true)), ", ") + "]"
  }

  /** Python's `str(v)`, which `"{val}".format(val=v)` produces. */
  function Show(v: Value): (s: string)
    ensures v.Day? ==> ParseIsoDate(s) == Some(v.date)
    ensures v.Plain? && v.raw.Int? ==> ParseInt(s) == Some(v.raw.i)
    ensures v.Plain? && v.raw.Str? ==> s == v.raw.s
  {
    match v
    case Plain(r) => ShowRaw(r, false)
    case Day(d) => ParseFormat(d); FormatIsoDate(d)
  }

  /** A value whose printed form can carry neither query delimiter. */
  predicate IsScalar(v: Value) {
    v.Day? || !(v.raw.Str? || v.raw.List?)
  }

  lemma DigitsHaveNoDelimiter(s: string, c: char)
    requires AllDigits(s) && !IsDigit(c)
    ensures c !in s
  {
    assert forall i :: 0 <= i < |s| ==> s[i] != c;
  }

  lemma DateShowHasNoDelimiter(d: Date, c: char)
    requires c == '&' || c == '='
    ensures c !in FormatIsoDate(d)
  {
    var f := FormatIsoDate(d);
    DigitsHaveNoDelimiter(f[0..4], c);
    DigitsHaveNoDelimiter(f[5..7], c);
    DigitsHaveNoDelimiter(f[8..10], c);
    assert f == f[0..4] + "-" + f[5..7] + "-" + f[8..10];
  }

  lemma NumberPiecesHaveNoDelimiter(sign: string, whole: string, frac: string, c: char)
    requires sign == "" || sign == "-"
    requires AllDigits(whole) && AllDigits(frac)
    requires c == '&' || c == '='
    ensures c !in sign + whole + "." + frac
  {
    var t := sign + whole + "." + frac;
    forall i | 0 <= i < |t|
      ensures t[i] != c
    {
      if i < |sign| {
        assert t[i] == '-';
      } else if i < |sign| + |whole| {
        assert t[i] == whole[i - |sign|];
      } else if i > |sign| + |whole| {
        assert t[i] == frac[i - |sign| - |whole| - 1];
      }
    }
  }

  lemma FloatShowHasNoDelimiter(m: int, sc: nat, c: char)
    requires c == '&' || c == '='
    ensures c !in ShowFloat(m, sc)
  {
    var n := Normalize(m, sc);
    var parts := FloatDigits(if n.0 < 0 then -n.0 else n.0, n.1);
    NumberPiecesHaveNoDelimiter(if n.0 < 0 then "-" else "", parts.0, parts.1, c);
  }

  /** Numbers, booleans, `None` and dates print without `&` or `=`, so a
      query string built from them can be split back apart. */
  lemma ScalarShowHasNoDelimiter(v: Value, c: char)
    requires IsScalar(v)
    requires c == '&' || c == '='
    ensures c !in Show(v)
  {
    match v
    case Day(d) =>
      DateShowHasNoDelimiter(d, c);
    case Plain(Int(i)) =>
      if i < 0 {
        DigitsHaveNoDelimiter(NatToString(-i), c);
      } else {
        DigitsHaveNoDelimiter(NatToString(i), c);
      }
    case Plain(Float(m, sc)) =>
      FloatShowHasNoDelimiter(m, sc, c);
    case Plain(Null) =>
    case Plain(Bool(_)) =>
  }

  /** What a query can carry unambiguously: a scalar, or any falsy value
      (`""` prints empty and `[]` prints as brackets). */
  predicate Printable(v: Value) {
    IsScalar(v) || !Truthy(v)
  }

  lemma PrintableShowHasNoDelimiter(v: Value, c: char)
    requires Printable(v)
    requires c == '&' || c == '='
    ensures c !in Show(v)
  {
    if IsScalar(v) {
      ScalarShowHasNoDelimiter(v, c);
    } else if v.raw.List? {
      assert Show(v) == "[]";
    }
  }
}
