/** `Sidebar.get_formated_values`: raw positional form values to a dict of
    typed values keyed by the interactive table keys. */
module Coercion {
  import opened Wrappers
  import opened Dates
  import opened Values
  import opened OrderedDicts
  import opened Schema

  /** The exceptions the pipeline can raise, each naming the field involved. */
  datatype Error =
    | MissingKey(key: string)             // KeyError on a dict lookup
    | BadDate(key: string, text: string)  // ValueError from strptime
    | NotAString(key: string)             // TypeError from strptime
    | NotANumber(key: string)             // TypeError from `/ 100`

  /** The kinds whose values the coercion loop rewrites. */
  predicate IsRewritten(k: Kind) {
    k.Switch? || k.DateInput?
  }

  /** A raw date-picker value that coerces without an exception: falsy, or a
      well-formed `YYYY-MM-DD` string. */
  predicate DateAcceptable(v: Value) {
    !Truthy(v) || (v.Plain? && v.raw.Str? && ParseIsoDate(v.raw.s).Some?)
  }

  /** The rewrite the loop applies to one field of the given kind. */
  function CoerceValue(kind: Kind, key: string, v: Value): (r: Result<Value, Error>)
    ensures !IsRewritten(kind) ==> r == Ok(v)
    ensures kind.Switch? ==> r.Ok? && r.value.Plain? && r.value.raw.Bool?
    ensures kind.Switch? ==> (r.value.raw.b <==> IsCheckedList(v))
    ensures kind.DateInput? ==> (r.Ok? <==> DateAcceptable(v))
    ensures kind.DateInput? && !Truthy(v) ==> r == Ok(v)
    ensures kind.DateInput? && Truthy(v) && r.Ok? ==>
      r.value.Day? && v == Plain(Str(FormatIsoDate(r.value.date)))
    ensures kind.DateInput? && Truthy(v) && !(v.Plain? && v.raw.Str?) ==> r == Err(NotAString(key))
    ensures kind.DateInput? && v.Plain? && v.raw.Str? && v.raw.s != "" && ParseIsoDate(v.raw.s).None? ==>
      r == Err(BadDate(key, v.raw.s))
  {
    match kind
    case Switch => Ok(Plain(Bool(IsCheckedList(v))))
    case DateInput =>
      if !Truthy(v) then Ok(v)
      else if v.Plain? && v.raw.Str? then
        match ParseIsoDate(v.raw.s)
        case Some(d) =>
          FormatParse(v.raw.s);
          Ok(Day(d))
        case None => Err(BadDate(key, v.raw.s))
      else Err(NotAString(key))
    case _ => Ok(v)
  }

  /** The `for key in _INPUTS` loop: in table order, each switch and date
      field is looked up (a missing key raises) and overwritten in place. */
  function CoerceFields(t: seq<Descriptor>, d: Dict<Value>): (r: Result<Dict<Value>, Error>)
    ensures r.Ok? ==> Keys(r.value) == Keys(d)
    ensures r.Err? ==> !r.error.NotANumber?
  {
    if |t| == 0 then Ok(d)
    else
      var key := t[0].key;
      if IsRewritten(t[0].kind) then
        match Get(d, key)
        case None => Err(MissingKey(key))
        case Some(v) =>
          var nv :- CoerceValue(t[0].kind, key, v);
          CoerceFields(t[1..], Insert(d, key, nv))
      else CoerceFields(t[1..], d)
  }

  function PlainAll(raw: seq<Raw>): (vs: seq<Value>)
    ensures |vs| == |raw|
    ensures forall j :: 0 <= j < |raw| ==> vs[j] == Plain(raw[j])
  {
    seq(|raw|, j requires 0 <= j < |raw| => Plain(raw[j]))
  }

  /** The dict `dict(zip(get_ordered_input_keys(), input_values))`. */
  function Zipped(t: seq<Descriptor>, raw: seq<Raw>): (d: Dict<Value>)
    ensures Distinct(Keys(d))
    ensures |d| <= |raw| && |d| <= |OrderedInputKeys(t)|
  {
    FromEntries(Zip(OrderedInputKeys(t), PlainAll(raw)))
  }

  /** `get_formated_values` over a given table. */
  function FormattedValuesIn(t: seq<Descriptor>, raw: seq<Raw>): (r: Result<Dict<Value>, Error>)
    ensures r.Ok? ==> Keys(r.value) == Keys(Zipped(t, raw)) && Distinct(Keys(r.value))
    ensures r.Err? ==> !r.error.NotANumber?
  {
    CoerceFields(t, Zipped(t, raw))
  }

  /** `Sidebar.get_formated_values(input_values)`. */
  function FormattedValues(raw: seq<Raw>): (r: Result<Dict<Value>, Error>)
    ensures r.Ok? ==> Keys(r.value) == Keys(Zipped(Inputs, raw)) && Distinct(Keys(r.value))
    ensures r.Err? ==> !r.error.NotANumber?
  {
    FormattedValuesIn(Inputs, raw)
  }

  // ---------------------------------------------------------------------
  // Reference definition: each entry coerced on its own.

  /** What the loop leaves in one entry: its key's kind decides the rewrite;
      a key the table lacks is left alone. */
  function EntryResult(t: seq<Descriptor>, e: Entry<Value>): Result<Value, Error> {
    match KindOf(t, e.key)
    case Some(k) => CoerceValue(k, e.key, e.val)
    case None => Ok(e.val)
  }

  /** The loop raises nothing: every switch and date key is present, and
      every entry's own rewrite succeeds. */
  predicate Admissible(t: seq<Descriptor>, d: Dict<Value>) {
    KeysPresent(t, d) && EntriesOk(t, d)
  }

  predicate KeysPresent(t: seq<Descriptor>, d: Dict<Value>) {
    forall i :: 0 <= i < |t| && IsRewritten(t[i].kind) ==> t[i].key in Keys(d)
  }

  predicate EntriesOk(t: seq<Descriptor>, d: Dict<Value>) {
    forall j :: 0 <= j < |d| ==> EntryResult(t, d[j]).Ok?
  }

  lemma KeysPresentTail(t: seq<Descriptor>, d: Dict<Value>, d': Dict<Value>)
    requires |t| > 0 && Keys(d') == Keys(d)
    ensures KeysPresent(t, d) <==>
      (IsRewritten(t[0].kind) ==> t[0].key in Keys(d)) && KeysPresent(t[1..], d')
  {
    forall i | 1 <= i < |t| ensures t[i] == t[1..][i - 1] { }
  }

  function CoercedEntries(t: seq<Descriptor>, d: Dict<Value>): (r: Dict<Value>)
    requires forall j :: 0 <= j < |d| ==> EntryResult(t, d[j]).Ok?
    ensures |r| == |d|
    ensures forall j :: 0 <= j < |d| ==> r[j] == Entry(d[j].key, EntryResult(t, d[j]).value)
  {
    seq(|d|, j requires 0 <= j < |d| => Entry(d[j].key, EntryResult(t, d[j]).value))
  }

  /** Dropping the first descriptor does not change the kind of other keys,
      and with distinct keys it makes the first key unknown. */
  lemma KindOfTail(t: seq<Descriptor>, key: string)
    requires |t| > 0 && Distinct(TableKeys(t))
    ensures Distinct(TableKeys(t[1..]))
    ensures key != t[0].key ==> KindOf(t[1..], key) == KindOf(t, key)
    ensures key == t[0].key ==> KindOf(t[1..], key).None?
  {
    assert TableKeys(t[1..]) == TableKeys(t)[1..];
  }

  /** The in-place loop agrees with coercing every entry on its own: it
      raises exactly when the reference definition finds a missing switch or
      date key or a failing entry, and otherwise yields the coerced entries
      with the keys in their original positions. */
  lemma {:induction false} CoerceFieldsSpec(t: seq<Descriptor>, d: Dict<Value>)
    requires Distinct(TableKeys(t)) && Distinct(Keys(d))
    ensures CoerceFields(t, d).Ok? <==> Admissible(t, d)
    ensures CoerceFields(t, d).Ok? ==> CoerceFields(t, d).value == CoercedEntries(t, d)
    decreases |t|, 1
  {
    if |t| == 0 {
      assert Admissible(t, d);
      assert CoercedEntries(t, d) == d;
    } else if IsRewritten(t[0].kind) {
      if t[0].key !in Keys(d) {
        assert !KeysPresent(t, d);
      } else {
        var p :| 0 <= p < |d| && Keys(d)[p] == t[0].key;
        RewrittenStep(t, d, p);
      }
    } else {
      SkippedStep(t, d);
    }
  }

  /** A switch or date field that is present: its entry is rewritten in place
      and the rest of the table is processed. */
  lemma {:induction false} RewrittenStep(t: seq<Descriptor>, d: Dict<Value>, p: nat)
    requires Distinct(TableKeys(t)) && Distinct(Keys(d))
    requires |t| > 0 && IsRewritten(t[0].kind)
    requires p < |d| && d[p].key == t[0].key
    ensures CoerceFields(t, d).Ok? <==> Admissible(t, d)
    ensures CoerceFields(t, d).Ok? ==> CoerceFields(t, d).value == CoercedEntries(t, d)
    decreases |t|, 0
  {
    var key := t[0].key;
    var rest := t[1..];
    KindOfTail(t, key);
    GetAt(d, p);
    var v := d[p].val;
    assert EntryResult(t, d[p]) == CoerceValue(t[0].kind, key, v);
    var c := CoerceValue(t[0].kind, key, v);
    if c.Ok? {
      var d' := d[p := Entry(key, c.value)];
      InsertExisting(d, p, c.value);
      assert CoerceFields(t, d) == CoerceFields(rest, d');
      RewrittenEntries(t, d, p);
      KeysPresentTail(t, d, d');
      CoerceFieldsSpec(rest, d');
    } else {
      assert !EntriesOk(t, d);
    }
  }

  /** Rewriting entry `p` in place with its own coercion leaves the keys
      alone, and the remaining table judges and coerces the new dict as the
      whole table judged and coerced the old one. */
  lemma RewrittenEntries(t: seq<Descriptor>, d: Dict<Value>, p: nat)
    requires Distinct(TableKeys(t)) && Distinct(Keys(d))
    requires |t| > 0 && p < |d| && d[p].key == t[0].key
    requires CoerceValue(t[0].kind, t[0].key, d[p].val).Ok?
    ensures var d' := d[p := Entry(t[0].key, CoerceValue(t[0].kind, t[0].key, d[p].val).value)];
      && Keys(d') == Keys(d)
      && (EntriesOk(t[1..], d') <==> EntriesOk(t, d))
      && (EntriesOk(t, d) ==> CoercedEntries(t[1..], d') == CoercedEntries(t, d))
  {
    var key := t[0].key;
    var rest := t[1..];
    var nv := CoerceValue(t[0].kind, key, d[p].val).value;
    var d' := d[p := Entry(key, nv)];
    KindOfTail(t, key);
    assert EntryResult(t, d[p]) == CoerceValue(t[0].kind, key, d[p].val);
    assert Keys(d') == Keys(d);
    forall j | 0 <= j < |d| && j != p
      ensures EntryResult(rest, d'[j]) == EntryResult(t, d[j])
    {
      assert Keys(d)[j] != Keys(d)[p];
      KindOfTail(t, d[j].key);
    }
    assert EntryResult(rest, d'[p]) == Ok(nv);
    assert EntriesOk(rest, d') <==> EntriesOk(t, d);
    if EntriesOk(t, d) {
      assert CoercedEntries(rest, d') == CoercedEntries(t, d);
    }
  }

  /** A field the loop does not rewrite: the dict passes on unchanged. */
  lemma {:induction false} SkippedStep(t: seq<Descriptor>, d: Dict<Value>)
    requires Distinct(TableKeys(t)) && Distinct(Keys(d))
    requires |t| > 0 && !IsRewritten(t[0].kind)
    ensures CoerceFields(t, d).Ok? <==> Admissible(t, d)
    ensures CoerceFields(t, d).Ok? ==> CoerceFields(t, d).value == CoercedEntries(t, d)
    decreases |t|, 0
  {
    var rest := t[1..];
    KindOfTail(t, t[0].key);
    forall j | 0 <= j < |d| ensures EntryResult(rest, d[j]) == EntryResult(t, d[j]) {
      KindOfTail(t, d[j].key);
    }
    assert EntriesOk(rest, d) <==> EntriesOk(t, d);
    KeysPresentTail(t, d, d);
    CoerceFieldsSpec(rest, d);
    if Admissible(t, d) {
      assert CoercedEntries(rest, d) == CoercedEntries(t, d);
    }
  }

  /** When every entry present would coerce, the only exception the loop can
      raise is the `KeyError` of a switch or date key the dict lacks. */
  lemma {:induction false} CoerceFieldsMissingKey(t: seq<Descriptor>, d: Dict<Value>)
    requires Distinct(TableKeys(t)) && Distinct(Keys(d))
    requires EntriesOk(t, d)
    ensures CoerceFields(t, d).Err? ==> MissingTableKey(t, d, CoerceFields(t, d).error)
    decreases |t|, 1
  {
    if |t| == 0 {
    } else if !IsRewritten(t[0].kind) {
      MissingKeySkippedStep(t, d);
    } else if t[0].key in Keys(d) {
      MissingKeyRewrittenStep(t, d);
    } else {
      assert CoerceFields(t, d) == Err(MissingKey(t[0].key));
      assert MissingTableKey(t, d, MissingKey(t[0].key)) by {
        assert t[0].key == t[0].key;
      }
    }
  }

  /** `e` is the `KeyError` of a switch or date key of `t` that `d` lacks. */
  predicate MissingTableKey(t: seq<Descriptor>, d: Dict<Value>, e: Error) {
    exists i :: 0 <= i < |t| && IsRewritten(t[i].kind) && t[i].key !in Keys(d) && e == MissingKey(t[i].key)
  }

  lemma MissingTableKeyTail(t: seq<Descriptor>, d: Dict<Value>, d': Dict<Value>, e: Error)
    requires |t| > 0 && Keys(d') == Keys(d)
    requires MissingTableKey(t[1..], d', e)
    ensures MissingTableKey(t, d, e)
  {
    var i :| 0 <= i < |t[1..]| && IsRewritten(t[1..][i].kind) && t[1..][i].key !in Keys(d') && e == MissingKey(t[1..][i].key);
    assert t[i + 1] == t[1..][i];
  }

  lemma {:induction false} MissingKeyRewrittenStep(t: seq<Descriptor>, d: Dict<Value>)
    requires Distinct(TableKeys(t)) && Distinct(Keys(d))
    requires EntriesOk(t, d)
    requires |t| > 0 && IsRewritten(t[0].kind) && t[0].key in Keys(d)
    ensures CoerceFields(t, d).Err? ==> MissingTableKey(t, d, CoerceFields(t, d).error)
    decreases |t|, 0
  {
    var key := t[0].key;
    var p :| 0 <= p < |d| && Keys(d)[p] == key;
    KindOfTail(t, key);
    GetAt(d, p);
    KindOfAt(t, 0);
    assert EntryResult(t, d[p]) == CoerceValue(t[0].kind, key, d[p].val);
    var nv := CoerceValue(t[0].kind, key, d[p].val).value;
    var d' := d[p := Entry(key, nv)];
    InsertExisting(d, p, nv);
    assert CoerceFields(t, d) == CoerceFields(t[1..], d');
    RewrittenEntries(t, d, p);
    CoerceFieldsMissingKey(t[1..], d');
    if CoerceFields(t, d).Err? {
      MissingTableKeyTail(t, d, d', CoerceFields(t, d).error);
    }
  }

  lemma {:induction false} MissingKeySkippedStep(t: seq<Descriptor>, d: Dict<Value>)
    requires Distinct(TableKeys(t)) && Distinct(Keys(d))
    requires EntriesOk(t, d)
    requires |t| > 0 && !IsRewritten(t[0].kind)
    ensures CoerceFields(t, d).Err? ==> MissingTableKey(t, d, CoerceFields(t, d).error)
    decreases |t|, 0
  {
    var rest := t[1..];
    KindOfTail(t, t[0].key);
    forall j | 0 <= j < |d| ensures EntryResult(rest, d[j]) == EntryResult(t, d[j]) {
      KindOfTail(t, d[j].key);
    }
    assert EntriesOk(rest, d);
    CoerceFieldsMissingKey(rest, d);
    if CoerceFields(t, d).Err? {
      MissingTableKeyTail(t, d, d, CoerceFields(t, d).error);
    }
  }

  // ---------------------------------------------------------------------
  // The zipped dict and the alignment of raw values with keys.

  function Min(a: nat, b: nat): nat {
    if a <= b then a else b
  }

  /** With distinct table keys, `dict(zip(keys, values))` pairs the `j`-th
      ordered key with the `j`-th raw value, dropping whatever is unmatched. */
  lemma ZippedEntries(t: seq<Descriptor>, raw: seq<Raw>)
    requires Distinct(TableKeys(t))
    ensures Zipped(t, raw) == Zip(OrderedInputKeys(t), PlainAll(raw))
    ensures Distinct(Keys(Zipped(t, raw)))
    ensures Keys(Zipped(t, raw)) == OrderedInputKeys(t)[..Min(|OrderedInputKeys(t)|, |raw|)]
  {
    var ks := OrderedInputKeys(t);
    var es := Zip(ks, PlainAll(raw));
    var n := Min(|ks|, |raw|);
    assert |es| == n;
    OrderedInputKeysDistinct(t);
    forall k | 0 <= k < n
      ensures Keys(es)[k] == ks[k]
    {
      assert es[k] == Entry(ks[k], PlainAll(raw)[k]);
    }
    assert Keys(es) == ks[..n];
    assert Distinct(Keys(es)) by {
      forall i, k | 0 <= i < k < n
        ensures Keys(es)[i] != Keys(es)[k]
      {
        assert ks[i] != ks[k];
      }
    }
    FromDistinctEntries(es);
  }

  /** The coercion of the `j`-th raw value under the `j`-th interactive kind. */
  function CoerceAt(t: seq<Descriptor>, raw: seq<Raw>, j: nat): Result<Value, Error>
    requires j < |InteractiveInputs(t)| && j < |raw|
  {
    CoerceValue(InteractiveInputs(t)[j].kind, InteractiveInputs(t)[j].key, Plain(raw[j]))
  }

  /** Entry `j` of the zipped dict coerces exactly as `CoerceAt` says. */
  lemma EntryResultAt(t: seq<Descriptor>, raw: seq<Raw>, j: nat)
    requires Distinct(TableKeys(t))
    requires j < |Zipped(t, raw)|
    ensures j < |InteractiveInputs(t)| && j < |raw|
    ensures Zipped(t, raw)[j] == Entry(InteractiveInputs(t)[j].key, Plain(raw[j]))
    ensures EntryResult(t, Zipped(t, raw)[j]) == CoerceAt(t, raw, j)
  {
    ZippedEntries(t, raw);
    InteractiveInputsAtPositions(t);
    assert OrderedInputKeys(t)[j] == TableKeys(InteractiveInputs(t))[j];
    KindOfInteractive(t, j);
  }

  /** Every switch and date field has a raw value: the zip did not cut it off. */
  predicate RewrittenSupplied(t: seq<Descriptor>, raw: seq<Raw>) {
    forall j :: 0 <= j < |InteractiveInputs(t)| && IsRewritten(InteractiveInputs(t)[j].kind) ==> j < |raw|
  }

  /** Every date value that is present is falsy or a well-formed date. */
  predicate DatesAcceptable(t: seq<Descriptor>, raw: seq<Raw>) {
    forall j :: 0 <= j < |InteractiveInputs(t)| && j < |raw| && InteractiveInputs(t)[j].kind.DateInput? ==>
      DateAcceptable(Plain(raw[j]))
  }

  lemma ZippedKeysPresent(t: seq<Descriptor>, raw: seq<Raw>)
    requires Distinct(TableKeys(t))
    ensures KeysPresent(t, Zipped(t, raw)) <==> RewrittenSupplied(t, raw)
  {
    if KeysPresent(t, Zipped(t, raw)) {
      PresentKeysSupplied(t, raw);
    }
    if RewrittenSupplied(t, raw) {
      SuppliedKeysPresent(t, raw);
    }
  }

  /** A switch or date key that survived the zip had a raw value. */
  lemma PresentKeysSupplied(t: seq<Descriptor>, raw: seq<Raw>)
    requires Distinct(TableKeys(t))
    requires KeysPresent(t, Zipped(t, raw))
    ensures RewrittenSupplied(t, raw)
  {
    var d := Zipped(t, raw);
    var ds := InteractiveInputs(t);
    var ks := OrderedInputKeys(t);
    var idx := InteractivePositions(t);
    ZippedKeysPrefix(t, raw);
    InteractiveInputsAtPositions(t);
    OrderedInputKeysDistinct(t);
    forall j | 0 <= j < |ds| && IsRewritten(ds[j].kind)
      ensures j < |raw|
    {
      assert t[idx[j]] == ds[j];
      assert TableKeys(ds)[j] == ds[j].key;
      assert ds[j].key in Keys(d);
      var q :| 0 <= q < |d| && Keys(d)[q] == ds[j].key;
      assert Keys(d)[q] == ks[q] && ks[j] == ds[j].key;
      assert q == j;
    }
  }

  /** A switch or date field with a raw value survives the zip. */
  lemma SuppliedKeysPresent(t: seq<Descriptor>, raw: seq<Raw>)
    requires Distinct(TableKeys(t))
    requires RewrittenSupplied(t, raw)
    ensures KeysPresent(t, Zipped(t, raw))
  {
    var d := Zipped(t, raw);
    var ds := InteractiveInputs(t);
    var ks := OrderedInputKeys(t);
    var idx := InteractivePositions(t);
    ZippedEntries(t, raw);
    InteractiveInputsAtPositions(t);
    forall i | 0 <= i < |t| && IsRewritten(t[i].kind)
      ensures t[i].key in Keys(d)
    {
      InteractivePositionsComplete(t, i);
      var j :| 0 <= j < |idx| && idx[j] == i;
      assert ks[j] == ds[j].key;
      assert Keys(d)[j] == ks[j];
    }
  }

  lemma ZippedEntriesOk(t: seq<Descriptor>, raw: seq<Raw>)
    requires Distinct(TableKeys(t))
    ensures EntriesOk(t, Zipped(t, raw)) <==> DatesAcceptable(t, raw)
  {
    if EntriesOk(t, Zipped(t, raw)) {
      OkEntriesAcceptable(t, raw);
    }
    if DatesAcceptable(t, raw) {
      AcceptableEntriesOk(t, raw);
    }
  }

  lemma OkEntriesAcceptable(t: seq<Descriptor>, raw: seq<Raw>)
    requires Distinct(TableKeys(t))
    requires EntriesOk(t, Zipped(t, raw))
    ensures DatesAcceptable(t, raw)
  {
    var d := Zipped(t, raw);
    var ds := InteractiveInputs(t);
    ZippedEntries(t, raw);
    InteractiveInputsAtPositions(t);
    assert |d| == Min(|ds|, |raw|);
    forall j | 0 <= j < |ds| && j < |raw| && ds[j].kind.DateInput?
      ensures DateAcceptable(Plain(raw[j]))
    {
      EntryResultAt(t, raw, j);
      assert EntryResult(t, d[j]).Ok?;
    }
  }

  lemma AcceptableEntriesOk(t: seq<Descriptor>, raw: seq<Raw>)
    requires Distinct(TableKeys(t))
    requires DatesAcceptable(t, raw)
    ensures EntriesOk(t, Zipped(t, raw))
  {
    var d := Zipped(t, raw);
    forall j | 0 <= j < |d|
      ensures EntryResult(t, d[j]).Ok?
    {
      EntryResultAt(t, raw, j);
    }
  }

  /** `get_formated_values` raises nothing exactly when every switch and date
      field has a raw value and every date value present is acceptable. */
  lemma FormattedValuesSucceeds(t: seq<Descriptor>, raw: seq<Raw>)
    requires Distinct(TableKeys(t))
    ensures FormattedValuesIn(t, raw).Ok? <==> RewrittenSupplied(t, raw) && DatesAcceptable(t, raw)
  {
    ZippedEntries(t, raw);
    CoerceFieldsSpec(t, Zipped(t, raw));
    ZippedKeysPresent(t, raw);
    ZippedEntriesOk(t, raw);
  }

  /** What a successful `get_formated_values` holds: the ordered keys, cut to
      the number of raw values, each paired with its own raw value coerced by
      its kind. Number fields pass through unchanged, and with at least as
      many raw values as keys the key list is exactly the ordered keys. */
  lemma FormattedValuesAligned(t: seq<Descriptor>, raw: seq<Raw>)
    requires Distinct(TableKeys(t))
    requires FormattedValuesIn(t, raw).Ok?
    ensures var r := FormattedValuesIn(t, raw).value;
      && Keys(r) == OrderedInputKeys(t)[..Min(|OrderedInputKeys(t)|, |raw|)]
      && (|raw| >= |OrderedInputKeys(t)| ==> Keys(r) == OrderedInputKeys(t))
      && (forall j :: 0 <= j < |r| ==>
            j < |raw| && j < |InteractiveInputs(t)| && CoerceAt(t, raw, j).Ok? && r[j].val == CoerceAt(t, raw, j).value)
      && (forall j :: 0 <= j < |r| && j < |raw| && j < |InteractiveInputs(t)| && InteractiveInputs(t)[j].kind.Number? ==>
            r[j].val == Plain(raw[j]))
  {
    var d := Zipped(t, raw);
    ZippedEntries(t, raw);
    CoerceFieldsSpec(t, d);
    var r := FormattedValuesIn(t, raw).value;
    assert Keys(r) == Keys(d);
    forall j | 0 <= j < |r|
      ensures j < |raw| && j < |InteractiveInputs(t)| && CoerceAt(t, raw, j).Ok? && r[j].val == CoerceAt(t, raw, j).value
      ensures InteractiveInputs(t)[j].kind.Number? ==> r[j].val == Plain(raw[j])
    {
      EntryResultAt(t, raw, j);
    }
  }

  // ---------------------------------------------------------------------
  // The concrete table.

  lemma RewrittenSuppliedInputs(raw: seq<Raw>)
    ensures RewrittenSupplied(Inputs, raw) <==> |raw| >= 18
  {
    InputsInteractive();
    InteractiveListKinds();
    if RewrittenSupplied(Inputs, raw) {
      assert IsRewritten(InteractiveList[17].kind);
    }
  }

  lemma DatesAcceptableInputs(raw: seq<Raw>)
    ensures DatesAcceptable(Inputs, raw) <==>
      (|raw| > 3 ==> DateAcceptable(Plain(raw[3]))) && (|raw| > 14 ==> DateAcceptable(Plain(raw[14])))
  {
    InputsInteractive();
    InteractiveListKinds();
  }

  /** For the sidebar's own table, coercion raises nothing exactly when at
      least eighteen raw values arrive and both date values (positions 3 and
      14) are falsy or well-formed. A shorter sequence always raises: the zip
      drops the trailing switch keys, whose lookup then fails. */
  lemma FormattedValuesOfInputsSucceeds(raw: seq<Raw>)
    ensures FormattedValues(raw).Ok? <==>
      |raw| >= 18 && DateAcceptable(Plain(raw[3])) && DateAcceptable(Plain(raw[14]))
  {
    InputsHaveDistinctKeys();
    FormattedValuesSucceeds(Inputs, raw);
    RewrittenSuppliedInputs(raw);
    DatesAcceptableInputs(raw);
  }

  lemma PrefixMembers(ks: seq<string>, n: nat)
    requires n <= |ks|
    ensures forall k :: 0 <= k < n ==> ks[k] in ks[..n]
  {
    forall k | 0 <= k < n
      ensures ks[k] in ks[..n]
    {
      assert ks[..n][k] == ks[k];
    }
  }

  /** An interactive key that the zip left out sits at or beyond the last
      raw value. */
  lemma MissingKeyPosition(t: seq<Descriptor>, raw: seq<Raw>, i: nat) returns (j: nat)
    requires Distinct(TableKeys(t))
    requires i < |t| && IsInteractive(t[i].kind)
    requires t[i].key !in Keys(Zipped(t, raw))
    ensures |raw| <= j < |InteractiveInputs(t)| && InteractiveInputs(t)[j] == t[i]
  {
    InteractivePositionsComplete(t, i);
    InteractiveInputsAtPositions(t);
    j :| 0 <= j < |InteractivePositions(t)| && InteractivePositions(t)[j] == i;
    var ks := OrderedInputKeys(t);
    assert InteractiveInputs(t)[j] == t[i];
    assert TableKeys(InteractiveInputs(t))[j] == t[i].key;
    if j < |raw| {
      var n := Min(|ks|, |raw|);
      ZippedKeysPrefix(t, raw);
      PrefixMembers(ks, n);
      assert false;
    }
  }

  /** The zipped dict's keys are the ordered keys cut to the value count. */
  lemma ZippedKeysPrefix(t: seq<Descriptor>, raw: seq<Raw>)
    requires Distinct(TableKeys(t))
    ensures Keys(Zipped(t, raw)) == OrderedInputKeys(t)[..Min(|OrderedInputKeys(t)|, |raw|)]
  {
    ZippedEntries(t, raw);
  }

  /** A form that sends fewer than eighteen values, and whose date values
      that did arrive are acceptable, fails with the `KeyError` of a switch or
      date field that no value reached. */
  lemma ShortFormMissingKey(raw: seq<Raw>)
    requires |raw| < 18
    requires |raw| > 3 ==> DateAcceptable(Plain(raw[3]))
    requires |raw| > 14 ==> DateAcceptable(Plain(raw[14]))
    ensures FormattedValues(raw).Err?
    ensures exists j ::
      (|raw| <= j < 18 && IsRewritten(InteractiveList[j].kind)
       && FormattedValues(raw).error == MissingKey(InputKeys[j]))
  {
    InputsHaveDistinctKeys();
    FormattedValuesOfInputsSucceeds(raw);
    var z := Zipped(Inputs, raw);
    ZippedEntries(Inputs, raw);
    DatesAcceptableInputs(raw);
    ZippedEntriesOk(Inputs, raw);
    CoerceFieldsMissingKey(Inputs, z);
    var e := FormattedValues(raw).error;
    var i :| 0 <= i < |Inputs| && IsRewritten(Inputs[i].kind) && Inputs[i].key !in Keys(z) && e == MissingKey(Inputs[i].key);
    var j := MissingKeyPosition(Inputs, raw, i);
    InputsInteractive();
    InputKinds();
    assert InputKeys[j] == InteractiveList[j].key;
  }

  /** A successful coercion over the sidebar's table holds the eighteen
      interactive keys in order, each with its own raw value coerced by its
      kind. */
  lemma FormattedValuesOfInputs(raw: seq<Raw>)
    requires FormattedValues(raw).Ok?
    ensures |raw| >= 18
    ensures var r := FormattedValues(raw).value;
      && Keys(r) == InputKeys
      && forall j :: 0 <= j < 18 ==>
           CoerceValue(InteractiveList[j].kind, InputKeys[j], Plain(raw[j])).Ok?
           && r[j].val == CoerceValue(InteractiveList[j].kind, InputKeys[j], Plain(raw[j])).value
  {
    InputsHaveDistinctKeys();
    FormattedValuesOfInputsSucceeds(raw);
    InputsInteractive();
    InputsOrderedKeys();
    InteractiveInputsAtPositions(Inputs);
    FormattedValuesAligned(Inputs, raw);
    var r := FormattedValues(raw).value;
    assert |OrderedInputKeys(Inputs)| == 18 && Min(18, |raw|) == 18;
    assert Keys(r) == InputKeys;
    forall j | 0 <= j < 18
      ensures CoerceValue(InteractiveList[j].kind, InputKeys[j], Plain(raw[j])).Ok?
      ensures r[j].val == CoerceValue(InteractiveList[j].kind, InputKeys[j], Plain(raw[j])).value
    {
      assert InputKeys[j] == TableKeys(InteractiveList)[j];
      assert CoerceAt(Inputs, raw, j) == CoerceValue(InteractiveList[j].kind, InputKeys[j], Plain(raw[j]));
    }
  }

  /** Looking one of the eighteen keys up in a successful coercion finds that
      key's own raw value coerced by its kind; a number field finds its raw
      value untouched. */
  lemma FormattedValueAt(raw: seq<Raw>, j: nat)
    requires FormattedValues(raw).Ok?
    requires j < 18
    ensures |raw| >= 18
    ensures CoerceValue(InteractiveList[j].kind, InputKeys[j], Plain(raw[j])).Ok?
    ensures Get(FormattedValues(raw).value, InputKeys[j]) ==
      Some(CoerceValue(InteractiveList[j].kind, InputKeys[j], Plain(raw[j])).value)
    ensures InteractiveList[j].kind.Number? ==>
      Get(FormattedValues(raw).value, InputKeys[j]) == Some(Plain(raw[j]))
  {
    FormattedValuesOfInputs(raw);
    InputKeysDistinct();
    var r := FormattedValues(raw).value;
    GetAt(r, j);
  }
}
