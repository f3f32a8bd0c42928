/** The sidebar's fixed, ordered input table and what is derived from it:
    the interactive keys and the callback's `changed_elements`. */
module Schema {
  import opened Wrappers
  import opened OrderedDicts

  /** The `"type"` of a table entry. A number field keeps its `percent` flag;
      the other widget bounds are handed to the UI only and are not modelled. */
  datatype Kind = Header | Number(percent: bool) | DateInput | Switch | Link

  /** The `"type"` string the table stores for each kind. */
  function KindName(k: Kind): string {
    match k
    case Header => "header"
    case Number(_) => "number"
    case DateInput => "date"
    case Switch => "switch"
    case Link => "link"
  }

  datatype Descriptor = Descriptor(key: string, kind: Kind)

  /** The `_INPUTS` table, in declaration order; each section opens with its header. */
  const Inputs: seq<Descriptor> :=
    HospitalSection + SpreadSection + SeveritySection + DisplaySection
    + [Descriptor("download_as_pdf_link", Link)]

  const HospitalSection: seq<Descriptor> := [
    Descriptor("hospital_parameters", Header),
    Descriptor("population", Number(false)),
    Descriptor("market_share", Number(true)),
    Descriptor("current_hospitalized", Number(false))
  ]

  const SpreadSection: seq<Descriptor> := [
    Descriptor("spread_parameters", Header),
    Descriptor("date_first_hospitalized", DateInput),
    Descriptor("doubling_time", Number(false)),
    Descriptor("relative_contact_rate", Number(true))
  ]

  const SeveritySection: seq<Descriptor> := SeverityRates + SeverityStays

  const SeverityRates: seq<Descriptor> := [
    Descriptor("severity_parameters", Header),
    Descriptor("hospitalized_rate", Number(true)),
    Descriptor("icu_rate", Number(true)),
    Descriptor("ventilated_rate", Number(true))
  ]

  const SeverityStays: seq<Descriptor> := [
    Descriptor("infectious_days", Number(false)),
    Descriptor("hospitalized_los", Number(false)),
    Descriptor("icu_los", Number(false)),
    Descriptor("ventilated_los", Number(false))
  ]

  const DisplaySection: seq<Descriptor> := [
    Descriptor("display_parameters", Header),
    Descriptor("n_days", Number(false)),
    Descriptor("current_date", DateInput),
    Descriptor("max_y_axis_value", Number(false)),
    Descriptor("show_tables", Switch),
    Descriptor("show_tool_details", Switch)
  ]

  function TableKeys(t: seq<Descriptor>): (ks: seq<string>)
    ensures |ks| == |t|
    ensures forall i :: 0 <= i < |t| ==> ks[i] == t[i].key
  {
    seq(|t|, i requires 0 <= i < |t| => t[i].key)
  }

  /** A kind that holds a form value. */
  predicate IsInteractive(k: Kind) {
    !(k.Header? || k.Link?)
  }

  /** The sidebar's test: the kind's name is not one of `("header", "link")`. */
  lemma InteractiveByName(k: Kind)
    ensures IsInteractive(k) <==> KindName(k) !in ["header", "link"]
  {
    assert "header" != "link" && "header"[0] == 'h';
    assert "number"[0] == 'n' && "date"[0] == 'd' && "switch"[0] == 's' && "link"[0] == 'l';
  }

  /** `get_ordered_input_keys`: the interactive keys, in table order. */
  function OrderedInputKeys(t: seq<Descriptor>): (ks: seq<string>)
    ensures |ks| <= |t|
    ensures |ks| == |t| <==> forall i :: 0 <= i < |t| ==> IsInteractive(t[i].kind)
  {
    if |t| == 0 then []
    else (if IsInteractive(t[0].kind) then [t[0].key] else []) + OrderedInputKeys(t[1..])
  }

  /** The interactive descriptors themselves, in table order. */
  function InteractiveInputs(t: seq<Descriptor>): (r: seq<Descriptor>)
    ensures |r| <= |t|
  {
    if |t| == 0 then []
    else (if IsInteractive(t[0].kind) then [t[0]] else []) + InteractiveInputs(t[1..])
  }

  /** `_INPUTS[key]["type"]`, or `None` for a key the table lacks. */
  function KindOf(t: seq<Descriptor>, key: string): (r: Option<Kind>)
    ensures r.Some? <==> key in TableKeys(t)
  {
    if |t| == 0 then None
    else if t[0].key == key then Some(t[0].kind)
    else KindOf(t[1..], key)
  }

  /** `_PROPERTY_OUTPUT_MAP`: which component property holds a kind's value. */
  const PropertyOutputMap: map<string, string> := map["number" := "value", "date" := "date"]

  /** `_PROPERTY_OUTPUT_MAP.get(kind, "value")`. */
  function PropertyFor(k: Kind): (r: string)
    ensures r == "date" || r == "value"
    ensures k.DateInput? ==> r == "date"
  {
    var name := KindName(k);
    if name in PropertyOutputMap then PropertyOutputMap[name] else "value"
  }

  /** The `(key, property)` pair `changed_elements` holds for a descriptor. */
  function Watched(d: Descriptor): Entry<string> {
    Entry(d.key, PropertyFor(d.kind))
  }

  /** The `changed_elements` ordered dict built in `Sidebar.__init__`: one
      watched pair per interactive descriptor, in table order. */
  function ChangedElements(t: seq<Descriptor>): (r: Dict<string>)
    ensures |r| == |InteractiveInputs(t)| && |r| <= |t|
    ensures forall j :: 0 <= j < |r| ==> r[j].val == "date" || r[j].val == "value"
  {
    var ds := InteractiveInputs(t);
    seq(|ds|, j requires 0 <= j < |ds| => Watched(ds[j]))
  }

  /** The interactive descriptors sit at the interactive positions, and
      their keys are the ordered input keys. */
  lemma {:induction false} InteractiveInputsAtPositions(t: seq<Descriptor>)
    ensures |InteractiveInputs(t)| == |InteractivePositions(t)|
    ensures forall j :: 0 <= j < |InteractiveInputs(t)| ==> InteractiveInputs(t)[j] == t[InteractivePositions(t)[j]]
    ensures TableKeys(InteractiveInputs(t)) == OrderedInputKeys(t)
  {
    OrderedInputKeysAtPositions(t);
    if |t| > 0 {
      var rest := InteractivePositions(t[1..]);
      InteractiveInputsAtPositions(t[1..]);
      var idx := InteractivePositions(t);
      var ds := InteractiveInputs(t);
      var h := if IsInteractive(t[0].kind) then 1 else 0;
      assert |idx| == h + |rest|;
      forall j | h <= j < |idx|
        ensures idx[j] == rest[j - h] + 1 && ds[j] == InteractiveInputs(t[1..])[j - h]
        ensures t[idx[j]] == t[1..][rest[j - h]]
      {
      }
    }
  }

  /** Looking up the key of an interactive descriptor finds its own kind. */
  lemma KindOfInteractive(t: seq<Descriptor>, j: nat)
    requires Distinct(TableKeys(t))
    requires j < |InteractiveInputs(t)|
    ensures KindOf(t, InteractiveInputs(t)[j].key) == Some(InteractiveInputs(t)[j].kind)
  {
    InteractiveInputsAtPositions(t);
    KindOfAt(t, InteractivePositions(t)[j]);
  }

  /** With distinct keys, looking up the key of entry `i` finds its kind. */
  lemma {:induction false} KindOfAt(t: seq<Descriptor>, i: nat)
    requires Distinct(TableKeys(t))
    requires i < |t|
    ensures KindOf(t, t[i].key) == Some(t[i].kind)
  {
    if i > 0 {
      assert TableKeys(t[1..]) == TableKeys(t)[1..];
      assert t[0].key != t[i].key;
      KindOfAt(t[1..], i - 1);
    }
  }

  /** The table positions of the interactive entries, in table order. */
  function InteractivePositions(t: seq<Descriptor>): (idx: seq<nat>)
    ensures forall j :: 0 <= j < |idx| ==> idx[j] < |t|
  {
    if |t| == 0 then []
    else (if IsInteractive(t[0].kind) then [0] else []) + Shift(InteractivePositions(t[1..]))
  }

  /** Each position moved one place right. */
  function Shift(idx: seq<nat>): (r: seq<nat>)
    ensures |r| == |idx|
    ensures forall j :: 0 <= j < |idx| ==> r[j] == idx[j] + 1
  {
    seq(|idx|, j requires 0 <= j < |idx| => idx[j] + 1)
  }

  /** The ordered keys are read off the interactive positions, one for one. */
  lemma {:induction false} OrderedInputKeysAtPositions(t: seq<Descriptor>)
    ensures |InteractivePositions(t)| == |OrderedInputKeys(t)|
    ensures forall j :: 0 <= j < |OrderedInputKeys(t)| ==>
      t[InteractivePositions(t)[j]].key == OrderedInputKeys(t)[j]
      && IsInteractive(t[InteractivePositions(t)[j]].kind)
  {
    if |t| > 0 {
      var rest := InteractivePositions(t[1..]);
      OrderedInputKeysAtPositions(t[1..]);
      var idx := InteractivePositions(t);
      var ks := OrderedInputKeys(t);
      var h := if IsInteractive(t[0].kind) then 1 else 0;
      assert |idx| == h + |rest|;
      forall j | h <= j < |idx|
        ensures idx[j] == rest[j - h] + 1 && ks[j] == OrderedInputKeys(t[1..])[j - h]
        ensures t[idx[j]] == t[1..][rest[j - h]]
      {
      }
    }
  }

  /** The interactive positions strictly increase: table order is kept. */
  lemma {:induction false} InteractivePositionsIncrease(t: seq<Descriptor>)
    ensures forall j, j' :: 0 <= j < j' < |InteractivePositions(t)| ==>
      InteractivePositions(t)[j] < InteractivePositions(t)[j']
  {
    if |t| > 0 {
      InteractivePositionsIncrease(t[1..]);
    }
  }

  /** Every interactive entry of the table has its position listed. */
  lemma {:induction false} InteractivePositionsComplete(t: seq<Descriptor>, i: nat)
    requires i < |t| && IsInteractive(t[i].kind)
    ensures i in InteractivePositions(t)
  {
    var idx := InteractivePositions(t);
    if i == 0 {
      assert idx[0] == 0;
    } else {
      var rest := InteractivePositions(t[1..]);
      assert t[1..][i - 1] == t[i];
      InteractivePositionsComplete(t[1..], i - 1);
      var j :| 0 <= j < |rest| && rest[j] == i - 1;
      if IsInteractive(t[0].kind) {
        assert idx == [0] + Shift(rest);
        assert idx[j + 1] == i;
      } else {
        assert idx == Shift(rest);
        assert idx[j] == i;
      }
    }
  }

  /** Every ordered key is a table key of an interactive kind. */
  lemma KindOfOrderedKey(t: seq<Descriptor>, j: nat)
    requires Distinct(TableKeys(t))
    requires j < |OrderedInputKeys(t)|
    ensures KindOf(t, OrderedInputKeys(t)[j]).Some?
    ensures IsInteractive(KindOf(t, OrderedInputKeys(t)[j]).value)
  {
    OrderedInputKeysAtPositions(t);
    KindOfAt(t, InteractivePositions(t)[j]);
  }

  /** `changed_elements` has one entry per interactive position, in order. */
  lemma ChangedElementsAtPositions(t: seq<Descriptor>)
    ensures |ChangedElements(t)| == |InteractivePositions(t)|
    ensures forall j :: 0 <= j < |ChangedElements(t)| ==>
      ChangedElements(t)[j] == Watched(t[InteractivePositions(t)[j]])
  {
    InteractiveInputsAtPositions(t);
  }

  /** The component property for each kind: `"date"` for date pickers, the
      `"value"` default for every other kind. */
  lemma PropertyForKind(k: Kind)
    ensures PropertyFor(k) == if k == DateInput then "date" else "value"
  {
    assert "header" != "number" && "header" != "date";
    assert "switch" != "number" && "switch" != "date";
    assert "link" != "number" && "link" != "date";
  }

  /** The callback's `changed_elements` lists exactly the ordered input keys,
      in the same order, reading `"date"` from date pickers and `"value"` from
      every other interactive field, switches included. This is what lines the
      raw form values up with `get_ordered_input_keys` position by position. */
  lemma ChangedElementsAligned(t: seq<Descriptor>)
    requires Distinct(TableKeys(t))
    ensures Keys(ChangedElements(t)) == OrderedInputKeys(t)
    ensures forall j :: 0 <= j < |ChangedElements(t)| ==>
      ChangedElements(t)[j].val == (if KindOf(t, ChangedElements(t)[j].key) == Some(DateInput) then "date" else "value")
  {
    ChangedElementsAtPositions(t);
    OrderedInputKeysAtPositions(t);
    var ce := ChangedElements(t);
    var idx := InteractivePositions(t);
    forall j | 0 <= j < |ce|
      ensures ce[j].val == (if KindOf(t, ce[j].key) == Some(DateInput) then "date" else "value")
    {
      KindOfAt(t, idx[j]);
      PropertyForKind(t[idx[j]].kind);
    }
  }

  /** A fingerprint of a key: `length * 10^6 + first char * 10^3 + second char`.
      No two of the table's 23 keys agree on all three, so distinct codes give
      distinct keys; comparing 23 numbers replaces comparing 253 pairs of
      strings character by character. */
  function KeyCode(k: string): int {
    if |k| < 2 then |k| else |k| * 1000000 + k[0] as int * 1000 + k[1] as int
  }

  predicate DistinctInts(xs: seq<int>) {
    forall i, j :: 0 <= i < j < |xs| ==> xs[i] != xs[j]
  }

  function KeyCodes(ks: seq<string>): (codes: seq<int>)
    ensures |codes| == |ks|
    ensures forall i :: 0 <= i < |ks| ==> codes[i] == KeyCode(ks[i])
  {
    seq(|ks|, i requires 0 <= i < |ks| => KeyCode(ks[i]))
  }

  /** Keys whose codes differ are distinct. */
  lemma DistinctByCode(ks: seq<string>)
    requires DistinctInts(KeyCodes(ks))
    ensures Distinct(ks)
  {
    var codes := KeyCodes(ks);
    forall i, j | 0 <= i < j < |ks| ensures ks[i] != ks[j] {
      assert codes[i] != codes[j];
    }
  }

  lemma KeyCodesAppend(a: seq<string>, b: seq<string>)
    ensures KeyCodes(a + b) == KeyCodes(a) + KeyCodes(b)
  {
  }

  /** Two lists of distinct numbers with nothing in common join into one. */
  lemma DistinctIntsAppend(a: seq<int>, b: seq<int>)
    requires DistinctInts(a) && DistinctInts(b)
    requires forall i, j :: 0 <= i < |a| && 0 <= j < |b| ==> a[i] != b[j]
    ensures DistinctInts(a + b)
  {
    var c := a + b;
    forall i, j | 0 <= i < j < |c|
      ensures c[i] != c[j]
    {
      if j < |a| {
        assert c[i] == a[i] && c[j] == a[j];
      } else if i < |a| {
        assert c[i] == a[i] && c[j] == b[j - |a|];
      } else {
        assert c[i] == b[i - |a|] && c[j] == b[j - |a|];
      }
    }
  }

  const InputsKeyList: seq<string> := KeysUpToSeverity + KeysFromSeverity
  const KeysUpToSeverity: seq<string> := [
    "hospital_parameters", "population", "market_share", "current_hospitalized",
    "spread_parameters", "date_first_hospitalized", "doubling_time", "relative_contact_rate",
    "severity_parameters", "hospitalized_rate", "icu_rate", "ventilated_rate"]
  const KeysFromSeverity: seq<string> := [
    "infectious_days", "hospitalized_los", "icu_los", "ventilated_los",
    "display_parameters", "n_days", "current_date", "max_y_axis_value",
    "show_tables", "show_tool_details", "download_as_pdf_link"]

  /** The fingerprints of the concrete table's keys, in table order; the two
      `Computed` lemmas below check them against `KeyCode`. `hospital_parameters`,
      for one, has 19 characters and starts with `h` (104) and `o` (111). */
  const CodesUpToSeverity: seq<int> := [
    19104111, 10112111, 12109097, 20099117, 17115112, 23100097, 13100111, 21114101,
    19115101, 17104111, 8105099, 15118101]
  const CodesFromSeverity: seq<int> := [
    15105110, 16104111, 7105099, 14118101,
    18100105, 6110095, 12099117, 16109097, 11115104, 17115104, 20100111]

  lemma CodesUpToSeverityComputed()
    ensures KeyCodes(KeysUpToSeverity) == CodesUpToSeverity
  {
  }

  lemma CodesFromSeverityComputed()
    ensures KeyCodes(KeysFromSeverity) == CodesFromSeverity
  {
  }

  lemma CodesUpToSeverityDistinct()
    ensures DistinctInts(CodesUpToSeverity)
  {
  }

  lemma CodesFromSeverityDistinct()
    ensures DistinctInts(CodesFromSeverity)
  {
  }

  lemma CodesApart()
    ensures forall i, j :: 0 <= i < |CodesUpToSeverity| && 0 <= j < |CodesFromSeverity| ==>
      CodesUpToSeverity[i] != CodesFromSeverity[j]
  {
  }

  lemma InputsKeyCodes()
    ensures DistinctInts(KeyCodes(InputsKeyList))
  {
    KeyCodesAppend(KeysUpToSeverity, KeysFromSeverity);
    CodesUpToSeverityComputed();
    CodesFromSeverityComputed();
    CodesUpToSeverityDistinct();
    CodesFromSeverityDistinct();
    CodesApart();
    DistinctIntsAppend(CodesUpToSeverity, CodesFromSeverity);
  }

  /** The 23 keys of the concrete table, in declaration order. */
  lemma InputsTableKeys()
    ensures TableKeys(Inputs) == InputsKeyList
  {
  }

  /** The concrete table has distinct keys, as any `OrderedDict` does. */
  lemma InputsHaveDistinctKeys()
    ensures TableKeys(Inputs) == InputsKeyList
    ensures Distinct(TableKeys(Inputs))
  {
    InputsTableKeys();
    InputsKeyCodes();
    DistinctByCode(InputsKeyList);
  }

  /** The eighteen interactive keys of the concrete table, section by section. */
  const InputKeys: seq<string> := HospitalKeys + SpreadKeys + SeverityKeys + DisplayKeys

  const HospitalKeys: seq<string> := ["population", "market_share", "current_hospitalized"]
  const SpreadKeys: seq<string> := ["date_first_hospitalized", "doubling_time", "relative_contact_rate"]
  const SeverityKeys: seq<string> := [
    "hospitalized_rate", "icu_rate", "ventilated_rate",
    "infectious_days", "hospitalized_los", "icu_los", "ventilated_los"]
  const DisplayKeys: seq<string> := [
    "n_days", "current_date", "max_y_axis_value", "show_tables", "show_tool_details"]

  /** The eighteen interactive descriptors of the concrete table: each
      section without its header. */
  const InteractiveList: seq<Descriptor> :=
    HospitalSection[1..] + SpreadSection[1..] + SeveritySection[1..] + DisplaySection[1..]

  lemma {:induction false} InteractiveInputsAppend(a: seq<Descriptor>, b: seq<Descriptor>)
    ensures InteractiveInputs(a + b) == InteractiveInputs(a) + InteractiveInputs(b)
  {
    if |a| > 0 {
      assert (a + b)[1..] == a[1..] + b;
      InteractiveInputsAppend(a[1..], b);
    } else {
      assert a + b == b;
    }
  }

  lemma HospitalSectionInputs()
    ensures InteractiveInputs(HospitalSection) == HospitalSection[1..]
  {
  }

  lemma SpreadSectionInputs()
    ensures InteractiveInputs(SpreadSection) == SpreadSection[1..]
  {
  }

  lemma SeveritySectionInputs()
    ensures InteractiveInputs(SeveritySection) == SeveritySection[1..]
  {
    InteractiveInputsAppend(SeverityRates, SeverityStays);
    assert InteractiveInputs(SeverityRates) == SeverityRates[1..];
    assert InteractiveInputs(SeverityStays) == SeverityStays;
    assert SeveritySection[1..] == SeverityRates[1..] + SeverityStays;
  }

  lemma DisplaySectionInputs()
    ensures InteractiveInputs(DisplaySection) == DisplaySection[1..]
  {
  }

  lemma InputsInteractive()
    ensures InteractiveInputs(Inputs) == InteractiveList
  {
    var link := [Descriptor("download_as_pdf_link", Link)];
    var a := HospitalSection + SpreadSection;
    var b := a + SeveritySection;
    var c := b + DisplaySection;
    HospitalSectionInputs();
    SpreadSectionInputs();
    SeveritySectionInputs();
    DisplaySectionInputs();
    InteractiveInputsAppend(HospitalSection, SpreadSection);
    InteractiveInputsAppend(a, SeveritySection);
    InteractiveInputsAppend(b, DisplaySection);
    InteractiveInputsAppend(c, link);
    assert InteractiveInputs(link) == [];
    assert InteractiveInputs(Inputs) == InteractiveList + [];
  }

  /** Where the kinds sit among the eighteen interactive fields: the two date
      pickers at positions 3 and 14, the two switches at 16 and 17, and a
      number field everywhere else. */
  lemma InteractiveListKinds()
    ensures |InteractiveList| == 18
    ensures InteractiveList[3].kind == DateInput && InteractiveList[14].kind == DateInput
    ensures InteractiveList[16].kind == Switch && InteractiveList[17].kind == Switch
    ensures forall j :: 0 <= j < 18 && j != 3 && j != 14 && j != 16 && j != 17 ==> InteractiveList[j].kind.Number?
  {
  }

  /** Each of the eighteen ordered keys is looked up to its own kind. */
  lemma InputKinds()
    ensures |InteractiveList| == 18
    ensures forall j :: 0 <= j < 18 ==>
      InputKeys[j] == InteractiveList[j].key && KindOf(Inputs, InputKeys[j]) == Some(InteractiveList[j].kind)
  {
    InputsInteractive();
    InteractiveListKinds();
    InteractiveInputsAtPositions(Inputs);
    InputsOrderedKeys();
    InputsHaveDistinctKeys();
    forall j | 0 <= j < 18
      ensures InputKeys[j] == InteractiveList[j].key && KindOf(Inputs, InputKeys[j]) == Some(InteractiveList[j].kind)
    {
      assert InputKeys[j] == TableKeys(InteractiveList)[j];
      KindOfInteractive(Inputs, j);
    }
  }

  /** Filtering a concatenation filters each part. */
  lemma {:induction false} OrderedInputKeysAppend(a: seq<Descriptor>, b: seq<Descriptor>)
    ensures OrderedInputKeys(a + b) == OrderedInputKeys(a) + OrderedInputKeys(b)
  {
    if |a| > 0 {
      assert (a + b)[1..] == a[1..] + b;
      OrderedInputKeysAppend(a[1..], b);
    } else {
      assert a + b == b;
    }
  }

  lemma HospitalSectionKeys()
    ensures OrderedInputKeys(HospitalSection) == HospitalKeys
  {
  }

  lemma SpreadSectionKeys()
    ensures OrderedInputKeys(SpreadSection) == SpreadKeys
  {
  }

  lemma SeveritySectionKeys()
    ensures OrderedInputKeys(SeveritySection) == SeverityKeys
  {
    OrderedInputKeysAppend(SeverityRates, SeverityStays);
    assert OrderedInputKeys(SeverityRates) == SeverityKeys[..3];
    assert OrderedInputKeys(SeverityStays) == SeverityKeys[3..];
  }

  lemma DisplaySectionKeys()
    ensures OrderedInputKeys(DisplaySection) == DisplayKeys
  {
  }

  lemma InputsOrderedKeys()
    ensures OrderedInputKeys(Inputs) == InputKeys
    ensures |InputKeys| == 18
    ensures InputKeys[0] == "population" && InputKeys[17] == "show_tool_details"
  {
    var link := [Descriptor("download_as_pdf_link", Link)];
    var a := HospitalSection + SpreadSection;
    var b := a + SeveritySection;
    var c := b + DisplaySection;
    HospitalSectionKeys();
    SpreadSectionKeys();
    SeveritySectionKeys();
    DisplaySectionKeys();
    OrderedInputKeysAppend(HospitalSection, SpreadSection);
    var ka := OrderedInputKeys(HospitalSection) + OrderedInputKeys(SpreadSection);
    OrderedInputKeysAppend(a, SeveritySection);
    var kb := ka + OrderedInputKeys(SeveritySection);
    OrderedInputKeysAppend(b, DisplaySection);
    var kc := kb + OrderedInputKeys(DisplaySection);
    OrderedInputKeysAppend(c, link);
    assert OrderedInputKeys(link) == [];
    assert OrderedInputKeys(Inputs) == kc + [];
  }

  /** With distinct table keys, the ordered input keys are distinct too. */
  lemma OrderedInputKeysDistinct(t: seq<Descriptor>)
    requires Distinct(TableKeys(t))
    ensures Distinct(OrderedInputKeys(t))
  {
    OrderedInputKeysAtPositions(t);
    InteractivePositionsIncrease(t);
    var idx := InteractivePositions(t);
    var ks := OrderedInputKeys(t);
    forall i, j | 0 <= i < j < |ks| ensures ks[i] != ks[j] {
      assert ks[i] == TableKeys(t)[idx[i]];
      assert ks[j] == TableKeys(t)[idx[j]];
    }
  }

  /** The positions of the two display fields `update_parameters` reads. */
  lemma DisplayKeysAt()
    ensures InputKeys[13] == "n_days" && InputKeys[15] == "max_y_axis_value"
  {
    assert InputKeys[13..] == DisplayKeys;
  }

  /** The interactive keys of the concrete table are distinct. */
  lemma InputKeysDistinct()
    ensures Distinct(InputKeys)
  {
    InputsOrderedKeys();
    InputsHaveDistinctKeys();
    OrderedInputKeysDistinct(Inputs);
  }

  /** A key with no query delimiter that the download link does not drop. */
  predicate PlainKey(k: string) {
    '&' !in k && '=' !in k && k != "model" && k != "pars"
  }

  predicate AllPlainKeys(ks: seq<string>) {
    forall j :: 0 <= j < |ks| ==> PlainKey(ks[j])
  }

  lemma AllPlainKeysAppend(a: seq<string>, b: seq<string>)
    requires AllPlainKeys(a) && AllPlainKeys(b)
    ensures AllPlainKeys(a + b)
  {
    forall j | 0 <= j < |a + b|
      ensures PlainKey((a + b)[j])
    {
      if j >= |a| {
        assert (a + b)[j] == b[j - |a|];
      }
    }
  }

  lemma HospitalKeysPlain()
    ensures AllPlainKeys(HospitalKeys)
  {
  }

  lemma SpreadKeysPlain()
    ensures AllPlainKeys(SpreadKeys)
  {
  }

  lemma SeverityKeysPlain()
    ensures AllPlainKeys(SeverityKeys)
  {
  }

  lemma DisplayKeysPlain()
    ensures AllPlainKeys(DisplayKeys)
  {
  }


  /** No key of the concrete table contains a query delimiter or names a
      key the download link drops. */
  lemma InputKeysPlain()
    ensures AllPlainKeys(InputKeys)
  {
    HospitalKeysPlain();
    SpreadKeysPlain();
    SeverityKeysPlain();
    DisplayKeysPlain();
    AllPlainKeysAppend(HospitalKeys, SpreadKeys);
    AllPlainKeysAppend(HospitalKeys + SpreadKeys, SeverityKeys);
    AllPlainKeysAppend(HospitalKeys + SpreadKeys + SeverityKeys, DisplayKeys);
  }
}
