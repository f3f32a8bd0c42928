/** `Sidebar.update_parameters`: the coerced form values assembled into the
    model's `Parameters` record. */
module Assembly {
  import opened Wrappers
  import opened Values
  import opened OrderedDicts
  import opened Schema
  import opened Coercion

  /** A cohort's `(rate, length of stay)`: the rate as a fraction of one. */
  datatype Disposition = Disposition(rate: real, days: Value)

  /** The keyword arguments `update_parameters` passes to `Parameters(...)`; a field
      set to Python's `None` holds `Plain(Null)`. */
  datatype Parameters = Parameters(
    population: Value,
    current_hospitalized: Value,
    date_first_hospitalized: Value,
    doubling_time: Value,
    hospitalized: Disposition,
    icu: Disposition,
    infectious_days: Value,
    market_share: real,
    n_days: Value,
    relative_contact_rate: real,
    ventilated: Disposition,
    max_y_axis: Value)

  /** The entries `update_parameters` reads from the coerced dictionary,
      each `None` when its key is absent. */
  datatype Fields = Fields(
    population: Option<Value>,
    market_share: Option<Value>,
    current_hospitalized: Option<Value>,
    date_first_hospitalized: Option<Value>,
    doubling_time: Option<Value>,
    relative_contact_rate: Option<Value>,
    hospitalized_rate: Option<Value>,
    icu_rate: Option<Value>,
    ventilated_rate: Option<Value>,
    infectious_days: Option<Value>,
    hospitalized_los: Option<Value>,
    icu_los: Option<Value>,
    ventilated_los: Option<Value>,
    n_days: Option<Value>,
    max_y_axis_value: Option<Value>)

  /** The dictionary's entries under the keys `update_parameters` names. */
  function FieldsOf(d: Dict<Value>): (f: Fields)
    ensures f.population == Get(d, "population")
    ensures f.market_share == Get(d, "market_share")
    ensures f.current_hospitalized == Get(d, "current_hospitalized")
    ensures f.date_first_hospitalized == Get(d, "date_first_hospitalized")
    ensures f.doubling_time == Get(d, "doubling_time")
    ensures f.relative_contact_rate == Get(d, "relative_contact_rate")
    ensures f.hospitalized_rate == Get(d, "hospitalized_rate")
    ensures f.icu_rate == Get(d, "icu_rate")
    ensures f.ventilated_rate == Get(d, "ventilated_rate")
    ensures f.infectious_days == Get(d, "infectious_days")
    ensures f.hospitalized_los == Get(d, "hospitalized_los")
    ensures f.icu_los == Get(d, "icu_los")
    ensures f.ventilated_los == Get(d, "ventilated_los")
    ensures f.n_days == Get(d, "n_days")
    ensures f.max_y_axis_value == Get(d, "max_y_axis_value")
  {
    Fields(
      population := Get(d, "population"),
      market_share := Get(d, "market_share"),
      current_hospitalized := Get(d, "current_hospitalized"),
      date_first_hospitalized := Get(d, "date_first_hospitalized"),
      doubling_time := Get(d, "doubling_time"),
      relative_contact_rate := Get(d, "relative_contact_rate"),
      hospitalized_rate := Get(d, "hospitalized_rate"),
      icu_rate := Get(d, "icu_rate"),
      ventilated_rate := Get(d, "ventilated_rate"),
      infectious_days := Get(d, "infectious_days"),
      hospitalized_los := Get(d, "hospitalized_los"),
      icu_los := Get(d, "icu_los"),
      ventilated_los := Get(d, "ventilated_los"),
      n_days := Get(d, "n_days"),
      max_y_axis_value := Get(d, "max_y_axis_value"))
  }

  /** `inputs_dict[key]`, raising `KeyError` when the key is absent. */
  function Need(o: Option<Value>, key: string): (r: Result<Value, Error>)
    ensures r.Ok? <==> o.Some?
    ensures r.Ok? ==> o == Some(r.value)
    ensures r.Err? ==> r.error == MissingKey(key)
  {
    match o
    case Some(v) => Ok(v)
    case None => Err(MissingKey(key))
  }

  /** `inputs_dict[key] / 100`, raising `TypeError` for a non-number. */
  function Percent(o: Option<Value>, key: string): (r: Result<real, Error>)
    ensures r.Ok? <==> o.Some? && AsNumber(o.value).Some?
    ensures r.Ok? ==> r.value == AsNumber(o.value).value / 100.0
    ensures o.None? ==> r == Err(MissingKey(key))
    ensures o.Some? && AsNumber(o.value).None? ==> r == Err(NotANumber(key))
  {
    var v :- Need(o, key);
    match AsNumber(v)
    case Some(x) => Ok(x / 100.0)
    case None => Err(NotANumber(key))
  }

  /** A field present and holding something `/ 100` accepts. */
  predicate Numeric(o: Option<Value>) {
    o.Some? && AsNumber(o.value).Some?
  }

  /** The body of `update_parameters` after `get_formated_values`: the
      spread drivers `dt` and `dfh` first (the date looked up only when the
      doubling time is falsy), then the keyword arguments in the order the
      call writes them, each cohort's rate before its length of stay. */
  function AssembleFields(f: Fields): (r: Result<Parameters, Error>)
    ensures r.Err? ==> r.error.MissingKey? || r.error.NotANumber?
  {
    var doubling :- Need(f.doubling_time, "doubling_time");
    var dt := if Truthy(doubling) then doubling else PyNone;
    var dfh :- if !Truthy(dt) then Need(f.date_first_hospitalized, "date_first_hospitalized") else Ok(PyNone);
    var population :- Need(f.population, "population");
    var currentHospitalized :- Need(f.current_hospitalized, "current_hospitalized");
    var hospitalizedRate :- Percent(f.hospitalized_rate, "hospitalized_rate");
    var hospitalizedLos :- Need(f.hospitalized_los, "hospitalized_los");
    var icuRate :- Percent(f.icu_rate, "icu_rate");
    var icuLos :- Need(f.icu_los, "icu_los");
    var infectiousDays :- Need(f.infectious_days, "infectious_days");
    var marketShare :- Percent(f.market_share, "market_share");
    var nDays :- Need(f.n_days, "n_days");
    var relativeContactRate :- Percent(f.relative_contact_rate, "relative_contact_rate");
    var ventilatedRate :- Percent(f.ventilated_rate, "ventilated_rate");
    var ventilatedLos :- Need(f.ventilated_los, "ventilated_los");
    Ok(Parameters(
      population := population,
      current_hospitalized := currentHospitalized,
      date_first_hospitalized := dfh,
      doubling_time := dt,
      hospitalized := Disposition(hospitalizedRate, hospitalizedLos),
      icu := Disposition(icuRate, icuLos),
      infectious_days := infectiousDays,
      market_share := marketShare,
      n_days := nDays,
      relative_contact_rate := relativeContactRate,
      ventilated := Disposition(ventilatedRate, ventilatedLos),
      max_y_axis := match f.max_y_axis_value case Some(v) => v case None => PyNone))
  }

  function AssembleParameters(d: Dict<Value>): Result<Parameters, Error> {
    AssembleFields(FieldsOf(d))
  }

  /** `Sidebar.update_parameters(*input_values)`; the final
      `parameters_serializer` call is not part of this model. */
  function UpdateParameters(raw: seq<Raw>): (r: Result<Parameters, Error>)
    ensures FormattedValues(raw).Err? ==> r == Err(FormattedValues(raw).error)
    ensures r.Ok? ==> FormattedValues(raw).Ok?
    ensures r.Err? && r.error.NotANumber? ==> FormattedValues(raw).Ok?
  {
    var d :- FormattedValues(raw);
    AssembleParameters(d)
  }

  // ---------------------------------------------------------------------
  // Properties of the assembly.

  /** The two spread drivers exclude each other: at least one of
      `doubling_time` and `date_first_hospitalized` reaches the record as
      `None`. */
  lemma SpreadDriverExclusive(f: Fields)
    requires AssembleFields(f).Ok?
    ensures var p := AssembleFields(f).value;
      p.doubling_time == PyNone || p.date_first_hospitalized == PyNone
  {
  }

  /** A truthy doubling time is passed on and the first-hospitalized date
      is dropped; otherwise the doubling time is dropped and the coerced
      date passes through. */
  lemma SpreadDriverChoice(f: Fields)
    requires AssembleFields(f).Ok?
    ensures f.doubling_time.Some?
    ensures var p := AssembleFields(f).value;
      && (Truthy(f.doubling_time.value) ==>
            p.doubling_time == f.doubling_time.value && p.date_first_hospitalized == PyNone)
      && (!Truthy(f.doubling_time.value) ==>
            p.doubling_time == PyNone && f.date_first_hospitalized == Some(p.date_first_hospitalized))
  {
  }

  /** Each percent field reaches the record divided by 100 and each cohort
      rate is paired with its own length of stay. */
  lemma AssemblyRates(f: Fields)
    requires AssembleFields(f).Ok?
    ensures Numeric(f.market_share) && Numeric(f.relative_contact_rate)
    ensures Numeric(f.hospitalized_rate) && Numeric(f.icu_rate) && Numeric(f.ventilated_rate)
    ensures var p := AssembleFields(f).value;
      && p.market_share == AsNumber(f.market_share.value).value / 100.0
      && p.relative_contact_rate == AsNumber(f.relative_contact_rate.value).value / 100.0
      && p.hospitalized.rate == AsNumber(f.hospitalized_rate.value).value / 100.0
      && p.icu.rate == AsNumber(f.icu_rate.value).value / 100.0
      && p.ventilated.rate == AsNumber(f.ventilated_rate.value).value / 100.0
      && f.hospitalized_los == Some(p.hospitalized.days)
      && f.icu_los == Some(p.icu.days)
      && f.ventilated_los == Some(p.ventilated.days)
  {
  }

  /** `max_y_axis` is the optional `max_y_axis_value` and the remaining
      fields are copied unchanged. */
  lemma AssemblyCopies(f: Fields)
    requires AssembleFields(f).Ok?
    ensures var p := AssembleFields(f).value;
      && f.population == Some(p.population)
      && f.current_hospitalized == Some(p.current_hospitalized)
      && f.infectious_days == Some(p.infectious_days)
      && f.n_days == Some(p.n_days)
      && p.max_y_axis == (if f.max_y_axis_value.Some? then f.max_y_axis_value.value else PyNone)
  {
  }

  /** Every field assembly reads with `[...]` is present (the
      first-hospitalized date only when the doubling time is falsy) and the
      five percent fields hold numbers; `max_y_axis_value` may be absent. */
  predicate Assemblable(f: Fields) {
    && f.doubling_time.Some?
    && (!Truthy(f.doubling_time.value) ==> f.date_first_hospitalized.Some?)
    && f.population.Some?
    && f.current_hospitalized.Some?
    && f.hospitalized_los.Some?
    && f.icu_los.Some?
    && f.infectious_days.Some?
    && f.n_days.Some?
    && f.ventilated_los.Some?
    && Numeric(f.market_share)
    && Numeric(f.relative_contact_rate)
    && Numeric(f.hospitalized_rate)
    && Numeric(f.icu_rate)
    && Numeric(f.ventilated_rate)
  }

  /** Assembly raises nothing exactly when the fields are assemblable. */
  lemma AssemblySucceeds(f: Fields)
    ensures AssembleFields(f).Ok? <==> Assemblable(f)
  {
  }

  /** A missing doubling time is the first error raised: `KeyError` on
      `doubling_time`, before any other field is read. */
  lemma MissingDoublingTimeFirst(f: Fields)
    requires f.doubling_time.None?
    ensures AssembleFields(f) == Err(MissingKey("doubling_time"))
  {
  }

  // ---------------------------------------------------------------------
  // End to end: `update_parameters` in terms of the raw form positions
  // (0 population, 1 market_share, 2 current_hospitalized,
  // 3 date_first_hospitalized, 4 doubling_time, 5 relative_contact_rate,
  // 6 hospitalized_rate, 7 icu_rate, 8 ventilated_rate, 9 infectious_days,
  // 10-12 the three lengths of stay, 13 n_days, 14 current_date,
  // 15 max_y_axis_value, 16-17 the two switches).

  /** The coerced value of form position `j`. */
  function Coerced(raw: seq<Raw>, j: nat): Value
    requires j < 18 && j < |raw|
  {
    match CoerceValue(InteractiveList[j].kind, InputKeys[j], Plain(raw[j]))
    case Ok(v) => v
    case Err(_) => PyNone
  }

  /** After a successful coercion, the fields assembly reads are the form
      values at their positions, the first-hospitalized date coerced and
      the numbers untouched. */
  lemma FormFields(raw: seq<Raw>)
    requires FormattedValues(raw).Ok?
    ensures |raw| >= 18
    ensures FieldsOf(FormattedValues(raw).value) == Fields(
      population := Some(Plain(raw[0])),
      market_share := Some(Plain(raw[1])),
      current_hospitalized := Some(Plain(raw[2])),
      date_first_hospitalized := Some(Coerced(raw, 3)),
      doubling_time := Some(Plain(raw[4])),
      relative_contact_rate := Some(Plain(raw[5])),
      hospitalized_rate := Some(Plain(raw[6])),
      icu_rate := Some(Plain(raw[7])),
      ventilated_rate := Some(Plain(raw[8])),
      infectious_days := Some(Plain(raw[9])),
      hospitalized_los := Some(Plain(raw[10])),
      icu_los := Some(Plain(raw[11])),
      ventilated_los := Some(Plain(raw[12])),
      n_days := Some(Plain(raw[13])),
      max_y_axis_value := Some(Plain(raw[15])))
  {
    InteractiveListKinds();
    FormHospitalFields(raw);
    FormSpreadFields(raw);
    FormSeverityFields(raw);
    FormDisplayFields(raw);
  }

  /** A number field of the form reaches the dictionary untouched. */
  lemma FormNumberAt(raw: seq<Raw>, j: nat)
    requires FormattedValues(raw).Ok?
    requires j < 18 && j != 3 && j != 14 && j != 16 && j != 17
    ensures |raw| >= 18
    ensures Get(FormattedValues(raw).value, InputKeys[j]) == Some(Plain(raw[j]))
  {
    InteractiveListKinds();
    FormattedValueAt(raw, j);
  }

  lemma FormHospitalFields(raw: seq<Raw>)
    requires FormattedValues(raw).Ok?
    ensures |raw| >= 18
    ensures var d := FormattedValues(raw).value;
      && Get(d, "population") == Some(Plain(raw[0]))
      && Get(d, "market_share") == Some(Plain(raw[1]))
      && Get(d, "current_hospitalized") == Some(Plain(raw[2]))
  {
    FormNumberAt(raw, 0);
    FormNumberAt(raw, 1);
    FormNumberAt(raw, 2);
  }

  lemma FormSpreadFields(raw: seq<Raw>)
    requires FormattedValues(raw).Ok?
    ensures |raw| >= 18
    ensures var d := FormattedValues(raw).value;
      && Get(d, "date_first_hospitalized") == Some(Coerced(raw, 3))
      && Get(d, "doubling_time") == Some(Plain(raw[4]))
      && Get(d, "relative_contact_rate") == Some(Plain(raw[5]))
  {
    FormattedValueAt(raw, 3);
    FormNumberAt(raw, 4);
    FormNumberAt(raw, 5);
  }

  lemma FormSeverityFields(raw: seq<Raw>)
    requires FormattedValues(raw).Ok?
    ensures |raw| >= 18
    ensures var d := FormattedValues(raw).value;
      && Get(d, "hospitalized_rate") == Some(Plain(raw[6]))
      && Get(d, "icu_rate") == Some(Plain(raw[7]))
      && Get(d, "ventilated_rate") == Some(Plain(raw[8]))
      && Get(d, "infectious_days") == Some(Plain(raw[9]))
      && Get(d, "hospitalized_los") == Some(Plain(raw[10]))
      && Get(d, "icu_los") == Some(Plain(raw[11]))
      && Get(d, "ventilated_los") == Some(Plain(raw[12]))
  {
    FormNumberAt(raw, 6);
    FormNumberAt(raw, 7);
    FormNumberAt(raw, 8);
    FormNumberAt(raw, 9);
    FormNumberAt(raw, 10);
    FormNumberAt(raw, 11);
    FormNumberAt(raw, 12);
  }

  lemma FormDisplayFields(raw: seq<Raw>)
    requires FormattedValues(raw).Ok?
    ensures |raw| >= 18
    ensures var d := FormattedValues(raw).value;
      && Get(d, "n_days") == Some(Plain(raw[13]))
      && Get(d, "max_y_axis_value") == Some(Plain(raw[15]))
  {
    FormNumberAt(raw, 13);
    FormNumberAt(raw, 15);
    DisplayKeysAt();
  }

  /** `update_parameters` raises nothing exactly when the form supplies all
      eighteen values, both date fields are empty or ISO dates, and the five
      percent fields hold numbers. */
  lemma UpdateParametersSucceeds(raw: seq<Raw>)
    ensures UpdateParameters(raw).Ok? <==>
      && |raw| >= 18
      && DateAcceptable(Plain(raw[3])) && DateAcceptable(Plain(raw[14]))
      && AsNumber(Plain(raw[1])).Some? && AsNumber(Plain(raw[5])).Some?
      && AsNumber(Plain(raw[6])).Some? && AsNumber(Plain(raw[7])).Some?
      && AsNumber(Plain(raw[8])).Some?
  {
    FormattedValuesOfInputsSucceeds(raw);
    if FormattedValues(raw).Ok? {
      FormFields(raw);
      AssemblySucceeds(FieldsOf(FormattedValues(raw).value));
    }
  }

  /** The record's plain fields are the raw form values at their positions,
      and the five rates are the raw percent values divided by 100. */
  lemma UpdateParametersFields(raw: seq<Raw>)
    requires UpdateParameters(raw).Ok?
    ensures |raw| >= 18
    ensures var p := UpdateParameters(raw).value;
      && p.population == Plain(raw[0])
      && p.current_hospitalized == Plain(raw[2])
      && p.infectious_days == Plain(raw[9])
      && p.n_days == Plain(raw[13])
      && p.max_y_axis == Plain(raw[15])
      && p.hospitalized.days == Plain(raw[10])
      && p.icu.days == Plain(raw[11])
      && p.ventilated.days == Plain(raw[12])
    ensures var p := UpdateParameters(raw).value;
      && AsNumber(Plain(raw[1])).Some? && p.market_share == AsNumber(Plain(raw[1])).value / 100.0
      && AsNumber(Plain(raw[5])).Some? && p.relative_contact_rate == AsNumber(Plain(raw[5])).value / 100.0
      && AsNumber(Plain(raw[6])).Some? && p.hospitalized.rate == AsNumber(Plain(raw[6])).value / 100.0
      && AsNumber(Plain(raw[7])).Some? && p.icu.rate == AsNumber(Plain(raw[7])).value / 100.0
      && AsNumber(Plain(raw[8])).Some? && p.ventilated.rate == AsNumber(Plain(raw[8])).value / 100.0
  {
    var f := FieldsOf(FormattedValues(raw).value);
    FormFields(raw);
    AssemblyCopies(f);
    AssemblyRates(f);
  }

  /** The record's real-valued field filled from `inputs_dict[key] / 100`,
      if `key` names one. */
  function PercentField(p: Parameters, key: string): Option<real> {
    if key == "market_share" then Some(p.market_share)
    else if key == "relative_contact_rate" then Some(p.relative_contact_rate)
    else if key == "hospitalized_rate" then Some(p.hospitalized.rate)
    else if key == "icu_rate" then Some(p.icu.rate)
    else if key == "ventilated_rate" then Some(p.ventilated.rate)
    else None
  }

  /** The record's fields divided by 100 come from exactly the form
      positions the table flags `"percent": True`, each the raw value there
      divided by 100. */
  lemma UpdateParametersPercents(raw: seq<Raw>)
    requires UpdateParameters(raw).Ok?
    ensures |raw| >= 18
    ensures var p := UpdateParameters(raw).value;
      forall j :: 0 <= j < 18 ==>
        && (PercentField(p, InputKeys[j]).Some? <==> InteractiveList[j].kind == Number(true))
        && (PercentField(p, InputKeys[j]).Some? ==>
              AsNumber(Plain(raw[j])).Some? &&
              PercentField(p, InputKeys[j]).value == AsNumber(Plain(raw[j])).value / 100.0)
  {
    var p := UpdateParameters(raw).value;
    FormattedValuesOfInputsSucceeds(raw);
    forall j | 0 <= j < 18
      ensures PercentField(p, InputKeys[j]).Some? <==> InteractiveList[j].kind == Number(true)
      ensures PercentField(p, InputKeys[j]).Some? ==>
        AsNumber(Plain(raw[j])).Some? &&
        PercentField(p, InputKeys[j]).value == AsNumber(Plain(raw[j])).value / 100.0
    {
      PercentFieldAt(p, j);
      if PercentField(p, InputKeys[j]).Some? {
        PercentValueAt(raw, j);
      }
    }
  }

  /** The rate field at a percent position is the raw value there divided by 100. */
  lemma PercentValueAt(raw: seq<Raw>, j: nat)
    requires UpdateParameters(raw).Ok?
    requires j == 1 || j == 5 || j == 6 || j == 7 || j == 8
    ensures |raw| >= 18
    ensures var p := UpdateParameters(raw).value;
      && PercentField(p, InputKeys[j]).Some?
      && AsNumber(Plain(raw[j])).Some?
      && PercentField(p, InputKeys[j]).value == AsNumber(Plain(raw[j])).value / 100.0
  {
    UpdateParametersFields(raw);
    PercentFieldAt(UpdateParameters(raw).value, j);
  }

  /** Which record field the key at interactive position `j` fills by
      division, and the table's `percent` flag there. */
  lemma PercentFieldAt(p: Parameters, j: nat)
    requires j < 18
    ensures PercentField(p, InputKeys[j]).Some? <==> InteractiveList[j].kind == Number(true)
    ensures PercentField(p, InputKeys[j]).Some? <==> j == 1 || j == 5 || j == 6 || j == 7 || j == 8
    ensures j == 1 ==> PercentField(p, InputKeys[j]) == Some(p.market_share)
    ensures j == 5 ==> PercentField(p, InputKeys[j]) == Some(p.relative_contact_rate)
    ensures j == 6 ==> PercentField(p, InputKeys[j]) == Some(p.hospitalized.rate)
    ensures j == 7 ==> PercentField(p, InputKeys[j]) == Some(p.icu.rate)
    ensures j == 8 ==> PercentField(p, InputKeys[j]) == Some(p.ventilated.rate)
  {
    InteractiveListKinds();
  }

  /** A truthy doubling time on the form drives the spread and the date is
      dropped; otherwise the doubling time is dropped and the coerced
      first-hospitalized date is passed on. */
  lemma UpdateParametersSpread(raw: seq<Raw>)
    requires UpdateParameters(raw).Ok?
    ensures |raw| >= 18
    ensures var p := UpdateParameters(raw).value;
      && (RawTruthy(raw[4]) ==>
            p.doubling_time == Plain(raw[4]) && p.date_first_hospitalized == PyNone)
      && (!RawTruthy(raw[4]) ==>
            && p.doubling_time == PyNone
            && CoerceValue(DateInput, "date_first_hospitalized", Plain(raw[3])).Ok?
            && p.date_first_hospitalized ==
                 CoerceValue(DateInput, "date_first_hospitalized", Plain(raw[3])).value)
  {
    var f := FormSpread(raw);
    var p := UpdateParameters(raw).value;
    assert p == AssembleFields(f).value;
    SpreadDriverChoice(f);
  }

  /** The two fields the spread drivers are read from, after coercion. */
  lemma FormSpread(raw: seq<Raw>) returns (f: Fields)
    requires UpdateParameters(raw).Ok?
    ensures |raw| >= 18
    ensures f == FieldsOf(FormattedValues(raw).value)
    ensures UpdateParameters(raw) == AssembleFields(f)
    ensures f.doubling_time == Some(Plain(raw[4]))
    ensures CoerceValue(DateInput, "date_first_hospitalized", Plain(raw[3])).Ok?
    ensures f.date_first_hospitalized ==
      Some(CoerceValue(DateInput, "date_first_hospitalized", Plain(raw[3])).value)
  {
    f := FieldsOf(FormattedValues(raw).value);
    FormSpreadFields(raw);
    FirstHospitalizedCoerced(raw);
  }

  /** The date field at position 3 is coerced as the first-hospitalized date. */
  lemma FirstHospitalizedCoerced(raw: seq<Raw>)
    requires FormattedValues(raw).Ok?
    ensures |raw| >= 18
    ensures CoerceValue(DateInput, "date_first_hospitalized", Plain(raw[3])).Ok?
    ensures Coerced(raw, 3) == CoerceValue(DateInput, "date_first_hospitalized", Plain(raw[3])).value
  {
    FormattedValueAt(raw, 3);
    InteractiveListKinds();
    assert InputKeys[3] == SpreadKeys[0];
  }
}
