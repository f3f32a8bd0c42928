# CHIME dash sidebar: from form values to model parameters

The sidebar of the CHIME dash application (`src/chime_dash/app/pages/sidebar.py`)
turns the browser form into the inputs of the hospital-capacity model. This
project models that path and proves properties of it.

- **The input table `_INPUTS`** is an ordered table of 23 descriptors. There
  are four sections, each opened by a header and followed by number, date and
  switch fields, and a closing download link. `_PROPERTY_OUTPUT_MAP` names the
  widget property each field reports through. Both live in module `Schema`.
- **`get_ordered_input_keys`** gives the 18 keys of the table that are neither
  headers nor links, in table order. The form delivers its values in this order.
- **`get_formated_values`** zips those keys with the raw form values into a
  dict. It then walks the table and rewrites two kinds of field in place:
  - a switch becomes `True` exactly when its value equals `[True]`;
  - a truthy date string is parsed with `strptime("%Y-%m-%d")`.

  Both rewrites look their key up with `result[key]`, so a missing key raises
  `KeyError`. This is module `Coercion`, built on an insertion-ordered
  dictionary model (`OrderedDicts`).
- **`update_parameters`** reads the coerced dict into a `Parameters` record:
  - one spread driver: the doubling time when it is truthy, otherwise the
    first-hospitalized date;
  - five percentages divided by 100;
  - three (rate, length of stay) dispositions;
  - plain copies of the rest.

  This is module `Assembly`.
- **`get_download_as_pdf_link`** renders the coerced dict as
  `/download-as-pdf?key=val&…`. It skips the keys `model` and `pars` and the
  values that are `None`. This is module `DownloadLink`.
- **`changed_elements`** in `Sidebar.__init__` is the ordered dict from each
  interactive key to the property its callback watches (`Schema.ChangedElements`).

Python semantics are modelled explicitly. Truthiness, `==`, `/ 100` and `str()`
live in module `Values`; `strptime` and `isoformat` in `Dates`; `str.join` and
`str.split` in `Text`; `dict(zip(…))` in `OrderedDicts` and `Coercion.Zipped`:
- truthiness;
- `==` with `True == 1 == 1.0`;
- `/ 100` raising `TypeError` on anything but a bool, int or float;
- `str()` of ints, floats (in the shortest positional form, so `4.50` prints
  as `4.5`), booleans, `None`, lists and dates. The printed int, float and
  date each read back as the value printed; floats are read by
  `Values.ParseDecimal`, a reader of `[-]digits.digits` text;
- `str.join`, and the `str.split` that reads a link's query back;
- `dict(zip(…))`, which truncates to the shorter side and lets a repeated key
  keep its first position.

Exceptions become the `Coercion.Error` values below:

| exception | where it is raised | error value |
|---|---|---|
| `KeyError` | a dictionary lookup | `MissingKey` |
| `ValueError` | `strptime` | `BadDate` |
| `TypeError` | `strptime` | `NotAString` |
| `TypeError` | `/ 100` | `NotANumber` |

The coercion is defined over any table and then specialised to the concrete one.

A form whose value count differs from the 18 interactive fields is not
rejected up front:
- values beyond the 18th are silently dropped;
- with fewer values, `get_formated_values` fails. The loop raises `KeyError` at the first date or
  switch key that has no value, unless an earlier date value has already
  failed to parse.

`Coercion.FormattedValuesOfInputsSucceeds` and `Coercion.ShortFormMissingKey`
state the code's behaviour.

## Model

| member | source | states |
|---|---|---|
| `Schema.InteractiveByName` | src/chime_dash/app/pages/sidebar.py:123 | a descriptor is interactive exactly when its type name is not `"header"` or `"link"` |
| `Schema.InputsHaveDistinctKeys` | src/chime_dash/app/pages/sidebar.py:29-98 | the table lists its 23 keys in declaration order, from `hospital_parameters` to `download_as_pdf_link`, and no key repeats, as in any `OrderedDict` |
| `Schema.InputsInteractive` | src/chime_dash/app/pages/sidebar.py:29-98 | dropping the four headers and the link from the table leaves exactly the 18 interactive descriptors, in table order |
| `Schema.InteractiveListKinds` | src/chime_dash/app/pages/sidebar.py:29-98 | among the 18 interactive fields, the date pickers sit at positions 3 and 14 and the switches at 16 and 17; every other field is a number field |
| `Schema.InputKinds` | src/chime_dash/app/pages/sidebar.py:29-98 | looking up the type of each of the 18 ordered keys in the table gives that field's own kind |
| `Schema.InputsOrderedKeys` | src/chime_dash/app/pages/sidebar.py:121-124 | `get_ordered_input_keys()` of the concrete table is the 18 keys from `population` to `show_tool_details`, section by section |
| `Schema.OrderedInputKeysAtPositions` | src/chime_dash/app/pages/sidebar.py:121-124 | for any table, the j-th ordered key is the key of an interactive descriptor, found at the j-th interactive position |
| `Schema.InteractivePositionsIncrease` | src/chime_dash/app/pages/sidebar.py:121-124 | the ordered keys keep the table's order: their positions strictly increase |
| `Schema.InteractivePositionsComplete` | src/chime_dash/app/pages/sidebar.py:121-124 | no interactive descriptor is skipped: every position that holds one appears among the positions listed |
| `Schema.OrderedInputKeysDistinct` | src/chime_dash/app/pages/sidebar.py:121-124 | a table with distinct keys has distinct ordered input keys |
| `Schema.KindOfOrderedKey` | src/chime_dash/app/pages/sidebar.py:121-124 | every ordered key is found in the table, and its type there is neither header nor link |
| `Schema.InputKeysPlain` | src/chime_dash/app/pages/sidebar.py:29-98 | no form key contains `&` or `=`, and none is `model` or `pars` |
| `Schema.OrderedInputKeys` | src/chime_dash/app/pages/sidebar.py:121-124 | `get_ordered_input_keys` keeps at most every descriptor, and keeps all of them exactly when none is a header or link |
| `Schema.PropertyFor` | src/chime_dash/app/pages/sidebar.py:102-105 | the property a field reports through is always `"date"` or `"value"`, and `"date"` for a date picker |
| `Schema.ChangedElements` | src/chime_dash/app/pages/sidebar.py:191-196 | `changed_elements` has one entry per interactive descriptor, and every entry watches `"date"` or `"value"` |
| `Schema.PropertyForKind` | src/chime_dash/app/pages/sidebar.py:102-105 | `_PROPERTY_OUTPUT_MAP.get(type, "value")` is `"date"` for a date picker and `"value"` for every other kind |
| `Schema.ChangedElementsAtPositions` | src/chime_dash/app/pages/sidebar.py:191-196 | `changed_elements` has one pair per interactive descriptor: its key and its watched property, in table order |
| `Schema.ChangedElementsAligned` | src/chime_dash/app/pages/sidebar.py:191-196 | the keys of `changed_elements` are the ordered input keys; each key watches `"date"` if its table type is a date and `"value"` otherwise |
| `OrderedDicts.Get` | src/chime_dash/app/pages/sidebar.py:133 | a lookup finds a value exactly when the key is among the dict's keys |
| `OrderedDicts.GetAt` | src/chime_dash/app/pages/sidebar.py:137 | in a dict with distinct keys, looking up the j-th key returns the j-th value |
| `OrderedDicts.Insert` | src/chime_dash/app/pages/sidebar.py:135 | `result[key] = value` leaves the key order unchanged when the key exists and appends it otherwise |
| `OrderedDicts.GetInsert` | src/chime_dash/app/pages/sidebar.py:138-140 | after `result[key] = value`, that key reads back the new value and every other key reads back its old one |
| `OrderedDicts.InsertExisting` | src/chime_dash/app/pages/sidebar.py:135 | overwriting an existing key replaces its value in place, at the same position |
| `OrderedDicts.FromDistinctEntries` | src/chime_dash/app/pages/sidebar.py:128 | `dict(pairs)` with distinct keys is the pairs themselves, in order |
| `OrderedDicts.FromEntries` | src/chime_dash/app/pages/sidebar.py:128 | `dict(pairs)` has no repeated key, has exactly the keys that occur among the pairs, and has at most as many entries as there are pairs |
| `OrderedDicts.Zip` | src/chime_dash/app/pages/sidebar.py:128 | `zip` pairs the j-th key with the j-th value and stops at the shorter side |
| `Coercion.CoerceValue` | src/chime_dash/app/pages/sidebar.py:131-140 | a switch becomes a boolean that is true exactly when the value equals `[True]`; a date succeeds exactly when it is falsy (kept as is) or a valid `YYYY-MM-DD` string, which becomes the date that prints back as that string; any other truthy date value raises `NotAString`, a non-empty string that is not a valid date raises `BadDate`, and other kinds pass unchanged |
| `Coercion.CoerceFields` | src/chime_dash/app/pages/sidebar.py:130-140 | the rewriting loop keeps the dict's keys and their order, and raises only `KeyError` or the two `strptime` errors, never the `TypeError` of `/ 100` |
| `Coercion.FormattedValues` | src/chime_dash/app/pages/sidebar.py:127-141 | `get_formated_values` returns a dict with the keys of the zipped dict, in order and without repeats; its errors come from the lookups and `strptime` only |
| `Coercion.CoerceFieldsSpec` | src/chime_dash/app/pages/sidebar.py:130-141 | the rewriting loop raises nothing exactly when every switch and date key is present and each entry's own rewrite succeeds; it then returns each entry rewritten on its own, keys and order unchanged |
| `Coercion.Zipped` | src/chime_dash/app/pages/sidebar.py:128 | `dict(zip(get_ordered_input_keys(), input_values))` has distinct keys, and no more entries than there are keys or values |
| `Coercion.ZippedEntries` | src/chime_dash/app/pages/sidebar.py:128 | `dict(zip(keys, values))` pairs keys and values by position, keeps distinct keys, and truncates to the shorter of the two: its keys are the ordered input keys cut to the number of values |
| `Coercion.CoerceFieldsMissingKey` | src/chime_dash/app/pages/sidebar.py:130-141 | when every entry present would coerce, the only exception the loop raises is the `KeyError` of a switch or date key of the table that the dict lacks |
| `Coercion.ZippedKeysPresent` | src/chime_dash/app/pages/sidebar.py:128-137 | no `KeyError` arises exactly when every switch and date field received a value |
| `Coercion.ZippedEntriesOk` | src/chime_dash/app/pages/sidebar.py:136-140 | every entry coerces exactly when each date value supplied is falsy or a valid date string |
| `Coercion.FormattedValuesSucceeds` | src/chime_dash/app/pages/sidebar.py:127-141 | for any table, `get_formated_values` succeeds exactly when every rewritten field received a value and every date value is acceptable |
| `Coercion.FormattedValuesAligned` | src/chime_dash/app/pages/sidebar.py:127-141 | on success the keys are the ordered keys (truncated to the value count), the j-th value is the j-th raw value coerced by its field's kind, and number fields pass through untouched |
| `Coercion.RewrittenSuppliedInputs` | src/chime_dash/app/pages/sidebar.py:128-135 | for the concrete table, every switch and date key is supplied exactly when the form sends at least 18 values |
| `Coercion.DatesAcceptableInputs` | src/chime_dash/app/pages/sidebar.py:136-140 | for the concrete table, the date check concerns positions 3 and 14 only |
| `Coercion.FormattedValuesOfInputsSucceeds` | src/chime_dash/app/pages/sidebar.py:127-141 | `get_formated_values` succeeds exactly when it gets at least 18 values and both date values are falsy or valid date strings |
| `Coercion.ShortFormMissingKey` | src/chime_dash/app/pages/sidebar.py:128-137 | a form sending fewer than 18 values, whose delivered date values are acceptable, fails with the `KeyError` of a switch or date field at or beyond the last value sent |
| `Coercion.FormattedValuesOfInputs` | src/chime_dash/app/pages/sidebar.py:127-141 | on success the dict has exactly the 18 ordered keys, and its j-th value is the j-th raw value coerced by its field's kind |
| `Coercion.FormattedValueAt` | src/chime_dash/app/pages/sidebar.py:127-141 | on success, looking up the j-th ordered key yields the j-th raw value coerced; for a number field, the raw value itself |
| `Values.AsNumber` | src/chime_dash/app/pages/sidebar.py:158-166 | `x / 100` accepts exactly booleans, ints and floats, and raises `TypeError` for `None`, strings, lists and dates; an int divides as its own value, a float `mant * 10^-scale` as the number that times `10^scale` gives `mant`; the number is 1 exactly when the value `== True`, and nonzero exactly when the value is truthy |
| `Values.AsNumberExamples` | src/chime_dash/app/pages/sidebar.py:158-166 | `True` divides as 1, and `4.5` divides as 4.5 whether written with one decimal or two |
| `Values.Truthy` | src/chime_dash/app/pages/sidebar.py:139 | a date is truthy, `None` is falsy, and anything `== True` is truthy |
| `Values.EqualsTrue` | src/chime_dash/app/pages/sidebar.py:133 | only a boolean or number can equal `True`, and whatever equals `True` is truthy |
| `Values.ShowRaw` | src/chime_dash/app/pages/sidebar.py:183 | `str()` of an int reads back as that int, `str()` of a string is the string itself while `repr()` differs from it, and a list prints between brackets |
| `Values.ShowFloat` | src/chime_dash/app/pages/sidebar.py:183 | `str()` of a float starts with `-` exactly when the float is negative, and ends in `0` only as the single digit after the point, so no trailing zero is printed |
| `Values.ShowFloatReadsBack` | src/chime_dash/app/pages/sidebar.py:183 | the text `str()` prints for a float reads back, as `[-]digits.digits`, to a mantissa and scale denoting the same number: `mant' * 10^scale == mant * 10^scale'` |
| `Values.ShowFloatReadsBackValue` | src/chime_dash/app/pages/sidebar.py:183 | read back as a float, the printed text divides to exactly the number the printed float divides to |
| `Values.ShowFloatDropsTrailingZero` | src/chime_dash/app/pages/sidebar.py:183 | `4.50` prints as `4.5` |
| `Values.ShowFloatKeepsOneZero` | src/chime_dash/app/pages/sidebar.py:183 | `100.0` prints as `100.0`, keeping one fractional digit |
| `Values.ShowFloatPadsZeros` | src/chime_dash/app/pages/sidebar.py:183 | `0.05` prints as `0.05`, with the leading zeros after the point |
| `Values.Show` | src/chime_dash/app/pages/sidebar.py:183 | `"{val}".format(val=v)` of a date is text the date parser reads back as that date, of an int text that reads back as that int, and of a string the string itself |
| `Values.IsCheckedList` | src/chime_dash/app/pages/sidebar.py:133 | `v == [True]` holds for `[True]` and `[1]`, fails for `[]` and `[True, True]`, and implies that `v` is truthy |
| `Values.ShowFloatSameValue` | src/chime_dash/app/pages/sidebar.py:183 | two decimal spellings of one float print the same text |
| `Values.FloatShowDependsOnValue` | src/chime_dash/app/pages/sidebar.py:183 | two floats that divide to the same number print the same text, so `str()` depends only on the value |
| `Values.ParseShowInt` | src/chime_dash/app/pages/sidebar.py:183 | the decimal text `str()` gives an integer reads back as that integer, negative values included |
| `Values.PrintableShowHasNoDelimiter` | src/chime_dash/app/pages/sidebar.py:183 | the printed form of a number, boolean, `None`, date, empty string or empty list contains neither `&` nor `=` |
| `Dates.ParseIsoDate` | src/chime_dash/app/pages/sidebar.py:139 | `strptime(val, "%Y-%m-%d")` yields a date only for ten-character `YYYY-MM-DD` text: dashes at positions 4 and 7 and digits elsewhere |
| `Dates.FormatIsoDate` | src/chime_dash/app/pages/sidebar.py:183 | `str()` of a date is ten-character `YYYY-MM-DD` text |
| `Dates.ParseFormat` | src/chime_dash/app/pages/sidebar.py:139 | parsing the ISO text of a date gives back that date |
| `Dates.FormatParse` | src/chime_dash/app/pages/sidebar.py:139 | a string the date parser accepts is exactly the ISO text of the date it yields |
| `Dates.RejectsFebruaryThirtieth` | src/chime_dash/app/pages/sidebar.py:139 | the parser rejects the calendar-invalid `2020-02-30` |
| `Dates.AcceptsLeapDay` | src/chime_dash/app/pages/sidebar.py:139 | `2020-02-29` is accepted, because 2020 is a leap year |
| `Dates.RejectsLeapDayOfCommonYear` | src/chime_dash/app/pages/sidebar.py:139 | `2021-02-29` is rejected |
| `Assembly.Need` | src/chime_dash/app/pages/sidebar.py:150-168 | `inputs_dict[key]` yields the stored value when the key is present and raises `KeyError` for that key otherwise |
| `Assembly.Percent` | src/chime_dash/app/pages/sidebar.py:158-166 | `inputs_dict[key] / 100` is the stored number divided by 100 when the key is present and holds a number, raises `KeyError` for a missing key, and raises `TypeError` (`NotANumber`) for a value that is not a number |
| `Assembly.AssembleFields` | src/chime_dash/app/pages/sidebar.py:150-169 | building the record raises only `KeyError` or the `TypeError` of `/ 100` |
| `Assembly.UpdateParameters` | src/chime_dash/app/pages/sidebar.py:144-170 | an exception of `get_formated_values` is the exception of `update_parameters`, and a `TypeError` of `/ 100` arises only after the coercion succeeded |
| `Assembly.SpreadDriverExclusive` | src/chime_dash/app/pages/sidebar.py:150-151 | at least one of `doubling_time` and `date_first_hospitalized` reaches the record as `None` |
| `Assembly.SpreadDriverChoice` | src/chime_dash/app/pages/sidebar.py:150-151 | a truthy doubling time is passed on and the date dropped; otherwise the doubling time is dropped and the stored date passed on |
| `Assembly.MissingDoublingTimeFirst` | src/chime_dash/app/pages/sidebar.py:150 | a dict without `doubling_time` raises `KeyError` for that key before anything else is read |
| `Assembly.AssemblySucceeds` | src/chime_dash/app/pages/sidebar.py:149-169 | the record is built exactly when every read key is present (the date only when the doubling time is falsy) and the five percent fields hold numbers |
| `Assembly.AssemblyRates` | src/chime_dash/app/pages/sidebar.py:157-167 | each of the five percentages reaches the record divided by 100; each cohort's rate is paired with that cohort's own length of stay |
| `Assembly.AssemblyCopies` | src/chime_dash/app/pages/sidebar.py:152-168 | population, current hospitalizations, infectious days and `n_days` are copied unchanged; `max_y_axis` is the stored value, or `None` when the key is absent |
| `Assembly.FormFields` | src/chime_dash/app/pages/sidebar.py:149-168 | after a successful coercion, the value each key of `update_parameters` reads is the raw form value at that key's position; the first-hospitalized date is coerced first |
| `Assembly.UpdateParametersSucceeds` | src/chime_dash/app/pages/sidebar.py:144-170 | `update_parameters` raises nothing exactly when it gets at least 18 values, both dates are acceptable, and the five percent fields are numbers |
| `Assembly.UpdateParametersFields` | src/chime_dash/app/pages/sidebar.py:152-169 | each field of the record is the form value at its key's position: a plain copy, or for the five percentages that value divided by 100 |
| `Assembly.UpdateParametersPercents` | src/chime_dash/app/pages/sidebar.py:33-78 | the record's fields filled by division by 100 come from exactly the form positions whose table entry has `"percent": True`, each the raw value there divided by 100 |
| `Assembly.PercentFieldAt` | src/chime_dash/app/pages/sidebar.py:157-167 | the keys read with `/ 100` are `market_share`, `relative_contact_rate` and the three cohort rates, at form positions 1, 5, 6, 7 and 8, which are exactly the positions flagged `"percent": True` |
| `Assembly.UpdateParametersSpread` | src/chime_dash/app/pages/sidebar.py:149-156 | a truthy doubling time on the form drives the spread and the date is `None`; otherwise the doubling time is `None` and the parsed first-hospitalized date is passed on |
| `DownloadLink.QueryPairs` | src/chime_dash/app/pages/sidebar.py:182-186 | the comprehension yields at most one pair per entry and never one for `model` or `pars` |
| `DownloadLink.DownloadAsPdfLink` | src/chime_dash/app/pages/sidebar.py:173-189 | the link is built exactly when `get_formated_values` succeeds, its exception is passed on otherwise, and the link starts with `/download-as-pdf?` |
| `DownloadLink.LinkFor` | src/chime_dash/app/pages/sidebar.py:178-188 | the link starts with the base URL and `?`, and is just that when no pair is kept |
| `DownloadLink.QueryPairsKept` | src/chime_dash/app/pages/sidebar.py:184-185 | a `(key, text)` pair is in the query exactly when some entry has that key, is not `model` or `pars`, has a value that is not `None`, and prints as that text |
| `DownloadLink.QueryPairsAppend` | src/chime_dash/app/pages/sidebar.py:184-185 | the kept pairs of two dicts placed one after the other are the first dict's pairs followed by the second's, so dict order is kept |
| `DownloadLink.KeptAt` | src/chime_dash/app/pages/sidebar.py:185 | an entry with a plain, unique key appears in the query with its printed value exactly when its value is not `None`, and a `None` entry's key appears with no value at all |
| `DownloadLink.ParseQueryRendered` | src/chime_dash/app/pages/sidebar.py:181-183 | when no key holds `&` or `=` and no value holds `&`, splitting the `&`-joined `key=val` items recovers every pair |
| `DownloadLink.LinkRoundTrip` | src/chime_dash/app/pages/sidebar.py:178-188 | under the same condition, the query part of the link reads back as exactly the kept pairs |
| `DownloadLink.FormEntriesClean` | src/chime_dash/app/pages/sidebar.py:177-185 | when the number fields hold numbers, booleans or `None`, every coerced entry can travel in the query unambiguously, whatever list a switch sends |
| `DownloadLink.FormLinkRoundTrip` | src/chime_dash/app/pages/sidebar.py:173-189 | for such a form, the download link's query reads back as exactly the kept `(key, str(val))` pairs of the coerced values, in form order |
| `DownloadLink.FormLinkKeys` | src/chime_dash/app/pages/sidebar.py:173-189 | each of the 18 form fields appears in the link with its printed value exactly when its coerced value is not `None`; a field whose value is `None` is absent from the link under any value |
| `DownloadLink.ExamplePairs` | src/chime_dash/app/pages/sidebar.py:184-185 | for `{a: 1, b: None, c: "x"}`, the pairs are `a=1` and `c=x`: the `None` entry is dropped |
| `DownloadLink.LinkExample` | src/chime_dash/app/pages/sidebar.py:178-188 | the same dict renders as `/download?a=1&c=x` |
| `Text.Join` | src/chime_dash/app/pages/sidebar.py:181 | `sep.join(parts)` of one part is that part, and otherwise starts with the first part followed by the separator |
| `Text.SplitJoin` | src/chime_dash/app/pages/sidebar.py:181 | joining parts that do not contain the separator and splitting the result gives back the parts |

## Left out

- The page layout (`get_html`), the localization file, the widget templates
  and the `ChimeCallback` wiring that consumes `changed_elements`. They build
  Dash components, which this model does not cover.
- The widget attributes other than the kind and the percent flag: `min`,
  `max`, `step`, header `size`, default values, and the `date.today()`
  defaults. They only shape the browser widgets. The browser is outside the
  model, so the model accepts any value the form could carry.
- `parameters_serializer`, and everything inside `Parameters` and
  `Disposition`: the record is modelled only by the values passed to it. Its
  own validation is not part of this model.
- Values.AsNumber: a float is a decimal `mant * 10^-scale` read as an exact
  real, not an IEEE double. The division by 100 is therefore exact, with no
  rounding.
- Values.ShowRaw: `str()` of a float is always in positional notation with at
  least one fractional digit. It never uses the exponent form Python switches
  to for very large or very small values.
- Values.ShowRaw: the quote escaping of `repr` inside a printed list is not
  modelled.
- Dates.ParseIsoDate: it accepts only zero-padded fields of ASCII digits
  (`2020-03-07`). `strptime` is more lenient, for example with a one-digit
  month or day (`2020-3-7`), a space-padded day, or non-ASCII digits.
- The error values carry the failing key and, for a bad date, the string.
  They do not carry Python's message text.
- The download link applies no URL escaping, because
  `get_download_as_pdf_link` applies none.
  `DownloadLink.LinkRoundTrip` therefore needs keys free of `&` and `=` and
  values free of `&`. A form string holding `&` produces a link whose query
  does not read back.
- Only the single-threaded call of each function is modelled. Dash's
  concurrent callbacks and the HTTP request are outside the model.
