/** `Sidebar.get_download_as_pdf_link`: the coerced form values rendered as
    the query string of the PDF download URL. */
module DownloadLink {
  import opened Wrappers
  import opened Text
  import opened Values
  import opened OrderedDicts
  import opened Schema
  import opened Coercion

  /** `Sidebar.DOWNLOAD_AS_PDF_URL`. */
  const DownloadAsPdfUrl: string := "/download-as-pdf"

  /** Keys the query never carries. */
  const TransientKeys: seq<string> := ["model", "pars"]

  /** The comprehension's filter: not a transient key and not `None`. */
  predicate Kept(e: Entry<Value>) {
    e.key !in TransientKeys && e.val != PyNone
  }

  /** The `(key, str(val))` pairs of the kept entries, in dictionary order. */
  function QueryPairs(d: Dict<Value>): (r: seq<(string, string)>)
    ensures |r| <= |d|
    ensures forall i :: 0 <= i < |r| ==> r[i].0 !in TransientKeys
  {
    if |d| == 0 then []
    else (if Kept(d[0]) then [(d[0].key, Show(d[0].val))] else []) + QueryPairs(d[1..])
  }

  /** `"{key}={val}".format(key=key, val=val)`. */
  function Render(p: (string, string)): string {
    p.0 + "=" + p.1
  }

  function RenderAll(ps: seq<(string, string)>): (r: seq<string>)
    ensures |r| == |ps|
    ensures forall i :: 0 <= i < |ps| ==> r[i] == Render(ps[i])
  {
    seq(|ps|, i requires 0 <= i < |ps| => Render(ps[i]))
  }

  /** The URL `get_download_as_pdf_link` builds from `base` and a coerced dictionary. */
  function LinkFor(base: string, d: Dict<Value>): (url: string)
    ensures |url| > |base| && url[..|base| + 1] == base + "?"
    ensures |QueryPairs(d)| == 0 ==> url == base + "?"
  {
    base + "?" + Join(RenderAll(QueryPairs(d)), "&")
  }

  /** The query part of a URL built by `LinkFor`. */
  function Query(base: string, url: string): string
    requires |url| > |base|
  {
    url[|base| + 1..]
  }

  /** `Sidebar.get_download_as_pdf_link(*input_values)`. */
  function DownloadAsPdfLink(raw: seq<Raw>): (r: Result<string, Error>)
    ensures r.Ok? <==> FormattedValues(raw).Ok?
    ensures r.Err? ==> r.error == FormattedValues(raw).error
    ensures r.Ok? ==>
      |r.value| > |DownloadAsPdfUrl| && r.value[..|DownloadAsPdfUrl| + 1] == DownloadAsPdfUrl + "?"
  {
    var d :- FormattedValues(raw);
    Ok(LinkFor(DownloadAsPdfUrl, d))
  }

  // ---------------------------------------------------------------------
  // Reading a query string back.

  /** One `key=val` item, split at its first `=`. */
  function ParsePairs(items: seq<string>): (r: Option<seq<(string, string)>>)
    ensures r.Some? ==> |r.value| == |items|
  {
    if |items| == 0 then Some([])
    else
      match SplitAtFirst(items[0], '=')
      case None => None
      case Some(kv) =>
        match ParsePairs(items[1..])
        case None => None
        case Some(rest) => Some([kv] + rest)
  }

  /** The pairs of a query string: none for the empty query, otherwise one
      per `&`-separated item, `None` when an item has no `=`. */
  function ParseQuery(q: string): Option<seq<(string, string)>> {
    if q == "" then Some([]) else ParsePairs(Split(q, '&'))
  }

  /** Pairs that survive the unescaped `key=val` rendering: keys free of
      both delimiters, values free of `&`. */
  predicate Splittable(ps: seq<(string, string)>) {
    forall i :: 0 <= i < |ps| ==> '&' !in ps[i].0 && '=' !in ps[i].0 && '&' !in ps[i].1
  }

  lemma {:induction false} ParseRendered(ps: seq<(string, string)>)
    requires Splittable(ps)
    ensures ParsePairs(RenderAll(ps)) == Some(ps)
  {
    if |ps| > 0 {
      assert RenderAll(ps)[0] == ps[0].0 + ['='] + ps[0].1;
      SplitAtFirstOf(ps[0].0, ps[0].1, '=');
      assert RenderAll(ps)[1..] == RenderAll(ps[1..]);
      assert Splittable(ps[1..]) by {
        forall i | 0 <= i < |ps| - 1
          ensures '&' !in ps[1..][i].0 && '=' !in ps[1..][i].0 && '&' !in ps[1..][i].1
        {
          assert ps[1..][i] == ps[i + 1];
        }
      }
      ParseRendered(ps[1..]);
      assert ps == [ps[0]] + ps[1..];
    } else {
      assert ps == [];
    }
  }

  lemma {:induction false} JoinNonEmpty(parts: seq<string>, sep: string)
    requires |parts| >= 1 && |parts[0]| >= 1
    ensures |Join(parts, sep)| >= 1
  {
    if |parts| > 1 {
      assert Join(parts, sep) == parts[0] + sep + Join(parts[1..], sep);
    }
  }

  /** Reading the query back yields the rendered pairs, provided no key
      carries a delimiter and no value an `&`; the sidebar escapes nothing. */
  lemma ParseQueryRendered(ps: seq<(string, string)>)
    requires Splittable(ps)
    ensures ParseQuery(Join(RenderAll(ps), "&")) == Some(ps)
  {
    var items := RenderAll(ps);
    if |ps| > 0 {
      assert '=' in items[0] by { assert items[0][|ps[0].0|] == '='; }
      JoinNonEmpty(items, "&");
      forall i | 0 <= i < |items|
        ensures '&' !in items[i]
      {
        assert items[i] == ps[i].0 + "=" + ps[i].1;
      }
      SplitJoin(items, '&');
      assert "&" == ['&'];
    }
    ParseRendered(ps);
  }

  /** The query string of a link reads back as the kept pairs. */
  lemma LinkRoundTrip(base: string, d: Dict<Value>)
    requires Splittable(QueryPairs(d))
    ensures ParseQuery(Query(base, LinkFor(base, d))) == Some(QueryPairs(d))
  {
    var url := LinkFor(base, d);
    assert Query(base, url) == Join(RenderAll(QueryPairs(d)), "&");
    ParseQueryRendered(QueryPairs(d));
  }

  // ---------------------------------------------------------------------
  // Which entries the query carries.

  /** A pair is in the query exactly when some entry is kept and renders to
      it: transient keys and `None` values are dropped, everything else
      (including `False`) is carried. */
  lemma {:induction false} QueryPairsKept(d: Dict<Value>, p: (string, string))
    ensures p in QueryPairs(d) <==> exists e :: e in d && Kept(e) && p == (e.key, Show(e.val))
  {
    if |d| > 0 {
      QueryPairsKept(d[1..], p);
      assert forall e :: e in d <==> e == d[0] || e in d[1..];
    }
  }

  /** The query keeps the dictionary's order: it is the kept entries'
      pairs, and the pairs of a concatenation are concatenated. */
  lemma {:induction false} QueryPairsAppend(a: Dict<Value>, b: Dict<Value>)
    ensures QueryPairs(a + b) == QueryPairs(a) + QueryPairs(b)
  {
    if |a| > 0 {
      assert (a + b)[0] == a[0];
      assert (a + b)[1..] == a[1..] + b;
      QueryPairsAppend(a[1..], b);
      var head := if Kept(a[0]) then [(a[0].key, Show(a[0].val))] else [];
      assert QueryPairs(a + b) == head + (QueryPairs(a[1..]) + QueryPairs(b));
      assert QueryPairs(a) == head + QueryPairs(a[1..]);
    } else {
      assert a + b == b;
    }
  }

  /** An entry whose key and printed value the query can carry unambiguously. */
  predicate CleanEntry(e: Entry<Value>) {
    '&' !in e.key && '=' !in e.key && '&' !in Show(e.val)
  }

  lemma {:induction false} QueryPairsSplittable(d: Dict<Value>)
    requires forall j :: 0 <= j < |d| ==> CleanEntry(d[j])
    ensures Splittable(QueryPairs(d))
  {
    if |d| > 0 {
      QueryPairsSplittable(d[1..]);
    }
  }

  // ---------------------------------------------------------------------
  // The link the sidebar builds.

  /** A coerced value is printable when a date or switch field is coerced,
      or a scalar is handed to any other field. */
  lemma CoercedPrintable(kind: Kind, key: string, v: Value)
    requires CoerceValue(kind, key, v).Ok?
    requires IsRewritten(kind) || IsScalar(v)
    ensures Printable(CoerceValue(kind, key, v).value)
  {
  }

  /** A form whose number fields hold numbers, booleans or `None`, as the
      number inputs deliver them; the date and switch fields may hold anything. */
  predicate NumberFieldsScalar(raw: seq<Raw>) {
    forall j :: 0 <= j < |raw| && j < |InteractiveList| && InteractiveList[j].kind.Number? ==>
      IsScalar(Plain(raw[j]))
  }

  /** Every entry of a successful coercion can be carried by the query when
      the number fields hold scalars: the keys are plain, a switch becomes a
      boolean whatever list the checklist sends, and a date field becomes a
      date or stays falsy. */
  lemma FormEntriesClean(raw: seq<Raw>)
    requires FormattedValues(raw).Ok?
    requires NumberFieldsScalar(raw)
    ensures var d := FormattedValues(raw).value;
      forall j :: 0 <= j < |d| ==> CleanEntry(d[j])
  {
    var d := FormattedValues(raw).value;
    FormattedValuesOfInputs(raw);
    forall j | 0 <= j < |d|
      ensures CleanEntry(d[j])
    {
      EntryClean(raw, j);
    }
  }

  /** The `j`-th coerced entry of such a form can travel in the query. */
  lemma EntryClean(raw: seq<Raw>, j: nat)
    requires FormattedValues(raw).Ok?
    requires NumberFieldsScalar(raw)
    requires j < 18
    ensures j < |FormattedValues(raw).value|
    ensures CleanEntry(FormattedValues(raw).value[j])
  {
    var d := FormattedValues(raw).value;
    FormattedValuesOfInputs(raw);
    InputKeysPlain();
    InteractiveListKinds();
    var kind := InteractiveList[j].kind;
    assert d[j].key == InputKeys[j];
    CoercedPrintable(kind, InputKeys[j], Plain(raw[j]));
    PrintableShowHasNoDelimiter(d[j].val, '&');
  }

  /** For a form whose number fields hold numbers, booleans or `None` (the
      switches may send any checklist value), the download link's query reads
      back as exactly the kept pairs. */
  lemma FormLinkRoundTrip(raw: seq<Raw>)
    requires DownloadAsPdfLink(raw).Ok?
    requires NumberFieldsScalar(raw)
    ensures FormattedValues(raw).Ok?
    ensures |DownloadAsPdfLink(raw).value| > |DownloadAsPdfUrl|
    ensures ParseQuery(Query(DownloadAsPdfUrl, DownloadAsPdfLink(raw).value)) ==
      Some(QueryPairs(FormattedValues(raw).value))
  {
    var d := FormattedValues(raw).value;
    FormEntriesClean(raw);
    QueryPairsSplittable(d);
    LinkRoundTrip(DownloadAsPdfUrl, d);
  }

  lemma {:induction false} KeptInQuery(d: Dict<Value>, i: nat)
    requires i < |d| && Kept(d[i])
    ensures (d[i].key, Show(d[i].val)) in QueryPairs(d)
  {
    if i > 0 {
      assert d[1..][i - 1] == d[i];
      KeptInQuery(d[1..], i - 1);
    }
  }

  lemma {:induction false} AbsentFromQuery(d: Dict<Value>, k: string, s: string)
    requires forall i :: 0 <= i < |d| && d[i].key == k ==> !Kept(d[i])
    ensures (k, s) !in QueryPairs(d)
  {
    if |d| > 0 {
      forall i | 0 <= i < |d| - 1 && d[1..][i].key == k
        ensures !Kept(d[1..][i])
      {
        assert d[1..][i] == d[i + 1];
      }
      AbsentFromQuery(d[1..], k, s);
    }
  }

  /** With distinct plain keys, entry `j` reaches the query exactly when
      its value is not `None`. */
  lemma KeptAt(d: Dict<Value>, j: nat)
    requires j < |d| && PlainKey(d[j].key)
    requires forall i :: 0 <= i < |d| && d[i].key == d[j].key ==> i == j
    ensures d[j].val != PyNone <==> (d[j].key, Show(d[j].val)) in QueryPairs(d)
    ensures d[j].val == PyNone ==> forall s :: (d[j].key, s) !in QueryPairs(d)
  {
    if d[j].val != PyNone {
      assert Kept(d[j]);
      KeptInQuery(d, j);
    } else {
      forall s ensures (d[j].key, s) !in QueryPairs(d) {
        AbsentFromQuery(d, d[j].key, s);
      }
    }
  }

  /** The link carries each of the eighteen fields exactly when its coerced
      value is not `None`, and a `None` field under no value at all. */
  lemma FormLinkKeys(raw: seq<Raw>)
    requires FormattedValues(raw).Ok?
    ensures |FormattedValues(raw).value| == 18
    ensures var d := FormattedValues(raw).value;
      forall j :: 0 <= j < 18 ==>
        (d[j].val != PyNone <==> (InputKeys[j], Show(d[j].val)) in QueryPairs(d))
    ensures var d := FormattedValues(raw).value;
      forall j, s :: 0 <= j < 18 && d[j].val == PyNone ==> (InputKeys[j], s) !in QueryPairs(d)
  {
    var d := FormattedValues(raw).value;
    FormattedValuesOfInputs(raw);
    InputsOrderedKeys();
    InputKeysPlain();
    InputKeysDistinct();
    forall j | 0 <= j < 18
      ensures d[j].val != PyNone <==> (InputKeys[j], Show(d[j].val)) in QueryPairs(d)
      ensures d[j].val == PyNone ==> forall s :: (InputKeys[j], s) !in QueryPairs(d)
    {
      assert d[j].key == InputKeys[j];
      forall i | 0 <= i < |d| && d[i].key == d[j].key
        ensures i == j
      {
        assert Keys(d)[i] == Keys(d)[j];
      }
      KeptAt(d, j);
    }
  }

  /** The example of a dictionary with a number, a `None` and a string. */
  const ExampleEntries: Dict<Value> :=
    [Entry("a", Plain(Int(1))), Entry("b", PyNone), Entry("c", Plain(Str("x")))]

  /** A `None` value is dropped and the rest keep their order. */
  lemma ExamplePairs()
    ensures QueryPairs(ExampleEntries) == [("a", "1"), ("c", "x")]
  {
    var c := [Entry("c", Plain(Str("x")))];
    var d := ExampleEntries;
    assert d == [Entry("a", Plain(Int(1))), Entry("b", PyNone)] + c;
    assert Show(Plain(Int(1))) == "1" by {
      assert DigitChar(1) == '1';
    }
    assert "a" !in TransientKeys && "c" !in TransientKeys;
    assert QueryPairs(c) == [("c", "x")] by {
      assert c[1..] == [];
    }
    assert QueryPairs(d[1..]) == [("c", "x")] by {
      assert d[1..][1..] == c;
    }
  }

  lemma LinkExample()
    ensures LinkFor("/download", ExampleEntries) == "/download?a=1&c=x"
  {
    ExamplePairs();
    var items := RenderAll([("a", "1"), ("c", "x")]);
    assert items[0] == Render(("a", "1")) == "a=1";
    assert items[1] == Render(("c", "x")) == "c=x";
    assert items == ["a=1", "c=x"];
    assert Join(["a=1", "c=x"], "&") == "a=1&c=x" by {
      assert ["a=1", "c=x"][1..] == ["c=x"];
    }
  }
}
