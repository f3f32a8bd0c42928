/** Python's insertion-ordered `dict` with string keys, as a list of entries. */
module OrderedDicts {
  import opened Wrappers

  datatype Entry<V> = Entry(key: string, val: V)

  type Dict<V> = seq<Entry<V>>

  function Keys<V>(d: Dict<V>): (ks: seq<string>)
    ensures |ks| == |d|
    ensures forall j :: 0 <= j < |d| ==> ks[j] == d[j].key
  {
    seq(|d|, j requires 0 <= j < |d| => d[j].key)
  }

  predicate Distinct(ks: seq<string>) {
    forall i, j :: 0 <= i < j < |ks| ==> ks[i] != ks[j]
  }

  /** `d.get(k)`: the value of the first entry stored under `k`, if any. */
  function Get<V>(d: Dict<V>, k: string): (r: Option<V>)
    ensures r.Some? <==> k in Keys(d)
  {
    if |d| == 0 then None
    else if d[0].key == k then Some(d[0].val)
    else Get(d[1..], k)
  }

  /** With distinct keys, looking up the key of entry `j` finds entry `j`. */
  lemma {:induction false} GetAt<V>(d: Dict<V>, j: nat)
    requires Distinct(Keys(d))
    requires j < |d|
    ensures Get(d, d[j].key) == Some(d[j].val)
  {
    if j > 0 {
      assert Keys(d[1..]) == Keys(d)[1..];
      assert d[0].key != d[j].key;
      GetAt(d[1..], j - 1);
    }
  }

  /** `d[k] = v`: an existing key keeps its position and takes the new value;
      a new key is appended at the end. */
  function Insert<V>(d: Dict<V>, k: string, v: V): (r: Dict<V>)
    ensures Keys(r) == if k in Keys(d) then Keys(d) else Keys(d) + [k]
  {
    if |d| == 0 then [Entry(k, v)]
    else if d[0].key == k then [Entry(k, v)] + d[1..]
    else
      var r := [d[0]] + Insert(d[1..], k, v);
      assert r[1..] == Insert(d[1..], k, v);
      r
  }

  /** After `d[k] = v`, `k` maps to `v` and every other key is as before. */
  lemma {:induction false} GetInsert<V>(d: Dict<V>, k: string, v: V, k': string)
    ensures Get(Insert(d, k, v), k') == if k' == k then Some(v) else Get(d, k')
  {
    if |d| > 0 && d[0].key != k {
      var r := Insert(d, k, v);
      assert r[1..] == Insert(d[1..], k, v);
      GetInsert(d[1..], k, v, k');
    }
  }

  /** Assigning to a key already present rewrites exactly that entry. */
  lemma {:induction false} InsertExisting<V>(d: Dict<V>, j: nat, v: V)
    requires Distinct(Keys(d))
    requires j < |d|
    ensures Insert(d, d[j].key, v) == d[j := Entry(d[j].key, v)]
  {
    if j > 0 {
      assert Keys(d[1..]) == Keys(d)[1..];
      assert d[0].key != d[j].key;
      InsertExisting(d[1..], j - 1, v);
      assert d[1..][j - 1 := Entry(d[j].key, v)] == d[j := Entry(d[j].key, v)][1..];
    }
  }

  /** `dict(entries)`: later entries overwrite earlier ones with the same key. */
  function FromEntries<V>(es: seq<Entry<V>>): (d: Dict<V>)
    ensures Distinct(Keys(d))
    ensures forall k :: k in Keys(d) <==> k in Keys(es)
    ensures |d| <= |es|
  {
    if |es| == 0 then []
    else
      var prefix := FromEntries(es[..|es| - 1]);
      var last := es[|es| - 1];
      assert Keys(es) == Keys(es[..|es| - 1]) + [last.key];
      InsertKeepsDistinct(prefix, last.key, last.val);
      Insert(prefix, last.key, last.val)
  }

  lemma InsertKeepsDistinct<V>(d: Dict<V>, k: string, v: V)
    requires Distinct(Keys(d))
    ensures Distinct(Keys(Insert(d, k, v)))
  {
    var ks := Keys(Insert(d, k, v));
    if k !in Keys(d) {
      assert ks == Keys(d) + [k];
      forall i, j | 0 <= i < j < |ks| ensures ks[i] != ks[j] {
        if j == |ks| - 1 {
          assert ks[i] == Keys(d)[i];
        }
      }
    }
  }

  /** With distinct keys, `dict(entries)` keeps every entry, in order. */
  lemma {:induction false} FromDistinctEntries<V>(es: seq<Entry<V>>)
    requires Distinct(Keys(es))
    ensures FromEntries(es) == es
  {
    if |es| > 0 {
      var p := es[..|es| - 1];
      var last := es[|es| - 1];
      LastKeyFresh(es);
      FromDistinctEntries(p);
      assert FromEntries(es) == Insert(p, last.key, last.val);
      InsertAppends(p, last.key, last.val);
      assert es == p + [Entry(last.key, last.val)];
    }
  }

  /** With distinct keys, the prefix keeps distinct keys and lacks the last key. */
  lemma LastKeyFresh<V>(es: seq<Entry<V>>)
    requires |es| > 0 && Distinct(Keys(es))
    ensures Distinct(Keys(es[..|es| - 1]))
    ensures es[|es| - 1].key !in Keys(es[..|es| - 1])
  {
    var n := |es| - 1;
    var ks := Keys(es);
    var pk := Keys(es[..n]);
    forall i | 0 <= i < n
      ensures pk[i] == ks[i] && pk[i] != ks[n]
    {
      assert es[..n][i] == es[i];
    }
    assert es[n].key == ks[n];
  }

  /** Assigning to a key not yet present appends one entry. */
  lemma {:induction false} InsertAppends<V>(d: Dict<V>, k: string, v: V)
    requires k !in Keys(d)
    ensures Insert(d, k, v) == d + [Entry(k, v)]
  {
    if |d| > 0 {
      assert d[0].key != k by {
        assert Keys(d)[0] == d[0].key;
      }
      assert k !in Keys(d[1..]) by {
        forall i | 0 <= i < |d| - 1
          ensures Keys(d[1..])[i] != k
        {
          assert Keys(d[1..])[i] == Keys(d)[i + 1];
        }
      }
      InsertAppends(d[1..], k, v);
      assert Insert(d, k, v) == [d[0]] + (d[1..] + [Entry(k, v)]);
      assert d == [d[0]] + d[1..];
    }
  }

  /** `zip(keys, vals)`: pairs up to the shorter of the two. */
  function Zip<V>(keys: seq<string>, vals: seq<V>): (es: seq<Entry<V>>)
    ensures |es| == if |keys| <= |vals| then |keys| else |vals|
    ensures forall j :: 0 <= j < |es| ==> es[j] == Entry(keys[j], vals[j])
  {
    if |keys| == 0 || |vals| == 0 then []
    else [Entry(keys[0], vals[0])] + Zip(keys[1..], vals[1..])
  }
}
