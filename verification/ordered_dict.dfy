/** Python's `dict`: a finite map that remembers the order in which its keys were
    first inserted. Iteration order decides the order of the report, so the model
    keeps the keys as a sequence next to the map from keys to values. */
module OrderedDict {

  datatype Dict<V> = Dict(keys: seq<int>, entries: map<int, V>)

  predicate Distinct(ks: seq<int>)
  {
    forall i, j :: 0 <= i < j < |ks| ==> ks[i] != ks[j]
  }

  /** The keys are listed once each, and exactly the keys of the map are listed. */
  predicate Valid<V>(d: Dict<V>)
  {
    && Distinct(d.keys)
    && (forall k :: k in d.entries ==> k in d.keys)
    && (forall i :: 0 <= i < |d.keys| ==> d.keys[i] in d.entries)
  }

  function Empty<V>(): (d: Dict<V>)
    ensures Valid(d) && |d.keys| == 0
  {
    Dict([], map[])
  }

  /** `d[k] = v`: a new key goes to the end; a key already present keeps its
      place and takes the new value. */
  function Assign<V>(d: Dict<V>, k: int, v: V): (r: Dict<V>)
    requires Valid(d)
    ensures Valid(r)
    ensures r.entries == d.entries[k := v]
  {
    if k in d.entries then Dict(d.keys, d.entries[k := v])
    else Dict(d.keys + [k], d.entries[k := v])
  }

  /** The first components of a list of pairs. */
  function KeysOf<V>(items: seq<(int, V)>): (ks: seq<int>)
    ensures |ks| == |items|
    ensures forall i :: 0 <= i < |items| ==> ks[i] == items[i].0
  {
    seq(|items|, i requires 0 <= i < |items| => items[i].0)
  }

  /** The keys of `ks` not in `seen`, each at its first occurrence: the keys a
      run of assignments adds to a dict whose keys are `seen`. */
  function Fresh(ks: seq<int>, seen: seq<int>): seq<int>
    decreases |ks|
  {
    if |ks| == 0 then []
    else if ks[0] in seen then Fresh(ks[1..], seen)
    else [ks[0]] + Fresh(ks[1..], seen + [ks[0]])
  }

  /** The elements of `ks` that are not in `seen`, in order. */
  function Unseen(ks: seq<int>, seen: seq<int>): (r: seq<int>)
    ensures forall k :: k in r <==> k in ks && k !in seen
    decreases |ks|
  {
    if |ks| == 0 then []
    else if ks[0] in seen then Unseen(ks[1..], seen)
    else [ks[0]] + Unseen(ks[1..], seen)
  }

  /** An item is the last one for its key when no later item has the same key. */
  predicate LastFor<V>(items: seq<(int, V)>, i: int)
    requires 0 <= i < |items|
  {
    forall j :: i < j < |items| ==> items[j].0 != items[i].0
  }

  /** The position of the last item for a key that some item has. */
  function LastPosition<V>(items: seq<(int, V)>, k: int): (i: nat)
    requires k in KeysOf(items)
    ensures i < |items| && items[i].0 == k && LastFor(items, i)
    decreases |items|
  {
    var n := |items| - 1;
    if items[n].0 == k then n
    else
      assert KeysOf(items[..n]) == KeysOf(items)[..n];
      assert KeysOf(items)[n] != k;
      assert k in KeysOf(items)[..n] by {
        var j :| 0 <= j < |items| && KeysOf(items)[j] == k;
        assert j < n;
      }
      LastPosition(items[..n], k)
  }

  /** The items assigned one after the other, as a dict comprehension,
      `dict(items)` and `{**d, **other}` do: the keys come out in first-insertion
      order (the values are described by `AssignAllLookup`). */
  function AssignAll<V>(d: Dict<V>, items: seq<(int, V)>): (r: Dict<V>)
    requires Valid(d)
    ensures Valid(r)
    ensures r.keys == d.keys + Fresh(KeysOf(items), d.keys)
    decreases |items|
  {
    if |items| == 0 then d
    else
      var d' := Assign(d, items[0].0, items[0].1);
      FreshStep(d, items);
      AssignAll(d', items[1..])
  }

  /** One assignment, then the rest: the keys it adds are those of the whole run. */
  lemma FreshStep<V>(d: Dict<V>, items: seq<(int, V)>)
    requires Valid(d) && |items| > 0
    ensures var d' := Assign(d, items[0].0, items[0].1);
      d'.keys + Fresh(KeysOf(items[1..]), d'.keys) == d.keys + Fresh(KeysOf(items), d.keys)
  {
    var d' := Assign(d, items[0].0, items[0].1);
    var ks := KeysOf(items);
    assert ks[1..] == KeysOf(items[1..]);
    if items[0].0 in d.entries {
      assert ks[0] in d.keys;
      assert Fresh(ks, d.keys) == Fresh(ks[1..], d.keys);
    } else {
      assert ks[0] !in d.keys;
      assert Fresh(ks, d.keys) == [ks[0]] + Fresh(ks[1..], d'.keys);
      assert d.keys + ([ks[0]] + Fresh(ks[1..], d'.keys)) == d'.keys + Fresh(ks[1..], d'.keys);
    }
  }

  /** After the assignments, a key is present when it was present before or is
      assigned; an assigned key holds the value of its last item, any other key
      keeps its old value. */
  lemma {:induction false} AssignAllLookup<V>(d: Dict<V>, items: seq<(int, V)>)
    requires Valid(d)
    ensures forall k :: k in AssignAll(d, items).entries <==> k in d.entries || k in KeysOf(items)
    ensures forall i :: 0 <= i < |items| && LastFor(items, i) ==> AssignAll(d, items).entries[items[i].0] == items[i].1
    ensures forall k :: k in d.entries && k !in KeysOf(items) ==> AssignAll(d, items).entries[k] == d.entries[k]
    decreases |items|
  {
    if |items| > 0 {
      var d' := Assign(d, items[0].0, items[0].1);
      AssignAllLookup(d', items[1..]);
      var r := AssignAll(d, items);
      assert r == AssignAll(d', items[1..]);
      assert KeysOf(items)[1..] == KeysOf(items[1..]);
      assert forall k :: k in KeysOf(items) <==> k == items[0].0 || k in KeysOf(items[1..]);
      forall i | 0 <= i < |items| && LastFor(items, i)
        ensures r.entries[items[i].0] == items[i].1
      {
        if i > 0 {
          assert LastFor(items[1..], i - 1);
        } else {
          assert items[0].0 !in KeysOf(items[1..]);
        }
      }
    }
  }

  /** `dict(items)`. */
  function FromItems<V>(items: seq<(int, V)>): (r: Dict<V>)
    ensures Valid(r)
    ensures r.keys == Fresh(KeysOf(items), [])
    ensures forall k :: k in r.entries <==> k in KeysOf(items)
    ensures forall i :: 0 <= i < |items| && LastFor(items, i) ==> r.entries[items[i].0] == items[i].1
  {
    AssignAllLookup(Empty(), items);
    AssignAll(Empty(), items)
  }

  /** `list(d.items())`. */
  function Items<V>(d: Dict<V>): (items: seq<(int, V)>)
    requires Valid(d)
    ensures KeysOf(items) == d.keys
    ensures forall i :: 0 <= i < |items| ==> items[i].1 == d.entries[items[i].0]
  {
    seq(|d.keys|, i requires 0 <= i < |d.keys| => (d.keys[i], d.entries[d.keys[i]]))
  }

  /** `{**a, **b}`: the keys of `a` in their order, then the keys only `b` has;
      a key of `b` takes its value from `b`, any other keeps its value from `a`. */
  function Merge<V>(a: Dict<V>, b: Dict<V>): (r: Dict<V>)
    requires Valid(a) && Valid(b)
    ensures Valid(r)
    ensures r.keys == a.keys + Fresh(b.keys, a.keys)
    ensures forall k :: k in r.entries <==> k in a.entries || k in b.entries
    ensures forall k :: k in b.entries ==> r.entries[k] == b.entries[k]
    ensures forall k :: k in a.entries && k !in b.entries ==> r.entries[k] == a.entries[k]
  {
    var items := Items(b);
    AssignAllLookup(a, items);
    assert forall k :: k in b.entries <==> k in KeysOf(items);
    assert forall k :: k in b.entries ==> AssignAll(a, items).entries[k] == b.entries[k] by {
      forall k | k in b.entries
        ensures AssignAll(a, items).entries[k] == b.entries[k]
      {
        var i := LastPosition(items, k);
      }
    }
    AssignAll(a, items)
  }

  /** When no key repeats, the keys are added in the order given. */
  lemma {:induction false} FreshOfDistinct(ks: seq<int>, seen: seq<int>)
    requires Distinct(ks)
    ensures Fresh(ks, seen) == Unseen(ks, seen)
    decreases |ks|
  {
    if |ks| > 0 {
      assert Distinct(ks[1..]);
      FreshOfDistinct(ks[1..], seen);
      if ks[0] !in seen {
        FreshOfDistinct(ks[1..], seen + [ks[0]]);
        UnseenIgnores(ks[1..], seen, ks[0]);
      }
    }
  }

  /** Adding to `seen` a key that does not occur changes nothing. */
  lemma {:induction false} UnseenIgnores(ks: seq<int>, seen: seq<int>, x: int)
    requires x !in ks
    ensures Unseen(ks, seen + [x]) == Unseen(ks, seen)
    decreases |ks|
  {
    if |ks| > 0 {
      UnseenIgnores(ks[1..], seen, x);
    }
  }

  lemma {:induction false} UnseenNothing(ks: seq<int>)
    ensures Unseen(ks, []) == ks
    decreases |ks|
  {
    if |ks| > 0 {
      UnseenNothing(ks[1..]);
    }
  }

  /** `list(dict(items).items()) == items` when the keys of `items` are distinct. */
  lemma FromItemsRoundTrip<V>(items: seq<(int, V)>)
    requires Distinct(KeysOf(items))
    ensures Items(FromItems(items)) == items
  {
    var d := FromItems(items);
    FromDistinctItems(items);
    var its := Items(d);
    assert |its| == |items| by { assert |KeysOf(its)| == |d.keys|; }
    forall i | 0 <= i < |items|
      ensures its[i] == items[i]
    {
      assert its[i].0 == KeysOf(its)[i] == items[i].0;
    }
  }

  /** `dict(list(d.items())) == d`. */
  lemma ItemsRoundTrip<V>(d: Dict<V>)
    requires Valid(d)
    ensures FromItems(Items(d)) == d
  {
    var items := Items(d);
    FromDistinctItems(items);
    SameEntries(d, items, FromItems(items));
  }

  lemma SameEntries<V>(d: Dict<V>, items: seq<(int, V)>, r: Dict<V>)
    requires Valid(d) && KeysOf(items) == d.keys
    requires forall i :: 0 <= i < |items| ==> items[i].1 == d.entries[items[i].0]
    requires forall k :: k in r.entries <==> k in KeysOf(items)
    requires forall i :: 0 <= i < |items| ==> r.entries[items[i].0] == items[i].1
    ensures r.entries == d.entries
  {
    forall k | k in d.entries
      ensures k in r.entries && r.entries[k] == d.entries[k]
    {
      var i :| 0 <= i < |d.keys| && d.keys[i] == k;
      assert KeysOf(items)[i] == items[i].0 == k;
    }
    forall k | k in r.entries
      ensures k in d.entries
    {
      var i :| 0 <= i < |d.keys| && d.keys[i] == k;
    }
    assert r.entries.Keys == d.entries.Keys;
  }

  /** When no key repeats, `dict(items)` lists the keys in the order given. */
  lemma FromItemsKeys<V>(items: seq<(int, V)>)
    ensures Distinct(KeysOf(items)) ==> FromItems(items).keys == KeysOf(items)
  {
    if Distinct(KeysOf(items)) {
      FreshOfDistinct(KeysOf(items), []);
      UnseenNothing(KeysOf(items));
    }
  }

  /** `dict(items)` when no key repeats: the keys in the order given, each with
      its own value. */
  lemma FromDistinctItems<V>(items: seq<(int, V)>)
    requires Distinct(KeysOf(items))
    ensures FromItems(items).keys == KeysOf(items)
    ensures forall i :: 0 <= i < |items| ==> FromItems(items).entries[items[i].0] == items[i].1
  {
    FreshOfDistinct(KeysOf(items), []);
    UnseenNothing(KeysOf(items));
    forall i | 0 <= i < |items|
      ensures LastFor(items, i)
    {
      forall j | i < j < |items| ensures items[j].0 != items[i].0 {
        assert KeysOf(items)[i] != KeysOf(items)[j];
      }
    }
  }
}
