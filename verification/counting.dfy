/** How many rows `build_table` emits (keyboard.py:86-100): exactly one per
    pair of a listed key map and one of its keys whose output is visible.
    Outputs may repeat, so this does not follow from which rows occur. */
module Counting {
  import opened Wrappers
  import opened OrderedDict
  import opened Naming
  import opened Table

  /** The pairs of key map `idx` with its keys among `ks` whose output in `kb`
      is visible. */
  ghost function VisibleIn(name: char -> Option<string>, idx: int, kb: Dict<string>, ks: seq<int>): set<(int, int)>
  {
    set k | k in ks && k in kb.entries && Visible(name, kb.entries[k]) :: (idx, k)
  }

  /** The pairs of a key map among `ixs` and a visible key of it. */
  ghost function Pairs(name: char -> Option<string>, t: TableInput, ixs: seq<int>): set<(int, int)>
  {
    set idx, k | idx in ixs && idx in t.maps.entries && k in t.maps.entries[idx].entries
      && Visible(name, t.maps.entries[idx].entries[k]) :: (idx, k)
  }

  /** The pairs of key map 0 or a described key map with a visible key of it. */
  ghost function ListedPairs(name: char -> Option<string>, t: TableInput): set<(int, int)>
  {
    set idx, k | idx in t.maps.entries && Listed(t, idx) && k in t.maps.entries[idx].entries
      && Visible(name, t.maps.entries[idx].entries[k]) :: (idx, k)
  }

  /** A key not listed before adds itself when its output is visible. */
  lemma VisibleInStep(name: char -> Option<string>, idx: int, kb: Dict<string>, ks: seq<int>, k: int)
    requires k in kb.entries && k !in ks
    ensures Visible(name, kb.entries[k]) ==>
      VisibleIn(name, idx, kb, ks + [k]) == VisibleIn(name, idx, kb, ks) + {(idx, k)}
      && (idx, k) !in VisibleIn(name, idx, kb, ks)
    ensures !Visible(name, kb.entries[k]) ==> VisibleIn(name, idx, kb, ks + [k]) == VisibleIn(name, idx, kb, ks)
  {
  }

  /** The `n`-th key is not among the keys before it. */
  lemma NotBefore(ks: seq<int>, n: nat)
    requires Distinct(ks) && 0 < n <= |ks|
    ensures ks[..n] == ks[..n - 1] + [ks[n - 1]] && ks[n - 1] !in ks[..n - 1]
  {
    assert ks[..n] == ks[..n - 1] + [ks[n - 1]];
    forall j | 0 <= j < n - 1
      ensures ks[j] != ks[n - 1]
    {
    }
  }

  /** The first `n` keys of a key map add one row per visible key. */
  lemma {:induction false} KeyRowsCount(name: char -> Option<string>, desc: Option<string>, kb: Dict<string>,
                                        ascii: Dict<string>, baseline: Dict<string>, n: nat, idx: int)
    requires KeysDefined(name, desc, kb, ascii, baseline) && n <= |kb.keys|
    ensures |KeyRows(name, desc, kb, ascii, baseline, n)| == |VisibleIn(name, idx, kb, kb.keys[..n])|
    decreases n
  {
    if n == 0 {
      assert VisibleIn(name, idx, kb, kb.keys[..0]) == {};
    } else {
      KeyRowsCount(name, desc, kb, ascii, baseline, n - 1, idx);
      NotBefore(kb.keys, n);
      VisibleInStep(name, idx, kb, kb.keys[..n - 1], kb.keys[n - 1]);
    }
  }

  /** A key map's rows: one per visible key. */
  lemma GroupRowsCount(name: char -> Option<string>, t: TableInput, order: Dict<Option<string>>, idx: int)
    requires OrderReady(name, t, order) && idx in order.entries
    ensures idx in t.maps.entries
    ensures |GroupRows(name, t, order, idx)| == |VisibleIn(name, idx, t.maps.entries[idx], t.maps.entries[idx].keys)|
  {
    var kb := t.maps.entries[idx];
    KeyRowsCount(name, order.entries[idx], kb, t.ascii, t.baseline, |kb.keys|, idx);
    assert kb.keys[..|kb.keys|] == kb.keys;
  }

  /** Adding key map `idx` to the list adds its visible keys, none of them
      paired before. */
  lemma PairsStep(name: char -> Option<string>, t: TableInput, ixs: seq<int>, idx: int)
    requires Valid(t.maps) && idx in t.maps.entries && idx !in ixs
    requires Valid(t.maps.entries[idx])
    ensures Pairs(name, t, ixs + [idx])
            == Pairs(name, t, ixs) + VisibleIn(name, idx, t.maps.entries[idx], t.maps.entries[idx].keys)
    ensures Pairs(name, t, ixs) * VisibleIn(name, idx, t.maps.entries[idx], t.maps.entries[idx].keys) == {}
  {
    var kb := t.maps.entries[idx];
    var added := VisibleIn(name, idx, kb, kb.keys);
    forall p | p in added
      ensures p in Pairs(name, t, ixs + [idx]) && p !in Pairs(name, t, ixs)
    {
      var k :| k in kb.keys && k in kb.entries && Visible(name, kb.entries[k]) && p == (idx, k);
      assert idx in ixs + [idx];
    }
    forall p | p in Pairs(name, t, ixs + [idx])
      ensures p in Pairs(name, t, ixs) + added
    {
      var i, k :| i in ixs + [idx] && i in t.maps.entries && k in t.maps.entries[i].entries
        && Visible(name, t.maps.entries[i].entries[k]) && p == (i, k);
      if i == idx {
        assert k in kb.keys;
      } else {
        assert i in ixs;
      }
    }
  }

  /** The count grows by the rows of one more key map. */
  lemma PairsCountStep(name: char -> Option<string>, t: TableInput, ixs: seq<int>, idx: int)
    requires Valid(t.maps) && idx in t.maps.entries && idx !in ixs
    requires Valid(t.maps.entries[idx])
    ensures |Pairs(name, t, ixs + [idx])|
            == |Pairs(name, t, ixs)| + |VisibleIn(name, idx, t.maps.entries[idx], t.maps.entries[idx].keys)|
  {
    PairsStep(name, t, ixs, idx);
  }

  /** One more key map adds as many rows as it adds pairs. */
  lemma TableRowsCountStep(name: char -> Option<string>, t: TableInput, order: Dict<Option<string>>, n: nat)
    requires Valid(t.maps) && OrderReady(name, t, order) && 0 < n <= |order.keys|
    ensures |TableRows(name, t, order, n)| - |Pairs(name, t, order.keys[..n])|
            == |TableRows(name, t, order, n - 1)| - |Pairs(name, t, order.keys[..n - 1])|
  {
    var idx := order.keys[n - 1];
    assert idx in order.entries;
    GroupRowsCount(name, t, order, idx);
    NotBefore(order.keys, n);
    PairsCountStep(name, t, order.keys[..n - 1], idx);
  }

  /** The first `n` key maps of `order` add one row per visible pair. */
  lemma {:induction false} TableRowsCount(name: char -> Option<string>, t: TableInput, order: Dict<Option<string>>, n: nat)
    requires Valid(t.maps) && OrderReady(name, t, order) && n <= |order.keys|
    ensures |TableRows(name, t, order, n)| == |Pairs(name, t, order.keys[..n])|
    decreases n
  {
    if n == 0 {
      assert Pairs(name, t, order.keys[..0]) == {};
    } else {
      TableRowsCount(name, t, order, n - 1);
      TableRowsCountStep(name, t, order, n);
    }
  }

  /** All the key maps of `order` add one row per visible pair. */
  lemma AllRowsCount(name: char -> Option<string>, t: TableInput, order: Dict<Option<string>>)
    requires Valid(t.maps) && OrderReady(name, t, order)
    ensures |TableRows(name, t, order, |order.keys|)| == |Pairs(name, t, order.keys)|
  {
    TableRowsCount(name, t, order, |order.keys|);
    assert order.keys[..|order.keys|] == order.keys;
  }

  /** The key maps `build_table` walks are key map 0 and the described ones. */
  lemma OrderListed(t: TableInput)
    requires Valid(t.modifiers)
    ensures forall idx :: idx in Order(t).keys <==> Listed(t, idx)
  {
    var order := Order(t);
    forall idx ensures idx in order.keys <==> Listed(t, idx) {
      assert idx in order.keys <==> idx in order.entries;
    }
  }

  /** Listing exactly the listed key maps pairs exactly the listed pairs. */
  lemma PairsListed(name: char -> Option<string>, t: TableInput, ixs: seq<int>)
    requires forall idx :: idx in ixs <==> Listed(t, idx)
    ensures Pairs(name, t, ixs) == ListedPairs(name, t)
  {
    forall p | p in ListedPairs(name, t)
      ensures p in Pairs(name, t, ixs)
    {
      var idx, k :| idx in t.maps.entries && Listed(t, idx) && k in t.maps.entries[idx].entries
        && Visible(name, t.maps.entries[idx].entries[k]) && p == (idx, k);
      assert idx in ixs;
    }
  }

  /** `build_table` emits exactly as many rows as there are pairs of key map 0
      or a described key map with a key of it whose output is visible. */
  lemma RowCount(name: char -> Option<string>, t: TableInput)
    requires TableDefined(name, t)
    ensures |Rows(name, t)| == |ListedPairs(name, t)|
  {
    var order := Order(t);
    TableOrderReady(name, t);
    AllRowsCount(name, t, order);
    OrderListed(t);
    PairsListed(name, t, order.keys);
  }
}
