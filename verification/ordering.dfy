/** `sort_by_asciifirst_and_moddescription_length` (keyboard.py:60-70): the key
    maps ordered by the number of `;` in their descriptor, then by the descriptor
    itself, with index 0 (the ASCII keyboard) moved to the front. */
module Ordering {
  import opened OrderedDict
  import opened Text
  import opened Wrappers

  /** An item of `modifier_by_map_index_.items()`: map index and descriptor. */
  type Entry = (int, string)

  /** The sort key `(item[1].count(';'), item[1])`, compared as Python compares
      tuples. */
  predicate KeyLess(a: string, b: string)
  {
    Count(';', a) < Count(';', b) || (Count(';', a) == Count(';', b) && TextLess(a, b))
  }

  lemma KeyLessIrreflexive(a: string)
    ensures !KeyLess(a, a)
  {
    TextLessIrreflexive(a);
  }

  lemma KeyLessTransitive(a: string, b: string, c: string)
    requires KeyLess(a, b) && KeyLess(b, c)
    ensures KeyLess(a, c)
  {
    if Count(';', a) == Count(';', b) == Count(';', c) {
      TextLessTransitive(a, b, c);
    }
  }

  lemma KeyLessTotal(a: string, b: string)
    ensures a == b || KeyLess(a, b) || KeyLess(b, a)
  {
    TextLessTotal(a, b);
  }

  lemma {:induction false} TextLessAsymmetric(a: string, b: string)
    ensures TextLess(a, b) ==> !TextLess(b, a)
    decreases |a|
  {
    if |a| > 0 && |b| > 0 && a[0] == b[0] {
      TextLessAsymmetric(a[1..], b[1..]);
    }
  }

  lemma KeyLessAsymmetric(a: string, b: string)
    ensures KeyLess(a, b) ==> !KeyLess(b, a)
  {
    TextLessAsymmetric(a, b);
  }

  /** "Not below" is transitive. */
  lemma KeyNotLess(a: string, b: string, c: string)
    requires !KeyLess(b, a) && !KeyLess(c, b)
    ensures !KeyLess(c, a)
  {
    KeyLessTotal(a, b);
    KeyLessTotal(b, c);
    if a == b && b == c {
      KeyLessIrreflexive(a);
    } else if a == b {
      KeyLessAsymmetric(a, c);
    } else if b == c {
      KeyLessAsymmetric(a, c);
    } else {
      KeyLessTransitive(a, b, c);
      KeyLessAsymmetric(a, c);
    }
  }

  /** Ascending by sort key. */
  predicate Sorted(s: seq<Entry>)
  {
    forall i, j :: 0 <= i < j < |s| ==> !KeyLess(s[j].1, s[i].1)
  }

  /** The entries with descriptor `d`, in order. Entries with equal sort keys
      are exactly those with equal descriptors, so a sort is stable when it
      keeps every such list as it was. */
  function WithDescriptor(s: seq<Entry>, d: string): (r: seq<Entry>)
    ensures forall e :: e in r <==> e in s && e.1 == d
    decreases |s|
  {
    if |s| == 0 then []
    else if s[0].1 == d then [s[0]] + WithDescriptor(s[1..], d)
    else WithDescriptor(s[1..], d)
  }

  /** Puts `x` in front of the first entry whose key is not below its own. */
  function Insert(x: Entry, s: seq<Entry>): (r: seq<Entry>)
    ensures multiset(r) == multiset(s) + multiset{x}
    decreases |s|
  {
    if |s| == 0 then [x]
    else if KeyLess(s[0].1, x.1) then
      assert s == [s[0]] + s[1..];
      [s[0]] + Insert(x, s[1..])
    else [x] + s
  }

  /** Inserting `x` puts it in front of the entries with its descriptor and
      leaves the order of every descriptor's entries alone. */
  lemma {:induction false} InsertKeepsDescriptors(x: Entry, s: seq<Entry>, d: string)
    ensures WithDescriptor(Insert(x, s), d) == (if x.1 == d then [x] else []) + WithDescriptor(s, d)
    decreases |s|
  {
    var r := Insert(x, s);
    if |s| == 0 {
      assert r[1..] == [];
    } else if KeyLess(s[0].1, x.1) {
      InsertKeepsDescriptors(x, s[1..], d);
      KeyLessIrreflexive(x.1);
      assert r[1..] == Insert(x, s[1..]);
    } else {
      assert r[1..] == s;
    }
  }

  /** An entry whose key no later entry is below goes in front of a sorted list. */
  lemma ConsSorted(a: Entry, t: seq<Entry>)
    requires Sorted(t) && forall j :: 0 <= j < |t| ==> !KeyLess(t[j].1, a.1)
    ensures Sorted([a] + t)
  {
    var r := [a] + t;
    forall i, j | 0 <= i < j < |r|
      ensures !KeyLess(r[j].1, r[i].1)
    {
      assert r[j] == t[j - 1];
      if i > 0 {
        assert r[i] == t[i - 1];
      }
    }
  }

  /** Inserting into a sorted list keeps it sorted. */
  lemma {:induction false} InsertKeepsSorted(x: Entry, s: seq<Entry>)
    requires Sorted(s)
    ensures Sorted(Insert(x, s))
    decreases |s|
  {
    if |s| > 0 {
      if KeyLess(s[0].1, x.1) {
        assert Sorted(s[1..]);
        InsertKeepsSorted(x, s[1..]);
        InsertBehindHead(x, s);
      } else {
        InsertAtHead(x, s);
      }
    }
  }

  /** Where `x` goes behind the head, the head stays below everything after it. */
  lemma InsertBehindHead(x: Entry, s: seq<Entry>)
    requires Sorted(s) && |s| > 0 && KeyLess(s[0].1, x.1) && Sorted(Insert(x, s[1..]))
    ensures Sorted(Insert(x, s))
  {
    var t := Insert(x, s[1..]);
    assert Insert(x, s) == [s[0]] + t;
    forall j | 0 <= j < |t|
      ensures !KeyLess(t[j].1, s[0].1)
    {
      assert t[j] in multiset(t);
      if t[j] == x {
        KeyLessAsymmetric(s[0].1, x.1);
      } else {
        assert t[j] in s[1..];
        var k :| 0 <= k < |s[1..]| && s[1..][k] == t[j];
        assert s[k + 1] == t[j];
      }
    }
    ConsSorted(s[0], t);
  }

  /** Where `x` goes in front, nothing after it is below it. */
  lemma InsertAtHead(x: Entry, s: seq<Entry>)
    requires Sorted(s) && |s| > 0 && !KeyLess(s[0].1, x.1)
    ensures Sorted(Insert(x, s))
  {
    assert Insert(x, s) == [x] + s;
    forall j | 0 <= j < |s|
      ensures !KeyLess(s[j].1, x.1)
    {
      if j == 0 {
        KeyLessIrreflexive(s[0].1);
      }
      KeyNotLess(x.1, s[0].1, s[j].1);
    }
    ConsSorted(x, s);
  }

  /** One insertion step of the sort keeps the sort's three promises. */
  lemma InsertStep(x: Entry, t: seq<Entry>, rest: seq<Entry>)
    requires multiset(t) == multiset(rest) && Sorted(t)
    requires forall d :: WithDescriptor(t, d) == WithDescriptor(rest, d)
    ensures multiset(Insert(x, t)) == multiset([x] + rest)
    ensures Sorted(Insert(x, t))
    ensures forall d :: WithDescriptor(Insert(x, t), d) == WithDescriptor([x] + rest, d)
  {
    InsertKeepsSorted(x, t);
    forall d
      ensures WithDescriptor(Insert(x, t), d) == WithDescriptor([x] + rest, d)
    {
      InsertKeepsDescriptors(x, t, d);
      assert ([x] + rest)[1..] == rest;
    }
  }

  /** `list.sort(key=...)`: Python's sort is stable, modelled here by insertion
      from the back. */
  function SortEntries(s: seq<Entry>): (r: seq<Entry>)
    ensures multiset(r) == multiset(s)
    ensures Sorted(r)
    ensures forall d :: WithDescriptor(r, d) == WithDescriptor(s, d)
    decreases |s|
  {
    if |s| == 0 then []
    else
      var t := SortEntries(s[1..]);
      InsertStep(s[0], t, s[1..]);
      assert s == [s[0]] + s[1..];
      Insert(s[0], t)
  }

  /** An entry whose key the list lacks goes in front keeping the keys distinct. */
  lemma ConsDistinct(a: Entry, t: seq<Entry>)
    requires Distinct(KeysOf(t)) && forall j :: 0 <= j < |t| ==> t[j].0 != a.0
    ensures Distinct(KeysOf([a] + t))
  {
    var ks := KeysOf([a] + t);
    forall i, j | 0 <= i < j < |ks|
      ensures ks[i] != ks[j]
    {
      assert ks[j] == KeysOf(t)[j - 1];
      if i > 0 {
        assert ks[i] == KeysOf(t)[i - 1];
      }
    }
  }

  /** The keys of a permutation of `s` are keys of `s`. */
  lemma PermutedKey(s: seq<Entry>, t: seq<Entry>, j: int)
    requires multiset(t) == multiset(s) && 0 <= j < |t|
    ensures t[j].0 in KeysOf(s)
  {
    assert t[j] in multiset(s);
    var k :| 0 <= k < |s| && s[k] == t[j];
    assert KeysOf(s)[k] == t[j].0;
  }

  /** Inserting an entry with a new key keeps the keys distinct. */
  lemma {:induction false} InsertKeepsDistinct(x: Entry, s: seq<Entry>)
    requires Distinct(KeysOf(s)) && x.0 !in KeysOf(s)
    ensures Distinct(KeysOf(Insert(x, s)))
    decreases |s|
  {
    if |s| > 0 {
      if KeyLess(s[0].1, x.1) {
        var t := Insert(x, s[1..]);
        assert KeysOf(s[1..]) == KeysOf(s)[1..];
        InsertKeepsDistinct(x, s[1..]);
        assert Insert(x, s) == [s[0]] + t;
        HeadKeyNotInserted(x, s);
        ConsDistinct(s[0], t);
      } else {
        assert Insert(x, s) == [x] + s;
        ConsDistinct(x, s);
      }
    }
  }

  /** Behind the head, neither `x` nor the rest of `s` has the head's key. */
  lemma HeadKeyNotInserted(x: Entry, s: seq<Entry>)
    requires |s| > 0 && Distinct(KeysOf(s)) && x.0 !in KeysOf(s)
    ensures forall j :: 0 <= j < |Insert(x, s[1..])| ==> Insert(x, s[1..])[j].0 != s[0].0
  {
    var t := Insert(x, s[1..]);
    forall j | 0 <= j < |t|
      ensures t[j].0 != s[0].0
    {
      assert KeysOf(s)[0] == s[0].0;
      assert t[j] in multiset(t);
      if t[j] != x {
        assert t[j] in multiset(s[1..]);
        var k :| 0 <= k < |s[1..]| && s[1..][k] == t[j];
        assert KeysOf(s)[k + 1] == t[j].0;
      }
    }
  }

  /** Sorting a list whose keys are distinct keeps them distinct. */
  lemma {:induction false} SortKeepsDistinct(s: seq<Entry>)
    requires Distinct(KeysOf(s))
    ensures Distinct(KeysOf(SortEntries(s)))
    decreases |s|
  {
    if |s| > 0 {
      var t := SortEntries(s[1..]);
      assert KeysOf(s[1..]) == KeysOf(s)[1..];
      SortKeepsDistinct(s[1..]);
      assert s[0].0 !in KeysOf(t) by {
        forall j | 0 <= j < |t|
          ensures t[j].0 != s[0].0
        {
          PermutedKey(s[1..], t, j);
        }
      }
      InsertKeepsDistinct(s[0], t);
    }
  }

  /** The keys `ks` ascend by the sort key of their descriptors in `m`. */
  predicate SortedBy(ks: seq<int>, m: map<int, string>)
  {
    && (forall i :: 0 <= i < |ks| ==> ks[i] in m)
    && (forall i, j :: 0 <= i < j < |ks| && ks[i] in m && ks[j] in m ==> !KeyLess(m[ks[j]], m[ks[i]]))
  }

  /** A key whose descriptor nothing later is below goes in front. */
  lemma ConsSortedBy(a: int, t: seq<int>, m: map<int, string>)
    requires a in m && SortedBy(t, m) && forall j :: 0 <= j < |t| ==> !KeyLess(m[t[j]], m[a])
    ensures SortedBy([a] + t, m)
  {
    var r := [a] + t;
    forall i, j | 0 <= i < j < |r|
      ensures !KeyLess(m[r[j]], m[r[i]])
    {
      assert r[j] == t[j - 1];
      if i > 0 {
        assert r[i] == t[i - 1];
      }
    }
  }

  /** Leaving keys out keeps the rest in order. */
  lemma {:induction false} UnseenKeepsSortedBy(ks: seq<int>, seen: seq<int>, m: map<int, string>)
    requires SortedBy(ks, m)
    ensures SortedBy(Unseen(ks, seen), m)
    decreases |ks|
  {
    if |ks| > 0 {
      var t := Unseen(ks[1..], seen);
      assert SortedBy(ks[1..], m);
      UnseenKeepsSortedBy(ks[1..], seen, m);
      if ks[0] !in seen {
        assert Unseen(ks, seen) == [ks[0]] + t;
        forall j | 0 <= j < |t|
          ensures !KeyLess(m[t[j]], m[ks[0]])
        {
          assert t[j] in ks[1..];
          var k :| 0 <= k < |ks[1..]| && ks[1..][k] == t[j];
          assert ks[k + 1] == t[j];
        }
        ConsSortedBy(ks[0], t, m);
      }
    }
  }

  /** The descriptors as dict values next to the ASCII keyboard, which sits at
      key 0 as `None`. */
  function Labelled(s: seq<Entry>): (items: seq<(int, Option<string>)>)
    ensures KeysOf(items) == KeysOf(s)
    ensures forall i :: 0 <= i < |s| ==> items[i].1 == Some(s[i].1)
  {
    seq(|s|, i requires 0 <= i < |s| => (s[i].0, Some(s[i].1)))
  }

  /** The items of the descriptor dict, sorted (keyboard.py:61 and 66). */
  function SortedItems(m: Dict<string>): (r: seq<Entry>)
    requires Valid(m)
    ensures Distinct(KeysOf(r))
    ensures forall k :: k in m.entries <==> k in KeysOf(r)
    ensures forall i :: 0 <= i < |r| ==> r[i].0 in m.entries && r[i].1 == m.entries[r[i].0]
    ensures SortedBy(KeysOf(r), m.entries)
    ensures forall d :: WithDescriptor(r, d) == WithDescriptor(Items(m), d)
  {
    var items := Items(m);
    var sorted := SortEntries(items);
    SortKeepsDistinct(items);
    PermutedItems(m, sorted);
    PermutedItemsComplete(m, sorted);
    SortedItemsSortedBy(m, sorted);
    sorted
  }

  /** A permutation of the items pairs keys of the dict with their values. */
  lemma PermutedItems(m: Dict<string>, sorted: seq<Entry>)
    requires Valid(m) && multiset(sorted) == multiset(Items(m))
    ensures forall i :: 0 <= i < |sorted| ==> sorted[i].0 in m.entries && sorted[i].1 == m.entries[sorted[i].0]
  {
    forall i | 0 <= i < |sorted|
      ensures sorted[i].0 in m.entries && sorted[i].1 == m.entries[sorted[i].0]
    {
      assert sorted[i] in multiset(Items(m));
      var j :| 0 <= j < |Items(m)| && Items(m)[j] == sorted[i];
      assert KeysOf(Items(m))[j] == sorted[i].0;
    }
  }

  /** A permutation of the items has every key of the dict. */
  lemma PermutedItemsComplete(m: Dict<string>, sorted: seq<Entry>)
    requires Valid(m) && multiset(sorted) == multiset(Items(m))
    ensures forall k :: k in m.entries ==> k in KeysOf(sorted)
  {
    var items := Items(m);
    forall k | k in m.entries
      ensures k in KeysOf(sorted)
    {
      var i :| 0 <= i < |m.keys| && m.keys[i] == k;
      assert KeysOf(items)[i] == k;
      assert items[i] in multiset(sorted);
      var j :| 0 <= j < |sorted| && sorted[j] == items[i];
      assert KeysOf(sorted)[j] == k;
    }
  }

  lemma SortedItemsSortedBy(m: Dict<string>, sorted: seq<Entry>)
    requires Valid(m) && Sorted(sorted)
    requires forall i :: 0 <= i < |sorted| ==> sorted[i].0 in m.entries && sorted[i].1 == m.entries[sorted[i].0]
    ensures SortedBy(KeysOf(sorted), m.entries)
  {
    var ks := KeysOf(sorted);
    forall i, j | 0 <= i < j < |ks|
      ensures !KeyLess(m.entries[ks[j]], m.entries[ks[i]])
    {
      assert !KeyLess(sorted[j].1, sorted[i].1);
    }
  }

  /** `dict(modifier_by_map_index_items)` (keyboard.py:68), with the descriptors
      as `Some`. */
  function SortedDict(m: Dict<string>): (f: Dict<Option<string>>)
    requires Valid(m)
    ensures Valid(f)
    ensures f.keys == KeysOf(SortedItems(m))
    ensures forall k :: k in f.entries <==> k in m.entries
    ensures forall k :: k in f.entries ==> f.entries[k] == Some(m.entries[k])
  {
    var sorted := SortedItems(m);
    var labelled := Labelled(sorted);
    var f := FromItems(labelled);
    FromDistinctItems(labelled);
    forall k | k in f.entries
      ensures f.entries[k] == Some(m.entries[k])
    {
      var i :| 0 <= i < |f.keys| && f.keys[i] == k;
      assert labelled[i].0 == k;
    }
    f
  }

  /** `sort_by_asciifirst_and_moddescription_length` (keyboard.py:60-70). The
      value at key 0 is the ASCII keyboard itself (None here) unless the
      descriptors have a key 0, whose descriptor then replaces it; key 0 stays
      first either way and the other keys follow in sorted order. */
  function OrderKeyboards(m: Dict<string>): (r: Dict<Option<string>>)
    requires Valid(m)
    ensures Valid(r) && |r.keys| >= 1 && r.keys[0] == 0
    ensures forall k :: k in r.entries <==> k == 0 || k in m.entries
    ensures 0 !in m.entries ==> r.entries[0] == None
    ensures forall k :: k in m.entries ==> r.entries[k] == Some(m.entries[k])
    ensures SortedBy(r.keys[1..], m.entries)
    ensures forall d :: KeysWith(r.keys[1..], m.entries, d) == KeysWith(Unseen(m.keys, [0]), m.entries, d)
  {
    var ks := KeysOf(SortedItems(m));
    var r := Merge(Dict([0], map[0 := None]), SortedDict(m));
    UnseenKeepsSortedBy(ks, [0], m.entries);
    FreshOfDistinct(ks, [0]);
    assert r.keys[1..] == Unseen(ks, [0]);
    SortKeepsTies(m);
    r
  }

  /** The keys of `ks` whose descriptor in `m` is `d`, in order. */
  function KeysWith(ks: seq<int>, m: map<int, string>, d: string): (r: seq<int>)
    ensures forall k :: k in r <==> k in ks && k in m && m[k] == d
    decreases |ks|
  {
    if |ks| == 0 then []
    else (if ks[0] in m && m[ks[0]] == d then [ks[0]] else []) + KeysWith(ks[1..], m, d)
  }

  /** For entries that pair keys with their descriptors in `m`, filtering the
      keys by descriptor is filtering the entries. */
  lemma {:induction false} KeysWithEntries(s: seq<Entry>, m: map<int, string>, d: string)
    requires forall i :: 0 <= i < |s| ==> s[i].0 in m && s[i].1 == m[s[i].0]
    ensures KeysWith(KeysOf(s), m, d) == KeysOf(WithDescriptor(s, d))
    decreases |s|
  {
    if |s| > 0 {
      assert KeysOf(s)[1..] == KeysOf(s[1..]);
      KeysWithEntries(s[1..], m, d);
      if s[0].1 == d {
        assert KeysOf([s[0]] + WithDescriptor(s[1..], d)) == [s[0].0] + KeysOf(WithDescriptor(s[1..], d));
      }
    }
  }

  /** Filtering by descriptor and leaving out seen keys commute. */
  lemma {:induction false} KeysWithUnseen(ks: seq<int>, seen: seq<int>, m: map<int, string>, d: string)
    ensures KeysWith(Unseen(ks, seen), m, d) == Unseen(KeysWith(ks, m, d), seen)
    decreases |ks|
  {
    if |ks| > 0 {
      KeysWithUnseen(ks[1..], seen, m, d);
      var w := KeysWith(ks, m, d);
      if ks[0] in m && m[ks[0]] == d {
        assert w[0] == ks[0] && w[1..] == KeysWith(ks[1..], m, d);
        if ks[0] !in seen {
          assert ([ks[0]] + Unseen(ks[1..], seen))[1..] == Unseen(ks[1..], seen);
        }
      } else {
        assert w == KeysWith(ks[1..], m, d);
        if ks[0] !in seen {
          assert ([ks[0]] + Unseen(ks[1..], seen))[1..] == Unseen(ks[1..], seen);
        }
      }
    }
  }

  /** Behind key 0, the keys with one descriptor keep their dict order: the
      sort is stable, and Shift and Command share a glyph. */
  lemma SortKeepsTies(m: Dict<string>)
    requires Valid(m)
    ensures var ks := KeysOf(SortedItems(m));
      forall d :: KeysWith(Unseen(ks, [0]), m.entries, d) == KeysWith(Unseen(m.keys, [0]), m.entries, d)
  {
    var sorted := SortedItems(m);
    var items := Items(m);
    var ks := KeysOf(sorted);
    assert forall i :: 0 <= i < |items| ==> items[i].0 in m.entries by {
      forall i | 0 <= i < |items|
        ensures items[i].0 in m.entries
      {
        assert KeysOf(items)[i] == m.keys[i];
      }
    }
    forall d
      ensures KeysWith(Unseen(ks, [0]), m.entries, d) == KeysWith(Unseen(m.keys, [0]), m.entries, d)
    {
      KeysWithUnseen(ks, [0], m.entries, d);
      KeysWithUnseen(m.keys, [0], m.entries, d);
      KeysWithEntries(sorted, m.entries, d);
      KeysWithEntries(items, m.entries, d);
    }
  }
}
