/** `build_table` (keyboard.py:58-101): one row per key whose output has a
    visible name, the key maps taken in the order of `OrderKeyboards` and the
    keys of each in their dict order. */
module Table {
  import opened Wrappers
  import opened OrderedDict
  import opened Text
  import opened Layout
  import opened Naming
  import opened Ordering

  /** One element of the list the source returns; fields in the dict's order. */
  datatype Row = Row(modifier: string, ascii: string, unmodifiedNonAsciiKey: string,
                     modifiedKey: string, unicodeName: string)

  /** The arguments of `build_table`. */
  datatype TableInput = TableInput(
    ascii: Dict<string>,           // ascii_keyboard, the key map of index 0
    baseline: Dict<string>,        // unmodified_nonasciii_keyboard
    maps: Dict<Dict<string>>,      // map_by_index
    modifiers: Dict<string>)       // modifier_by_map_index_

  /** What a blank descriptor is shown as (keyboard.py:91-92). */
  const NONE := "<NONE>"

  /** The modifier column for a descriptor. What matters is that the column
      is never blank; the two case ensures only spell out the body, for a
      reader of the contract. */
  function DisplayLabel(d: string): (l: string)
    ensures !Blank(l)
    ensures Blank(d) ==> l == NONE
    ensures !Blank(d) ==> l == d
  {
    assert !IsSpace(NONE[0]);
    if Blank(d) then NONE else d
  }

  /** Labelling keeps the number of `;`, so the sort order by modifier count
      survives into the column. */
  lemma DisplayLabelCount(d: string)
    ensures Count(';', DisplayLabel(d)) == Count(';', d)
  {
    if Blank(d) {
      assert ';' !in d by {
        assert !IsSpace(';');
      }
      assert ';' !in NONE;
    }
  }

  function Order(t: TableInput): Dict<Option<string>>
    requires Valid(t.modifiers)
  {
    OrderKeyboards(t.modifiers)
  }

  /** The key map `kb` can be walked: each of its visible keys has a
      descriptor to label it with and a column in the ASCII and the baseline
      key maps (otherwise `modifier.strip()`, `ascii_keyboard[key_idx]` or
      `unmodified_nonasciii_keyboard[key_idx]` raises). */
  predicate KeysDefined(name: char -> Option<string>, desc: Option<string>, kb: Dict<string>,
                        ascii: Dict<string>, baseline: Dict<string>)
  {
    && Valid(kb)
    && forall k :: k in kb.entries && Visible(name, kb.entries[k]) ==>
         desc.Some? && k in ascii.entries && k in baseline.entries
  }

  /** The key map at `idx` exists (otherwise `map_by_index[idx]` raises) and
      can be walked. */
  predicate GroupDefined(name: char -> Option<string>, t: TableInput, desc: Option<string>, idx: int)
  {
    idx in t.maps.entries && KeysDefined(name, desc, t.maps.entries[idx], t.ascii, t.baseline)
  }

  /** `build_table` runs to the end without raising. */
  predicate TableDefined(name: char -> Option<string>, t: TableInput)
  {
    && Valid(t.ascii) && Valid(t.baseline) && Valid(t.maps) && Valid(t.modifiers)
    && GroupDefined(name, t, if 0 in t.modifiers.entries then Some(t.modifiers.entries[0]) else None, 0)
    && forall idx :: idx in t.modifiers.entries ==> GroupDefined(name, t, Some(t.modifiers.entries[idx]), idx)
  }

  /** Every key map `order` lists can be walked with the descriptor it holds. */
  predicate OrderReady(name: char -> Option<string>, t: TableInput, order: Dict<Option<string>>)
  {
    && Valid(order)
    && forall idx :: idx in order.entries ==> GroupDefined(name, t, order.entries[idx], idx)
  }

  lemma TableOrderReady(name: char -> Option<string>, t: TableInput)
    requires TableDefined(name, t)
    ensures OrderReady(name, t, Order(t))
  {
  }

  /** The row for the visible key `k` of `kb`. */
  function KeyRow(name: char -> Option<string>, desc: Option<string>, kb: Dict<string>,
                  ascii: Dict<string>, baseline: Dict<string>, k: int): Row
    requires KeysDefined(name, desc, kb, ascii, baseline)
    requires k in kb.entries && Visible(name, kb.entries[k])
  {
    var v := kb.entries[k];
    Row(DisplayLabel(desc.value), ascii.entries[k], baseline.entries[k], v, UnicodeName(name, v))
  }

  /** The rows of the first `n` keys of `kb`. */
  function KeyRows(name: char -> Option<string>, desc: Option<string>, kb: Dict<string>,
                   ascii: Dict<string>, baseline: Dict<string>, n: nat): seq<Row>
    requires KeysDefined(name, desc, kb, ascii, baseline) && n <= |kb.keys|
  {
    if n == 0 then []
    else
      var k := kb.keys[n - 1];
      KeyRows(name, desc, kb, ascii, baseline, n - 1)
        + (if Visible(name, kb.entries[k]) then [KeyRow(name, desc, kb, ascii, baseline, k)] else [])
  }

  /** The rows of the key map at `idx`. */
  function GroupRows(name: char -> Option<string>, t: TableInput, order: Dict<Option<string>>, idx: int): seq<Row>
    requires OrderReady(name, t, order) && idx in order.entries
  {
    var kb := t.maps.entries[idx];
    KeyRows(name, order.entries[idx], kb, t.ascii, t.baseline, |kb.keys|)
  }

  /** The rows of the first `n` key maps of `order`. */
  function TableRows(name: char -> Option<string>, t: TableInput, order: Dict<Option<string>>, n: nat): seq<Row>
    requires OrderReady(name, t, order) && n <= |order.keys|
  {
    if n == 0 then []
    else TableRows(name, t, order, n - 1) + GroupRows(name, t, order, order.keys[n - 1])
  }

  /** The list `build_table` returns. */
  function Rows(name: char -> Option<string>, t: TableInput): seq<Row>
    requires TableDefined(name, t)
  {
    TableOrderReady(name, t);
    TableRows(name, t, Order(t), |Order(t).keys|)
  }

  /** Replacing a blank modifier by `<NONE>` once, or again, gives its label. */
  lemma Relabel(m: string, d: string)
    requires m == d || (Blank(d) && m == NONE)
    ensures (if Blank(m) then NONE else m) == DisplayLabel(d)
  {
    assert !IsSpace(NONE[0]);
  }

  /** What the loop's `modifier` holds against the descriptor `desc` it
      started from: the descriptor itself, or `<NONE>` once a blank one has
      been replaced. */
  predicate Tracks(modifier: Option<string>, desc: Option<string>)
  {
    && (modifier.Some? <==> desc.Some?)
    && (modifier.Some? ==> modifier.value == desc.value || (Blank(desc.value) && modifier.value == NONE))
  }

  /** The inner loop of keyboard.py:88-100 over the keys of one key map. */
  method GroupTable(name: char -> Option<string>, desc: Option<string>, keyboard: Dict<string>,
                    ascii: Dict<string>, baseline: Dict<string>) returns (rows: seq<Row>)
    requires KeysDefined(name, desc, keyboard, ascii, baseline)
    ensures rows == KeyRows(name, desc, keyboard, ascii, baseline, |keyboard.keys|)
  {
    var modifier := desc;
    rows := [];
    var j := 0;
    while j < |keyboard.keys|
      invariant 0 <= j <= |keyboard.keys|
      invariant rows == KeyRows(name, desc, keyboard, ascii, baseline, j)
      invariant Tracks(modifier, desc)
    {
      rows, modifier := AppendKey(name, desc, keyboard, ascii, baseline, j, rows, modifier);
      j := j + 1;
    }
  }

  /** One pass of the inner loop, with the reassignment of `modifier` at
      keyboard.py:92: once a blank descriptor has been replaced, the
      replacement is what the later rows show. */
  method AppendKey(name: char -> Option<string>, desc: Option<string>, keyboard: Dict<string>,
                   ascii: Dict<string>, baseline: Dict<string>, j: nat, rows: seq<Row>, modifier: Option<string>)
      returns (more: seq<Row>, next: Option<string>)
    requires KeysDefined(name, desc, keyboard, ascii, baseline) && j < |keyboard.keys|
    requires rows == KeyRows(name, desc, keyboard, ascii, baseline, j) && Tracks(modifier, desc)
    ensures more == KeyRows(name, desc, keyboard, ascii, baseline, j + 1) && Tracks(next, desc)
  {
    var k := keyboard.keys[j];
    var key := keyboard.entries[k];
    next := modifier;
    VisibleIsTheTest(name, key);
    if UnicodeName(name, key) != TOFU && UnicodeName(name, key) != EMPTY {
      assert modifier.Some?;
      if Blank(modifier.value) {
        next := Some(NONE);
      }
      VisibleStep(name, desc, keyboard, ascii, baseline, j, modifier.value);
      more := rows + [Row(next.value, ascii.entries[k], baseline.entries[k], key, UnicodeName(name, key))];
    } else {
      HiddenStep(name, desc, keyboard, ascii, baseline, j);
      more := rows;
    }
  }

  /** One visible key adds its row, labelled with the modifier as the loop
      holds it. */
  lemma VisibleStep(name: char -> Option<string>, desc: Option<string>, kb: Dict<string>,
                    ascii: Dict<string>, baseline: Dict<string>, j: nat, m: string)
    requires KeysDefined(name, desc, kb, ascii, baseline) && j < |kb.keys|
    requires kb.keys[j] in kb.entries && Visible(name, kb.entries[kb.keys[j]])
    requires desc.Some? && (m == desc.value || (Blank(desc.value) && m == NONE))
    ensures var k := kb.keys[j];
      && k in ascii.entries && k in baseline.entries
      && KeyRows(name, desc, kb, ascii, baseline, j + 1)
         == KeyRows(name, desc, kb, ascii, baseline, j)
            + [Row(if Blank(m) then NONE else m, ascii.entries[k], baseline.entries[k], kb.entries[k], UnicodeName(name, kb.entries[k]))]
  {
    Relabel(m, desc.value);
  }

  /** A hidden key adds no row. */
  lemma HiddenStep(name: char -> Option<string>, desc: Option<string>, kb: Dict<string>,
                   ascii: Dict<string>, baseline: Dict<string>, j: nat)
    requires KeysDefined(name, desc, kb, ascii, baseline) && j < |kb.keys|
    requires kb.keys[j] in kb.entries && !Visible(name, kb.entries[kb.keys[j]])
    ensures KeyRows(name, desc, kb, ascii, baseline, j + 1) == KeyRows(name, desc, kb, ascii, baseline, j)
  {
  }

  /** The outer loop of keyboard.py:86-100 over the key maps of `order`. */
  method OrderTable(name: char -> Option<string>, t: TableInput, order: Dict<Option<string>>) returns (rows: seq<Row>)
    requires OrderReady(name, t, order)
    ensures rows == TableRows(name, t, order, |order.keys|)
  {
    rows := [];
    var i := 0;
    while i < |order.keys|
      invariant 0 <= i <= |order.keys|
      invariant rows == TableRows(name, t, order, i)
    {
      rows := AppendGroup(name, t, order, i, rows);
      i := i + 1;
    }
  }

  /** One pass of the outer loop: the rows of the `i`-th key map are added. */
  method AppendGroup(name: char -> Option<string>, t: TableInput, order: Dict<Option<string>>, i: nat, rows: seq<Row>)
      returns (more: seq<Row>)
    requires OrderReady(name, t, order) && i < |order.keys| && rows == TableRows(name, t, order, i)
    ensures more == TableRows(name, t, order, i + 1)
  {
    var idx := order.keys[i];
    GroupStep(name, t, order, i);
    var group := GroupTable(name, order.entries[idx], t.maps.entries[idx], t.ascii, t.baseline);
    more := rows + group;
  }

  /** One more key map adds its rows. */
  lemma GroupStep(name: char -> Option<string>, t: TableInput, order: Dict<Option<string>>, i: nat)
    requires OrderReady(name, t, order) && i < |order.keys|
    ensures var idx := order.keys[i];
      && idx in order.entries && idx in t.maps.entries
      && KeysDefined(name, order.entries[idx], t.maps.entries[idx], t.ascii, t.baseline)
      && TableRows(name, t, order, i + 1)
         == TableRows(name, t, order, i)
            + KeyRows(name, order.entries[idx], t.maps.entries[idx], t.ascii, t.baseline, |t.maps.entries[idx].keys|)
  {
    assert order.keys[i] in order.entries;
  }

  /** `build_table` (keyboard.py:84-101). */
  method BuildTable(name: char -> Option<string>, t: TableInput) returns (rows: seq<Row>)
    requires TableDefined(name, t)
    ensures rows == Rows(name, t)
  {
    TableOrderReady(name, t);
    rows := OrderTable(name, t, Order(t));
  }

  /** A key map's rows are the rows of its visible keys, in its key order. */
  lemma {:induction false} KeyRowsMembers(name: char -> Option<string>, desc: Option<string>, kb: Dict<string>,
                                          ascii: Dict<string>, baseline: Dict<string>, n: nat)
    requires KeysDefined(name, desc, kb, ascii, baseline) && n <= |kb.keys|
    ensures forall p :: 0 <= p < n && Visible(name, kb.entries[kb.keys[p]]) ==>
              KeyRow(name, desc, kb, ascii, baseline, kb.keys[p]) in KeyRows(name, desc, kb, ascii, baseline, n)
    ensures forall r :: r in KeyRows(name, desc, kb, ascii, baseline, n) ==>
              exists p :: 0 <= p < n && Visible(name, kb.entries[kb.keys[p]])
                && r == KeyRow(name, desc, kb, ascii, baseline, kb.keys[p])
    decreases n
  {
    if n > 0 {
      KeyRowsMembers(name, desc, kb, ascii, baseline, n - 1);
      var prev := KeyRows(name, desc, kb, ascii, baseline, n - 1);
      var k := kb.keys[n - 1];
      var extra := if Visible(name, kb.entries[k]) then [KeyRow(name, desc, kb, ascii, baseline, k)] else [];
      var rows := KeyRows(name, desc, kb, ascii, baseline, n);
      assert rows == prev + extra;
      forall p | 0 <= p < n && Visible(name, kb.entries[kb.keys[p]])
        ensures KeyRow(name, desc, kb, ascii, baseline, kb.keys[p]) in rows
      {
        if p < n - 1 {
          assert KeyRow(name, desc, kb, ascii, baseline, kb.keys[p]) in prev;
        } else {
          assert KeyRow(name, desc, kb, ascii, baseline, kb.keys[p]) in extra;
        }
      }
      forall r | r in rows
        ensures exists p :: 0 <= p < n && Visible(name, kb.entries[kb.keys[p]])
                  && r == KeyRow(name, desc, kb, ascii, baseline, kb.keys[p])
      {
        if r in prev {
          var p :| 0 <= p < n - 1 && Visible(name, kb.entries[kb.keys[p]])
                  && r == KeyRow(name, desc, kb, ascii, baseline, kb.keys[p]);
        } else {
          assert r in extra;
          assert Visible(name, kb.entries[kb.keys[n - 1]]);
        }
      }
    }
  }

  /** The rows of each of the first `n` key maps of `order`, one list per key
      map. */
  function Groups(name: char -> Option<string>, t: TableInput, order: Dict<Option<string>>, n: nat): (gs: seq<seq<Row>>)
    requires OrderReady(name, t, order) && n <= |order.keys|
    ensures |gs| == n && forall q :: 0 <= q < n ==> gs[q] == GroupRows(name, t, order, order.keys[q])
  {
    seq(n, q requires 0 <= q < n => GroupRows(name, t, order, order.keys[q]))
  }

  /** The lists of `gs` one after the other. */
  function Concat<T>(gs: seq<seq<T>>): seq<T>
    decreases |gs|
  {
    if |gs| == 0 then [] else Concat(gs[..|gs| - 1]) + gs[|gs| - 1]
  }

  /** An element of the concatenation is an element of one of the lists. */
  lemma {:induction false} ConcatMembers<T>(gs: seq<seq<T>>)
    ensures forall x :: x in Concat(gs) <==> exists q :: 0 <= q < |gs| && x in gs[q]
    decreases |gs|
  {
    if |gs| > 0 {
      var init := gs[..|gs| - 1];
      ConcatMembers(init);
      assert Concat(gs) == Concat(init) + gs[|gs| - 1];
      forall x
        ensures x in Concat(gs) <==> exists q :: 0 <= q < |gs| && x in gs[q]
      {
        if x in Concat(init) {
          var q :| 0 <= q < |init| && x in init[q];
          assert init[q] == gs[q];
        }
        if exists q :: 0 <= q < |gs| && x in gs[q] {
          var q :| 0 <= q < |gs| && x in gs[q];
          if q < |gs| - 1 {
            assert init[q] == gs[q];
          }
        }
      }
    }
  }

  /** The concatenation begins with the first list. */
  lemma {:induction false} ConcatStartsWith<T>(gs: seq<seq<T>>)
    requires |gs| > 0
    ensures |gs[0]| <= |Concat(gs)| && Concat(gs)[..|gs[0]|] == gs[0]
    decreases |gs|
  {
    var init := gs[..|gs| - 1];
    assert Concat(gs) == Concat(init) + gs[|gs| - 1];
    if |gs| == 1 {
      assert Concat(init) == [];
    } else {
      ConcatStartsWith(init);
      assert init[0] == gs[0];
      assert Concat(gs)[..|gs[0]|] == Concat(init)[..|gs[0]|];
    }
  }

  /** The outer loop concatenates the key maps' rows. */
  lemma {:induction false} TableRowsConcat(name: char -> Option<string>, t: TableInput, order: Dict<Option<string>>, n: nat)
    requires OrderReady(name, t, order) && n <= |order.keys|
    ensures TableRows(name, t, order, n) == Concat(Groups(name, t, order, n))
    decreases n
  {
    if n > 0 {
      TableRowsConcat(name, t, order, n - 1);
      assert Groups(name, t, order, n)[..n - 1] == Groups(name, t, order, n - 1);
    }
  }

  /** The rows of the first `n` key maps are the rows of those key maps. */
  lemma TableRowsMembers(name: char -> Option<string>, t: TableInput, order: Dict<Option<string>>, n: nat)
    requires OrderReady(name, t, order) && n <= |order.keys|
    ensures forall r :: r in TableRows(name, t, order, n) <==>
              exists q :: 0 <= q < n && r in GroupRows(name, t, order, order.keys[q])
  {
    var gs := Groups(name, t, order, n);
    TableRowsConcat(name, t, order, n);
    ConcatMembers(gs);
    forall r
      ensures r in Concat(gs) <==> exists q :: 0 <= q < n && r in GroupRows(name, t, order, order.keys[q])
    {
      if r in Concat(gs) {
        var q :| 0 <= q < n && r in gs[q];
        assert r in GroupRows(name, t, order, order.keys[q]);
      }
      if exists q :: 0 <= q < n && r in GroupRows(name, t, order, order.keys[q]) {
        var q :| 0 <= q < n && r in GroupRows(name, t, order, order.keys[q]);
        assert r in gs[q];
      }
    }
  }

  /** The row for key `k` of the key map at `idx`. */
  function OrderRow(name: char -> Option<string>, t: TableInput, order: Dict<Option<string>>, idx: int, k: int): Row
    requires OrderReady(name, t, order) && idx in order.entries
    requires k in t.maps.entries[idx].entries && Visible(name, t.maps.entries[idx].entries[k])
  {
    KeyRow(name, order.entries[idx], t.maps.entries[idx], t.ascii, t.baseline, k)
  }

  /** `rows` holds a row for every visible key of every key map `order` lists,
      and nothing else. */
  predicate ShowsVisibleKeys(name: char -> Option<string>, t: TableInput, order: Dict<Option<string>>, rows: seq<Row>)
    requires OrderReady(name, t, order)
  {
    && (forall idx, k :: (idx in order.entries && k in t.maps.entries[idx].entries
          && Visible(name, t.maps.entries[idx].entries[k])) ==> OrderRow(name, t, order, idx, k) in rows)
    && (forall r :: r in rows ==>
          exists idx, k :: idx in order.entries && k in t.maps.entries[idx].entries
            && Visible(name, t.maps.entries[idx].entries[k]) && r == OrderRow(name, t, order, idx, k))
  }

  lemma TableRowsShowVisibleKeys(name: char -> Option<string>, t: TableInput, order: Dict<Option<string>>)
    requires OrderReady(name, t, order)
    ensures ShowsVisibleKeys(name, t, order, TableRows(name, t, order, |order.keys|))
  {
    var rows := TableRows(name, t, order, |order.keys|);
    TableRowsMembers(name, t, order, |order.keys|);
    forall idx, k | idx in order.entries && k in t.maps.entries[idx].entries
        && Visible(name, t.maps.entries[idx].entries[k])
      ensures OrderRow(name, t, order, idx, k) in rows
    {
      var kb := t.maps.entries[idx];
      var q :| 0 <= q < |order.keys| && order.keys[q] == idx;
      var p :| 0 <= p < |kb.keys| && kb.keys[p] == k;
      KeyRowsMembers(name, order.entries[idx], kb, t.ascii, t.baseline, |kb.keys|);
      assert OrderRow(name, t, order, idx, k) in GroupRows(name, t, order, order.keys[q]);
    }
    forall r | r in rows
      ensures exists idx, k :: idx in order.entries && k in t.maps.entries[idx].entries
                && Visible(name, t.maps.entries[idx].entries[k]) && r == OrderRow(name, t, order, idx, k)
    {
      var q :| 0 <= q < |order.keys| && r in GroupRows(name, t, order, order.keys[q]);
      var idx := order.keys[q];
      var kb := t.maps.entries[idx];
      KeyRowsMembers(name, order.entries[idx], kb, t.ascii, t.baseline, |kb.keys|);
      var p :| 0 <= p < |kb.keys| && Visible(name, kb.entries[kb.keys[p]])
        && r == KeyRow(name, order.entries[idx], kb, t.ascii, t.baseline, kb.keys[p]);
      assert r == OrderRow(name, t, order, idx, kb.keys[p]);
    }
  }

  /** Which rows the table holds: one for every visible key of every key map it
      walks, and nothing else; each shows the labelled descriptor, the key's
      ASCII and baseline characters, the output and its names. */
  lemma RowsAreVisibleKeys(name: char -> Option<string>, t: TableInput)
    requires TableDefined(name, t)
    ensures OrderReady(name, t, Order(t)) && ShowsVisibleKeys(name, t, Order(t), Rows(name, t))
  {
    TableOrderReady(name, t);
    TableRowsShowVisibleKeys(name, t, Order(t));
  }

  /** The row `r` shows key `k` of the key map at `idx`: its output, visible,
      with its names, its characters in the ASCII and the baseline key maps,
      and a modifier that is never blank. */
  ghost predicate Shows(name: char -> Option<string>, t: TableInput, idx: int, k: int, r: Row)
  {
    && idx in t.maps.entries && k in t.maps.entries[idx].entries
    && k in t.ascii.entries && k in t.baseline.entries
    && r.modifiedKey == t.maps.entries[idx].entries[k] && Visible(name, r.modifiedKey)
    && r.ascii == t.ascii.entries[k] && r.unmodifiedNonAsciiKey == t.baseline.entries[k]
    && r.unicodeName == UnicodeName(name, r.modifiedKey) && !Blank(r.modifier)
  }

  /** `build_table` walks key map 0 and the key maps the descriptors name. */
  predicate Listed(t: TableInput, idx: int)
  {
    idx == 0 || idx in t.modifiers.entries
  }

  /** Each row shows a visible key of a listed key map, and each visible key of
      a listed key map has a row showing it. */
  ghost predicate ShowsKeys(name: char -> Option<string>, t: TableInput, rows: seq<Row>)
  {
    && (forall r :: r in rows ==> exists idx, k :: Listed(t, idx) && Shows(name, t, idx, k, r))
    && (forall idx, k :: (Listed(t, idx) && idx in t.maps.entries && k in t.maps.entries[idx].entries
          && Visible(name, t.maps.entries[idx].entries[k])) ==>
          exists r :: r in rows && Shows(name, t, idx, k, r))
  }

  /** The table in the terms of its input alone. */
  lemma RowsShowKeys(name: char -> Option<string>, t: TableInput)
    requires TableDefined(name, t)
    ensures ShowsKeys(name, t, Rows(name, t))
  {
    RowsAreVisibleKeys(name, t);
    var order := Order(t);
    var rows := Rows(name, t);
    forall r | r in rows
      ensures exists idx, k :: Listed(t, idx) && Shows(name, t, idx, k, r)
    {
      var idx, k :| idx in order.entries && k in t.maps.entries[idx].entries
        && Visible(name, t.maps.entries[idx].entries[k]) && r == OrderRow(name, t, order, idx, k);
      assert Listed(t, idx) && Shows(name, t, idx, k, r);
    }
    forall idx, k | Listed(t, idx) && idx in t.maps.entries && k in t.maps.entries[idx].entries
        && Visible(name, t.maps.entries[idx].entries[k])
      ensures exists r :: r in rows && Shows(name, t, idx, k, r)
    {
      assert idx in order.entries;
      assert Shows(name, t, idx, k, OrderRow(name, t, order, idx, k));
    }
  }

  /** Every row shows a visible output with its names, and a modifier that is
      never blank. */
  lemma RowsAreLabelled(name: char -> Option<string>, t: TableInput)
    requires TableDefined(name, t)
    ensures forall r :: r in Rows(name, t) ==>
              && Visible(name, r.modifiedKey)
              && r.unicodeName == UnicodeName(name, r.modifiedKey)
              && !Blank(r.modifier)
  {
    RowsAreVisibleKeys(name, t);
  }

  /** The number of `;` in the descriptor a key map is listed with. */
  function Level(order: Dict<Option<string>>, idx: int): nat
    requires idx in order.entries
  {
    match order.entries[idx]
    case Some(d) => Count(';', d)
    case None => 0
  }

  /** After the first, the key maps are listed with ever more modifiers. */
  predicate LevelsAscend(order: Dict<Option<string>>)
    requires Valid(order)
  {
    forall q1, q2 :: 1 <= q1 < q2 < |order.keys| ==> Level(order, order.keys[q1]) <= Level(order, order.keys[q2])
  }

  /** Every row of a key map shows as many `;` as its descriptor has. */
  lemma GroupRowsLevel(name: char -> Option<string>, t: TableInput, order: Dict<Option<string>>, idx: int)
    requires OrderReady(name, t, order) && idx in order.entries
    ensures forall r :: r in GroupRows(name, t, order, idx) ==> Count(';', r.modifier) == Level(order, idx)
  {
    var kb := t.maps.entries[idx];
    KeyRowsMembers(name, order.entries[idx], kb, t.ascii, t.baseline, |kb.keys|);
    forall r | r in GroupRows(name, t, order, idx)
      ensures Count(';', r.modifier) == Level(order, idx)
    {
      var p :| 0 <= p < |kb.keys| && Visible(name, kb.entries[kb.keys[p]])
        && r == KeyRow(name, order.entries[idx], kb, t.ascii, t.baseline, kb.keys[p]);
      DisplayLabelCount(order.entries[idx].value);
    }
  }

  /** The rows of the first key map come first. */
  lemma TableRowsStartWithFirst(name: char -> Option<string>, t: TableInput, order: Dict<Option<string>>, n: nat)
    requires OrderReady(name, t, order) && 1 <= n <= |order.keys|
    ensures var first := GroupRows(name, t, order, order.keys[0]);
      |first| <= |TableRows(name, t, order, n)| && TableRows(name, t, order, n)[..|first|] == first
  {
    TableRowsConcat(name, t, order, n);
    ConcatStartsWith(Groups(name, t, order, n));
  }

  /** From row `g` on, the modifier column never has fewer `;` than the row
      before, and none more than `top`. */
  predicate AscendsFrom(rows: seq<Row>, g: nat, top: nat)
  {
    && (forall i :: g <= i < |rows| ==> Count(';', rows[i].modifier) <= top)
    && (forall i, j :: g <= i < j < |rows| ==> Count(';', rows[i].modifier) <= Count(';', rows[j].modifier))
  }

  /** Appending rows that all show `top` `;` keeps the column ascending. */
  lemma AppendAscends(prev: seq<Row>, group: seq<Row>, g: nat, low: nat, top: nat)
    requires g <= |prev| && low <= top && AscendsFrom(prev, g, low)
    requires forall r :: r in group ==> Count(';', r.modifier) == top
    ensures AscendsFrom(prev + group, g, top)
  {
    var rows := prev + group;
    forall i | g <= i < |rows|
      ensures Count(';', rows[i].modifier) <= top
    {
      if i >= |prev| {
        assert rows[i] == group[i - |prev|];
      }
    }
    forall i, j | g <= i < j < |rows|
      ensures Count(';', rows[i].modifier) <= Count(';', rows[j].modifier)
    {
      if j >= |prev| {
        assert rows[j] == group[j - |prev|];
      }
    }
  }

  /** After the rows of the first key map, the modifier column ascends up to
      the level of the last key map listed. */
  lemma {:induction false} TableRowsAscend(name: char -> Option<string>, t: TableInput, order: Dict<Option<string>>, n: nat)
    requires OrderReady(name, t, order) && LevelsAscend(order) && 1 <= n <= |order.keys|
    ensures AscendsFrom(TableRows(name, t, order, n), |GroupRows(name, t, order, order.keys[0])|, Level(order, order.keys[n - 1]))
    decreases n
  {
    var g := |GroupRows(name, t, order, order.keys[0])|;
    if n == 1 {
      assert TableRows(name, t, order, 0) == [];
      assert |TableRows(name, t, order, n)| == g;
    } else {
      TableRowsAscend(name, t, order, n - 1);
      TableRowsStartWithFirst(name, t, order, n - 1);
      var prev := TableRows(name, t, order, n - 1);
      GroupRowsLevel(name, t, order, order.keys[n - 1]);
      var top := Level(order, order.keys[n - 1]);
      var low := Level(order, order.keys[n - 2]);
      if n == 2 {
        assert |prev| == g;
        assert AscendsFrom(prev, g, 0);
        AppendAscends(prev, GroupRows(name, t, order, order.keys[n - 1]), g, 0, top);
      } else {
        AppendAscends(prev, GroupRows(name, t, order, order.keys[n - 1]), g, low, top);
      }
    }
  }

  lemma OrderLevelsAscend(name: char -> Option<string>, t: TableInput)
    requires TableDefined(name, t)
    ensures Valid(Order(t)) && LevelsAscend(Order(t))
  {
    var order := Order(t);
    var m := t.modifiers.entries;
    forall q1, q2 | 1 <= q1 < q2 < |order.keys|
      ensures Level(order, order.keys[q1]) <= Level(order, order.keys[q2])
    {
      var k1 := order.keys[q1];
      var k2 := order.keys[q2];
      assert k1 != 0 && k2 != 0 by {
        assert order.keys[0] == 0;
      }
      assert order.keys[1..][q1 - 1] == k1 && order.keys[1..][q2 - 1] == k2;
      assert !KeyLess(m[k2], m[k1]);
    }
  }

  /** The order `build_table` promises: the rows of the ASCII keyboard (key map
      0) first, then the others with the number of modifiers in the modifier
      column never going down. */
  lemma RowsOrdered(name: char -> Option<string>, t: TableInput)
    requires TableDefined(name, t)
    ensures OrderReady(name, t, Order(t)) && |Order(t).keys| >= 1 && Order(t).keys[0] == 0
    ensures var rows := Rows(name, t);
      var first := GroupRows(name, t, Order(t), 0);
      && |first| <= |rows| && rows[..|first|] == first
      && (forall i, j :: |first| <= i < j < |rows| ==> Count(';', rows[i].modifier) <= Count(';', rows[j].modifier))
  {
    TableOrderReady(name, t);
    OrderLevelsAscend(name, t);
    TableRowsStartWithFirst(name, t, Order(t), |Order(t).keys|);
    TableRowsAscend(name, t, Order(t), |Order(t).keys|);
  }
}
