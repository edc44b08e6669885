/** The parsed keylayout document and the extraction of its key maps
    (`map_by_index`, keyboard.py:14-26). XML parsing is not modelled: the input
    is the document already read into records. An attribute the source reads
    may be missing (None), and its integer attributes are already converted. */
module Layout {
  import opened Wrappers
  import opened OrderedDict
  import opened Hex

  /** A `key` element: its `code` and its `output` attributes, if present. A
      key written with an `action` instead of an `output` has no output. */
  datatype Key = Key(code: Option<int>, output: Option<string>)

  /** A `keyMap` element: its `index` attribute, if present, and its `key`
      children in document order. */
  datatype KeyMap = KeyMap(index: Option<int>, keys: seq<Key>)

  /** A `keyMapSet` element and its `keyMap` children. */
  datatype KeyMapSet = KeyMapSet(keyMaps: seq<KeyMap>)

  /** A `keyMapSelect` element: its `mapIndex` attribute, if present, and the
      `keys` attribute, if present, of each of its `modifier` children, in
      document order. */
  datatype KeyMapSelect = KeyMapSelect(mapIndex: Option<int>, modifierKeys: seq<Option<string>>)

  /** A `modifierMap` element and its `keyMapSelect` children. */
  datatype ModifierMap = ModifierMap(selects: seq<KeyMapSelect>)

  /** The root `keyboard` element: the `keyMapSet` and `modifierMap` elements
      directly under it, in document order. */
  datatype Keyboard = Keyboard(name: string, keyMapSets: seq<KeyMapSet>, modifierMaps: seq<ModifierMap>)

  /** The ways the source aborts a run. */
  datatype Error =
    | KeyMapSetCount(found: nat)        // the assertion of keyboard.py:19
    | MissingAttribute(attribute: string) // KeyError of `attrib[...]` at keyboard.py:23-24 and 41
    | NoModifierMap                     // `find` gives None at keyboard.py:39
    | NoModifierElement                 // `find` gives None at keyboard.py:41
    | NoSuchDescriptor(target: string)  // IndexError at keyboard.py:11
    | MissingKeyMap(index: int)         // KeyError at keyboard.py:138-139
    | TableUndefined                    // build_table raises (keyboard.py:87, 91, 97-98)

  /** The position of the first element of `xs`, at or after `i`, that `check`
      finds a fault in: where a loop over the elements raises. */
  function FirstFault<T, E>(xs: seq<T>, check: T -> Option<E>, i: nat): (p: Option<nat>)
    requires i <= |xs|
    ensures p.None? <==> forall j :: i <= j < |xs| ==> check(xs[j]).None?
    ensures p.Some? ==> i <= p.value < |xs| && check(xs[p.value]).Some?
    ensures p.Some? ==> forall j :: i <= j < p.value ==> check(xs[j]).None?
    decreases |xs| - i
  {
    if i == |xs| then None
    else if check(xs[i]).Some? then Some(i)
    else FirstFault(xs, check, i + 1)
  }

  /** Every attribute the comprehension of keyboard.py:23-25 reads of a key. */
  predicate KeyComplete(k: Key)
  {
    k.code.Some? && k.output.Some?
  }

  /** The fault reading a key raises: `code` is read before `output`, since
      a dict comprehension evaluates the key before the value. */
  function KeyFault(k: Key): (f: Option<Error>)
    ensures f.None? <==> KeyComplete(k)
    ensures f == Some(MissingAttribute("code")) <==> k.code.None?
    ensures f == Some(MissingAttribute("output")) <==> k.code.Some? && k.output.None?
  {
    if k.code.None? then Some(MissingAttribute("code"))
    else if k.output.None? then Some(MissingAttribute("output"))
    else None
  }

  predicate KeysComplete(keys: seq<Key>)
  {
    forall i :: 0 <= i < |keys| ==> KeyComplete(keys[i])
  }

  /** Every attribute keyboard.py:23-25 reads of a key map and its keys. */
  predicate KeyMapComplete(km: KeyMap)
  {
    km.index.Some? && KeysComplete(km.keys)
  }

  predicate KeyMapsComplete(kms: seq<KeyMap>)
  {
    forall i :: 0 <= i < |kms| ==> KeyMapComplete(kms[i])
  }

  /** The fault reading a key map raises. In `key_maps[...] = {...}` the
      right-hand side is evaluated first, so the keys are read, in order,
      before the key map's `index`. */
  function KeyMapFault(km: KeyMap): (f: Option<Error>)
    ensures f.None? <==> KeyMapComplete(km)
    ensures f == Some(MissingAttribute("index")) <==> KeysComplete(km.keys) && km.index.None?
    ensures f.Some? ==> f.value.MissingAttribute?
    ensures !KeysComplete(km.keys) ==>
              exists j :: 0 <= j < |km.keys| && KeyFault(km.keys[j]) == f
                && forall i :: 0 <= i < j ==> KeyComplete(km.keys[i])
  {
    match FirstFault(km.keys, KeyFault, 0)
    case Some(j) => KeyFault(km.keys[j])
    case None => if km.index.None? then Some(MissingAttribute("index")) else None
  }

  function Codes(km: KeyMap): (cs: seq<int>)
    requires KeysComplete(km.keys)
    ensures |cs| == |km.keys| && forall i :: 0 <= i < |km.keys| ==> cs[i] == km.keys[i].code.value
  {
    seq(|km.keys|, i requires 0 <= i < |km.keys| => km.keys[i].code.value)
  }

  function Indices(kms: seq<KeyMap>): (ix: seq<int>)
    requires KeyMapsComplete(kms)
    ensures |ix| == |kms| && forall i :: 0 <= i < |kms| ==> ix[i] == kms[i].index.value
  {
    seq(|kms|, i requires 0 <= i < |kms| => kms[i].index.value)
  }

  /** Every output of the key map can go through `to_chr` once lower-cased. */
  predicate KeyMapConvertible(lower: string -> string, km: KeyMap)
  {
    forall i :: 0 <= i < |km.keys| && km.keys[i].output.Some? ==> Convertible(lower(km.keys[i].output.value))
  }

  predicate SetConvertible(lower: string -> string, set_: KeyMapSet)
  {
    forall i :: 0 <= i < |set_.keyMaps| ==> KeyMapConvertible(lower, set_.keyMaps[i])
  }

  /** `e` is what reading the key maps `kms` raises: the fault of the first key
      map that lacks an attribute. */
  ghost predicate FirstKeyMapFault(kms: seq<KeyMap>, e: Error)
  {
    exists p :: 0 <= p < |kms| && KeyMapFault(kms[p]) == Some(e)
      && forall j :: 0 <= j < p ==> KeyMapComplete(kms[j])
  }

  /** No later key of the list has the same code as key `i`. */
  predicate LastCode(keys: seq<Key>, i: int)
    requires 0 <= i < |keys|
  {
    forall j :: i < j < |keys| ==> keys[j].code != keys[i].code
  }

  /** No later key map of the list has the same index as key map `i`. */
  predicate LastIndex(kms: seq<KeyMap>, i: int)
    requires 0 <= i < |kms|
  {
    forall j :: i < j < |kms| ==> kms[j].index != kms[i].index
  }

  function CodeItems(lower: string -> string, km: KeyMap): (items: seq<(int, string)>)
    requires KeysComplete(km.keys) && KeyMapConvertible(lower, km)
    ensures KeysOf(items) == Codes(km)
    ensures forall i :: 0 <= i < |items| ==> items[i].1 == ToChr(lower(km.keys[i].output.value))
  {
    seq(|km.keys|, i requires 0 <= i < |km.keys| => (km.keys[i].code.value, ToChr(lower(km.keys[i].output.value))))
  }

  /** The dict comprehension of keyboard.py:23-25 for one key map: code to
      `to_chr(output.lower())`, a repeated code keeping its first place and its
      last output. */
  function CodeMap(lower: string -> string, km: KeyMap): (d: Dict<string>)
    requires KeysComplete(km.keys) && KeyMapConvertible(lower, km)
    ensures Valid(d)
    ensures forall c :: c in d.entries <==> c in Codes(km)
    ensures forall i :: 0 <= i < |km.keys| && LastCode(km.keys, i) ==>
              d.entries[km.keys[i].code.value] == ToChr(lower(km.keys[i].output.value))
    ensures d.keys == Fresh(Codes(km), [])
    ensures Distinct(Codes(km)) ==> d.keys == Codes(km)
  {
    var items := CodeItems(lower, km);
    CodeItemsLast(lower, km, items);
    FromItemsKeys(items);
    FromItems(items)
  }

  lemma CodeItemsLast(lower: string -> string, km: KeyMap, items: seq<(int, string)>)
    requires KeysComplete(km.keys) && KeyMapConvertible(lower, km) && items == CodeItems(lower, km)
    ensures forall i :: 0 <= i < |km.keys| ==> km.keys[i].code.value in KeysOf(items)
    ensures forall i :: 0 <= i < |km.keys| && LastCode(km.keys, i) ==>
              FromItems(items).entries[km.keys[i].code.value] == ToChr(lower(km.keys[i].output.value))
  {
    forall i | 0 <= i < |km.keys|
      ensures km.keys[i].code.value in KeysOf(items)
      ensures LastCode(km.keys, i) ==> LastFor(items, i)
    {
      assert KeysOf(items)[i] == km.keys[i].code.value;
      forall j | i < j < |km.keys|
        ensures items[j].0 == km.keys[j].code.value
      {
        assert KeysOf(items)[j] == Codes(km)[j];
      }
    }
  }

  /** Every key map can be read and converted. */
  predicate Readable(lower: string -> string, kms: seq<KeyMap>)
  {
    forall i :: 0 <= i < |kms| ==> KeyMapComplete(kms[i]) && KeyMapConvertible(lower, kms[i])
  }

  function IndexItems(lower: string -> string, kms: seq<KeyMap>): (items: seq<(int, Dict<string>)>)
    requires Readable(lower, kms)
    ensures KeysOf(items) == Indices(kms)
    ensures forall i :: 0 <= i < |items| ==> items[i].1 == CodeMap(lower, kms[i])
  {
    seq(|kms|, i requires 0 <= i < |kms| => (kms[i].index.value, CodeMap(lower, kms[i])))
  }

  /** Every key map of the result is itself a well-formed dict. */
  predicate InnerValid<V>(maps: Dict<Dict<V>>)
  {
    forall idx :: idx in maps.entries ==> Valid(maps.entries[idx])
  }

  /** `maps` is what `map_by_index` builds from the key maps `kms`: each key
      map's index mapped to its code map, a repeated index keeping its first
      place and its last key map. */
  ghost predicate IndexesKeyMaps(lower: string -> string, kms: seq<KeyMap>, maps: Dict<Dict<string>>)
    requires Readable(lower, kms)
  {
    && Valid(maps) && InnerValid(maps)
    && (forall idx :: idx in maps.entries <==> idx in Indices(kms))
    && (forall i :: 0 <= i < |kms| && LastIndex(kms, i) ==> maps.entries[kms[i].index.value] == CodeMap(lower, kms[i]))
    && maps.keys == Fresh(Indices(kms), [])
    && (Distinct(Indices(kms)) ==> maps.keys == Indices(kms))
  }

  /** `map_by_index` (keyboard.py:14-26): fails unless the document has exactly
      one `keyMapSet`, then with the first missing attribute in reading order;
      otherwise indexes its key maps. */
  function MapByIndex(lower: string -> string, doc: Keyboard): (r: Result<Dict<Dict<string>>, Error>)
    requires |doc.keyMapSets| == 1 ==> SetConvertible(lower, doc.keyMapSets[0])
    ensures |doc.keyMapSets| != 1 ==> r == Failure(KeyMapSetCount(|doc.keyMapSets|))
    ensures |doc.keyMapSets| == 1 ==> (r.Failure? <==> !KeyMapsComplete(doc.keyMapSets[0].keyMaps))
    ensures |doc.keyMapSets| == 1 && r.Failure? ==>
              r.error.MissingAttribute? && FirstKeyMapFault(doc.keyMapSets[0].keyMaps, r.error)
    ensures r.Success? ==>
              && |doc.keyMapSets| == 1 && Readable(lower, doc.keyMapSets[0].keyMaps)
              && IndexesKeyMaps(lower, doc.keyMapSets[0].keyMaps, r.value)
  {
    if |doc.keyMapSets| != 1 then Failure(KeyMapSetCount(|doc.keyMapSets|))
    else
      var kms := doc.keyMapSets[0].keyMaps;
      match FirstFault(kms, KeyMapFault, 0)
      case Some(p) => Failure(KeyMapFault(kms[p]).value)
      case None =>
        KeyMapsIndexed(lower, kms);
        Success(FromItems(IndexItems(lower, kms)))
  }

  lemma KeyMapsIndexed(lower: string -> string, kms: seq<KeyMap>)
    requires Readable(lower, kms)
    ensures IndexesKeyMaps(lower, kms, FromItems(IndexItems(lower, kms)))
  {
    var items := IndexItems(lower, kms);
    IndexItemsLast(lower, kms, items);
    IndexItemsInnerValid(lower, kms);
    FromItemsKeys(items);
  }

  lemma IndexItemsLast(lower: string -> string, kms: seq<KeyMap>, items: seq<(int, Dict<string>)>)
    requires Readable(lower, kms) && items == IndexItems(lower, kms)
    ensures forall i :: 0 <= i < |kms| && LastIndex(kms, i) ==>
              FromItems(items).entries[kms[i].index.value] == CodeMap(lower, kms[i])
  {
    forall i | 0 <= i < |kms|
      ensures kms[i].index.value in KeysOf(items)
      ensures LastIndex(kms, i) ==> LastFor(items, i)
    {
      assert KeysOf(items)[i] == kms[i].index.value;
      forall j | i < j < |kms|
        ensures items[j].0 == kms[j].index.value
      {
        assert KeysOf(items)[j] == Indices(kms)[j];
      }
    }
  }

  lemma IndexItemsInnerValid(lower: string -> string, kms: seq<KeyMap>)
    requires Readable(lower, kms)
    ensures InnerValid(FromItems(IndexItems(lower, kms)))
  {
    var items := IndexItems(lower, kms);
    var d := FromItems(items);
    forall idx | idx in d.entries
      ensures Valid(d.entries[idx])
    {
      var i := LastPosition(items, idx);
      assert d.entries[idx] == CodeMap(lower, kms[i]);
    }
  }

  /** Every character of a code map is `to_chr` of the lower-cased output of a
      key with that code. */
  lemma CodeMapStored(lower: string -> string, km: KeyMap, code: int)
    requires KeysComplete(km.keys) && KeyMapConvertible(lower, km)
    ensures code in CodeMap(lower, km).entries ==>
              exists j :: (0 <= j < |km.keys| && km.keys[j].code == Some(code)
                && CodeMap(lower, km).entries[code] == ToChr(lower(km.keys[j].output.value)))
  {
    if code in CodeMap(lower, km).entries {
      var citems := CodeItems(lower, km);
      var j := LastPosition(citems, code);
      assert LastCode(km.keys, j);
    }
  }

  /** Every character stored by `map_by_index` is `to_chr` of the lower-cased
      output of a key with that code, in a key map with that index. */
  lemma StoredCharacter(lower: string -> string, doc: Keyboard, idx: int, code: int)
    requires |doc.keyMapSets| == 1 && SetConvertible(lower, doc.keyMapSets[0])
    requires KeyMapsComplete(doc.keyMapSets[0].keyMaps)
    ensures var maps := MapByIndex(lower, doc).value;
      var kms := doc.keyMapSets[0].keyMaps;
      idx in maps.entries && code in maps.entries[idx].entries ==>
        exists i, j :: (0 <= i < |kms| && 0 <= j < |kms[i].keys|
          && kms[i].index == Some(idx) && kms[i].keys[j].code == Some(code)
          && maps.entries[idx].entries[code] == ToChr(lower(kms[i].keys[j].output.value)))
  {
    var kms := doc.keyMapSets[0].keyMaps;
    assert MapByIndex(lower, doc).value == FromItems(IndexItems(lower, kms));
    StoredIn(lower, kms, idx, code);
  }

  lemma StoredIn(lower: string -> string, kms: seq<KeyMap>, idx: int, code: int)
    requires Readable(lower, kms)
    ensures var maps := FromItems(IndexItems(lower, kms));
      idx in maps.entries && code in maps.entries[idx].entries ==>
        exists i, j :: (0 <= i < |kms| && 0 <= j < |kms[i].keys|
          && kms[i].index == Some(idx) && kms[i].keys[j].code == Some(code)
          && maps.entries[idx].entries[code] == ToChr(lower(kms[i].keys[j].output.value)))
  {
    if idx !in FromItems(IndexItems(lower, kms)).entries || code !in FromItems(IndexItems(lower, kms)).entries[idx].entries {
      return;
    }
    var items := IndexItems(lower, kms);
    var i := LastPosition(items, idx);
    assert Some(items[i].0) == kms[i].index by {
      assert KeysOf(items)[i] == Indices(kms)[i];
    }
    assert FromItems(items).entries[idx] == CodeMap(lower, kms[i]);
    CodeMapStored(lower, kms[i], code);
  }
}
