/** `main` (keyboard.py:134-140) up to the table: the key maps and the
    descriptors are read from the document, the baseline key map is the one
    whose descriptor is empty, the ASCII key map is key map 0, and the table is
    built from them. Reading the file, parsing the XML and rendering the page
    are not modelled. */
module Pipeline {
  import opened Wrappers
  import opened OrderedDict
  import opened Text
  import opened Layout
  import opened Modifiers
  import opened Naming
  import opened Table

  /** The arguments `main` hands to `build_table`, once the baseline index `b`
      has been found. */
  function Inputs(maps: Dict<Dict<string>>, mods: Dict<string>, b: int): (t: TableInput)
    requires 0 in maps.entries && b in maps.entries
    ensures t.ascii == maps.entries[0] && t.baseline == maps.entries[b]
    ensures t.maps == maps && t.modifiers == mods
  {
    TableInput(maps.entries[0], maps.entries[b], maps, mods)
  }

  /** The document has one `keyMapSet`, and every attribute `map_by_index`
      reads is present. */
  predicate KeyMapsRead(doc: Keyboard)
  {
    |doc.keyMapSets| == 1 && KeyMapsComplete(doc.keyMapSets[0].keyMaps)
  }

  /** The document has a `modifierMap`, and every part of its selectors
      `modifier_by_mapindex` reads is present. */
  predicate SelectorsRead(doc: Keyboard)
  {
    |doc.modifierMaps| > 0 && SelectorsComplete(doc.modifierMaps[0].selects)
  }

  /** The rows of the report, or the first error the source would raise, in the
      order of keyboard.py:136-140. */
  function Report(lower: string -> string, name: char -> Option<string>, doc: Keyboard): (r: Result<seq<Row>, Error>)
    requires |doc.keyMapSets| == 1 ==> SetConvertible(lower, doc.keyMapSets[0])
    ensures |doc.keyMapSets| != 1 ==> r == Failure(KeyMapSetCount(|doc.keyMapSets|))
    ensures |doc.keyMapSets| == 1 && !KeyMapsComplete(doc.keyMapSets[0].keyMaps) ==>
              r.Failure? && FirstKeyMapFault(doc.keyMapSets[0].keyMaps, r.error)
    ensures KeyMapsRead(doc) && |doc.modifierMaps| == 0 ==> r == Failure(NoModifierMap)
    ensures KeyMapsRead(doc) && |doc.modifierMaps| > 0 && !SelectorsComplete(doc.modifierMaps[0].selects) ==>
              r.Failure? && FirstSelectFault(doc.modifierMaps[0].selects, r.error)
    ensures r.Success? ==> KeyMapsRead(doc) && SelectorsRead(doc)
  {
    var maps :- MapByIndex(lower, doc);
    var mods :- ModifierByMapIndex(doc);
    Assemble(name, maps, mods)
  }

  /** keyboard.py:138-140, once the key maps and the descriptors are read. */
  function Assemble(name: char -> Option<string>, maps: Dict<Dict<string>>, mods: Dict<string>): (r: Result<seq<Row>, Error>)
    requires Valid(mods)
  {
    match MapIndexByModifier(mods, "")
    case None => Failure(NoSuchDescriptor(""))
    case Some(b) =>
      if b !in maps.entries then Failure(MissingKeyMap(b))
      else if 0 !in maps.entries then Failure(MissingKeyMap(0))
      else if !TableDefined(name, Inputs(maps, mods, b)) then Failure(TableUndefined)
      else Success(Rows(name, Inputs(maps, mods, b)))
  }

  /** A first key written with an `action` instead of an `output`, as dead
      keys are, stops the run with a KeyError for `output`. */
  lemma ActionKeyStops(lower: string -> string, name: char -> Option<string>, doc: Keyboard, code: int)
    requires |doc.keyMapSets| == 1 && SetConvertible(lower, doc.keyMapSets[0])
    requires |doc.keyMapSets[0].keyMaps| > 0 && |doc.keyMapSets[0].keyMaps[0].keys| > 0
    requires doc.keyMapSets[0].keyMaps[0].keys[0] == Key(Some(code), None)
    ensures Report(lower, name, doc) == Failure(MissingAttribute("output"))
  {
    var kms := doc.keyMapSets[0].keyMaps;
    assert !KeyMapComplete(kms[0]);
    var p :| 0 <= p < |kms| && KeyMapFault(kms[p]) == Some(Report(lower, name, doc).error)
      && forall j :: 0 <= j < p ==> KeyMapComplete(kms[j]);
    assert p == 0;
  }

  /** Once both parts are read, the run is what `Assemble` makes of them. */
  lemma ReportAssembles(lower: string -> string, name: char -> Option<string>, doc: Keyboard)
    requires KeyMapsRead(doc) && SetConvertible(lower, doc.keyMapSets[0]) && SelectorsRead(doc)
    ensures Report(lower, name, doc) == Assemble(name, MapByIndex(lower, doc).value, ModifierByMapIndex(doc).value)
  {
  }

  /** Once both parts of the document have been read, the run stops when no
      descriptor is empty. */
  lemma ReportNeedsBaseline(lower: string -> string, name: char -> Option<string>, doc: Keyboard)
    requires KeyMapsRead(doc) && SetConvertible(lower, doc.keyMapSets[0]) && SelectorsRead(doc)
    ensures var mods := ModifierByMapIndex(doc).value;
      (forall k :: k in mods.entries ==> mods.entries[k] != "") ==>
        Report(lower, name, doc) == Failure(NoSuchDescriptor(""))
  {
    ReportAssembles(lower, name, doc);
    var mods := ModifierByMapIndex(doc).value;
    if forall k :: k in mods.entries ==> mods.entries[k] != "" {
      assert MapIndexByModifier(mods, "").None?;
    }
  }

  /** With an empty descriptor at `b`, the run stops when key map `b` or key
      map 0 is missing, and otherwise succeeds exactly when the table can be
      built. */
  lemma ReportNeedsKeyMaps(lower: string -> string, name: char -> Option<string>, doc: Keyboard, b: int)
    requires KeyMapsRead(doc) && SetConvertible(lower, doc.keyMapSets[0]) && SelectorsRead(doc)
    ensures var maps := MapByIndex(lower, doc).value;
      var mods := ModifierByMapIndex(doc).value;
      var r := Report(lower, name, doc);
      MapIndexByModifier(mods, "") == Some(b) ==>
        && b in mods.entries && mods.entries[b] == ""
        && (b !in maps.entries ==> r == Failure(MissingKeyMap(b)))
        && (b in maps.entries && 0 !in maps.entries ==> r == Failure(MissingKeyMap(0)))
        && (b in maps.entries && 0 in maps.entries ==>
              (r.Success? <==> TableDefined(name, Inputs(maps, mods, b))))
  {
    ReportAssembles(lower, name, doc);
  }

  /** On success, the rows are the table built from the key maps and
      descriptors read from the document, key map 0 as the ASCII key map and
      the key map whose descriptor is empty as the baseline. */
  lemma ReportIsTable(lower: string -> string, name: char -> Option<string>, doc: Keyboard)
    requires |doc.keyMapSets| == 1 ==> SetConvertible(lower, doc.keyMapSets[0])
    ensures Report(lower, name, doc).Success? ==>
      && KeyMapsRead(doc) && SelectorsRead(doc)
      && var maps := MapByIndex(lower, doc).value;
      && var mods := ModifierByMapIndex(doc).value;
      && MapIndexByModifier(mods, "").Some?
      && var b := MapIndexByModifier(mods, "").value;
      && b in mods.entries && mods.entries[b] == ""
      && 0 in maps.entries && b in maps.entries
      && TableDefined(name, Inputs(maps, mods, b))
      && Report(lower, name, doc).value == Rows(name, Inputs(maps, mods, b))
  {
    if Report(lower, name, doc).Success? {
      assert KeyMapsRead(doc) && SelectorsRead(doc);
      ReportAssembles(lower, name, doc);
    }
  }

  /** On success, each row is a visible key of key map 0 or of a key map the
      descriptors name, showing that key's characters in key map 0 and in the
      key map whose descriptor is empty; and every such visible key has its
      row. */
  lemma ReportRows(lower: string -> string, name: char -> Option<string>, doc: Keyboard)
    requires |doc.keyMapSets| == 1 ==> SetConvertible(lower, doc.keyMapSets[0])
    ensures Report(lower, name, doc).Success? ==>
      && KeyMapsRead(doc) && SelectorsRead(doc)
      && var maps := MapByIndex(lower, doc).value;
      && var mods := ModifierByMapIndex(doc).value;
      && MapIndexByModifier(mods, "").Some?
      && var b := MapIndexByModifier(mods, "").value;
      && 0 in maps.entries && b in maps.entries
      && ShowsKeys(name, Inputs(maps, mods, b), Report(lower, name, doc).value)
  {
    ReportIsTable(lower, name, doc);
    if Report(lower, name, doc).Success? {
      var maps := MapByIndex(lower, doc).value;
      var mods := ModifierByMapIndex(doc).value;
      var b := MapIndexByModifier(mods, "").value;
      RowsShowKeys(name, Inputs(maps, mods, b));
    }
  }
}
