/** The modifier side of the document: the shortened descriptor of each key map
    (`modifier_by_mapindex` and its `shorten_modifier_descriptions`,
    keyboard.py:30-42) and the lookup of a key map by its descriptor
    (`mapindex_by_modifier`, keyboard.py:10-11). */
module Modifiers {
  import opened Wrappers
  import opened OrderedDict
  import opened Text
  import opened IgnoreCase
  import opened Layout

  const SHIFT := '⇧'
  const OPTION := '⌥'
  const CONTROL := '⌃'

  /** `shorten_modifier_descriptions` (keyboard.py:31-37): five case-insensitive
      substitutions in the order of the `conversions` dict. Command gets the same
      glyph as Shift. */
  function ShortenModifierDescription(s: string): string
  {
    var s1 := ReplaceAll(s, "Shift", [SHIFT]);
    var s2 := ReplaceAll(s1, "Option", [OPTION]);
    var s3 := ReplaceAll(s2, "Command", [SHIFT]);
    var s4 := ReplaceAll(s3, "Control", [CONTROL]);
    ReplaceAll(s4, " ", "; ")
  }

  /** Every character of `p` folds to a lower-case ASCII letter. */
  predicate Letters(p: string)
  {
    forall i :: 0 <= i < |p| ==> 'a' <= Fold(p[i]) <= 'z'
  }

  /** No character of `t` folds to a lower-case ASCII letter. */
  predicate NonLetters(t: string)
  {
    forall i :: 0 <= i < |t| ==> !('a' <= Fold(t[i]) <= 'z')
  }

  lemma NoClash(t: string, p: string)
    requires NonLetters(t) && Letters(p)
    ensures NoFoldClash(t, p)
  {
  }

  lemma ModifierNamesAreLetters()
    ensures Letters("Shift") && Letters("Option") && Letters("Command") && Letters("Control")
  {
    var names := ["Shift", "Option", "Command", "Control"];
    forall n, i | n in names && 0 <= i < |n|
      ensures 'a' <= Fold(n[i]) <= 'z'
    {
      assert 'A' <= n[i] <= 'Z' || 'a' <= n[i] <= 'z';
    }
  }

  lemma GlyphsAreNotLetters()
    ensures NonLetters([SHIFT]) && NonLetters([OPTION]) && NonLetters([CONTROL]) && NonLetters("; ")
  {
  }

  /** The separators `;` and space are neither letters nor glyphs, so the
      first four substitutions keep both counts. */
  lemma NameSubstitutionKeepsSeparators(s: string, name: string, glyph: char)
    requires |name| > 0 && Letters(name) && glyph != ';' && glyph != ' '
    ensures Count(';', ReplaceAll(s, name, [glyph])) == Count(';', s)
    ensures Count(' ', ReplaceAll(s, name, [glyph])) == Count(' ', s)
  {
    CountKept(';', s, name, [glyph]);
    CountKept(' ', s, name, [glyph]);
  }

  /** What shortening promises: one more `;` per space, and no modifier name
      left in any letter case. */
  lemma {:induction false} ShortenedDescription(s: string)
    ensures Count(';', ShortenModifierDescription(s)) == Count(';', s) + Count(' ', s)
    ensures var r := ShortenModifierDescription(s);
      !Occurs(r, "Shift") && !Occurs(r, "Option") && !Occurs(r, "Command") && !Occurs(r, "Control")
  {
    var s1 := ReplaceAll(s, "Shift", [SHIFT]);
    var s2 := ReplaceAll(s1, "Option", [OPTION]);
    var s3 := ReplaceAll(s2, "Command", [SHIFT]);
    var s4 := ReplaceAll(s3, "Control", [CONTROL]);
    var r := ReplaceAll(s4, " ", "; ");
    ModifierNamesAreLetters();
    GlyphsAreNotLetters();

    NameSubstitutionKeepsSeparators(s, "Shift", SHIFT);
    NameSubstitutionKeepsSeparators(s1, "Option", OPTION);
    NameSubstitutionKeepsSeparators(s2, "Command", SHIFT);
    NameSubstitutionKeepsSeparators(s3, "Control", CONTROL);
    SpacesToSeparators(s4);

    NoClash([SHIFT], "Shift");
    NoneLeft(s, "Shift", [SHIFT]);

    NoClash([OPTION], "Shift");
    NoClash([OPTION], "Option");
    StillAbsent(s1, "Shift", "Option", [OPTION]);
    NoneLeft(s1, "Option", [OPTION]);

    NoClash([SHIFT], "Option");
    NoClash([SHIFT], "Command");
    StillAbsent(s2, "Shift", "Command", [SHIFT]);
    StillAbsent(s2, "Option", "Command", [SHIFT]);
    NoneLeft(s2, "Command", [SHIFT]);

    NoClash([CONTROL], "Shift");
    NoClash([CONTROL], "Option");
    NoClash([CONTROL], "Command");
    NoClash([CONTROL], "Control");
    StillAbsent(s3, "Shift", "Control", [CONTROL]);
    StillAbsent(s3, "Option", "Control", [CONTROL]);
    StillAbsent(s3, "Command", "Control", [CONTROL]);
    NoneLeft(s3, "Control", [CONTROL]);

    NoClash("; ", "Shift");
    NoClash("; ", "Option");
    NoClash("; ", "Command");
    NoClash("; ", "Control");
    StillAbsent(s4, "Shift", " ", "; ");
    StillAbsent(s4, "Option", " ", "; ");
    StillAbsent(s4, "Command", " ", "; ");
    StillAbsent(s4, "Control", " ", "; ");
  }

  /** Text with no match for any of the five patterns is left as it is. */
  lemma {:induction false} ShortenUntouched(s: string)
    requires forall k :: 0 <= k < |s| ==>
      && !MatchesAt(s[k..], "Shift") && !MatchesAt(s[k..], "Option")
      && !MatchesAt(s[k..], "Command") && !MatchesAt(s[k..], "Control") && !MatchesAt(s[k..], " ")
    ensures ShortenModifierDescription(s) == s
  {
    NoMatchUnchanged(s, "Shift", [SHIFT]);
    NoMatchUnchanged(s, "Option", [OPTION]);
    NoMatchUnchanged(s, "Command", [SHIFT]);
    NoMatchUnchanged(s, "Control", [CONTROL]);
    NoMatchUnchanged(s, " ", "; ");
  }

  /** `Shift` matches nowhere in a spelling of `Command`. */
  lemma NoShiftInCommand(c: string)
    requires |c| == 7 && MatchesAt(c, "Command")
    ensures forall k :: 0 <= k < |c| ==> !MatchesAt(c[k..], "Shift")
  {
    assert Fold(c[0]) == 'c' && Fold(c[1]) == 'o' && Fold(c[2]) == 'm';
    forall k | 0 <= k < |c|
      ensures !MatchesAt(c[k..], "Shift")
    {
      if k <= 2 {
        assert c[k..][0] == c[k];
      }
    }
  }

  /** `Option` matches nowhere in a spelling of `Command`. */
  lemma NoOptionInCommand(c: string)
    requires |c| == 7 && MatchesAt(c, "Command")
    ensures forall k :: 0 <= k < |c| ==> !MatchesAt(c[k..], "Option")
  {
    assert Fold(c[0]) == 'c' && Fold(c[2]) == 'm';
    forall k | 0 <= k < |c|
      ensures !MatchesAt(c[k..], "Option")
    {
      if k == 0 {
        assert c[k..][0] == c[0];
      } else if k == 1 {
        assert c[k..][1] == c[2];
      }
    }
  }

  /** `Command`, in any letter case, becomes the glyph Shift also gets. */
  lemma CommandSharesShiftGlyph(c: string)
    requires |c| == 7 && MatchesAt(c, "Command")
    ensures ShortenModifierDescription(c) == [SHIFT]
  {
    var g := [SHIFT];
    NoShiftInCommand(c);
    NoOptionInCommand(c);
    NoMatchUnchanged(c, "Shift", [SHIFT]);
    NoMatchUnchanged(c, "Option", [OPTION]);
    assert ReplaceAll(c, "Command", g) == g by {
      assert c[7..] == "";
    }
    GlyphKept(SHIFT);
  }

  /** The last two substitutions leave a lone glyph alone. */
  lemma GlyphKept(g: char)
    requires g in {SHIFT, OPTION, CONTROL}
    ensures ReplaceAll(ReplaceAll([g], "Control", [CONTROL]), " ", "; ") == [g]
  {
    assert [g][0..] == [g];
    assert !MatchesAt([g], "Control");
    NoMatchUnchanged([g], "Control", [CONTROL]);
    assert Fold(g) != Fold(' ');
    assert !MatchesAt([g], " ");
    NoMatchUnchanged([g], " ", "; ");
  }

  /** `Shift`, in any letter case, becomes its glyph. */
  lemma ShiftGlyph(c: string)
    requires |c| == 5 && MatchesAt(c, "Shift")
    ensures ShortenModifierDescription(c) == [SHIFT]
  {
    var g := [SHIFT];
    assert ReplaceAll(c, "Shift", g) == g by {
      assert c[5..] == "";
    }
    NoMatchUnchanged(g, "Option", [OPTION]);
    NoMatchUnchanged(g, "Command", [SHIFT]);
    NoMatchUnchanged(g, "Control", [CONTROL]);
    NoMatchUnchanged(g, " ", "; ");
  }

  /** Every attribute keyboard.py:41 reads of a selector: its `mapIndex`, and
      the `keys` of its first `modifier` child, which must exist. */
  predicate SelectComplete(sel: KeyMapSelect)
  {
    sel.mapIndex.Some? && |sel.modifierKeys| > 0 && sel.modifierKeys[0].Some?
  }

  predicate SelectorsComplete(sels: seq<KeyMapSelect>)
  {
    forall i :: 0 <= i < |sels| ==> SelectComplete(sels[i])
  }

  /** The fault reading a selector raises. The comprehension evaluates the key,
      `mapIndex`, before the value; the value looks for the first `modifier`
      child (None has no `attrib`) and then reads its `keys`. */
  function SelectFault(sel: KeyMapSelect): (f: Option<Error>)
    ensures f.None? <==> SelectComplete(sel)
    ensures f == Some(MissingAttribute("mapIndex")) <==> sel.mapIndex.None?
    ensures f == Some(NoModifierElement) <==> sel.mapIndex.Some? && |sel.modifierKeys| == 0
    ensures f == Some(MissingAttribute("keys")) <==>
              sel.mapIndex.Some? && |sel.modifierKeys| > 0 && sel.modifierKeys[0].None?
  {
    if sel.mapIndex.None? then Some(MissingAttribute("mapIndex"))
    else if |sel.modifierKeys| == 0 then Some(NoModifierElement)
    else if sel.modifierKeys[0].None? then Some(MissingAttribute("keys"))
    else None
  }

  /** `e` is what reading the selectors raises: the fault of the first
      selector that lacks a part. */
  ghost predicate FirstSelectFault(sels: seq<KeyMapSelect>, e: Error)
  {
    exists p :: 0 <= p < |sels| && SelectFault(sels[p]) == Some(e)
      && forall j :: 0 <= j < p ==> SelectComplete(sels[j])
  }

  function MapIndices(sels: seq<KeyMapSelect>): (ix: seq<int>)
    requires SelectorsComplete(sels)
    ensures |ix| == |sels| && forall i :: 0 <= i < |sels| ==> ix[i] == sels[i].mapIndex.value
  {
    seq(|sels|, i requires 0 <= i < |sels| => sels[i].mapIndex.value)
  }

  /** The shortened descriptor of a selector. */
  function Descriptor(sel: KeyMapSelect): string
    requires SelectComplete(sel)
  {
    ShortenModifierDescription(sel.modifierKeys[0].value)
  }

  /** No later selector has the same map index as selector `i`. */
  predicate LastSelect(sels: seq<KeyMapSelect>, i: int)
    requires 0 <= i < |sels|
  {
    forall j :: i < j < |sels| ==> sels[j].mapIndex != sels[i].mapIndex
  }

  function DescriptorItems(sels: seq<KeyMapSelect>): (items: seq<(int, string)>)
    requires SelectorsComplete(sels)
    ensures KeysOf(items) == MapIndices(sels)
    ensures forall i :: 0 <= i < |items| ==> items[i].1 == Descriptor(sels[i])
  {
    seq(|sels|, i requires 0 <= i < |sels| => (sels[i].mapIndex.value, Descriptor(sels[i])))
  }

  /** `d` is what `modifier_by_mapindex` builds from the selectors `sels`:
      each map index mapped to the shortened `keys` of its first `modifier`, a
      repeated index keeping the place of its first selector and the value of
      its last. */
  ghost predicate DescribesSelectors(sels: seq<KeyMapSelect>, d: Dict<string>)
    requires SelectorsComplete(sels)
  {
    && Valid(d)
    && (forall k :: k in d.entries <==> k in MapIndices(sels))
    && (forall i :: 0 <= i < |sels| && LastSelect(sels, i) ==>
          d.entries[sels[i].mapIndex.value] == Descriptor(sels[i]))
    && d.keys == Fresh(MapIndices(sels), [])
    && (Distinct(MapIndices(sels)) ==> d.keys == MapIndices(sels))
  }

  /** `modifier_by_mapindex` (keyboard.py:30-42): the first `modifierMap` must
      exist, and the first selector that lacks a part stops the run. */
  function ModifierByMapIndex(doc: Keyboard): (r: Result<Dict<string>, Error>)
    ensures |doc.modifierMaps| == 0 ==> r == Failure(NoModifierMap)
    ensures |doc.modifierMaps| > 0 ==> (r.Failure? <==> !SelectorsComplete(doc.modifierMaps[0].selects))
    ensures |doc.modifierMaps| > 0 && r.Failure? ==> FirstSelectFault(doc.modifierMaps[0].selects, r.error)
    ensures r.Success? ==> |doc.modifierMaps| > 0 && SelectorsComplete(doc.modifierMaps[0].selects)
    ensures r.Success? ==> DescribesSelectors(doc.modifierMaps[0].selects, r.value)
  {
    if |doc.modifierMaps| == 0 then Failure(NoModifierMap)
    else
      var sels := doc.modifierMaps[0].selects;
      match FirstFault(sels, SelectFault, 0)
      case Some(p) => Failure(SelectFault(sels[p]).value)
      case None =>
        SelectorsDescribed(sels);
        Success(FromItems(DescriptorItems(sels)))
  }

  lemma SelectorsDescribed(sels: seq<KeyMapSelect>)
    requires SelectorsComplete(sels)
    ensures DescribesSelectors(sels, FromItems(DescriptorItems(sels)))
  {
    SelectorsLast(sels, DescriptorItems(sels));
    FromItemsKeys(DescriptorItems(sels));
  }

  lemma SelectorsLast(sels: seq<KeyMapSelect>, items: seq<(int, string)>)
    requires SelectorsComplete(sels) && items == DescriptorItems(sels)
    ensures forall i :: 0 <= i < |sels| ==> sels[i].mapIndex.value in KeysOf(items)
    ensures forall i :: 0 <= i < |sels| && LastSelect(sels, i) ==>
              FromItems(items).entries[sels[i].mapIndex.value] == Descriptor(sels[i])
  {
    forall i | 0 <= i < |sels|
      ensures sels[i].mapIndex.value in KeysOf(items)
      ensures LastSelect(sels, i) ==> LastFor(items, i)
    {
      assert KeysOf(items)[i] == sels[i].mapIndex.value;
      forall j | i < j < |sels|
        ensures items[j].0 == sels[j].mapIndex.value
      {
        assert KeysOf(items)[j] == MapIndices(sels)[j];
      }
    }
  }

  /** The first position at or after `i` whose descriptor is `target`. */
  function FirstWithDescriptor(d: Dict<string>, target: string, i: nat): (r: Option<nat>)
    requires Valid(d) && i <= |d.keys|
    ensures r.None? ==> forall j :: i <= j < |d.keys| ==> d.entries[d.keys[j]] != target
    ensures r.Some? ==> i <= r.value < |d.keys| && d.entries[d.keys[r.value]] == target
    ensures r.Some? ==> forall j :: i <= j < r.value ==> d.entries[d.keys[j]] != target
    decreases |d.keys| - i
  {
    if i == |d.keys| then None
    else if d.entries[d.keys[i]] == target then Some(i)
    else FirstWithDescriptor(d, target, i + 1)
  }

  /** `mapindex_by_modifier` (keyboard.py:10-11): the first map index, in
      insertion order, whose descriptor is exactly `target`; None where the
      source raises IndexError, which is when no descriptor equals it. */
  function MapIndexByModifier(d: Dict<string>, target: string): (r: Option<int>)
    requires Valid(d)
    ensures r.None? <==> forall k :: k in d.entries ==> d.entries[k] != target
    ensures r.Some? ==> r.value in d.entries && d.entries[r.value] == target
    ensures r.Some? ==> exists p :: (0 <= p < |d.keys| && d.keys[p] == r.value
              && forall j :: 0 <= j < p ==> d.entries[d.keys[j]] != target)
  {
    match FirstWithDescriptor(d, target, 0)
    case None => None
    case Some(p) => Some(d.keys[p])
  }
}
