/** `unicode_name` (keyboard.py:72-82): the Unicode names of the characters of a
    key's output, joined by `;`. `unicodedata.name` is not modelled; it is the
    parameter `name`, None where it raises ValueError (control characters and
    unassigned code points have no name). */
module Naming {
  import opened Wrappers
  import opened Text

  /** The replacement character the source stores for a nameless character. */
  const TOFU := "\U{FFFD}"

  /** What the source gives for an empty output. */
  const EMPTY := "<EMPTY>"

  /** A Unicode character name is non-empty and written with capital Latin
      letters, digits, space and hyphen (section 4.8 of the Unicode Standard). */
  predicate NameChar(c: char)
  {
    'A' <= c <= 'Z' || '0' <= c <= '9' || c == ' ' || c == '-'
  }

  predicate WellFormedName(n: string)
  {
    |n| > 0 && forall i :: 0 <= i < |n| ==> NameChar(n[i])
  }

  /** What the model assumes of `unicodedata.name`. */
  predicate NamesWellFormed(name: char -> Option<string>)
  {
    forall c :: name(c).Some? ==> WellFormedName(name(c).value)
  }

  /** One element of `names`: the character's name, or the replacement
      character when it has none. */
  function NameOrTofu(name: char -> Option<string>, c: char): (n: string)
    ensures name(c).None? ==> n == TOFU
    ensures name(c).Some? ==> n == name(c).value
  {
    match name(c)
    case Some(v) => v
    case None => TOFU
  }

  /** The `names` list the loop of keyboard.py:76-81 builds. */
  function Names(name: char -> Option<string>, s: string): (ns: seq<string>)
    ensures |ns| == |s|
    ensures forall i :: 0 <= i < |s| ==> ns[i] == NameOrTofu(name, s[i])
  {
    seq(|s|, i requires 0 <= i < |s| => NameOrTofu(name, s[i]))
  }

  /** `unicode_name` (keyboard.py:72-82). */
  function UnicodeName(name: char -> Option<string>, s: string): (r: string)
    ensures |s| == 0 ==> r == EMPTY
    ensures |s| == 1 ==> r == NameOrTofu(name, s[0])
  {
    if |s| == 0 then EMPTY else Join(Names(name, s), ';')
  }

  /** The key is shown in the table: its output has two or more characters, or
      one whose name is neither the replacement character nor `<EMPTY>`.
      `VisibleIsTheTest` shows this is the test of keyboard.py:90. */
  predicate Visible(name: char -> Option<string>, s: string)
  {
    |s| >= 2 || (|s| == 1 && NameOrTofu(name, s[0]) != TOFU && NameOrTofu(name, s[0]) != EMPTY)
  }

  lemma NamesHaveNoSeparator(name: char -> Option<string>, s: string)
    requires NamesWellFormed(name)
    ensures NoPartHas(Names(name, s), ';')
  {
    var ns := Names(name, s);
    forall i | 0 <= i < |ns|
      ensures ';' !in ns[i]
    {
      if name(s[i]).Some? {
        assert WellFormedName(name(s[i]).value);
      }
    }
  }

  /** Under `NamesWellFormed`, an element of `names` is the replacement
      character exactly when the character has no name: no name is spelled
      like it. */
  lemma TofuMeansNameless(name: char -> Option<string>, c: char)
    requires NamesWellFormed(name)
    ensures NameOrTofu(name, c) == TOFU <==> name(c).None?
  {
    if name(c).Some? {
      assert WellFormedName(name(c).value);
      assert !NameChar(TOFU[0]);
    }
  }

  /** Splitting the result at `;` gives back one name per character, so the
      characters of a non-empty output can be read off it in order. */
  lemma UnicodeNameSplits(name: char -> Option<string>, s: string)
    requires NamesWellFormed(name) && |s| > 0
    ensures Split(UnicodeName(name, s), ';') == Names(name, s)
    ensures Count(';', UnicodeName(name, s)) == |s| - 1
  {
    NamesHaveNoSeparator(name, s);
    SplitJoin(Names(name, s), ';');
    CountJoin(Names(name, s), ';');
  }

  /** `Visible` holds exactly when `unicode_name` gives neither the
      replacement character nor `<EMPTY>`, whatever `unicodedata.name` does. */
  lemma VisibleIsTheTest(name: char -> Option<string>, s: string)
    ensures Visible(name, s) <==> UnicodeName(name, s) != TOFU && UnicodeName(name, s) != EMPTY
  {
    if |s| >= 2 {
      var ns := Names(name, s);
      assert UnicodeName(name, s) == ns[0] + [';'] + Join(ns[1..], ';');
      assert |UnicodeName(name, s)| >= 1 + |ns[0]|;
      if |ns[0]| == 0 {
        assert UnicodeName(name, s)[0] == ';';
      } else {
        assert UnicodeName(name, s)[|ns[0]|] == ';';
      }
    }
  }

  /** A key is shown exactly when its output has two or more characters, or is
      one character that has a name. */
  lemma VisibleIff(name: char -> Option<string>, s: string)
    requires NamesWellFormed(name)
    ensures Visible(name, s) <==> |s| >= 2 || (|s| == 1 && name(s[0]).Some?)
  {
    var r := UnicodeName(name, s);
    if |s| >= 2 {
      UnicodeNameSplits(name, s);
      assert ';' !in TOFU && ';' !in EMPTY;
    } else if |s| == 1 && name(s[0]).Some? {
      var n := name(s[0]).value;
      assert WellFormedName(n);
      assert r == n;
      assert !NameChar(TOFU[0]) && !NameChar(EMPTY[0]);
      assert n != TOFU && n != EMPTY by {
        assert NameChar(n[0]);
      }
    }
  }

  /** An empty output and a nameless character are both hidden. */
  lemma HiddenOutputs(name: char -> Option<string>, c: char)
    requires name(c).None?
    ensures !Visible(name, "")
    ensures !Visible(name, [c])
  {
  }
}
