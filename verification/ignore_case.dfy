/** `re.sub(pattern, replacement, s, flags=re.IGNORECASE)` for a pattern made of
    plain characters and a replacement without group references: every leftmost,
    non-overlapping case-insensitive occurrence of the pattern is replaced. */
module IgnoreCase {
  import opened Text

  /** The case folding under which Python's regular expressions compare a
      character with an ASCII pattern character when IGNORECASE is set: ASCII
      capitals, U+0130 (I with dot above, whose simple lower case is `i`),
      U+212A (Kelvin sign, lower case `k`), and the two characters the engine
      adds by hand, U+0131 (dotless i) and U+017F (long s). */
  function Fold(c: char): char
  {
    if 'A' <= c <= 'Z' then (c as int + 32) as char
    else if c == '\U{130}' || c == '\U{131}' then 'i'
    else if c == '\U{17F}' then 's'
    else if c == '\U{212A}' then 'k'
    else c
  }

  /** The pattern matches at the start of `s`. */
  predicate MatchesAt(s: string, pat: string)
  {
    |pat| <= |s| && forall i :: 0 <= i < |pat| ==> Fold(s[i]) == Fold(pat[i])
  }

  /** Some case-insensitive occurrence of `pat` is in `s`. */
  ghost predicate Occurs(s: string, pat: string)
  {
    exists k :: 0 <= k <= |s| && MatchesAt(s[k..], pat)
  }

  function ReplaceAll(s: string, pat: string, rep: string): string
    requires |pat| > 0
    decreases |s|
  {
    if |s| == 0 then ""
    else if MatchesAt(s, pat) then rep + ReplaceAll(s[|pat|..], pat, rep)
    else [s[0]] + ReplaceAll(s[1..], pat, rep)
  }

  /** No character of `t` folds to a character of `p`. */
  predicate NoFoldClash(t: string, p: string)
  {
    forall i, j :: 0 <= i < |t| && 0 <= j < |p| ==> Fold(t[i]) != Fold(p[j])
  }

  /** The first `j` characters of `r` fold to those of `x`. */
  predicate FoldsTo(r: string, x: string, j: nat)
  {
    j <= |r| && j <= |x| && forall i :: 0 <= i < j ==> Fold(r[i]) == Fold(x[i])
  }

  lemma FoldsToTail(a: char, r: string, x: string, j: nat)
    requires 0 < j && FoldsTo([a] + r, x, j)
    ensures Fold(a) == Fold(x[0]) && FoldsTo(r, x[1..], j - 1)
  {
    assert ([a] + r)[0] == a;
    forall i | 0 <= i < j - 1
      ensures Fold(r[i]) == Fold(x[1..][i])
    {
      assert ([a] + r)[i + 1] == r[i];
    }
  }

  lemma ConsPrefix(u: string, r: string, j: nat)
    requires 0 < j <= |u| && j - 1 <= |r| && u[1..][..j - 1] == r[..j - 1]
    ensures u[..j] == ([u[0]] + r)[..j]
  {
    assert u[..j] == [u[0]] + u[1..][..j - 1];
    assert ([u[0]] + r)[..j] == [u[0]] + r[..j - 1];
  }

  lemma NoFoldClashTail(t: string, p: string)
    requires |p| > 0 && NoFoldClash(t, p)
    ensures NoFoldClash(t, p[1..])
  {
    forall i, j | 0 <= i < |t| && 0 <= j < |p[1..]|
      ensures Fold(t[i]) != Fold(p[1..][j])
    {
      assert p[1..][j] == p[j + 1];
    }
  }

  /** If a prefix of the output folds to the pattern characters `x`, and the
      replacement shares no folded character with `x`, that prefix was copied
      unchanged from the input. */
  lemma {:induction false} CopiedPrefix(u: string, q: string, rep: string, x: string, j: nat)
    requires |q| > 0 && |rep| > 0 && j <= |x| && NoFoldClash(rep, x)
    ensures FoldsTo(ReplaceAll(u, q, rep), x, j) ==> j <= |u| && u[..j] == ReplaceAll(u, q, rep)[..j]
    decreases |u|
  {
    var r := ReplaceAll(u, q, rep);
    if |u| == 0 {
      assert r == "";
    } else if j > 0 {
      if MatchesAt(u, q) {
        assert r == rep + ReplaceAll(u[|q|..], q, rep);
        assert Fold(r[0]) != Fold(x[0]);
      } else {
        var r' := ReplaceAll(u[1..], q, rep);
        assert r == [u[0]] + r';
        NoFoldClashTail(rep, x);
        CopiedPrefix(u[1..], q, rep, x[1..], j - 1);
        if FoldsTo(r, x, j) {
          FoldsToTail(u[0], r', x, j);
          ConsPrefix(u, r', j);
        }
      }
    }
  }

  /** When the input does not match `q` at its start, a match of `p` at the start
      of the output is a match of `p` at the start of the input. */
  lemma StartMatch(s: string, q: string, rep: string, p: string)
    requires |s| > 0 && |q| > 0 && |rep| > 0 && |p| > 0 && NoFoldClash(rep, p)
    requires !MatchesAt(s, q)
    ensures MatchesAt(ReplaceAll(s, q, rep), p) ==> MatchesAt(s, p)
  {
    var r := ReplaceAll(s, q, rep);
    var r' := ReplaceAll(s[1..], q, rep);
    assert r == [s[0]] + r';
    if MatchesAt(r, p) {
      assert FoldsTo(r, p, |p|);
      FoldsToTail(s[0], r', p, |p|);
      NoFoldClashTail(rep, p);
      CopiedPrefix(s[1..], q, rep, p[1..], |p| - 1);
      ConsPrefix(s, r', |p|);
      PrefixMatch(s, r, p);
    }
  }

  /** Text that agrees with `r` on the first `|p|` characters matches `p` where
      `r` does. */
  lemma PrefixMatch(s: string, r: string, p: string)
    requires |p| <= |s| && |p| <= |r| && s[..|p|] == r[..|p|] && MatchesAt(r, p)
    ensures MatchesAt(s, p)
  {
    forall i | 0 <= i < |p|
      ensures Fold(s[i]) == Fold(p[i])
    {
      assert s[i] == s[..|p|][i] && r[i] == r[..|p|][i];
    }
  }

  /** A match of `p` in `rep + t` lies inside `t` when `rep` shares no folded
      character with `p`. */
  lemma AfterReplacement(rep: string, t: string, p: string, k: int)
    requires |p| > 0 && NoFoldClash(rep, p) && 0 <= k <= |rep + t|
    ensures MatchesAt((rep + t)[k..], p) ==> k >= |rep| && MatchesAt(t[k - |rep|..], p)
  {
    if k < |rep| {
      assert (rep + t)[k..][0] == rep[k];
      assert Fold(rep[k]) != Fold(p[0]);
    } else {
      assert (rep + t)[k..] == t[k - |rep|..];
    }
  }

  /** Replacing a pattern by text that shares no folded character with it leaves
      no occurrence of the pattern behind. */
  lemma {:induction false} NoneLeft(s: string, p: string, rep: string)
    requires |p| > 0 && |rep| > 0 && NoFoldClash(rep, p)
    ensures !Occurs(ReplaceAll(s, p, rep), p)
    decreases |s|
  {
    var r := ReplaceAll(s, p, rep);
    if |s| == 0 {
      assert r == "";
      assert forall k :: 0 <= k <= |r| ==> !MatchesAt(r[k..], p);
    } else if MatchesAt(s, p) {
      var t := ReplaceAll(s[|p|..], p, rep);
      NoneLeft(s[|p|..], p, rep);
      assert r == rep + t;
      forall k | 0 <= k <= |r|
        ensures !MatchesAt(r[k..], p)
      {
        AfterReplacement(rep, t, p, k);
      }
    } else {
      var t := ReplaceAll(s[1..], p, rep);
      NoneLeft(s[1..], p, rep);
      assert r == [s[0]] + t;
      forall k | 0 <= k <= |r|
        ensures !MatchesAt(r[k..], p)
      {
        if k == 0 {
          StartMatch(s, p, rep, p);
        } else {
          assert r[k..] == t[k - 1..];
        }
      }
    }
  }

  /** Replacing `q` by text that shares no folded character with `p` creates no
      occurrence of `p`. */
  lemma {:induction false} StillAbsent(s: string, p: string, q: string, rep: string)
    requires |p| > 0 && |q| > 0 && |rep| > 0 && NoFoldClash(rep, p)
    requires !Occurs(s, p)
    ensures !Occurs(ReplaceAll(s, q, rep), p)
    decreases |s|
  {
    var r := ReplaceAll(s, q, rep);
    if |s| == 0 {
      assert r == "";
      assert forall k :: 0 <= k <= |r| ==> !MatchesAt(r[k..], p);
    } else if MatchesAt(s, q) {
      var rest := s[|q|..];
      assert !Occurs(rest, p) by {
        forall k | 0 <= k <= |rest|
          ensures !MatchesAt(rest[k..], p)
        {
          assert rest[k..] == s[|q| + k..];
        }
      }
      var t := ReplaceAll(rest, q, rep);
      StillAbsent(rest, p, q, rep);
      assert r == rep + t;
      forall k | 0 <= k <= |r|
        ensures !MatchesAt(r[k..], p)
      {
        AfterReplacement(rep, t, p, k);
      }
    } else {
      var rest := s[1..];
      assert !Occurs(rest, p) by {
        forall k | 0 <= k <= |rest|
          ensures !MatchesAt(rest[k..], p)
        {
          assert rest[k..] == s[1 + k..];
        }
      }
      var t := ReplaceAll(rest, q, rep);
      StillAbsent(rest, p, q, rep);
      assert r == [s[0]] + t;
      forall k | 0 <= k <= |r|
        ensures !MatchesAt(r[k..], p)
      {
        if k == 0 {
          StartMatch(s, q, rep, p);
          assert s[0..] == s;
        } else {
          assert r[k..] == t[k - 1..];
        }
      }
    }
  }

  /** Replacing a pattern none of whose characters folds to `c`, by text without
      `c`, keeps the number of `c`s. */
  lemma {:induction false} CountKept(c: char, s: string, pat: string, rep: string)
    requires |pat| > 0 && c !in rep
    requires forall j :: 0 <= j < |pat| ==> Fold(pat[j]) != Fold(c)
    ensures Count(c, ReplaceAll(s, pat, rep)) == Count(c, s)
    decreases |s|
  {
    if |s| > 0 {
      if MatchesAt(s, pat) {
        CountKept(c, s[|pat|..], pat, rep);
        CountConcat(c, rep, ReplaceAll(s[|pat|..], pat, rep));
        assert s == s[..|pat|] + s[|pat|..];
        CountConcat(c, s[..|pat|], s[|pat|..]);
        assert c !in s[..|pat|] by {
          forall i | 0 <= i < |pat|
            ensures s[..|pat|][i] != c
          {
            assert Fold(s[i]) == Fold(pat[i]);
          }
        }
      } else {
        CountKept(c, s[1..], pat, rep);
        CountConcat(c, [s[0]], ReplaceAll(s[1..], pat, rep));
      }
    }
  }

  /** `re.sub(' ', '; ', s)` adds one `;` per space and keeps the spaces. */
  lemma {:induction false} SpacesToSeparators(s: string)
    ensures Count(';', ReplaceAll(s, " ", "; ")) == Count(';', s) + Count(' ', s)
    ensures Count(' ', ReplaceAll(s, " ", "; ")) == Count(' ', s)
    decreases |s|
  {
    if |s| > 0 {
      var r := ReplaceAll(s, " ", "; ");
      if MatchesAt(s, " ") {
        assert s[0] == ' ';
        SpacesToSeparators(s[1..]);
        assert r == "; " + ReplaceAll(s[1..], " ", "; ");
        CountConcat(';', "; ", ReplaceAll(s[1..], " ", "; "));
        CountConcat(' ', "; ", ReplaceAll(s[1..], " ", "; "));
      } else {
        assert s[0] != ' ';
        SpacesToSeparators(s[1..]);
        CountConcat(';', [s[0]], ReplaceAll(s[1..], " ", "; "));
        CountConcat(' ', [s[0]], ReplaceAll(s[1..], " ", "; "));
      }
    }
  }

  /** Text in which the pattern matches nowhere is copied unchanged. */
  lemma {:induction false} NoMatchUnchanged(s: string, pat: string, rep: string)
    requires |pat| > 0
    requires forall k :: 0 <= k < |s| ==> !MatchesAt(s[k..], pat)
    ensures ReplaceAll(s, pat, rep) == s
    decreases |s|
  {
    if |s| > 0 {
      assert !MatchesAt(s[0..], pat) && s[0..] == s;
      forall k | 0 <= k < |s[1..]|
        ensures !MatchesAt(s[1..][k..], pat)
      {
        assert s[1..][k..] == s[k + 1..];
      }
      NoMatchUnchanged(s[1..], pat, rep);
      assert s == [s[0]] + s[1..];
    }
  }
}
