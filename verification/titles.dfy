/**
 * The lossy join key used to match manuscript content titles against the
 * texts authority (`normalize_title_key`, tools/convert_to_rdf/convert_to_rdf.py
 * lines 130-136).
 */
module Titles {
  import opened Text

  /** The apostrophes the key deletes outright: `’`, `'` and a backtick. */
  predicate IsApostrophe(c: char) { c == '\'' || c == '`' || c == '\U{2019}' }

  /** The characters a key may keep besides the single space: `[a-z0-9]`. */
  predicate IsKeyChar(c: char) { IsLowerLetter(c) || IsDigit(c) }

  function MapChars(s: string, f: char -> char): (r: string)
    ensures |r| == |s|
    ensures forall i :: 0 <= i < |r| ==> r[i] == f(s[i])
  {
    seq(|s|, i requires 0 <= i < |s| => f(s[i]))
  }

  /** Blanking one character: key characters and whitespace stay, anything else becomes a space. */
  function Blank(c: char): char {
    if IsKeyChar(c) || IsSpace(c) then c else ' '
  }

  /** Only `[a-z0-9]` and spaces. */
  predicate KeyAlphabet(s: string) {
    forall i :: 0 <= i < |s| ==> IsKeyChar(s[i]) || s[i] == ' '
  }

  /** A well-formed key: lower-case letters, digits and single interior spaces. */
  predicate IsTitleKey(k: string) {
    IsNormal(k) && KeyAlphabet(k)
  }

  /** A run-collapsed string stays run-collapsed when cut. */
  lemma RunsCollapsedSlice(s: string, p: char -> bool, c: char, a: nat, b: nat)
    requires a <= b <= |s|
    requires RunsCollapsed(s, p, c)
    ensures RunsCollapsed(s[a..b], p, c)
  {
    forall i | 0 <= i < b - a && p(s[a..b][i])
      ensures s[a..b][i] == c && (i + 1 < b - a ==> !p(s[a..b][i + 1]))
    {
      assert s[a..b][i] == s[a + i];
      if i + 1 < b - a {
        assert s[a..b][i + 1] == s[a + i + 1];
      }
    }
  }

  /** `normalize_title_key`: lower-case, drop apostrophes, blank other punctuation, collapse and strip spaces. */
  function TitleKey(s: string): (k: string)
    ensures IsTitleKey(k)
  {
    var lowered := MapChars(Norm(s), Lower);
    var bare := Keep(lowered, IsApostrophe);
    var blanked := MapChars(bare, Blank);
    CollapsedBlankedIsKey(blanked);
    Strip(ReplaceRuns(blanked, IsSpace, ' '))
  }

  lemma CollapsedBlankedIsKey(t: string)
    requires forall i :: 0 <= i < |t| ==> IsKeyChar(t[i]) || IsSpace(t[i])
    ensures IsTitleKey(Strip(ReplaceRuns(t, IsSpace, ' ')))
  {
    var collapsed := ReplaceRuns(t, IsSpace, ' ');
    CollapsedAlphabet(t);
    StrippedKey(collapsed);
  }

  /** Collapsing whitespace runs of a blanked string leaves only the key alphabet. */
  lemma CollapsedAlphabet(t: string)
    requires forall i :: 0 <= i < |t| ==> IsKeyChar(t[i]) || IsSpace(t[i])
    ensures KeyAlphabet(ReplaceRuns(t, IsSpace, ' '))
  {
    var collapsed := ReplaceRuns(t, IsSpace, ' ');
    forall i | 0 <= i < |collapsed| ensures IsKeyChar(collapsed[i]) || collapsed[i] == ' ' {
      if collapsed[i] != ' ' {
        assert collapsed[i] in t;
      }
    }
  }

  /** Stripping a run-collapsed string over the key alphabet gives a key. */
  lemma StrippedKey(collapsed: string)
    requires KeyAlphabet(collapsed) && RunsCollapsed(collapsed, IsSpace, ' ')
    ensures IsTitleKey(Strip(collapsed))
  {
    var a := SpanEnd(collapsed, 0, IsSpace);
    var b := TrimmedEnd(collapsed, a, |collapsed|);
    RunsCollapsedSlice(collapsed, IsSpace, ' ', a, b);
    assert Strip(collapsed) == collapsed[a..b];
  }

  /** The keys are exactly the strings the normaliser leaves unchanged. */
  lemma TitleKeyFixedPoint(s: string)
    ensures TitleKey(s) == s <==> IsTitleKey(s)
  {
    if IsTitleKey(s) {
      KeyUnchangedByCleanup(s);
      ReplaceRunsFixedPoint(s, IsSpace, ' ');
      NormFixedPoint(s);
    }
  }

  /** Lower-casing, apostrophe removal and blanking leave a key as it is. */
  lemma KeyUnchangedByCleanup(s: string)
    requires IsTitleKey(s)
    ensures Keep(MapChars(Norm(s), Lower), IsApostrophe) == s
    ensures MapChars(s, Blank) == s
  {
    NormFixedPoint(s);
    KeyAlphabetUnchanged(s);
  }

  lemma KeyAlphabetUnchanged(s: string)
    requires KeyAlphabet(s)
    ensures Keep(MapChars(s, Lower), IsApostrophe) == s
    ensures MapChars(s, Blank) == s
  {
    assert MapChars(s, Lower) == s;
    KeepNoneOfClass(s, IsApostrophe);
  }

  lemma TitleKeyIdempotent(s: string)
    ensures TitleKey(TitleKey(s)) == TitleKey(s)
  {
    TitleKeyFixedPoint(TitleKey(s));
  }

  /** Case, apostrophes and spacing do not separate "The King's Mirror" from "the kings mirror". */
  lemma TitleKeyKingsMirror()
    ensures TitleKey("The King's Mirror") == "the kings mirror"
    ensures TitleKey("the kings mirror") == "the kings mirror"
  {
    var k := "the kings mirror";
    KingsMirrorIsKey();
    TitleKeyFixedPoint(k);
    KingsMirrorCleanup();
    assert Keep(MapChars(Norm(k), Lower), IsApostrophe) == k by {
      KeyUnchangedByCleanup(k);
    }
  }

  lemma KingsMirrorIsKey()
    ensures IsTitleKey("the kings mirror")
  {
  }

  lemma KingsMirrorCleanup()
    ensures Keep(MapChars(Norm("The King's Mirror"), Lower), IsApostrophe) == "the kings mirror"
  {
    KingsMirrorNormal();
    KingsMirrorLowered();
    KingsMirrorBare();
  }

  lemma KingsMirrorNormal()
    ensures Norm("The King's Mirror") == "The King's Mirror"
  {
    KingsMirrorIsNormal();
    NormOfNormal("The King's Mirror");
  }

  lemma KingsMirrorIsNormal()
    ensures IsNormal("The King's Mirror")
  {
  }

  lemma KingsMirrorLowered()
    ensures MapChars("The King's Mirror", Lower) == "the king's mirror"
  {
    var t := "The King's Mirror";
    var u := "the king's mirror";
    var r := MapChars(t, Lower);
    forall i | 0 <= i < |t| ensures r[i] == u[i] {
      if i == 0 || i == 4 || i == 11 {
        assert IsUpperLetter(t[i]);
      } else {
        assert !IsUpperLetter(t[i]) && t[i] == u[i];
      }
    }
  }

  lemma KingsMirrorBare()
    ensures Keep("the king's mirror", IsApostrophe) == "the kings mirror"
  {
    KingsMirrorSplit();
    KeepAppend("the king", "'s mirror", IsApostrophe);
    KingsMirrorHead();
    KingsMirrorTail();
  }

  lemma KingsMirrorSplit()
    ensures "the king" + "'s mirror" == "the king's mirror"
    ensures "the king" + "s mirror" == "the kings mirror"
  {
  }

  lemma KingsMirrorHead()
    ensures Keep("the king", IsApostrophe) == "the king"
  {
    KeepNoneOfClass("the king", IsApostrophe);
  }

  lemma KingsMirrorTail()
    ensures Keep("'s mirror", IsApostrophe) == "s mirror"
  {
    assert "'s mirror"[1..] == "s mirror";
    KeepNoneOfClass("s mirror", IsApostrophe);
  }

  // ------------------------------------------------------------ invariances

  /** The per-character part of the key: lower-case, delete apostrophes, blank the rest. */
  function Cleanup(t: string): string {
    MapChars(Keep(MapChars(t, Lower), IsApostrophe), Blank)
  }

  lemma MapCharsAppend(a: string, b: string, f: char -> char)
    ensures MapChars(a + b, f) == MapChars(a, f) + MapChars(b, f)
  {
  }

  lemma CleanupAppend(a: string, b: string)
    ensures Cleanup(a + b) == Cleanup(a) + Cleanup(b)
  {
    MapCharsAppend(a, b, Lower);
    KeepAppend(MapChars(a, Lower), MapChars(b, Lower), IsApostrophe);
    var ka, kb := Keep(MapChars(a, Lower), IsApostrophe), Keep(MapChars(b, Lower), IsApostrophe);
    MapCharsAppend(ka, kb, Blank);
  }

  /** Whitespace passes through the per-character part untouched. */
  lemma CleanupSpaces(w: string)
    requires All(w, IsSpace)
    ensures Cleanup(w) == w
  {
    assert MapChars(w, Lower) == w;
    KeepNoneOfClass(w, IsApostrophe);
  }

  /**
   * Collapsing whitespace before the per-character part changes nothing once
   * the result is collapsed again.
   */
  lemma {:induction false} CleanupCollapse(s: string)
    ensures ReplaceRuns(Cleanup(ReplaceRuns(s, IsSpace, ' ')), IsSpace, ' ')
         == ReplaceRuns(Cleanup(s), IsSpace, ' ')
    decreases |s|, 2
  {
    if s != [] {
      if !IsSpace(s[0]) {
        CleanupCollapsePlain(s);
      } else {
        CleanupCollapseRun(s);
      }
    }
  }

  lemma {:induction false} CleanupCollapsePlain(s: string)
    requires s != [] && !IsSpace(s[0])
    ensures ReplaceRuns(Cleanup(ReplaceRuns(s, IsSpace, ' ')), IsSpace, ' ')
         == ReplaceRuns(Cleanup(s), IsSpace, ' ')
    decreases |s|, 1
  {
    var h, s1 := Cleanup([s[0]]), s[1..];
    ReplaceRunsPlainHead(s, IsSpace, ' ');
    assert s == [s[0]] + s1;
    CollapseAfterHead(h, s1);
    CleanupAppend([s[0]], ReplaceRuns(s1, IsSpace, ' '));
    CleanupAppend([s[0]], s1);
  }

  lemma {:induction false} CleanupCollapseRun(s: string)
    requires s != [] && IsSpace(s[0])
    ensures ReplaceRuns(Cleanup(ReplaceRuns(s, IsSpace, ' ')), IsSpace, ' ')
         == ReplaceRuns(Cleanup(s), IsSpace, ' ')
    decreases |s|, 1
  {
    var e := SpanEnd(s, 0, IsSpace);
    var se := s[e..];
    ReplaceRunsRunHead(s, IsSpace, ' ', e);
    CollapseAfterHead(" ", se);
    CleanupAppend(" ", ReplaceRuns(se, IsSpace, ' '));
    CleanupSpaces(" ");
    CleanupRunHead(s, e);
  }

  /** Cleanup keeps a leading whitespace run, which then collapses like a single space. */
  lemma CleanupRunHead(s: string, e: nat)
    requires 0 < e <= |s| && e == SpanEnd(s, 0, IsSpace)
    ensures ReplaceRuns(Cleanup(s), IsSpace, ' ') == ReplaceRuns(" " + Cleanup(s[e..]), IsSpace, ' ')
  {
    var w, se := s[..e], s[e..];
    LeadingRun(s, e);
    CleanupSpacePrefix(w, se);
    RunAsOneSpace(w, Cleanup(se));
  }

  lemma LeadingRun(s: string, e: nat)
    requires e <= |s| && forall j :: 0 <= j < e ==> IsSpace(s[j])
    ensures s == s[..e] + s[e..] && All(s[..e], IsSpace)
  {
  }

  lemma CleanupSpacePrefix(w: string, t: string)
    requires All(w, IsSpace)
    ensures Cleanup(w + t) == w + Cleanup(t)
  {
    CleanupAppend(w, t);
    CleanupSpaces(w);
  }

  /** A non-empty whitespace run collapses exactly as one space does. */
  lemma RunAsOneSpace(w: string, z: string)
    requires w != "" && All(w, IsSpace)
    ensures ReplaceRuns(w + z, IsSpace, ' ') == ReplaceRuns(" " + z, IsSpace, ' ')
  {
    ReplaceRunsRunPrefix(w, z, IsSpace, ' ');
    ReplaceRunsRunPrefix(" ", z, IsSpace, ' ');
  }

  /** The step of `CleanupCollapse` after a fixed head `h`. */
  lemma {:induction false} CollapseAfterHead(h: string, s1: string)
    ensures ReplaceRuns(h + Cleanup(ReplaceRuns(s1, IsSpace, ' ')), IsSpace, ' ')
         == ReplaceRuns(h + Cleanup(s1), IsSpace, ' ')
    decreases |s1|, 3
  {
    var a := Cleanup(ReplaceRuns(s1, IsSpace, ' '));
    var b := Cleanup(s1);
    ReplaceRunsRight(h, a, IsSpace, ' ');
    CleanupCollapse(s1);
    ReplaceRunsRight(h, b, IsSpace, ' ');
  }

  /** The key of a title is the normal form of its per-character cleanup, in one pass. */
  lemma TitleKeyOnePass(s: string)
    ensures TitleKey(s) == Norm(Cleanup(s))
  {
    var l, r := StripSplit(s);
    var t := Strip(s);
    var n := Norm(s);
    assert n == ReplaceRuns(t, IsSpace, ' ');
    assert TitleKey(s) == Strip(ReplaceRuns(Cleanup(n), IsSpace, ' '));
    NormSwap(Cleanup(n));
    NormSwap(Cleanup(t));
    CleanupCollapse(t);
    assert Norm(Cleanup(n)) == Norm(Cleanup(t));
    CleanupAppend(l + t, r);
    CleanupAppend(l, t);
    CleanupSpaces(l);
    CleanupSpaces(r);
    NormOuter(l, Cleanup(t), r);
  }

  /** Titles with the same per-character cleanup share their key. */
  lemma SameCleanupSameKey(a: string, b: string)
    requires Cleanup(a) == Cleanup(b)
    ensures TitleKey(a) == TitleKey(b)
  {
    TitleKeyOnePass(a);
    TitleKeyOnePass(b);
  }

  lemma LowerTwice(s: string)
    ensures MapChars(MapChars(s, Lower), Lower) == MapChars(s, Lower)
  {
  }

  /** Title matching is case-insensitive. */
  lemma TitleKeyIgnoresCase(s: string)
    ensures TitleKey(MapChars(s, Lower)) == TitleKey(s)
  {
    LowerTwice(s);
    SameCleanupSameKey(MapChars(s, Lower), s);
  }

  /** Lower-casing neither creates nor removes an apostrophe. */
  lemma {:induction false} KeepApostrophesLower(s: string)
    ensures Keep(MapChars(s, Lower), IsApostrophe) == MapChars(Keep(s, IsApostrophe), Lower)
    decreases |s|
  {
    if s != [] {
      var m := MapChars(s, Lower);
      assert m[0] == Lower(s[0]) && m[1..] == MapChars(s[1..], Lower);
      KeepApostrophesLower(s[1..]);
      if !IsApostrophe(s[0]) {
        MapCharsAppend([s[0]], Keep(s[1..], IsApostrophe), Lower);
      }
    }
  }

  /** Title matching ignores apostrophes. */
  lemma TitleKeyIgnoresApostrophes(s: string)
    ensures TitleKey(Keep(s, IsApostrophe)) == TitleKey(s)
  {
    var k := Keep(s, IsApostrophe);
    KeepApostrophesLower(s);
    KeepApostrophesLower(k);
    KeepNoneOfClass(k, IsApostrophe);
    SameCleanupSameKey(k, s);
  }

  /** Title matching ignores how the title is spaced. */
  lemma TitleKeyIgnoresSpacing(s: string)
    ensures TitleKey(Norm(s)) == TitleKey(s)
  {
    NormIdempotent(s);
  }

  /** Title matching treats any other punctuation mark like a space. */
  lemma TitleKeyPunctuation(x: string, c: char, y: string)
    requires !IsLetter(c) && !IsDigit(c) && !IsApostrophe(c) && !IsSpace(c)
    ensures TitleKey(x + [c] + y) == TitleKey(x + " " + y)
  {
    PunctuationCleanup(x, c, y);
    SameCleanupSameKey(x + [c] + y, x + " " + y);
  }

  lemma PunctuationCleanup(x: string, c: char, y: string)
    requires !IsLetter(c) && !IsDigit(c) && !IsApostrophe(c) && !IsSpace(c)
    ensures Cleanup(x + [c] + y) == Cleanup(x + " " + y)
  {
    CleanupAppend(x + [c], y);
    CleanupAppend(x, [c]);
    CleanupAppend(x + " ", y);
    CleanupAppend(x, " ");
    CleanupSpaces(" ");
    assert MapChars([c], Lower) == [c];
    assert [c][1..] == [];
    assert Keep([c], IsApostrophe) == [c];
    assert Cleanup([c]) == " ";
  }
}
