/**
 * Character classes and the whitespace-collapsing scanners that every string
 * utility of the converter is built from (tools/convert_to_rdf/convert_to_rdf.py,
 * lines 107-160). Python's `re` and `str` work on Unicode; this model assumes
 * ASCII text, where `\s` and `str.isspace` both mean space, the controls
 * 9-13 and the separators 28-31, `\d` means 0-9 and `\w` means [A-Za-z0-9_].
 */
module Text {
  import opened Wrappers

  predicate IsSpace(c: char) {
    c == ' ' || 9 <= c as int <= 13 || 28 <= c as int <= 31
  }

  predicate IsDigit(c: char) { '0' <= c <= '9' }

  predicate IsLowerLetter(c: char) { 'a' <= c <= 'z' }

  predicate IsUpperLetter(c: char) { 'A' <= c <= 'Z' }

  predicate IsLetter(c: char) { IsLowerLetter(c) || IsUpperLetter(c) }

  /** `\w` of Python's `re`, on ASCII. */
  predicate IsWordChar(c: char) { IsLetter(c) || IsDigit(c) || c == '_' }

  /** `str.lower()` on one ASCII character. */
  function Lower(c: char): char {
    if IsUpperLetter(c) then (c as int + 32) as char else c
  }

  predicate All(s: string, p: char -> bool) {
    forall i :: 0 <= i < |s| ==> p(s[i])
  }

  /** The end of the maximal run of `p`-characters that starts at `k`. */
  function SpanEnd(s: string, k: nat, p: char -> bool): (e: nat)
    requires k <= |s|
    ensures k <= e <= |s|
    ensures forall j :: k <= j < e ==> p(s[j])
    ensures e == |s| || !p(s[e])
    decreases |s| - k
  {
    if k == |s| || !p(s[k]) then k else SpanEnd(s, k + 1, p)
  }

  /** A run end is determined by where the run stops. */
  lemma SpanEndUnique(s: string, k: nat, p: char -> bool, e: nat)
    requires k <= e <= |s|
    requires forall j :: k <= j < e ==> p(s[j])
    requires e == |s| || !p(s[e])
    ensures SpanEnd(s, k, p) == e
  {
  }

  /** `\b` before position `i`, when `s[i]` is a word character. */
  predicate BoundaryBefore(s: string, i: nat) {
    i == 0 || (i <= |s| && !IsWordChar(s[i - 1]))
  }

  /** `\b` at position `e`, when `s[e - 1]` is a word character. */
  predicate BoundaryAfter(s: string, e: nat) {
    e == |s| || (e < |s| && !IsWordChar(s[e]))
  }

  /** The leftmost position in `[from, n)` where `at` holds, if any: what `re.search` scans for. */
  function FirstAt(n: nat, from: nat, at: nat -> bool): (r: Option<nat>)
    requires from <= n
    ensures r.Some? ==> from <= r.value < n && at(r.value)
    ensures r.Some? ==> forall k :: from <= k < r.value ==> !at(k)
    ensures r.None? ==> forall k :: from <= k < n ==> !at(k)
    decreases n - from
  {
    if from == n then None
    else if at(from) then Some(from)
    else FirstAt(n, from + 1, at)
  }

  /** The characters of `s` outside class `p`, in order (also `re.sub(class, "", s)`). */
  function Keep(s: string, p: char -> bool): (r: string)
    ensures |r| <= |s|
    ensures forall i :: 0 <= i < |r| ==> !p(r[i]) && r[i] in s
    decreases |s|
  {
    if s == [] then []
    else if p(s[0]) then Keep(s[1..], p)
    else [s[0]] + Keep(s[1..], p)
  }

  lemma {:induction false} KeepAppend(a: string, b: string, p: char -> bool)
    ensures Keep(a + b, p) == Keep(a, p) + Keep(b, p)
    decreases |a|
  {
    if a == [] {
      assert a + b == b;
    } else {
      assert (a + b)[0] == a[0];
      assert (a + b)[1..] == a[1..] + b;
      KeepAppend(a[1..], b, p);
    }
  }

  lemma {:induction false} KeepAllOfClass(s: string, p: char -> bool)
    requires All(s, p)
    ensures Keep(s, p) == []
    decreases |s|
  {
    if s != [] {
      KeepAllOfClass(s[1..], p);
    }
  }

  lemma {:induction false} KeepNoneOfClass(s: string, p: char -> bool)
    requires forall i :: 0 <= i < |s| ==> !p(s[i])
    ensures Keep(s, p) == s
    decreases |s|
  {
    if s != [] {
      KeepNoneOfClass(s[1..], p);
    }
  }

  /** A character outside the class survives `Keep` exactly when it occurs. */
  lemma {:induction false} KeepContains(s: string, p: char -> bool, c: char)
    requires !p(c)
    ensures c in Keep(s, p) <==> c in s
    decreases |s|
  {
    if s != [] {
      KeepContains(s[1..], p, c);
      assert s == [s[0]] + s[1..];
    }
  }

  /** `s` shows every `p`-character as a lone `c`: the shape `re.sub(p + "+", c, ·)` leaves. */
  predicate RunsCollapsed(s: string, p: char -> bool, c: char) {
    forall i :: 0 <= i < |s| && p(s[i]) ==> s[i] == c && (i + 1 < |s| ==> !p(s[i + 1]))
  }

  /** `re.sub(p + "+", c, s)`: every maximal run of `p`-characters becomes one `c`. */
  function ReplaceRuns(s: string, p: char -> bool, c: char): (r: string)
    ensures |r| <= |s|
    ensures |r| == 0 <==> |s| == 0
    ensures |s| > 0 ==> r[0] == (if p(s[0]) then c else s[0])
    ensures |s| > 0 && !p(s[|s| - 1]) ==> r[|r| - 1] == s[|s| - 1]
    ensures forall i :: 0 <= i < |r| ==> r[i] == c || (!p(r[i]) && r[i] in s)
    ensures RunsCollapsed(r, p, c)
    decreases |s|
  {
    if s == [] then []
    else if p(s[0]) then
      var e := SpanEnd(s, 0, p);
      var rest := ReplaceRuns(s[e..], p, c);
      assert rest != [] ==> !p(rest[0]);
      [c] + rest
    else
      [s[0]] + ReplaceRuns(s[1..], p, c)
  }

  /** A string that already has the collapsed shape is left alone. */
  lemma {:induction false} ReplaceRunsFixedPoint(s: string, p: char -> bool, c: char)
    requires RunsCollapsed(s, p, c)
    ensures ReplaceRuns(s, p, c) == s
    decreases |s|
  {
    if s != [] {
      var t := s[1..];
      RunsCollapsedTail(s, p, c);
      ReplaceRunsFixedPoint(t, p, c);
      RunsCollapsedHead(s, p, c);
      ReplaceRunsStep(s, p, c);
      assert s == [s[0]] + t;
    }
  }

  lemma RunsCollapsedTail(s: string, p: char -> bool, c: char)
    requires s != [] && RunsCollapsed(s, p, c)
    ensures RunsCollapsed(s[1..], p, c)
  {
    var t := s[1..];
    forall i | 0 <= i < |t| && p(t[i]) ensures t[i] == c && (i + 1 < |t| ==> !p(t[i + 1])) {
      assert t[i] == s[i + 1];
    }
  }

  lemma RunsCollapsedHead(s: string, p: char -> bool, c: char)
    requires s != [] && RunsCollapsed(s, p, c)
    ensures p(s[0]) ==> s[0] == c && (|s| == 1 || !p(s[1]))
  {
  }

  /** A lone class character, or any other character, at the front is rewritten on its own. */
  lemma ReplaceRunsStep(s: string, p: char -> bool, c: char)
    requires s != [] && (p(s[0]) ==> |s| == 1 || !p(s[1]))
    ensures ReplaceRuns(s, p, c) == [if p(s[0]) then c else s[0]] + ReplaceRuns(s[1..], p, c)
  {
    if p(s[0]) {
      SpanEndUnique(s, 0, p, 1);
    }
  }

  lemma ReplaceRunsIdempotent(s: string, p: char -> bool, c: char)
    ensures ReplaceRuns(ReplaceRuns(s, p, c), p, c) == ReplaceRuns(s, p, c)
  {
    ReplaceRunsFixedPoint(ReplaceRuns(s, p, c), p, c);
  }

  /** A whole run, however long, becomes exactly one `c`. */
  lemma ReplaceRunsOfRun(w: string, p: char -> bool, c: char)
    requires |w| > 0 && All(w, p)
    ensures ReplaceRuns(w, p, c) == [c]
  {
    SpanEndUnique(w, 0, p, |w|);
  }

  /** Replacement works run by run: it splits at any point that is not inside a run. */
  lemma {:induction false} ReplaceRunsAppend(a: string, b: string, p: char -> bool, c: char)
    requires a == [] || b == [] || !p(a[|a| - 1]) || !p(b[0])
    ensures ReplaceRuns(a + b, p, c) == ReplaceRuns(a, p, c) + ReplaceRuns(b, p, c)
    decreases |a|
  {
    if a == [] {
      assert a + b == b;
    } else if !p(a[0]) {
      ReplaceRunsAppendPlain(a, b, p, c);
    } else {
      var e := SpanEnd(a, 0, p);
      if e < |a| {
        ReplaceRunsAppendInRun(a, b, p, c, e);
      } else {
        ReplaceRunsAppendWholeRun(a, b, p, c);
      }
    }
  }

  lemma ConcatAssoc<T>(x: seq<T>, y: seq<T>, z: seq<T>)
    ensures x + (y + z) == (x + y) + z
  {
  }

  lemma ConcatRegroup<T>(a: seq<T>, b: seq<T>, c: seq<T>, d: seq<T>, e: seq<T>)
    ensures a + (b + c + d) + e == (a + b) + c + (d + e)
  {
  }

  lemma ConcatRegroupJoin<T>(xl: seq<T>, xs: seq<T>, xr: seq<T>, w: seq<T>, yl: seq<T>, ys: seq<T>, yr: seq<T>)
    ensures (xl + xs + xr) + w + (yl + ys + yr) == xl + (xs + (xr + w + yl) + ys) + yr
  {
  }

  /** `re.sub` copies a character outside the class and carries on after it. */
  lemma ReplaceRunsPlainHead(s: string, p: char -> bool, c: char)
    requires |s| > 0 && !p(s[0])
    ensures ReplaceRuns(s, p, c) == [s[0]] + ReplaceRuns(s[1..], p, c)
  {
  }

  /** `re.sub` replaces a leading run by one `c` and carries on after the run. */
  lemma ReplaceRunsRunHead(s: string, p: char -> bool, c: char, e: nat)
    requires |s| > 0 && p(s[0]) && e == SpanEnd(s, 0, p)
    ensures ReplaceRuns(s, p, c) == [c] + ReplaceRuns(s[e..], p, c)
  {
  }

  lemma {:induction false} ReplaceRunsAppendPlain(a: string, b: string, p: char -> bool, c: char)
    requires |a| > 0 && !p(a[0])
    requires b == [] || !p(a[|a| - 1]) || !p(b[0])
    ensures ReplaceRuns(a + b, p, c) == ReplaceRuns(a, p, c) + ReplaceRuns(b, p, c)
    decreases |a|, 0
  {
    var ab, tail := a + b, a[1..];
    assert ab[0] == a[0];
    assert ab[1..] == tail + b;
    assert tail == [] || tail[|tail| - 1] == a[|a| - 1];
    ReplaceRunsPlainHead(ab, p, c);
    ReplaceRunsPlainHead(a, p, c);
    ReplaceRunsAppend(tail, b, p, c);
    var rt, rb := ReplaceRuns(tail, p, c), ReplaceRuns(b, p, c);
    ConcatAssoc([a[0]], rt, rb);
  }

  lemma {:induction false} ReplaceRunsAppendInRun(a: string, b: string, p: char -> bool, c: char, e: nat)
    requires |a| > 0 && p(a[0]) && e == SpanEnd(a, 0, p) && e < |a|
    requires b == [] || !p(a[|a| - 1]) || !p(b[0])
    ensures ReplaceRuns(a + b, p, c) == ReplaceRuns(a, p, c) + ReplaceRuns(b, p, c)
    decreases |a|, 0
  {
    var ab, tail := a + b, a[e..];
    assert ab[0] == a[0];
    assert forall j :: 0 <= j < e ==> ab[j] == a[j];
    assert ab[e] == a[e];
    SpanEndUnique(ab, 0, p, e);
    assert ab[e..] == tail + b;
    assert tail[|tail| - 1] == a[|a| - 1];
    ReplaceRunsRunHead(ab, p, c, e);
    ReplaceRunsRunHead(a, p, c, e);
    ReplaceRunsAppend(tail, b, p, c);
    var rt, rb := ReplaceRuns(tail, p, c), ReplaceRuns(b, p, c);
    ConcatAssoc([c], rt, rb);
  }

  lemma ReplaceRunsAppendWholeRun(a: string, b: string, p: char -> bool, c: char)
    requires |a| > 0 && All(a, p)
    requires b == [] || !p(b[0])
    ensures ReplaceRuns(a + b, p, c) == ReplaceRuns(a, p, c) + ReplaceRuns(b, p, c)
  {
    assert (a + b)[0] == a[0];
    SpanEndUnique(a + b, 0, p, |a|);
    assert (a + b)[|a|..] == b;
    ReplaceRunsOfRun(a, p, c);
  }

  /** When the replacement is itself in the class, the characters outside it survive in order. */
  lemma {:induction false} ReplaceRunsKeeps(s: string, p: char -> bool, c: char)
    requires p(c)
    ensures Keep(ReplaceRuns(s, p, c), p) == Keep(s, p)
    decreases |s|
  {
    if s != [] {
      if p(s[0]) {
        var e := SpanEnd(s, 0, p);
        ReplaceRunsKeeps(s[e..], p, c);
        ReplaceRunsRunHead(s, p, c, e);
        KeepCons(c, ReplaceRuns(s[e..], p, c), p);
        KeepDropRun(s, e, p);
      } else {
        ReplaceRunsKeeps(s[1..], p, c);
        ReplaceRunsPlainHead(s, p, c);
        KeepCons(s[0], ReplaceRuns(s[1..], p, c), p);
      }
    }
  }

  lemma KeepCons(x: char, t: string, p: char -> bool)
    ensures Keep([x] + t, p) == if p(x) then Keep(t, p) else [x] + Keep(t, p)
  {
    assert ([x] + t)[1..] == t;
  }

  /** A leading run of the class leaves nothing behind. */
  lemma KeepDropRun(s: string, e: nat, p: char -> bool)
    requires e <= |s| && forall j :: 0 <= j < e ==> p(s[j])
    ensures Keep(s, p) == Keep(s[e..], p)
  {
    assert s == s[..e] + s[e..];
    KeepAppend(s[..e], s[e..], p);
    KeepAllOfClass(s[..e], p);
  }

  /** The end of `s[lo..hi]` once trailing whitespace is dropped. */
  function TrimmedEnd(s: string, lo: nat, hi: nat): (e: nat)
    requires lo <= hi <= |s|
    ensures lo <= e <= hi
    ensures forall j :: e <= j < hi ==> IsSpace(s[j])
    ensures e == lo || !IsSpace(s[e - 1])
    decreases hi - lo
  {
    if hi == lo || !IsSpace(s[hi - 1]) then hi else TrimmedEnd(s, lo, hi - 1)
  }

  /** A trimmed end is determined by where the trailing whitespace starts. */
  lemma {:induction false} TrimmedEndUnique(s: string, lo: nat, hi: nat, e: nat)
    requires lo <= e <= hi <= |s|
    requires forall j :: e <= j < hi ==> IsSpace(s[j])
    requires e == lo || !IsSpace(s[e - 1])
    ensures TrimmedEnd(s, lo, hi) == e
    decreases hi - lo
  {
    if hi > e {
      TrimmedEndUnique(s, lo, hi - 1, e);
    }
  }

  /** `r` is `s` less some leading and some trailing whitespace. */
  predicate IsTrimOf(r: string, s: string) {
    exists a: nat, b: nat :: a <= b <= |s| && r == s[a..b] && All(s[..a], IsSpace) && All(s[b..], IsSpace)
  }

  /** `str.strip()`: drop leading and trailing whitespace. */
  function Strip(s: string): (r: string)
    ensures IsTrimOf(r, s)
    ensures |r| == 0 || (!IsSpace(r[0]) && !IsSpace(r[|r| - 1]))
    ensures Keep(r, IsSpace) == Keep(s, IsSpace)
  {
    var a := SpanEnd(s, 0, IsSpace);
    var b := TrimmedEnd(s, a, |s|);
    StripEnds(s, a, b);
    StripKeeps(s, a, b);
    var r := s[a..b];
    assert a <= b <= |s| && r == s[a..b] && All(s[..a], IsSpace) && All(s[b..], IsSpace);
    assert |r| == 0 || (r[0] == s[a] && r[|r| - 1] == s[b - 1]);
    r
  }

  lemma StripEnds(s: string, a: nat, b: nat)
    requires a == SpanEnd(s, 0, IsSpace) && b == TrimmedEnd(s, a, |s|)
    ensures All(s[..a], IsSpace) && All(s[b..], IsSpace)
    ensures b == a || (!IsSpace(s[a]) && !IsSpace(s[b - 1]))
  {
    if a < b {
      assert a < |s|;
    }
  }

  /** A text strips to nothing exactly when it is all whitespace. */
  lemma StripEmpty(s: string)
    ensures Strip(s) == "" <==> All(s, IsSpace)
  {
    var a := SpanEnd(s, 0, IsSpace);
    var b := TrimmedEnd(s, a, |s|);
    StripEnds(s, a, b);
    if All(s, IsSpace) {
      SpanEndUnique(s, 0, IsSpace, |s|);
    }
    if a == b {
      assert s == s[..a] + s[b..];
    }
  }

  /** Whatever whitespace surrounds a string with no outer whitespace, stripping recovers it. */
  lemma StripUnique(l: string, u: string, r: string)
    requires All(l, IsSpace) && All(r, IsSpace)
    requires u == "" || (!IsSpace(u[0]) && !IsSpace(u[|u| - 1]))
    ensures Strip(l + u + r) == u
  {
    var s := l + u + r;
    var a, b := |l|, |l| + |u|;
    assert forall j :: 0 <= j < a ==> s[j] == l[j];
    assert forall j :: b <= j < |s| ==> s[j] == r[j - b];
    if u == "" {
      SpanEndUnique(s, 0, IsSpace, |s|);
    } else {
      assert s[a] == u[0] && s[b - 1] == u[|u| - 1];
      SpanEndUnique(s, 0, IsSpace, a);
      TrimmedEndUnique(s, a, |s|, b);
      assert s[a..b] == u;
    }
  }

  /** Every string is its stripped text between two whitespace-only strings. */
  lemma StripSplit(s: string) returns (l: string, r: string)
    ensures All(l, IsSpace) && All(r, IsSpace)
    ensures s == l + Strip(s) + r
  {
    var a := SpanEnd(s, 0, IsSpace);
    var b := TrimmedEnd(s, a, |s|);
    StripEnds(s, a, b);
    SplitThree(s, a, b);
    l, r := s[..a], s[b..];
  }

  lemma SplitThree<T>(s: seq<T>, a: nat, b: nat)
    requires a <= b <= |s|
    ensures s == s[..a] + s[a..b] + s[b..]
  {
  }

  lemma AllAppend(a: string, b: string, p: char -> bool)
    requires All(a, p) && All(b, p)
    ensures All(a + b, p)
  {
  }

  /** Surrounding whitespace is invisible to `str.strip()`. */
  lemma StripOuter(w1: string, y: string, w2: string)
    requires All(w1, IsSpace) && All(w2, IsSpace)
    ensures Strip(w1 + y + w2) == Strip(y)
  {
    var l, r := StripSplit(y);
    var u := Strip(y);
    ConcatRegroup(w1, l, u, r, w2);
    AllAppend(w1, l, IsSpace);
    AllAppend(r, w2, IsSpace);
    StripUnique(w1 + l, u, r + w2);
  }

  lemma StripKeeps(s: string, a: nat, b: nat)
    requires a <= b <= |s|
    requires All(s[..a], IsSpace) && All(s[b..], IsSpace)
    ensures Keep(s[a..b], IsSpace) == Keep(s, IsSpace)
  {
    var l, m, r := s[..a], s[a..b], s[b..];
    assert s == l + m + r;
    KeepAppend(l + m, r, IsSpace);
    KeepAppend(l, m, IsSpace);
    KeepAllOfClass(l, IsSpace);
    KeepAllOfClass(r, IsSpace);
    var km := Keep(m, IsSpace);
    assert Keep(l + m, IsSpace) == [] + km;
    assert Keep(s, IsSpace) == ([] + km) + [];
    assert ([] + km) + [] == km;
  }

  /** The shape `norm` produces: no outer whitespace, every inner whitespace run a single space. */
  predicate IsNormal(s: string) {
    && (|s| == 0 || (s[0] != ' ' && s[|s| - 1] != ' '))
    && RunsCollapsed(s, IsSpace, ' ')
  }

  /** `norm`: strip, then collapse every whitespace run to one space. */
  function Norm(s: string): (r: string)
    ensures IsNormal(r)
    ensures Keep(r, IsSpace) == Keep(s, IsSpace)
    ensures |r| <= |s|
  {
    var t := Strip(s);
    ReplaceRunsKeeps(t, IsSpace, ' ');
    ReplaceRuns(t, IsSpace, ' ')
  }

  /** The normal strings are exactly those `norm` leaves unchanged. */
  lemma NormFixedPoint(s: string)
    ensures Norm(s) == s <==> IsNormal(s)
  {
    if IsNormal(s) {
      var a := SpanEnd(s, 0, IsSpace);
      if |s| > 0 {
        SpanEndUnique(s, 0, IsSpace, 0);
      }
      assert a == 0;
      assert TrimmedEnd(s, 0, |s|) == |s|;
      assert Strip(s) == s;
      ReplaceRunsFixedPoint(s, IsSpace, ' ');
    }
  }

  lemma NormOfNormal(s: string)
    requires IsNormal(s)
    ensures Norm(s) == s
  {
    NormFixedPoint(s);
  }

  lemma NormIdempotent(s: string)
    ensures Norm(Norm(s)) == Norm(s)
  {
    NormFixedPoint(Norm(s));
  }

  /** `norm` loses no character other than whitespace. */
  lemma NormContains(s: string, c: char)
    requires !IsSpace(c)
    ensures c in Norm(s) <==> c in s
  {
    KeepContains(s, IsSpace, c);
    KeepContains(Norm(s), IsSpace, c);
  }

  /** A text normalises to nothing exactly when it is all whitespace. */
  lemma NormEmpty(s: string)
    ensures Norm(s) == "" <==> All(s, IsSpace)
  {
    StripEmpty(s);
  }

  /** Whitespace around a string does not change its normal form. */
  lemma NormOuter(w1: string, y: string, w2: string)
    requires All(w1, IsSpace) && All(w2, IsSpace)
    ensures Norm(w1 + y + w2) == Norm(y)
  {
    StripOuter(w1, y, w2);
  }

  /**
   * Word boundaries survive: two texts with visible content joined by any
   * whitespace normalise to their normal forms joined by one space.
   */
  lemma NormJoin(x: string, w: string, y: string)
    requires w != "" && All(w, IsSpace)
    requires Norm(x) != "" && Norm(y) != ""
    ensures Norm(x + w + y) == Norm(x) + " " + Norm(y)
  {
    var xl, xr := StripSplit(x);
    var yl, yr := StripSplit(y);
    var xs, ys := Strip(x), Strip(y);
    var m := xr + w + yl;
    AllAppend(xr, w, IsSpace);
    AllAppend(xr + w, yl, IsSpace);
    ConcatRegroupJoin(xl, xs, xr, w, yl, ys, yr);
    NormJoinStripped(xl, xs, m, ys, yr);
  }

  lemma NormJoinStripped(l: string, xs: string, m: string, ys: string, r: string)
    requires All(l, IsSpace) && All(r, IsSpace) && m != "" && All(m, IsSpace)
    requires xs != "" && !IsSpace(xs[0]) && !IsSpace(xs[|xs| - 1])
    requires ys != "" && !IsSpace(ys[0]) && !IsSpace(ys[|ys| - 1])
    ensures Norm(l + (xs + m + ys) + r) == ReplaceRuns(xs, IsSpace, ' ') + " " + ReplaceRuns(ys, IsSpace, ' ')
  {
    StripJoined(l, xs, m, ys, r);
    CollapseJoined(xs, m, ys);
  }

  lemma StripJoined(l: string, xs: string, m: string, ys: string, r: string)
    requires All(l, IsSpace) && All(r, IsSpace)
    requires xs != "" && !IsSpace(xs[0])
    requires ys != "" && !IsSpace(ys[|ys| - 1])
    ensures Strip(l + (xs + m + ys) + r) == xs + m + ys
  {
    var u := xs + m + ys;
    assert u[0] == xs[0] && u[|u| - 1] == ys[|ys| - 1];
    StripUnique(l, u, r);
  }

  lemma CollapseJoined(xs: string, m: string, ys: string)
    requires xs != "" && !IsSpace(xs[|xs| - 1])
    requires ys != "" && !IsSpace(ys[0])
    requires m != "" && All(m, IsSpace)
    ensures ReplaceRuns(xs + m + ys, IsSpace, ' ') == ReplaceRuns(xs, IsSpace, ' ') + " " + ReplaceRuns(ys, IsSpace, ' ')
  {
    var mys := m + ys;
    assert xs + m + ys == xs + mys;
    ReplaceRunsAppend(xs, mys, IsSpace, ' ');
    ReplaceRunsAppendWholeRun(m, ys, IsSpace, ' ');
    ReplaceRunsOfRun(m, IsSpace, ' ');
    ConcatAssoc(ReplaceRuns(xs, IsSpace, ' '), " ", ReplaceRuns(ys, IsSpace, ' '));
  }

  /** `norm` may equally collapse first and strip afterwards. */
  lemma NormSwap(s: string)
    ensures Norm(s) == Strip(ReplaceRuns(s, IsSpace, ' '))
  {
    var l, r := StripSplit(s);
    var t := Strip(s);
    if t == "" {
      NormSwapBlank(s);
    } else {
      NormSwapPadded(l, t, r);
      assert s == l + t + r;
    }
  }

  lemma NormSwapBlank(s: string)
    requires Strip(s) == ""
    ensures Norm(s) == Strip(ReplaceRuns(s, IsSpace, ' '))
  {
    StripEmpty(s);
    CollapseSpaces(s);
    StripEmpty(ReplaceRuns(s, IsSpace, ' '));
    assert Norm(s) == ReplaceRuns("", IsSpace, ' ') == "";
  }

  lemma NormSwapPadded(l: string, t: string, r: string)
    requires All(l, IsSpace) && All(r, IsSpace)
    requires t != "" && !IsSpace(t[0]) && !IsSpace(t[|t| - 1])
    requires Strip(l + t + r) == t
    ensures Norm(l + t + r) == Strip(ReplaceRuns(l + t + r, IsSpace, ' '))
  {
    var rl, rt, rr := ReplaceRuns(l, IsSpace, ' '), ReplaceRuns(t, IsSpace, ' '), ReplaceRuns(r, IsSpace, ' ');
    CollapsePadded(l, t, r);
    CollapseSpaces(l);
    CollapseSpaces(r);
    CollapseEnds(t);
    StripUnique(rl, rt, rr);
    assert Norm(l + t + r) == rt;
  }

  /** Collapsing keeps visible outer characters where they are. */
  lemma CollapseEnds(t: string)
    requires t != "" && !IsSpace(t[0]) && !IsSpace(t[|t| - 1])
    ensures var rt := ReplaceRuns(t, IsSpace, ' '); rt != "" && !IsSpace(rt[0]) && !IsSpace(rt[|rt| - 1])
  {
  }

  /** Collapsing a whitespace-only string leaves whitespace only. */
  lemma CollapseSpaces(w: string)
    requires All(w, IsSpace)
    ensures All(ReplaceRuns(w, IsSpace, ' '), IsSpace)
  {
    if w != "" {
      ReplaceRunsOfRun(w, IsSpace, ' ');
    }
  }

  /** Collapsing splits at the edges of a stripped text. */
  lemma CollapsePadded(l: string, t: string, r: string)
    requires All(l, IsSpace) && All(r, IsSpace)
    requires t != "" && !IsSpace(t[0]) && !IsSpace(t[|t| - 1])
    ensures ReplaceRuns(l + t + r, IsSpace, ' ')
         == ReplaceRuns(l, IsSpace, ' ') + ReplaceRuns(t, IsSpace, ' ') + ReplaceRuns(r, IsSpace, ' ')
  {
    var rl, rt, rr := ReplaceRuns(l, IsSpace, ' '), ReplaceRuns(t, IsSpace, ' '), ReplaceRuns(r, IsSpace, ' ');
    assert (t + r)[0] == t[0];
    ReplaceRunsAppend(l, t + r, IsSpace, ' ');
    ReplaceRunsAppend(t, r, IsSpace, ' ');
    ConcatAssoc(l, t, r);
    ConcatAssoc(rl, rt, rr);
  }

  /** `re.sub` may run over the tail of a string before or after the head is seen. */
  lemma {:induction false} ReplaceRunsRight(x: string, z: string, p: char -> bool, c: char)
    requires p(c)
    ensures ReplaceRuns(x + z, p, c) == ReplaceRuns(x + ReplaceRuns(z, p, c), p, c)
    decreases |x|, 1
  {
    if x == [] {
      assert x + z == z && x + ReplaceRuns(z, p, c) == ReplaceRuns(z, p, c);
      ReplaceRunsIdempotent(z, p, c);
    } else if !p(x[0]) {
      ReplaceRunsRightPlain(x, z, p, c);
    } else {
      var e := SpanEnd(x, 0, p);
      if e < |x| {
        ReplaceRunsRightInRun(x, z, p, c, e);
      } else {
        ReplaceRunsRightOfRun(x, z, p, c);
      }
    }
  }

  lemma {:induction false} ReplaceRunsRightPlain(x: string, z: string, p: char -> bool, c: char)
    requires p(c) && |x| > 0 && !p(x[0])
    ensures ReplaceRuns(x + z, p, c) == ReplaceRuns(x + ReplaceRuns(z, p, c), p, c)
    decreases |x|, 0
  {
    var rz := ReplaceRuns(z, p, c);
    var xz, xr := x + z, x + rz;
    assert xz[0] == x[0] && xz[1..] == x[1..] + z;
    assert xr[0] == x[0] && xr[1..] == x[1..] + rz;
    ReplaceRunsPlainHead(xz, p, c);
    ReplaceRunsPlainHead(xr, p, c);
    ReplaceRunsRight(x[1..], z, p, c);
  }

  lemma {:induction false} ReplaceRunsRightInRun(x: string, z: string, p: char -> bool, c: char, e: nat)
    requires p(c) && |x| > 0 && p(x[0]) && e == SpanEnd(x, 0, p) && e < |x|
    ensures ReplaceRuns(x + z, p, c) == ReplaceRuns(x + ReplaceRuns(z, p, c), p, c)
    decreases |x|, 0
  {
    var rz := ReplaceRuns(z, p, c);
    var xz, xr := x + z, x + rz;
    assert forall j :: 0 <= j <= e ==> xz[j] == x[j] && xr[j] == x[j];
    SpanEndUnique(xz, 0, p, e);
    SpanEndUnique(xr, 0, p, e);
    assert xz[e..] == x[e..] + z && xr[e..] == x[e..] + rz;
    ReplaceRunsRunHead(xz, p, c, e);
    ReplaceRunsRunHead(xr, p, c, e);
    ReplaceRunsRight(x[e..], z, p, c);
  }

  lemma ReplaceRunsRightOfRun(x: string, z: string, p: char -> bool, c: char)
    requires p(c) && |x| > 0 && All(x, p)
    ensures ReplaceRuns(x + z, p, c) == ReplaceRuns(x + ReplaceRuns(z, p, c), p, c)
  {
    ReplaceRunsRunPrefix(x, z, p, c);
    ReplaceRunsRunPrefix(x, ReplaceRuns(z, p, c), p, c);
    if z != [] && p(z[0]) {
      CollapsedTailOfRun(z, p, c);
    } else {
      CollapsedTailPlain(z, p, c);
    }
  }

  /** After its leading run, a collapsed string collapses like the original. */
  lemma CollapsedTailOfRun(z: string, p: char -> bool, c: char)
    requires p(c) && z != [] && p(z[0])
    ensures var rz := ReplaceRuns(z, p, c);
      ReplaceRuns(rz[SpanEnd(rz, 0, p)..], p, c) == ReplaceRuns(z[SpanEnd(z, 0, p)..], p, c)
  {
    var rz := ReplaceRuns(z, p, c);
    var k := SpanEnd(z, 0, p);
    var rest := ReplaceRuns(z[k..], p, c);
    ReplaceRunsRunHead(z, p, c, k);
    assert rest != [] ==> !p(rest[0]);
    assert rz[0] == c && (|rz| > 1 ==> rz[1] == rest[0]);
    SpanEndUnique(rz, 0, p, 1);
    assert rz[1..] == rest;
    ReplaceRunsIdempotent(z[k..], p, c);
  }

  lemma CollapsedTailPlain(z: string, p: char -> bool, c: char)
    requires z == [] || !p(z[0])
    ensures var rz := ReplaceRuns(z, p, c);
      ReplaceRuns(rz[SpanEnd(rz, 0, p)..], p, c) == ReplaceRuns(z[SpanEnd(z, 0, p)..], p, c)
  {
    var rz := ReplaceRuns(z, p, c);
    SpanEndUnique(z, 0, p, 0);
    SpanEndUnique(rz, 0, p, 0);
    ReplaceRunsIdempotent(z, p, c);
  }

  /** A leading run, continued by whatever run the rest starts with, becomes one `c`. */
  lemma ReplaceRunsRunPrefix(w: string, z: string, p: char -> bool, c: char)
    requires |w| > 0 && All(w, p)
    ensures ReplaceRuns(w + z, p, c) == [c] + ReplaceRuns(z[SpanEnd(z, 0, p)..], p, c)
  {
    var k := SpanEnd(z, 0, p);
    var run := w + z[..k];
    assert z == z[..k] + z[k..];
    assert w + z == run + z[k..];
    assert All(run, p);
    ReplaceRunsAppendWholeRun(run, z[k..], p, c);
    ReplaceRunsOfRun(run, p, c);
  }
}
