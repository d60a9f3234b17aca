/**
 * Identifiers of the output graph (tools/convert_to_rdf/convert_to_rdf.py,
 * lines 83-100 and 112-127): the sanitiser `safe_id`, MIrA-local URIs,
 * Wikidata entity URIs and the QID scanner `extract_qid`.
 */
module Ids {
  import opened Wrappers
  import opened Text

  /** The characters `safe_id` keeps: `[A-Za-z0-9._-]`. */
  predicate IsSafeChar(c: char) {
    IsLetter(c) || IsDigit(c) || c == '.' || c == '_' || c == '-'
  }

  predicate IsUnsafeChar(c: char) { !IsSafeChar(c) }

  predicate IsSafeKey(s: string) { s != "" && All(s, IsSafeChar) }

  /** `safe_id`: every maximal run of disallowed characters becomes one `_`; `""` becomes `"unknown"`. */
  function SafeId(s: string): (r: string)
    ensures IsSafeKey(r)
    ensures s == "" ==> r == "unknown"
    ensures s != "" ==> |r| <= |s|
    ensures s != "" && IsSafeChar(s[0]) ==> r[0] == s[0]
  {
    if s == "" then "unknown" else ReplaceRuns(s, IsUnsafeChar, '_')
  }

  /** The keys `safe_id` leaves unchanged are exactly the non-empty safe strings. */
  lemma SafeIdFixedPoint(s: string)
    ensures SafeId(s) == s <==> IsSafeKey(s)
  {
    if IsSafeKey(s) {
      ReplaceRunsFixedPoint(s, IsUnsafeChar, '_');
    }
  }

  lemma SafeIdIdempotent(s: string)
    ensures SafeId(SafeId(s)) == SafeId(s)
  {
    SafeIdFixedPoint(SafeId(s));
  }

  /** A non-empty key made only of disallowed characters collapses to a single `_`. */
  lemma SafeIdOfUnsafeRun(s: string)
    requires s != "" && All(s, IsUnsafeChar)
    ensures SafeId(s) == "_"
  {
    ReplaceRunsOfRun(s, IsUnsafeChar, '_');
  }

  /** Sanitising works run by run: a key splits wherever the cut is not inside a disallowed run. */
  lemma SafeIdAppend(a: string, b: string)
    requires a != "" && b != ""
    requires IsSafeChar(a[|a| - 1]) || IsSafeChar(b[0])
    ensures SafeId(a + b) == SafeId(a) + SafeId(b)
  {
    ReplaceRunsAppend(a, b, IsUnsafeChar, '_');
  }

  const WD_NS := "http://www.wikidata.org/entity/"
  const MIRA_NS := "https://mira.ie/entity/"

  /** A node of the graph: a Wikidata entity `wd:<qid>` or a MIrA-local `mira:<kind>/<key>`. */
  datatype Iri = Wd(qid: string) | Local(kind: string, key: string)

  /** The URI an `Iri` stands for. */
  function IriText(i: Iri): string {
    match i
    case Wd(q) => WD_NS + q
    case Local(kind, key) => MIRA_NS + kind + "/" + key
  }

  /** `local_uri`: the key is always sanitised, so the path segment is never empty. */
  function LocalUri(kind: string, key: string): (r: Iri)
    ensures r.Local? && r.kind == kind && IsSafeKey(r.key)
    ensures IsSafeKey(key) ==> r.key == key
  {
    SafeIdFixedPoint(key);
    Local(kind, SafeId(key))
  }

  /** Minting a local URI from an already minted key gives the same URI back. */
  lemma LocalUriStable(kind: string, key: string)
    ensures LocalUri(kind, LocalUri(kind, key).key) == LocalUri(kind, key)
  {
    SafeIdIdempotent(key);
  }

  /** A local URI can never be mistaken for a Wikidata entity: the namespaces differ. */
  lemma NamespacesDisjoint(q: string, kind: string, key: string)
    ensures IriText(Wd(q)) != IriText(Local(kind, key))
  {
    assert IriText(Wd(q))[4] == ':';
    assert IriText(Local(kind, key))[4] == 's';
  }

  /** Distinct (kind, key) pairs give distinct local URIs, for kinds without a slash. */
  lemma LocalUriTextInjective(k1: string, a: string, k2: string, b: string)
    requires '/' !in k1 && '/' !in k2
    requires IriText(Local(k1, a)) == IriText(Local(k2, b))
    ensures k1 == k2 && a == b
  {
    var n := |MIRA_NS|;
    var x := k1 + "/" + a;
    var y := k2 + "/" + b;
    assert IriText(Local(k1, a)) == MIRA_NS + x;
    assert IriText(Local(k2, b)) == MIRA_NS + y;
    assert x == (MIRA_NS + x)[n..] == (MIRA_NS + y)[n..] == y;
    var notSlash := (ch: char) => ch != '/';
    assert forall j :: 0 <= j < |k1| ==> x[j] == k1[j];
    SpanEndUnique(x, 0, notSlash, |k1|);
    assert forall j :: 0 <= j < |k2| ==> y[j] == k2[j];
    SpanEndUnique(y, 0, notSlash, |k2|);
    assert k1 == x[..|k1|] == y[..|k2|] == k2;
    assert a == x[|k1| + 1..] == y[|k2| + 1..] == b;
  }

  /** A Wikidata item identifier: `Q` followed by one or more digits. */
  predicate IsQid(q: string) {
    |q| >= 2 && q[0] == 'Q' && forall i :: 1 <= i < |q| ==> IsDigit(q[i])
  }

  /** `\bQ\d+\b` matches at `i`. */
  predicate QidAt(s: string, i: nat) {
    && i + 1 < |s|
    && s[i] == 'Q'
    && IsDigit(s[i + 1])
    && BoundaryBefore(s, i)
    && BoundaryAfter(s, SpanEnd(s, i + 1, IsDigit))
  }

  /** The text of the match at `i`. */
  function QidMatch(s: string, i: nat): string
    requires QidAt(s, i)
  {
    s[i..SpanEnd(s, i + 1, IsDigit)]
  }

  /** `extract_qid`: the leftmost word-bounded `Q<digits>` token, or nothing for absent or empty text. */
  function ExtractQid(text: Option<string>): (q: Option<string>)
    ensures text.None? ==> q.None?
    ensures q.Some? ==> IsQid(q.value)
    ensures text.Some? ==> (q.Some? <==> exists i: nat :: QidAt(text.value, i))
    ensures q.Some? ==>
      exists i: nat :: QidAt(text.value, i) && q.value == QidMatch(text.value, i)
                    && forall k: nat :: k < i ==> !QidAt(text.value, k)
  {
    if text.None? || text.value == "" then None
    else
      var s := text.value;
      match FirstAt(|s|, 0, (i: nat) => QidAt(s, i))
      case None =>
        assert forall k: nat :: !QidAt(s, k) by {
          forall k: nat ensures !QidAt(s, k) {
            if k < |s| {
              assert !((i: nat) => QidAt(s, i))(k);
            }
          }
        }
        None
      case Some(i) =>
        assert QidAt(s, i);
        assert forall k: nat :: k < i ==> !QidAt(s, k) by {
          forall k: nat | k < i ensures !QidAt(s, k) {
            assert !((i: nat) => QidAt(s, i))(k);
          }
        }
        Some(QidMatch(s, i))
  }

  /** A field holding nothing but a QID yields that QID. */
  lemma ExtractQidOfQid(q: string)
    requires IsQid(q)
    ensures ExtractQid(Some(q)) == Some(q)
  {
    SpanEndUnique(q, 1, IsDigit, |q|);
    assert QidAt(q, 0);
    assert QidMatch(q, 0) == q;
    assert FirstAt(|q|, 0, (i: nat) => QidAt(q, i)) == Some(0);
  }
}
