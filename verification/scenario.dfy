/**
 * A worked example of the manuscript block: shelf mark "MS 123" in library
 * "lib1" ("Example Library", Q999), written in "845", containing a text whose
 * title matches the indexed work "The King's Mirror" (Q42).
 */
module Scenario {
  import opened Wrappers
  import opened Text
  import opened Ids
  import opened Titles
  import opened Numbers
  import opened Records
  import opened Index
  import opened Authorities
  import opened Rdf
  import opened Emitter
  import opened Guarantees

  const LIBRARY := LibraryEl(Some("lib1"), Some("Example Library"), Some("Q999"))
  const TEXT := TextEl(Some("t1"), Some("The King's Mirror"), Some("Q42"))
  const MANUSCRIPT := ManuscriptEl(
    Some("ms1"), Some(IdentifierEl(Some("lib1"), Some("MS 123"))), Some("845"), None,
    None, None, None, None, None, ["the kings mirror"])

  const LABEL := "Example Library \U{2014} MS 123"

  function ScenarioTables(): Tables {
    LoadAll([], [], [TEXT], [LIBRARY])
  }

  lemma ExampleTextsNormal()
    ensures Norm("Example Library") == "Example Library"
    ensures Norm("MS 123") == "MS 123"
    ensures Norm("the kings mirror") == "the kings mirror"
  {
    LibraryNameNormal();
    ShelfMarkNormal();
    TitleKeyNormal();
  }

  lemma LibraryNameNormal()
    ensures Norm("Example Library") == "Example Library"
  {
    LibraryNameIsNormal();
    NormOfNormal("Example Library");
  }

  lemma LibraryNameIsNormal()
    ensures IsNormal("Example Library")
  {
  }

  lemma ShelfMarkNormal()
    ensures Norm("MS 123") == "MS 123"
  {
    ShelfMarkIsNormal();
    NormOfNormal("MS 123");
  }

  lemma ShelfMarkIsNormal()
    ensures IsNormal("MS 123")
  {
  }

  lemma TitleKeyNormal()
    ensures Norm("the kings mirror") == "the kings mirror"
  {
    TitleKeyIsNormal();
    NormOfNormal("the kings mirror");
  }

  lemma TitleKeyIsNormal()
    ensures IsNormal("the kings mirror")
  {
  }

  lemma ExampleQids()
    ensures ExtractQid(Some("Q999")) == Some("Q999")
    ensures ExtractQid(Some("Q42")) == Some("Q42")
  {
    LibraryQid999();
    WorkQid42();
  }

  /** The library's cross-reference is a bare QID and resolves to itself. */
  lemma LibraryQid999()
    ensures LibraryQid(LIBRARY) == Some("Q999")
  {
    assert IsQid("Q999");
    ExtractQidOfQid("Q999");
  }

  /** The text's cross-reference is a bare QID and resolves to itself. */
  lemma WorkQid42()
    ensures TextQid(TEXT) == Some("Q42")
  {
    assert IsQid("Q42");
    ExtractQidOfQid("Q42");
  }

  /** The library table names "lib1" "Example Library" under Q999. */
  lemma ScenarioLibraries()
    ensures "lib1" in ScenarioTables().libraries.nameById
    ensures ScenarioTables().libraries.nameById["lib1"] == "Example Library"
    ensures ScenarioTables().libraries.qidById["lib1"] == Some("Q999")
  {
    LibraryTableEntry();
    assert ScenarioTables().libraries == LoadLibraries([LIBRARY]);
  }

  lemma LibraryTableEntry()
    ensures "lib1" in LoadLibraries([LIBRARY]).nameById
    ensures LoadLibraries([LIBRARY]).nameById["lib1"] == "Example Library"
    ensures LoadLibraries([LIBRARY]).qidById["lib1"] == Some("Q999")
  {
    LibraryNameNormal();
    LibraryQid999();
    var ls := [LIBRARY];
    assert LibraryId(LIBRARY) == "lib1";
    assert WritesAt(ls, HasLibraryId, LibraryId, "lib1", 0);
    assert LastWriteAt(ls, HasLibraryId, LibraryId, "lib1", 0);
    assert LibraryName(LIBRARY) == "Example Library";
    assert LibraryQid(LIBRARY) == Some("Q999");
  }

  /** The title index maps "the kings mirror" to Q42. */
  lemma ScenarioIndex()
    ensures "the kings mirror" in ScenarioTables().texts.qidByTitleKey
    ensures ScenarioTables().texts.qidByTitleKey["the kings mirror"] == "Q42"
  {
    TitleIndexEntry();
    assert ScenarioTables().texts.qidByTitleKey == TitleIndex([TEXT]);
  }

  lemma TitleIndexEntry()
    ensures "the kings mirror" in TitleIndex([TEXT])
    ensures TitleIndex([TEXT])["the kings mirror"] == "Q42"
  {
    WorkQid42();
    KingsMirrorNormal();
    TitleKeyKingsMirror();
    var ts := [TEXT];
    assert TextTitle(TEXT) == "The King's Mirror";
    assert TextQid(TEXT) == Some("Q42");
    assert Indexable(TEXT);
    assert TitleKeyOf(TEXT) == "the kings mirror";
    assert WritesAt(ts, Indexable, TitleKeyOf, "the kings mirror", 0);
    assert LastWriteAt(ts, Indexable, TitleKeyOf, "the kings mirror", 0);
  }

  lemma ScenarioGYear()
    ensures ExtractGYear(Some("845")) == Some("0845")
  {
    var s := "845";
    SpanEndUnique(s, 0, IsDigit, 3);
    assert ShortRunAt(s, 0);
    assert !LongRunAt(s, 0);
    forall k: nat ensures !LongRunAt(s, k) {
    }
    var y := ExtractGYear(Some(s));
    var i: nat :| ShortRunAt(s, i) && y.value == "0" + s[i..i + 3] && forall k: nat :: k < i ==> !ShortRunAt(s, k);
    assert i == 0;
    assert s[0..3] == "845";
    assert "0" + "845" == "0845";
  }

  /** The tables of the example hold the library and the work it relies on. */
  predicate HoldsExample(t: Tables) {
    && "lib1" in t.libraries.nameById
    && t.libraries.nameById["lib1"] == "Example Library"
    && "lib1" in t.libraries.qidById
    && t.libraries.qidById["lib1"] == Some("Q999")
    && "the kings mirror" in t.texts.qidByTitleKey
    && t.texts.qidByTitleKey["the kings mirror"] == "Q42"
  }

  lemma ScenarioHoldsExample()
    ensures HoldsExample(ScenarioTables())
  {
    ScenarioLibraries();
    ScenarioIndex();
  }

  lemma ShelfMark()
    ensures Shelf(MANUSCRIPT) == "MS 123"
  {
    ShelfMarkNormal();
  }

  /** Shelf mark and library name join into "Example Library — MS 123". */
  lemma ScenarioLabel(t: Tables)
    requires HoldsExample(t)
    ensures ManuscriptLabel(t.libraries, MANUSCRIPT, "ms1") == LABEL
  {
    ShelfMark();
    ScenarioCollectionName(t);
    LabelText();
  }

  lemma ScenarioCollectionName(t: Tables)
    requires HoldsExample(t)
    ensures CollectionName(t.libraries, MANUSCRIPT) == Some("Example Library")
  {
    assert CollectionRef(MANUSCRIPT) == "lib1";
  }

  lemma LabelText()
    ensures "Example Library" + EM_DASH_SEPARATOR + "MS 123" == LABEL
  {
  }

  /** Collection Q999 and year "0845" are present. */
  lemma ScenarioPresentValues(t: Tables)
    requires HoldsExample(t)
    ensures PropertyValue(t, MANUSCRIPT, P195) == Some(Node(Wd("Q999")))
    ensures PropertyValue(t, MANUSCRIPT, P571) == Some(Typed("0845", XsdGYear))
  {
    ScenarioGYear();
    assert CollectionRef(MANUSCRIPT) == "lib1";
    assert Lookup(t.libraries.qidById, "lib1") == Some("Q999");
    assert YearText(MANUSCRIPT) == Some("845");
  }

  /** Folio count, dimensions and link are absent. */
  lemma ScenarioAbsentValues(t: Tables)
    ensures PropertyValue(t, MANUSCRIPT, P1104).None?
    ensures PropertyValue(t, MANUSCRIPT, P2048).None?
    ensures PropertyValue(t, MANUSCRIPT, P2049).None?
    ensures PropertyValue(t, MANUSCRIPT, P953).None?
  {
    assert Norm("") == "";
  }

  lemma OnlyElement<T>(xs: seq<T>, x: T, y: T)
    requires xs == [x] && y in xs
    ensures y == x
  {
  }

  lemma ExampleSubject(token: string)
    ensures ManuscriptSubject(MANUSCRIPT, token) == Local("manuscript", "ms1")
    ensures ManuscriptKey(MANUSCRIPT, token) == "ms1"
  {
    assert IsSafeKey("ms1");
  }

  /** The manuscript is typed, labelled "Example Library — MS 123", in collection Q999, dated "0845" and an exemplar of Q42. */
  lemma ExampleStatements(t: Tables, token: string)
    requires HoldsExample(t)
    ensures
      var g := ManuscriptTriples(t, MANUSCRIPT, token);
      var s := Local("manuscript", "ms1");
      && Triple(s, Wdt(P31), Node(Wd(Q_MANUSCRIPT))) in g
      && Triple(s, RdfsLabel, Plain(LABEL)) in g
      && Triple(s, PrefLabel, Plain(LABEL)) in g
      && Triple(s, Wdt(P195), Node(Wd("Q999"))) in g
      && Triple(s, Wdt(P571), Typed("0845", XsdGYear)) in g
      && Triple(s, Wdt(P1574), Node(Wd("Q42"))) in g
  {
    ExampleSubject(token);
    ScenarioLabel(t);
    ScenarioPresentValues(t);
    ManuscriptTypedAndLabelled(t, MANUSCRIPT, token, Plain(LABEL));
    ManuscriptProperty(t, MANUSCRIPT, token, P195, Node(Wd("Q999")));
    ManuscriptProperty(t, MANUSCRIPT, token, P571, Typed("0845", XsdGYear));
    TitleKeyNormal();
    TitleKeyKingsMirror();
    var c := "the kings mirror";
    assert c in MANUSCRIPT.contentTitles && MatchesWork(t.texts.qidByTitleKey, c);
    ManuscriptExemplars(t, MANUSCRIPT, token, Node(Wd("Q42")));
  }

  /** No folio count, dimensions or link. */
  lemma ExampleOmissions(t: Tables, token: string, o: Obj)
    ensures
      var g := ManuscriptTriples(t, MANUSCRIPT, token);
      var s := Local("manuscript", "ms1");
      && Triple(s, Wdt(P1104), o) !in g
      && Triple(s, Wdt(P2048), o) !in g
      && Triple(s, Wdt(P2049), o) !in g
      && Triple(s, Wdt(P953), o) !in g
  {
    ExampleSubject(token);
    ScenarioAbsentValues(t);
    ManuscriptProperty(t, MANUSCRIPT, token, P1104, o);
    ManuscriptProperty(t, MANUSCRIPT, token, P2048, o);
    ManuscriptProperty(t, MANUSCRIPT, token, P2049, o);
    ManuscriptProperty(t, MANUSCRIPT, token, P953, o);
  }

  /** Q42 is the only work the manuscript is an exemplar of. */
  lemma ExampleOnlyWork(t: Tables, token: string, o: Obj)
    requires HoldsExample(t)
    requires Triple(Local("manuscript", "ms1"), Wdt(P1574), o) in ManuscriptTriples(t, MANUSCRIPT, token)
    ensures o == Node(Wd("Q42"))
  {
    var index := t.texts.qidByTitleKey;
    ExampleSubject(token);
    ManuscriptExemplars(t, MANUSCRIPT, token, o);
    var c :| c in MANUSCRIPT.contentTitles && MatchesWork(index, c) && o == Node(Wd(index[TitleKey(Norm(c))]));
    OnlyElement(MANUSCRIPT.contentTitles, "the kings mirror", c);
    TitleKeyNormal();
    TitleKeyKingsMirror();
  }

  /**
   * The whole run over one library, one text and one manuscript writes the
   * manuscript block the worked example describes, whatever the fallback
   * tokens are.
   */
  lemma EndToEnd(placeTokens: nat -> string, msTokens: nat -> string, o: Obj)
    ensures
      var g := Convert([], [], [TEXT], [LIBRARY], [MANUSCRIPT], placeTokens, msTokens);
      var s := Local("manuscript", "ms1");
      && Triple(s, Wdt(P31), Node(Wd(Q_MANUSCRIPT))) in g
      && Triple(s, RdfsLabel, Plain(LABEL)) in g
      && Triple(s, PrefLabel, Plain(LABEL)) in g
      && Triple(s, Wdt(P195), Node(Wd("Q999"))) in g
      && Triple(s, Wdt(P571), Typed("0845", XsdGYear)) in g
      && Triple(s, Wdt(P1574), Node(Wd("Q42"))) in g
      && Triple(s, Wdt(P1104), o) !in g
      && Triple(s, Wdt(P2048), o) !in g
      && Triple(s, Wdt(P2049), o) !in g
      && Triple(s, Wdt(P953), o) !in g
  {
    var t := ScenarioTables();
    ScenarioHoldsExample();
    ExampleStatements(t, msTokens(0));
    ManuscriptInGraph([], [], [TEXT], [LIBRARY], [MANUSCRIPT], placeTokens, msTokens, 0);
    ExampleOmissions(t, msTokens(0), o);
    WholeRunOnlyBlock(placeTokens, msTokens, Triple(Local("manuscript", "ms1"), Wdt(P1104), o));
    WholeRunOnlyBlock(placeTokens, msTokens, Triple(Local("manuscript", "ms1"), Wdt(P2048), o));
    WholeRunOnlyBlock(placeTokens, msTokens, Triple(Local("manuscript", "ms1"), Wdt(P2049), o));
    WholeRunOnlyBlock(placeTokens, msTokens, Triple(Local("manuscript", "ms1"), Wdt(P953), o));
  }

  /** In the example run, a statement about the manuscript is in the graph only if its block holds it. */
  lemma WholeRunOnlyBlock(placeTokens: nat -> string, msTokens: nat -> string, tr: Triple)
    requires IsManuscriptNode(tr.subj)
    ensures tr in Convert([], [], [TEXT], [LIBRARY], [MANUSCRIPT], placeTokens, msTokens) ==>
      tr in ManuscriptTriples(ScenarioTables(), MANUSCRIPT, msTokens(0))
  {
    if tr in Convert([], [], [TEXT], [LIBRARY], [MANUSCRIPT], placeTokens, msTokens) {
      var mss := [MANUSCRIPT];
      ManuscriptStatementsFromBlocks([], [], [TEXT], [LIBRARY], mss, placeTokens, msTokens, tr);
      var j :| 0 <= j < |mss| && tr in ManuscriptTriples(ScenarioTables(), mss[j], msTokens(j));
      assert j == 0 && mss[j] == MANUSCRIPT;
    }
  }
}
