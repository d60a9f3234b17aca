/**
 * What the emitted graph says about each record: the subject rule for every
 * authority kind, the place walk reaching every depth, and each manuscript's
 * label and conditional properties.
 */
module Guarantees {
  import opened Wrappers
  import opened Text
  import opened Ids
  import opened Titles
  import opened Numbers
  import opened Records
  import opened Index
  import opened Authorities
  import opened Rdf
  import opened Emitter

  /** The subject rule on a record's own QID: the entity itself when known, else a local node. */
  function Subject(kind: string, key: string, qid: Option<string>): Iri {
    if qid.Some? then Wd(qid.value) else LocalUri(kind, key)
  }

  // ---------------------------------------------------------------- people and works

  /** Everything the people loop writes for a registered id is in the graph. */
  lemma PersonTriplesEmitted(t: PeopleTables, pid: string)
    requires pid in t.qidById
    ensures PersonTriples(t, pid, t.qidById[pid]) <= EmitPeople(t)
  {
    var item := (pid, t.qidById[pid]);
    assert item in t.qidById.Items;
    var f := (item: (string, Option<string>)) => PersonTriples(t, item.0, item.1);
    forall tr | tr in PersonTriples(t, pid, t.qidById[pid]) ensures tr in EmitPeople(t) {
      UnionOfMember(t.qidById.Items, f, item, tr);
    }
  }

  /** The subject rule on a well-formed QID is `Resolve`. */
  lemma SubjectIsResolve(kind: string, key: string, qid: Option<string>)
    requires qid.Some? ==> IsQid(qid.value)
    ensures Subject(kind, key, qid) == Resolve(kind, key, qid)
  {
  }

  /** The entity lines: the type statements, and the label pair for a non-empty label. */
  lemma DescribedContents(s: Iri, classes: set<string>, name: string)
    ensures forall c :: c in classes ==> TypeTriple(s, c) in Described(s, classes, name)
    ensures name != "" ==> LabelPair(s, name) <= Described(s, classes, name)
  {
  }

  lemma PersonTableEntry(ps: seq<PersonEl>, i: nat)
    requires i < |ps| && LastWriteAt(ps, Always, PersonId, PersonId(ps[i]), i)
    ensures PersonId(ps[i]) in LoadPeople(ps).qidById
    ensures LoadPeople(ps).qidById[PersonId(ps[i])] == PersonQid(ps[i])
    ensures HasLabel(ps[i]) ==>
      PersonId(ps[i]) in LoadPeople(ps).labelById && LoadPeople(ps).labelById[PersonId(ps[i])] == PersonLabel(ps[i])
  {
    var t := LoadPeople(ps);
    var pid := PersonId(ps[i]);
    assert t.qidById[pid] == PersonQid(ps[i]);
    if HasLabel(ps[i]) {
      forall j | i < j < |ps| ensures !WritesAt(ps, HasLabel, PersonId, pid, j) {
        assert !WritesAt(ps, Always, PersonId, pid, j);
      }
      assert LastWriteAt(ps, HasLabel, PersonId, pid, i);
      assert t.labelById[pid] == PersonLabel(ps[i]);
    }
  }

  /**
   * The last person with a given id is typed `wd:Q5` under its own QID, or under
   * `mira:person/<id>` when it has none; its label, when non-empty, is written
   * as both `rdfs:label` and `skos:prefLabel`.
   */
  lemma PersonEmitted(ps: seq<PersonEl>, i: nat)
    requires i < |ps| && LastWriteAt(ps, Always, PersonId, PersonId(ps[i]), i)
    ensures
      var s := Subject("person", PersonId(ps[i]), PersonQid(ps[i]));
      && TypeTriple(s, Q_HUMAN) in EmitPeople(LoadPeople(ps))
      && (HasLabel(ps[i]) ==> LabelPair(s, PersonLabel(ps[i])) <= EmitPeople(LoadPeople(ps)))
  {
    var t := LoadPeople(ps);
    var pid := PersonId(ps[i]);
    PersonTableEntry(ps, i);
    SubjectIsResolve("person", pid, PersonQid(ps[i]));
    var name := if pid in t.labelById then t.labelById[pid] else "";
    DescribedContents(Resolve("person", pid, PersonQid(ps[i])), {Q_HUMAN}, name);
    PersonTriplesEmitted(t, pid);
  }

  /** Every person subject is typed, under the subject rule applied to the table entry for its id. */
  lemma PeopleOnlyFromTable(t: PeopleTables, tr: Triple)
    requires tr in EmitPeople(t)
    ensures exists pid :: pid in t.qidById && tr.subj == Resolve("person", pid, t.qidById[pid])
  {
    var item :| item in t.qidById.Items && tr in PersonTriples(t, item.0, item.1);
  }

  lemma WorkTriplesEmitted(t: TextTables, tid: string)
    requires tid in t.qidById
    ensures WorkTriples(t, tid, t.qidById[tid]) <= EmitWorks(t)
  {
    var item := (tid, t.qidById[tid]);
    assert item in t.qidById.Items;
    var f := (item: (string, Option<string>)) => WorkTriples(t, item.0, item.1);
    forall tr | tr in WorkTriples(t, tid, t.qidById[tid]) ensures tr in EmitWorks(t) {
      UnionOfMember(t.qidById.Items, f, item, tr);
    }
  }

  lemma WorkTableEntry(ts: seq<TextEl>, i: nat)
    requires i < |ts| && LastWriteAt(ts, Always, TextId, TextId(ts[i]), i)
    ensures TextId(ts[i]) in LoadTexts(ts).qidById
    ensures LoadTexts(ts).qidById[TextId(ts[i])] == TextQid(ts[i])
    ensures HasTitle(ts[i]) ==>
      TextId(ts[i]) in LoadTexts(ts).titleById && LoadTexts(ts).titleById[TextId(ts[i])] == TextTitle(ts[i])
  {
    var qids, titles := TextQids(ts), TextTitles(ts);
    var tid := TextId(ts[i]);
    assert qids[tid] == TextQid(ts[i]);
    if HasTitle(ts[i]) {
      forall j | i < j < |ts| ensures !WritesAt(ts, HasTitle, TextId, tid, j) {
        assert !WritesAt(ts, Always, TextId, tid, j);
      }
      assert LastWriteAt(ts, HasTitle, TextId, tid, i);
      assert titles[tid] == TextTitle(ts[i]);
    }
  }

  /** The last text with a given id is typed `wd:Q7725634` under the subject rule, with its title as label. */
  lemma WorkEmitted(ts: seq<TextEl>, i: nat)
    requires i < |ts| && LastWriteAt(ts, Always, TextId, TextId(ts[i]), i)
    ensures
      var s := Subject("work", TextId(ts[i]), TextQid(ts[i]));
      && TypeTriple(s, Q_WORK) in EmitWorks(LoadTexts(ts))
      && (HasTitle(ts[i]) ==> LabelPair(s, TextTitle(ts[i])) <= EmitWorks(LoadTexts(ts)))
  {
    var t := LoadTexts(ts);
    var tid := TextId(ts[i]);
    WorkTableEntry(ts, i);
    SubjectIsResolve("work", tid, TextQid(ts[i]));
    var title := if tid in t.titleById then t.titleById[tid] else "";
    DescribedContents(Resolve("work", tid, TextQid(ts[i])), {Q_WORK}, title);
    WorkTriplesEmitted(t, tid);
  }

  // ---------------------------------------------------------------- libraries

  /**
   * The last library with a given non-empty id is typed both `wd:Q7075` and
   * `wd:Q43229`, and always labelled: by its name, or by its id when the name is blank.
   */
  lemma LibraryEmitted(ls: seq<LibraryEl>, i: nat)
    requires i < |ls| && LastWriteAt(ls, HasLibraryId, LibraryId, LibraryId(ls[i]), i)
    ensures
      var s := Subject("library", LibraryId(ls[i]), LibraryQid(ls[i]));
      var g := EmitLibraries(LoadLibraries(ls));
      && TypeTriple(s, Q_LIBRARY) in g && TypeTriple(s, Q_ORG) in g
      && LibraryName(ls[i]) != ""
      && LabelPair(s, LibraryName(ls[i])) <= g
  {
    var t := LoadLibraries(ls);
    var lid := LibraryId(ls[i]);
    var item := (lid, t.nameById[lid]);
    assert item in t.nameById.Items;
    var f := (item: (string, string)) => LibraryTriples(t, item.0, item.1);
    var s := Subject("library", lid, LibraryQid(ls[i]));
    assert LibraryTriples(t, lid, LibraryName(ls[i])) == f(item);
    forall tr | tr in LibraryTriples(t, lid, LibraryName(ls[i])) ensures tr in EmitLibraries(t) {
      UnionOfMember(t.nameById.Items, f, item, tr);
    }
    assert TypeTriple(s, Q_LIBRARY) in LibraryTriples(t, lid, LibraryName(ls[i]));
    assert TypeTriple(s, Q_ORG) in LibraryTriples(t, lid, LibraryName(ls[i]));
  }

  // ---------------------------------------------------------------- places

  /** Node `i` of the pre-order is typed `wd:Q618123`, labelled by its first name and alt-labelled by the rest. */
  lemma PlaceNodeEmitted(qids: map<string, Option<string>>, roots: seq<PlaceEl>, tokens: nat -> string, i: nat)
    requires i < |Flatten(roots)|
    ensures
      var n := Flatten(roots)[i];
      var s := PlaceSubject(qids, n, tokens(i));
      var names := PlaceNames(n);
      var g := EmitPlaces(qids, roots, tokens);
      && TypeTriple(s, Q_PLACE) in g
      && (names != [] ==> LabelPair(s, names[0]) <= g)
      && (forall k :: 1 <= k < |names| ==> Triple(s, AltLabel, Plain(names[k])) in g)
  {
    var n := Flatten(roots)[i];
    PlaceTriplesContents(qids, n, tokens(i));
    PlaceTriplesInEmit(qids, roots, tokens, i);
  }

  /** One place's statements: its type, its label pair when it has names, and an alternative label per further name. */
  lemma PlaceTriplesContents(qids: map<string, Option<string>>, n: PlaceEl, token: string)
    ensures
      var s := PlaceSubject(qids, n, token);
      var names := PlaceNames(n);
      var g := PlaceTriples(qids, n, token);
      && TypeTriple(s, Q_PLACE) in g
      && (names != [] ==> LabelPair(s, names[0]) <= g)
      && (forall k :: 1 <= k < |names| ==> Triple(s, AltLabel, Plain(names[k])) in g)
  {
    var s := PlaceSubject(qids, n, token);
    var names := PlaceNames(n);
    assert TypeTriple(s, Q_PLACE) in PlaceTriples(qids, n, token);
    forall k | 1 <= k < |names| ensures Triple(s, AltLabel, Plain(names[k])) in PlaceTriples(qids, n, token) {
    }
  }

  /** The statements of node `i` of the pre-order are all in the place graph. */
  lemma PlaceTriplesInEmit(qids: map<string, Option<string>>, roots: seq<PlaceEl>, tokens: nat -> string, i: nat)
    requires i < |Flatten(roots)|
    ensures PlaceTriples(qids, Flatten(roots)[i], tokens(i)) <= EmitPlaces(qids, roots, tokens)
  {
    var nodes := Flatten(roots);
    var f := (j: nat) => if j < |nodes| then PlaceTriples(qids, nodes[j], tokens(j)) else {};
    assert i in Positions(|nodes|);
    forall tr | tr in PlaceTriples(qids, nodes[i], tokens(i)) ensures tr in EmitPlaces(qids, roots, tokens) {
      UnionOfMember(Positions(|nodes|), f, i, tr);
    }
  }


  /**
   * Every place at every depth is emitted, whether or not its ancestors carry
   * an id: the recursion into children does not depend on the parent.
   */
  lemma PlaceEmittedAtAnyDepth(qids: map<string, Option<string>>, roots: seq<PlaceEl>, tokens: nat -> string, r: PlaceEl, n: PlaceEl)
    requires r in roots && Descends(n, r)
    ensures exists i: nat :: i < |Flatten(roots)| && Flatten(roots)[i] == n
                          && TypeTriple(PlaceSubject(qids, n, tokens(i)), Q_PLACE) in EmitPlaces(qids, roots, tokens)
  {
    FlattenIsForest(roots, n);
    var i :| 0 <= i < |Flatten(roots)| && Flatten(roots)[i] == n;
    PlaceNodeEmitted(qids, roots, tokens, i);
  }

  /**
   * A place with an id takes its subject from the table: the QID of the last
   * place in pre-order with the same id, or `mira:place/<id>` when that one has none.
   */
  lemma PlaceSubjectByLastWrite(roots: seq<PlaceEl>, n: PlaceEl, token: string, i: nat)
    requires HasPlaceId(n)
    requires LastWriteAt(Flatten(roots), HasPlaceId, PlaceId, PlaceId(n), i)
    ensures PlaceSubject(LoadPlaces(roots).qidById, n, token)
         == Subject("place", PlaceId(n), PlaceQid(Flatten(roots)[i]))
  {
  }

  /**
   * A place without an id is never resolved to Wikidata, even when its own xref
   * names a QID: its subject is local, keyed by its first name or the token.
   */
  lemma UnidentifiedPlaceIsLocal(qids: map<string, Option<string>>, n: PlaceEl, token: string)
    requires !HasPlaceId(n)
    requires "" !in qids
    ensures PlaceSubject(qids, n, token).Local?
    ensures PlaceNames(n) != [] ==> PlaceSubject(qids, n, token) == LocalUri("place", PlaceNames(n)[0])
    ensures PlaceNames(n) == [] ==> PlaceSubject(qids, n, token) == LocalUri("place", "place_" + token)
  {
  }

  /** Two places sharing an id share their subject, whatever their own xrefs say. */
  lemma PlacesSharingIdShareSubject(qids: map<string, Option<string>>, a: PlaceEl, b: PlaceEl, ta: string, tb: string)
    requires HasPlaceId(a) && PlaceId(a) == PlaceId(b)
    ensures PlaceSubject(qids, a, ta) == PlaceSubject(qids, b, tb)
  {
  }

  // ---------------------------------------------------------------- manuscripts

  /** The label statements of a manuscript block carry its one label text and nothing else. */
  lemma AssembleLabels(s: Iri, name: string, values: seq<Option<Obj>>, works: set<string>, o: Obj)
    ensures Triple(s, RdfsLabel, o) in Assemble(s, name, values, works) <==> o == Plain(name)
    ensures Triple(s, PrefLabel, o) in Assemble(s, name, values, works) <==> o == Plain(name)
  {
    var single := set k, tr | 0 <= k < |values| && k < |SINGLE_VALUED| && tr in Property(s, SINGLE_VALUED[k], values[k]) :: tr;
    forall tr | tr in single ensures tr.pred.Wdt? {
      var k :| 0 <= k < |values| && k < |SINGLE_VALUED| && tr in Property(s, SINGLE_VALUED[k], values[k]);
    }
  }

  /** The single-valued properties are distinct, and none of them is P31 or P1574. */
  lemma SingleValuedDistinct()
    ensures forall j, k :: 0 <= j < k < |SINGLE_VALUED| ==> SINGLE_VALUED[j] != SINGLE_VALUED[k]
    ensures P31 !in SINGLE_VALUED && P1574 !in SINGLE_VALUED
  {
  }

  /** Property `SINGLE_VALUED[k]` is stated exactly when value `k` exists, with that value. */
  lemma AssembleProperty(s: Iri, name: string, values: seq<Option<Obj>>, works: set<string>, k: nat, o: Obj)
    requires |values| == |SINGLE_VALUED| && k < |SINGLE_VALUED|
    ensures Triple(s, Wdt(SINGLE_VALUED[k]), o) in Assemble(s, name, values, works) <==> values[k] == Some(o)
  {
    SingleValuedDistinct();
    var tr := Triple(s, Wdt(SINGLE_VALUED[k]), o);
    if values[k] == Some(o) {
      assert tr in Property(s, SINGLE_VALUED[k], values[k]);
    }
    if tr in Assemble(s, name, values, works) {
      if j :| 0 <= j < |values| && j < |SINGLE_VALUED| && tr in Property(s, SINGLE_VALUED[j], values[j]) {
        assert SINGLE_VALUED[j] == SINGLE_VALUED[k];
      }
    }
  }

  /** `wdt:P1574` is stated for exactly the matched works. */
  lemma AssembleExemplars(s: Iri, name: string, values: seq<Option<Obj>>, works: set<string>, o: Obj)
    ensures Triple(s, Wdt(P1574), o) in Assemble(s, name, values, works) <==> exists q :: q in works && o == Node(Wd(q))
  {
    SingleValuedDistinct();
  }

  /** Everything written for one manuscript is about its own, always local, subject. */
  lemma AssembleAbout(s: Iri, name: string, values: seq<Option<Obj>>, works: set<string>, tr: Triple)
    requires tr in Assemble(s, name, values, works)
    ensures tr.subj == s
  {
    if j :| 0 <= j < |values| && j < |SINGLE_VALUED| && tr in Property(s, SINGLE_VALUED[j], values[j]) {
    }
  }

  /**
   * Every manuscript is `wdt:P31 wd:Q87167` under a local subject, and carries
   * exactly one label text, written as both `rdfs:label` and `skos:prefLabel`.
   */
  lemma ManuscriptTypedAndLabelled(t: Tables, ms: ManuscriptEl, token: string, o: Obj)
    ensures
      var s := ManuscriptSubject(ms, token);
      var name := ManuscriptLabel(t.libraries, ms, ManuscriptKey(ms, token));
      var g := ManuscriptTriples(t, ms, token);
      && s.Local? && s.kind == "manuscript"
      && Triple(s, Wdt(P31), Node(Wd(Q_MANUSCRIPT))) in g
      && (Triple(s, RdfsLabel, o) in g <==> o == Plain(name))
      && (Triple(s, PrefLabel, o) in g <==> o == Plain(name))
      && (forall tr :: tr in g ==> tr.subj == s)
  {
    var mid := ManuscriptKey(ms, token);
    var s, name, values, works := LocalUri("manuscript", mid), ManuscriptLabel(t.libraries, ms, mid),
                                  PropertyValues(t, ms), Exemplars(t.texts.qidByTitleKey, ms);
    AssembleLabels(s, name, values, works, o);
    forall tr | tr in Assemble(s, name, values, works) ensures tr.subj == s {
      AssembleAbout(s, name, values, works, tr);
    }
  }

  /**
   * A single-valued property is present exactly when its value was extracted,
   * with that value and no other: absence is omission, never a placeholder.
   */
  lemma ManuscriptProperty(t: Tables, ms: ManuscriptEl, token: string, p: WdProp, o: Obj)
    requires p in SINGLE_VALUED
    ensures Triple(ManuscriptSubject(ms, token), Wdt(p), o) in ManuscriptTriples(t, ms, token)
        <==> PropertyValue(t, ms, p) == Some(o)
  {
    var mid := ManuscriptKey(ms, token);
    var k :| 0 <= k < |SINGLE_VALUED| && SINGLE_VALUED[k] == p;
    AssembleProperty(LocalUri("manuscript", mid), ManuscriptLabel(t.libraries, ms, mid), PropertyValues(t, ms),
                     Exemplars(t.texts.qidByTitleKey, ms), k, o);
  }

  /** `wdt:P1574` links the manuscript to the indexed work of every content title whose key is in the index. */
  lemma ManuscriptExemplars(t: Tables, ms: ManuscriptEl, token: string, o: Obj)
    ensures
      var index := t.texts.qidByTitleKey;
      (Triple(ManuscriptSubject(ms, token), Wdt(P1574), o) in ManuscriptTriples(t, ms, token))
        <==> exists c :: c in ms.contentTitles && MatchesWork(index, c) && o == Node(Wd(index[TitleKey(Norm(c))]))
  {
    var mid := ManuscriptKey(ms, token);
    var index := t.texts.qidByTitleKey;
    AssembleExemplars(LocalUri("manuscript", mid), ManuscriptLabel(t.libraries, ms, mid), PropertyValues(t, ms),
                      Exemplars(index, ms), o);
  }

  /** A present shelf mark always ends the label, and the library name, when known, starts it. */
  lemma ManuscriptLabelShape(libs: LibraryTables, ms: ManuscriptEl, mid: string)
    requires Shelf(ms) != ""
    ensures
      var name := ManuscriptLabel(libs, ms, mid);
      var shelf := Shelf(ms);
      && |shelf| <= |name| && name[|name| - |shelf|..] == shelf
      && (Present(CollectionName(libs, ms)) ==> name[..|CollectionName(libs, ms).value|] == CollectionName(libs, ms).value)
  {
    var name := ManuscriptLabel(libs, ms, mid);
    var shelf := Shelf(ms);
    var lib := CollectionName(libs, ms);
    if Present(lib) {
      ConcatEnds(lib.value, EM_DASH_SEPARATOR, shelf);
    } else {
      assert name == shelf;
    }
  }

  lemma ConcatEnds(a: string, b: string, c: string)
    ensures (a + b + c)[..|a|] == a && (a + b + c)[|a + b + c| - |c|..] == c
  {
  }

  /**
   * The label joins the name the library loader kept for the referenced id:
   * the library's normalised name, or its id when the name is blank.
   */
  lemma ManuscriptLabelNamesLibrary(ls: seq<LibraryEl>, ms: ManuscriptEl, mid: string, i: nat)
    requires Shelf(ms) != ""
    requires i < |ls| && LastWriteAt(ls, HasLibraryId, LibraryId, CollectionRef(ms), i)
    ensures ManuscriptLabel(LoadLibraries(ls), ms, mid) == LibraryName(ls[i]) + EM_DASH_SEPARATOR + Shelf(ms)
  {
    var libs := LoadLibraries(ls);
    assert libs.nameById[CollectionRef(ms)] == LibraryName(ls[i]);
  }

  /**
   * `wdt:P195` follows the library subject rule: the QID of the last library
   * with the referenced id when it has one, else `mira:library/<id>` — also when
   * no library with that id exists.
   */
  lemma CollectionFollowsLibraryRule(t: Tables, ls: seq<LibraryEl>, ms: ManuscriptEl)
    requires t.libraries == LoadLibraries(ls)
    requires CollectionRef(ms) != ""
    ensures forall i :: 0 <= i < |ls| && LastWriteAt(ls, HasLibraryId, LibraryId, CollectionRef(ms), i) ==>
      PropertyValue(t, ms, P195) == Some(Node(Subject("library", CollectionRef(ms), LibraryQid(ls[i]))))
    ensures (forall l :: l in ls ==> LibraryId(l) != CollectionRef(ms)) ==>
      PropertyValue(t, ms, P195) == Some(Node(LocalUri("library", CollectionRef(ms))))
  {
    var lib := CollectionRef(ms);
    if forall l :: l in ls ==> LibraryId(l) != lib {
      assert lib !in t.libraries.qidById;
    }
  }

  /** Without a library reference there is no `wdt:P195`. */
  lemma NoCollectionWithoutReference(t: Tables, ms: ManuscriptEl)
    requires CollectionRef(ms) == ""
    ensures PropertyValue(t, ms, P195).None?
  {
  }

  /**
   * `wdt:P1071` follows the place subject rule: the QID the place table holds
   * for the referenced id, else `mira:place/<id>`.
   */
  lemma OriginFollowsPlaceRule(t: Tables, roots: seq<PlaceEl>, ms: ManuscriptEl, i: nat)
    requires t.places == LoadPlaces(roots)
    requires ms.originPlace.Some? && Present(ms.originPlace.value.id)
    requires LastWriteAt(Flatten(roots), HasPlaceId, PlaceId, ms.originPlace.value.id.value, i)
    ensures PropertyValue(t, ms, P1071)
         == Some(Node(Subject("place", ms.originPlace.value.id.value, PlaceQid(Flatten(roots)[i]))))
  {
    var pid, q := ms.originPlace.value.id.value, PlaceQid(Flatten(roots)[i]);
    assert pid in t.places.qidById && t.places.qidById[pid] == q;
    OriginFromTable(t, ms, q);
  }

  lemma OriginFromTable(t: Tables, ms: ManuscriptEl, q: Option<string>)
    requires ms.originPlace.Some? && Present(ms.originPlace.value.id)
    requires q.Some? ==> IsQid(q.value)
    requires Lookup(t.places.qidById, ms.originPlace.value.id.value) == q
    ensures PropertyValue(t, ms, P1071) == Some(Node(Subject("place", ms.originPlace.value.id.value, q)))
  {
    var pid := ms.originPlace.value.id.value;
    assert OriginIri(t.places, ms) == Some(Resolve("place", pid, q));
    SubjectIsResolve("place", pid, q);
  }

  /**
   * `wdt:P571` reads `term_post` when it has any text and `term_ante` only
   * otherwise: a `term_post` without a year hides a year in `term_ante`.
   */
  lemma InceptionSource(t: Tables, ms: ManuscriptEl)
    ensures Present(ms.termPost) ==> PropertyValue(t, ms, P571) == TypedOf(ExtractGYear(ms.termPost), XsdGYear)
    ensures !Present(ms.termPost) ==> PropertyValue(t, ms, P571) == TypedOf(ExtractGYear(ms.termAnte), XsdGYear)
    ensures PropertyValue(t, ms, P571).Some? ==>
      PropertyValue(t, ms, P571).value.Typed? && IsGYear(PropertyValue(t, ms, P571).value.lexeme)
  {
  }

  /** A folio count is written exactly when the folios text holds a digit. */
  lemma FolioCountPresence(t: Tables, ms: ManuscriptEl)
    ensures PropertyValue(t, ms, P1104).Some? <==> exists c :: c in OrEmpty(ms.folios) && IsDigit(c)
  {
    PresenceOfP1104(t, ms);
    DigitSearch(OrEmpty(ms.folios));
  }

  /** A height is written exactly when the height field holds a digit, whatever the width field says. */
  lemma HeightPresence(t: Tables, ms: ManuscriptEl)
    ensures PropertyValue(t, ms, P2048).Some? <==> exists c :: c in OrEmpty(ms.pageHeight) && IsDigit(c)
  {
    PresenceOfP2048(t, ms);
    DigitSearch(OrEmpty(ms.pageHeight));
  }

  /** A width is written exactly when the width field holds a digit, whatever the height field says. */
  lemma WidthPresence(t: Tables, ms: ManuscriptEl)
    ensures PropertyValue(t, ms, P2049).Some? <==> exists c :: c in OrEmpty(ms.pageWidth) && IsDigit(c)
  {
    PresenceOfP2049(t, ms);
    DigitSearch(OrEmpty(ms.pageWidth));
  }

  /** Each measured property is present exactly when its leftmost-number search succeeds. */
  lemma PresenceOfP1104(t: Tables, ms: ManuscriptEl)
    ensures PropertyValue(t, ms, P1104).Some? <==> FirstInteger(Norm(OrEmpty(ms.folios))).Some?
  {
  }

  lemma PresenceOfP2048(t: Tables, ms: ManuscriptEl)
    ensures PropertyValue(t, ms, P2048).Some? <==> FirstDecimal(Norm(OrEmpty(ms.pageHeight))).Some?
  {
  }

  lemma PresenceOfP2049(t: Tables, ms: ManuscriptEl)
    ensures PropertyValue(t, ms, P2049).Some? <==> FirstDecimal(Norm(OrEmpty(ms.pageWidth))).Some?
  {
  }

  /** The leftmost-number searches on a normalised text succeed exactly when the raw text holds a digit. */
  lemma DigitSearch(s: string)
    ensures FirstInteger(Norm(s)).Some? <==> exists c :: c in s && IsDigit(c)
    ensures FirstDecimal(Norm(s)).Some? <==> exists c :: c in s && IsDigit(c)
  {
    DigitPresence(s);
  }

  /** `norm` keeps every digit, so a digit search succeeds on the normalised text exactly when it would on the raw one. */
  lemma DigitPresence(s: string)
    ensures (exists k :: 0 <= k < |Norm(s)| && IsDigit(Norm(s)[k])) <==> exists c :: c in s && IsDigit(c)
  {
    var n := Norm(s);
    if exists k :: 0 <= k < |n| && IsDigit(n[k]) {
      var k :| 0 <= k < |n| && IsDigit(n[k]);
      NormContains(s, n[k]);
    }
    if exists c :: c in s && IsDigit(c) {
      var c :| c in s && IsDigit(c);
      NormContains(s, c);
      var k :| 0 <= k < |n| && n[k] == c;
    }
  }

  /**
   * Matching by title key: a content title whose key equals the key of the last
   * indexed text with that key links the manuscript to that text's QID.
   */
  lemma ExemplarOfIndexedText(t: Tables, ts: seq<TextEl>, ms: ManuscriptEl, token: string, c: string, i: nat)
    requires t.texts == LoadTexts(ts)
    requires c in ms.contentTitles && Norm(c) != ""
    requires i < |ts| && LastWriteAt(ts, Indexable, TitleKeyOf, TitleKey(Norm(c)), i)
    ensures Triple(ManuscriptSubject(ms, token), Wdt(P1574), Node(Wd(TextQid(ts[i]).value))) in ManuscriptTriples(t, ms, token)
  {
    var index := t.texts.qidByTitleKey;
    assert index[TitleKey(Norm(c))] == TextQid(ts[i]).value;
    assert MatchesWork(index, c);
    ManuscriptExemplars(t, ms, token, Node(Wd(TextQid(ts[i]).value)));
  }

  /** Conversely, every `wdt:P1574` names the QID of a text with both a title and a QID whose key a content title shares. */
  lemma ExemplarsComeFromTexts(t: Tables, ts: seq<TextEl>, ms: ManuscriptEl, token: string, o: Obj)
    requires t.texts.qidByTitleKey == TitleIndex(ts)
    requires Triple(ManuscriptSubject(ms, token), Wdt(P1574), o) in ManuscriptTriples(t, ms, token)
    ensures exists c, i :: c in ms.contentTitles && 0 <= i < |ts| && Indexable(ts[i])
                        && TitleKeyOf(ts[i]) == TitleKey(Norm(c)) && o == Node(Wd(TextQid(ts[i]).value))
  {
    ManuscriptExemplars(t, ms, token, o);
    ExemplarFromIndex(ts, t.texts.qidByTitleKey, ms, o);
  }

  lemma ExemplarFromIndex(ts: seq<TextEl>, index: map<string, string>, ms: ManuscriptEl, o: Obj)
    requires index == TitleIndex(ts)
    requires exists c :: c in ms.contentTitles && MatchesWork(index, c) && o == Node(Wd(index[TitleKey(Norm(c))]))
    ensures exists c, i :: c in ms.contentTitles && 0 <= i < |ts| && Indexable(ts[i])
                        && TitleKeyOf(ts[i]) == TitleKey(Norm(c)) && o == Node(Wd(TextQid(ts[i]).value))
  {
    var c :| c in ms.contentTitles && MatchesWork(index, c) && o == Node(Wd(index[TitleKey(Norm(c))]));
    var key := TitleKey(Norm(c));
    TextOfIndexedTitle(ts, key, o);
    var i :| 0 <= i < |ts| && Indexable(ts[i]) && TitleKeyOf(ts[i]) == key && o == Node(Wd(TextQid(ts[i]).value));
  }

  /** A title key found in the index leads back to the text that wrote it last. */
  lemma TextOfIndexedTitle(ts: seq<TextEl>, key: string, o: Obj)
    requires key in TitleIndex(ts) && o == Node(Wd(TitleIndex(ts)[key]))
    ensures exists i :: 0 <= i < |ts| && Indexable(ts[i]) && TitleKeyOf(ts[i]) == key && o == Node(Wd(TextQid(ts[i]).value))
  {
    TitleIndexSource(ts, key);
    var i :| LastWriteAt(ts, Indexable, TitleKeyOf, key, i) && TitleIndex(ts)[key] == TextQid(ts[i]).value;
    assert WritesAt(ts, Indexable, TitleKeyOf, key, i);
  }

  // ---------------------------------------------------------------- the whole run

  /** The graph holds everything each emitter writes. */
  lemma AuthoritiesInGraph(
    ps: seq<PersonEl>, roots: seq<PlaceEl>, ts: seq<TextEl>, ls: seq<LibraryEl>, mss: seq<ManuscriptEl>,
    placeTokens: nat -> string, msTokens: nat -> string)
    ensures
      var g := Convert(ps, roots, ts, ls, mss, placeTokens, msTokens);
      && EmitPeople(LoadPeople(ps)) <= g
      && EmitPlaces(LoadPlaces(roots).qidById, roots, placeTokens) <= g
      && EmitWorks(LoadTexts(ts)) <= g
      && EmitLibraries(LoadLibraries(ls)) <= g
  {
  }

  /** The graph holds the whole block written for the `j`-th manuscript. */
  lemma ManuscriptInGraph(
    ps: seq<PersonEl>, roots: seq<PlaceEl>, ts: seq<TextEl>, ls: seq<LibraryEl>, mss: seq<ManuscriptEl>,
    placeTokens: nat -> string, msTokens: nat -> string, j: nat)
    requires j < |mss|
    ensures ManuscriptTriples(LoadAll(ps, roots, ts, ls), mss[j], msTokens(j)) <= Convert(ps, roots, ts, ls, mss, placeTokens, msTokens)
  {
    var t := LoadAll(ps, roots, ts, ls);
    ManuscriptTriplesInEmit(t, mss, msTokens, j);
    EmitManuscriptsInGraph(ps, roots, ts, ls, mss, placeTokens, msTokens);
  }

  /** The manuscript loop writes the whole block of each manuscript. */
  lemma ManuscriptTriplesInEmit(t: Tables, mss: seq<ManuscriptEl>, msTokens: nat -> string, j: nat)
    requires j < |mss|
    ensures ManuscriptTriples(t, mss[j], msTokens(j)) <= EmitManuscripts(t, mss, msTokens)
  {
    var f := (j: nat) => if j < |mss| then ManuscriptTriples(t, mss[j], msTokens(j)) else {};
    assert j in Positions(|mss|);
    forall tr | tr in ManuscriptTriples(t, mss[j], msTokens(j)) ensures tr in EmitManuscripts(t, mss, msTokens) {
      UnionOfMember(Positions(|mss|), f, j, tr);
    }
  }

  /** Everything the manuscript loop writes is in the output graph. */
  lemma EmitManuscriptsInGraph(
    ps: seq<PersonEl>, roots: seq<PlaceEl>, ts: seq<TextEl>, ls: seq<LibraryEl>, mss: seq<ManuscriptEl>,
    placeTokens: nat -> string, msTokens: nat -> string)
    ensures EmitManuscripts(LoadAll(ps, roots, ts, ls), mss, msTokens) <= Convert(ps, roots, ts, ls, mss, placeTokens, msTokens)
  {
  }

  /** A `mira:manuscript/…` node. */
  predicate IsManuscriptNode(i: Iri) { i.Local? && i.kind == "manuscript" }

  /** An authority subject is never a manuscript node, whatever its key or QID. */
  lemma DescribedNotManuscript(kind: string, key: string, qid: Option<string>, classes: set<string>, name: string, tr: Triple)
    requires kind != "manuscript" && tr in Described(Resolve(kind, key, qid), classes, name)
    ensures !IsManuscriptNode(tr.subj)
  {
  }

  lemma PeopleNotManuscripts(t: PeopleTables, tr: Triple)
    requires tr in EmitPeople(t)
    ensures !IsManuscriptNode(tr.subj)
  {
    var item :| item in t.qidById.Items && tr in PersonTriples(t, item.0, item.1);
    var name := if item.0 in t.labelById then t.labelById[item.0] else "";
    DescribedNotManuscript("person", item.0, item.1, {Q_HUMAN}, name, tr);
  }

  lemma PlacesNotManuscripts(qids: map<string, Option<string>>, roots: seq<PlaceEl>, tokens: nat -> string, tr: Triple)
    requires tr in EmitPlaces(qids, roots, tokens)
    ensures !IsManuscriptNode(tr.subj)
  {
    var nodes := Flatten(roots);
    var i :| i in Positions(|nodes|) && tr in (if i < |nodes| then PlaceTriples(qids, nodes[i], tokens(i)) else {});
    PlaceTriplesNotManuscript(qids, nodes[i], tokens(i), tr);
  }

  lemma PlaceTriplesNotManuscript(qids: map<string, Option<string>>, el: PlaceEl, token: string, tr: Triple)
    requires tr in PlaceTriples(qids, el, token)
    ensures !IsManuscriptNode(tr.subj)
  {
    var s := PlaceSubject(qids, el, token);
    var names := PlaceNames(el);
    if tr in Described(s, {Q_PLACE}, if names != [] then names[0] else "") {
      DescribedNotManuscript("place", PlaceKey(el, token), Lookup(qids, PlaceId(el)), {Q_PLACE}, if names != [] then names[0] else "", tr);
    } else {
      assert tr.subj == s;
    }
  }

  lemma WorksNotManuscripts(t: TextTables, tr: Triple)
    requires tr in EmitWorks(t)
    ensures !IsManuscriptNode(tr.subj)
  {
    var item :| item in t.qidById.Items && tr in WorkTriples(t, item.0, item.1);
    var title := if item.0 in t.titleById then t.titleById[item.0] else "";
    DescribedNotManuscript("work", item.0, item.1, {Q_WORK}, title, tr);
  }

  lemma LibrariesNotManuscripts(t: LibraryTables, tr: Triple)
    requires tr in EmitLibraries(t)
    ensures !IsManuscriptNode(tr.subj)
  {
    var item :| item in t.nameById.Items && tr in LibraryTriples(t, item.0, item.1);
    DescribedNotManuscript("library", item.0, Lookup(t.qidById, item.0), {Q_LIBRARY, Q_ORG}, item.1, tr);
  }

  /**
   * Only the manuscript loop writes statements about manuscript nodes: each
   * such statement of the whole run comes from some manuscript's block.
   */
  lemma ManuscriptStatementsFromBlocks(
    ps: seq<PersonEl>, roots: seq<PlaceEl>, ts: seq<TextEl>, ls: seq<LibraryEl>, mss: seq<ManuscriptEl>,
    placeTokens: nat -> string, msTokens: nat -> string, tr: Triple)
    requires tr in Convert(ps, roots, ts, ls, mss, placeTokens, msTokens) && IsManuscriptNode(tr.subj)
    ensures exists j :: 0 <= j < |mss| && tr in ManuscriptTriples(LoadAll(ps, roots, ts, ls), mss[j], msTokens(j))
  {
    var t := LoadAll(ps, roots, ts, ls);
    var people, places := EmitPeople(t.people), EmitPlaces(t.places.qidById, roots, placeTokens);
    var works, libraries := EmitWorks(t.texts), EmitLibraries(t.libraries);
    var manuscripts := EmitManuscripts(t, mss, msTokens);
    assert Convert(ps, roots, ts, ls, mss, placeTokens, msTokens) == people + places + works + libraries + manuscripts;
    if tr in people {
      PeopleNotManuscripts(t.people, tr);
    } else if tr in places {
      PlacesNotManuscripts(t.places.qidById, roots, placeTokens, tr);
    } else if tr in works {
      WorksNotManuscripts(t.texts, tr);
    } else if tr in libraries {
      LibrariesNotManuscripts(t.libraries, tr);
    } else {
      var j :| j in Positions(|mss|) && tr in (if j < |mss| then ManuscriptTriples(t, mss[j], msTokens(j)) else {});
    }
  }

  lemma PlacesIgnoreTokens(qids: map<string, Option<string>>, roots: seq<PlaceEl>, tokens: nat -> string, tokens': nat -> string)
    requires forall n :: n in Flatten(roots) ==> HasPlaceId(n) || PlaceNames(n) != []
    ensures EmitPlaces(qids, roots, tokens) == EmitPlaces(qids, roots, tokens')
  {
    var nodes := Flatten(roots);
    var f := (i: nat) => if i < |nodes| then PlaceTriples(qids, nodes[i], tokens(i)) else {};
    var f' := (i: nat) => if i < |nodes| then PlaceTriples(qids, nodes[i], tokens'(i)) else {};
    forall i | i in Positions(|nodes|) ensures f(i) == f'(i) {
      assert nodes[i] in nodes;
      assert PlaceSubject(qids, nodes[i], tokens(i)) == PlaceSubject(qids, nodes[i], tokens'(i));
    }
    UnionOfCongruent(Positions(|nodes|), f, f');
  }

  lemma ManuscriptsIgnoreTokens(t: Tables, mss: seq<ManuscriptEl>, tokens: nat -> string, tokens': nat -> string)
    requires forall ms :: ms in mss ==> Present(ms.id)
    ensures EmitManuscripts(t, mss, tokens) == EmitManuscripts(t, mss, tokens')
  {
    var m := (j: nat) => if j < |mss| then ManuscriptTriples(t, mss[j], tokens(j)) else {};
    var m' := (j: nat) => if j < |mss| then ManuscriptTriples(t, mss[j], tokens'(j)) else {};
    forall j | j in Positions(|mss|) ensures m(j) == m'(j) {
      assert mss[j] in mss;
      assert ManuscriptKey(mss[j], tokens(j)) == ManuscriptKey(mss[j], tokens'(j));
    }
    UnionOfCongruent(Positions(|mss|), m, m');
  }

  /**
   * The random tokens only name places with neither id nor name and
   * manuscripts without an id: when there are none, converting twice gives
   * the same graph whatever tokens were drawn.
   */
  lemma TokensOnlyNameUnidentified(
    ps: seq<PersonEl>, roots: seq<PlaceEl>, ts: seq<TextEl>, ls: seq<LibraryEl>, mss: seq<ManuscriptEl>,
    placeTokens: nat -> string, msTokens: nat -> string, placeTokens': nat -> string, msTokens': nat -> string)
    requires forall n :: n in Flatten(roots) ==> HasPlaceId(n) || PlaceNames(n) != []
    requires forall ms :: ms in mss ==> Present(ms.id)
    ensures Convert(ps, roots, ts, ls, mss, placeTokens, msTokens) == Convert(ps, roots, ts, ls, mss, placeTokens', msTokens')
  {
    var t := LoadAll(ps, roots, ts, ls);
    PlacesIgnoreTokens(t.places.qidById, roots, placeTokens, placeTokens');
    ManuscriptsIgnoreTokens(t, mss, msTokens, msTokens');
  }
}
