/**
 * The triple emitter in `main` (tools/convert_to_rdf/convert_to_rdf.py lines
 * 305-432): authority entities first, then one block per manuscript. The
 * graph is the set of everything emitted.
 */
module Emitter {
  import opened Wrappers
  import opened Text
  import opened Ids
  import opened Titles
  import opened Numbers
  import opened Records
  import opened Index
  import opened Authorities
  import opened Rdf

  /** Python truthiness of an optional string. */
  predicate Present(o: Option<string>) { o.Some? && o.value != "" }

  /** A table lookup that yields nothing for a missing key; the values are already optional. */
  function Lookup(m: map<string, Option<string>>, k: string): Option<string> {
    if k in m then m[k] else None
  }

  /** The subject rule shared by every kind: the Wikidata entity when a QID is known, else a local node of that kind. */
  function Resolve(kind: string, key: string, qid: Option<string>): Iri {
    if Present(qid) then Wd(qid.value) else LocalUri(kind, key)
  }

  /** The `rdfs:label` / `skos:prefLabel` pair with one text. */
  function LabelPair(s: Iri, text: string): set<Triple> {
    {Triple(s, RdfsLabel, Plain(text)), Triple(s, PrefLabel, Plain(text))}
  }

  function TypeTriple(s: Iri, cls: string): Triple { Triple(s, RdfType, Node(Wd(cls))) }

  /** An authority entity: its type statements, and the label pair when the label is non-empty. */
  function Described(s: Iri, classes: set<string>, name: string): set<Triple> {
    (set c | c in classes :: TypeTriple(s, c)) + (if name != "" then LabelPair(s, name) else {})
  }

  /** The six classes are well-formed QIDs. */
  lemma ClassesAreQids()
    ensures IsQid(Q_MANUSCRIPT) && IsQid(Q_HUMAN) && IsQid(Q_LIBRARY)
    ensures IsQid(Q_ORG) && IsQid(Q_WORK) && IsQid(Q_PLACE)
  {
  }

  /** An entity described with a well-formed subject and at least one well-formed class keeps the invariants. */
  lemma DescribedSound(s: Iri, classes: set<string>, name: string)
    requires WellFormedIri(s)
    requires classes != {} && forall c :: c in classes ==> IsQid(c)
    ensures Sound(Described(s, classes, name))
  {
    var g := Described(s, classes, name);
    var c :| c in classes;
    assert TypeTriple(s, c) in g;
    forall tr | tr in g ensures HasClass(g, tr.subj) {
      assert TypeTriple(s, c) in g;
    }
  }

  /** The four lookup tables the loaders build. */
  datatype Tables = Tables(people: PeopleTables, places: PlaceTables, texts: TextTables, libraries: LibraryTables)

  /** What the loaders guarantee about their tables, and all the emitter relies on. */
  predicate Consistent(t: Tables) {
    && QidValues(t.people.qidById) && LabelValues(t.people.labelById)
    && QidValues(t.places.qidById)
    && (forall k :: k in t.places.namesById ==> NoEmptyName(t.places.namesById[k]))
    && QidValues(t.texts.qidById) && LabelValues(t.texts.titleById)
    && (forall k :: k in t.texts.qidByTitleKey ==> IsQid(t.texts.qidByTitleKey[k]))
    && QidValues(t.libraries.qidById)
    && (forall k :: k in t.libraries.nameById ==> t.libraries.nameById[k] != "")
  }

  /** All four loaders run over their record sets. */
  function LoadAll(ps: seq<PersonEl>, roots: seq<PlaceEl>, ts: seq<TextEl>, ls: seq<LibraryEl>): (t: Tables)
    ensures Consistent(t)
    ensures t.places.qidById.Keys == set n | n in Flatten(roots) && HasPlaceId(n) :: PlaceId(n)
    ensures t.libraries.nameById.Keys == set l | l in ls && HasLibraryId(l) :: LibraryId(l)
  {
    Tables(LoadPeople(ps), LoadPlaces(roots), LoadTexts(ts), LoadLibraries(ls))
  }

  // ---------------------------------------------------------------- people

  /** One pass of the people loop, over the item `(pid, qid)`. */
  function PersonTriples(t: PeopleTables, pid: string, qid: Option<string>): set<Triple> {
    var name := if pid in t.labelById then t.labelById[pid] else "";
    Described(Resolve("person", pid, qid), {Q_HUMAN}, name)
  }

  /** One type statement per registered person, and the label pair when the person has a label. */
  function EmitPeople(t: PeopleTables): set<Triple> {
    UnionOf(t.qidById.Items, (item: (string, Option<string>)) => PersonTriples(t, item.0, item.1))
  }

  // ---------------------------------------------------------------- places

  /** A place's key: its id, else its first name, else `place_` followed by the random token. */
  function PlaceKey(el: PlaceEl, token: string): (key: string)
    ensures key != ""
  {
    var names := PlaceNames(el);
    if PlaceId(el) != "" then PlaceId(el)
    else if names != [] then names[0]
    else "place_" + token
  }

  /** The QID comes from the table by id, so it is the one the last place with this id carried. */
  function PlaceSubject(qids: map<string, Option<string>>, el: PlaceEl, token: string): Iri {
    Resolve("place", PlaceKey(el, token), Lookup(qids, PlaceId(el)))
  }

  function PlaceTriples(qids: map<string, Option<string>>, el: PlaceEl, token: string): set<Triple> {
    var s := PlaceSubject(qids, el, token);
    var names := PlaceNames(el);
    Described(s, {Q_PLACE}, if names != [] then names[0] else "")
    + (set k | 1 <= k < |names| :: Triple(s, AltLabel, Plain(names[k])))
  }

  /**
   * `emit_place` over every root: the same pre-order recursion as the loader's
   * walk, so node `i` of `Flatten(roots)` is the `i`-th call and draws `tokens(i)`.
   */
  function EmitPlaces(qids: map<string, Option<string>>, roots: seq<PlaceEl>, tokens: nat -> string): set<Triple> {
    var nodes := Flatten(roots);
    UnionOf(Positions(|nodes|), (i: nat) => if i < |nodes| then PlaceTriples(qids, nodes[i], tokens(i)) else {})
  }

  // ---------------------------------------------------------------- works

  function WorkTriples(t: TextTables, tid: string, qid: Option<string>): set<Triple> {
    var title := if tid in t.titleById then t.titleById[tid] else "";
    Described(Resolve("work", tid, qid), {Q_WORK}, title)
  }

  function EmitWorks(t: TextTables): set<Triple> {
    UnionOf(t.qidById.Items, (item: (string, Option<string>)) => WorkTriples(t, item.0, item.1))
  }

  // ---------------------------------------------------------------- libraries

  /** Two type statements and, the name being non-empty, the label pair. */
  function LibraryTriples(t: LibraryTables, lid: string, name: string): set<Triple> {
    Described(Resolve("library", lid, Lookup(t.qidById, lid)), {Q_LIBRARY, Q_ORG}, name)
  }

  function EmitLibraries(t: LibraryTables): set<Triple> {
    UnionOf(t.nameById.Items, (item: (string, string)) => LibraryTriples(t, item.0, item.1))
  }

  // ---------------------------------------------------------------- manuscripts

  /** A manuscript's key: its id, else `ms_` followed by the random token. */
  function ManuscriptKey(ms: ManuscriptEl, token: string): (mid: string)
    ensures mid != ""
  {
    if OrEmpty(ms.id) != "" then ms.id.value else "ms_" + token
  }

  /** A manuscript is always a local node, whatever its other fields resolve to. */
  function ManuscriptSubject(ms: ManuscriptEl, token: string): Iri {
    LocalUri("manuscript", ManuscriptKey(ms, token))
  }

  /** The shelf mark of the manuscript's identifier, whitespace-normalised; empty when absent. */
  function Shelf(ms: ManuscriptEl): string {
    NameOf(if ms.identifier.Some? then ms.identifier.value.shelfmark else None)
  }

  /** The `libraryID` of the identifier, `""` standing for an absent one. */
  function CollectionRef(ms: ManuscriptEl): string {
    if ms.identifier.Some? then OrEmpty(ms.identifier.value.libraryId) else ""
  }

  /** The name the library table holds for the referenced library, when there is a reference and an entry. */
  function CollectionName(libs: LibraryTables, ms: ManuscriptEl): Option<string> {
    var lib := CollectionRef(ms);
    if lib != "" && lib in libs.nameById then Some(libs.nameById[lib]) else None
  }

  const EM_DASH_SEPARATOR := " \U{2014} "
  const PLACEHOLDER_PREFIX := "MIRA manuscript "

  /**
   * The manuscript label: `"<library> — <shelf>"` when both exist, else the
   * shelf mark, else a placeholder naming the manuscript key.
   */
  function ManuscriptLabel(libs: LibraryTables, ms: ManuscriptEl, mid: string): (name: string)
    ensures name != ""
    ensures Shelf(ms) != "" && Present(CollectionName(libs, ms)) ==>
      name == CollectionName(libs, ms).value + EM_DASH_SEPARATOR + Shelf(ms)
    ensures Shelf(ms) != "" && !Present(CollectionName(libs, ms)) ==> name == Shelf(ms)
    ensures Shelf(ms) == "" ==> name == PLACEHOLDER_PREFIX + mid
  {
    var shelf := Shelf(ms);
    var lib := CollectionName(libs, ms);
    var name := if shelf != "" then shelf else PLACEHOLDER_PREFIX + mid;
    if shelf != "" && Present(lib) then lib.value + EM_DASH_SEPARATOR + shelf else name
  }

  /** The year text: the later bound when it has text, else the earlier bound. */
  function YearText(ms: ManuscriptEl): Option<string> {
    if OrEmpty(ms.termPost) != "" then ms.termPost else ms.termAnte
  }

  /** P195: the library through the subject rule, when the identifier names one. */
  function CollectionIri(libs: LibraryTables, ms: ManuscriptEl): Option<Iri> {
    var lib := CollectionRef(ms);
    if lib == "" then None else Some(Resolve("library", lib, Lookup(libs.qidById, lib)))
  }

  /** P1071: the origin place through the subject rule, when it carries an id. */
  function OriginIri(places: PlaceTables, ms: ManuscriptEl): Option<Iri> {
    if ms.originPlace.None? then None
    else
      var pid := OrEmpty(ms.originPlace.value.id);
      if pid == "" then None else Some(Resolve("place", pid, Lookup(places.qidById, pid)))
  }

  /** P953: the link's `href`, when present and non-empty. */
  function FullWorkUrl(ms: ManuscriptEl): Option<string> {
    if ms.link.Some? && Present(ms.link.value.href) then ms.link.value.href else None
  }

  /** The title key of a content title, when its normalised text is non-empty. */
  predicate MatchesWork(index: map<string, string>, title: string) {
    Norm(title) != "" && TitleKey(Norm(title)) in index && index[TitleKey(Norm(title))] != ""
  }

  /** P1574: one work per content title whose key is in the title index. */
  function Exemplars(index: map<string, string>, ms: ManuscriptEl): set<string> {
    set t | t in ms.contentTitles && MatchesWork(index, t) :: index[TitleKey(Norm(t))]
  }

  function NodeOf(i: Option<Iri>): Option<Obj> {
    if i.Some? then Some(Node(i.value)) else None
  }

  function TypedOf(lexeme: Option<string>, xsd: XsdType): Option<Obj> {
    if lexeme.Some? then Some(Typed(lexeme.value, xsd)) else None
  }

  /** A conditional property: one triple when the value exists, none otherwise. */
  function Property(s: Iri, p: WdProp, o: Option<Obj>): set<Triple> {
    if o.Some? then {Triple(s, Wdt(p), o.value)} else {}
  }

  /** The value each conditional property takes for a manuscript, or `None` when it is omitted. */
  function PropertyValue(t: Tables, ms: ManuscriptEl, p: WdProp): Option<Obj> {
    match p
    case P217 => if Shelf(ms) != "" then Some(Plain(Shelf(ms))) else None
    case P195 => NodeOf(CollectionIri(t.libraries, ms))
    case P571 => TypedOf(ExtractGYear(YearText(ms)), XsdGYear)
    case P1071 => NodeOf(OriginIri(t.places, ms))
    case P1104 => (var n := FirstInteger(Norm(OrEmpty(ms.folios))); if n.Some? then Some(Integer(n.value)) else None)
    case P2048 => TypedOf(FirstDecimal(Norm(OrEmpty(ms.pageHeight))), XsdDecimal)
    case P2049 => TypedOf(FirstDecimal(Norm(OrEmpty(ms.pageWidth))), XsdDecimal)
    case P953 => TypedOf(FullWorkUrl(ms), XsdAnyUri)
    case _ => None
  }

  /** The single-valued properties, in the order the manuscript block writes them. */
  const SINGLE_VALUED: seq<WdProp> := [P217, P195, P571, P1071, P1104, P2048, P2049, P953]

  /** The value of every single-valued property, in the order of `SINGLE_VALUED`. */
  function PropertyValues(t: Tables, ms: ManuscriptEl): seq<Option<Obj>> {
    seq(|SINGLE_VALUED|, k requires 0 <= k < |SINGLE_VALUED| => PropertyValue(t, ms, SINGLE_VALUED[k]))
  }

  /** The manuscript block's statements, from its subject, label, property values and matched works. */
  function Assemble(s: Iri, name: string, values: seq<Option<Obj>>, works: set<string>): set<Triple> {
    {Triple(s, Wdt(P31), Node(Wd(Q_MANUSCRIPT)))}
    + LabelPair(s, name)
    + (set k, tr | 0 <= k < |values| && k < |SINGLE_VALUED| && tr in Property(s, SINGLE_VALUED[k], values[k]) :: tr)
    + (set q | q in works :: Triple(s, Wdt(P1574), Node(Wd(q))))
  }

  /** Everything the loop body writes for one manuscript. */
  function ManuscriptTriples(t: Tables, ms: ManuscriptEl, token: string): set<Triple> {
    var mid := ManuscriptKey(ms, token);
    Assemble(LocalUri("manuscript", mid), ManuscriptLabel(t.libraries, ms, mid), PropertyValues(t, ms),
             Exemplars(t.texts.qidByTitleKey, ms))
  }

  function EmitManuscripts(t: Tables, mss: seq<ManuscriptEl>, tokens: nat -> string): set<Triple> {
    UnionOf(Positions(|mss|), (j: nat) => if j < |mss| then ManuscriptTriples(t, mss[j], tokens(j)) else {})
  }

  // ---------------------------------------------------------------- soundness of each emitter

  /** A subject minted by `Resolve` from a well-formed QID is well formed. */
  lemma ResolveWellFormed(kind: string, key: string, qid: Option<string>)
    requires qid.Some? ==> IsQid(qid.value)
    ensures WellFormedIri(Resolve(kind, key, qid))
  {
  }

  lemma PeopleSound(t: PeopleTables)
    requires QidValues(t.qidById)
    ensures Sound(EmitPeople(t))
  {
    var f := (item: (string, Option<string>)) => PersonTriples(t, item.0, item.1);
    forall item | item in t.qidById.Items ensures Sound(f(item)) {
      ClassesAreQids();
      var name := if item.0 in t.labelById then t.labelById[item.0] else "";
      ResolveWellFormed("person", item.0, item.1);
      DescribedSound(Resolve("person", item.0, item.1), {Q_HUMAN}, name);
    }
    UnionOfSound(t.qidById.Items, f);
  }

  lemma WorksSound(t: TextTables)
    requires QidValues(t.qidById)
    ensures Sound(EmitWorks(t))
  {
    var f := (item: (string, Option<string>)) => WorkTriples(t, item.0, item.1);
    forall item | item in t.qidById.Items ensures Sound(f(item)) {
      ClassesAreQids();
      var title := if item.0 in t.titleById then t.titleById[item.0] else "";
      ResolveWellFormed("work", item.0, item.1);
      DescribedSound(Resolve("work", item.0, item.1), {Q_WORK}, title);
    }
    UnionOfSound(t.qidById.Items, f);
  }

  lemma LibrariesSound(t: LibraryTables)
    requires QidValues(t.qidById)
    ensures Sound(EmitLibraries(t))
  {
    var f := (item: (string, string)) => LibraryTriples(t, item.0, item.1);
    forall item | item in t.nameById.Items ensures Sound(f(item)) {
      ClassesAreQids();
      ResolveWellFormed("library", item.0, Lookup(t.qidById, item.0));
      DescribedSound(Resolve("library", item.0, Lookup(t.qidById, item.0)), {Q_LIBRARY, Q_ORG}, item.1);
    }
    UnionOfSound(t.nameById.Items, f);
  }

  lemma PlaceTriplesSound(qids: map<string, Option<string>>, el: PlaceEl, token: string)
    requires QidValues(qids)
    ensures Sound(PlaceTriples(qids, el, token))
  {
    var s := PlaceSubject(qids, el, token);
    var names := PlaceNames(el);
    var described := Described(s, {Q_PLACE}, if names != [] then names[0] else "");
    var alt := set k | 1 <= k < |names| :: Triple(s, AltLabel, Plain(names[k]));
    ClassesAreQids();
    ResolveWellFormed("place", PlaceKey(el, token), Lookup(qids, PlaceId(el)));
    DescribedSound(s, {Q_PLACE}, if names != [] then names[0] else "");
    assert TypeTriple(s, Q_PLACE) in described;
    forall tr | tr in alt ensures WellFormedIri(tr.subj) && WellFormedObj(tr.obj) && HasClass(described + alt, tr.subj) {
      assert TypeTriple(s, Q_PLACE) in described + alt;
    }
    forall tr | tr in described ensures HasClass(described + alt, tr.subj) {
      assert TypeTriple(s, Q_PLACE) in described + alt;
    }
  }

  lemma PlacesSound(qids: map<string, Option<string>>, roots: seq<PlaceEl>, tokens: nat -> string)
    requires QidValues(qids)
    ensures Sound(EmitPlaces(qids, roots, tokens))
  {
    var nodes := Flatten(roots);
    var f := (i: nat) => if i < |nodes| then PlaceTriples(qids, nodes[i], tokens(i)) else {};
    forall i | i in Positions(|nodes|) ensures Sound(f(i)) {
      PlaceTriplesSound(qids, nodes[i], tokens(i));
    }
    UnionOfSound(Positions(|nodes|), f);
  }

  /** Every value a conditional property can take is a well-formed object. */
  lemma PropertyValueWellFormed(t: Tables, ms: ManuscriptEl, p: WdProp)
    requires Consistent(t)
    ensures PropertyValue(t, ms, p).Some? ==> WellFormedObj(PropertyValue(t, ms, p).value)
  {
    match p
    case P195 =>
      var lib := CollectionRef(ms);
      ResolveWellFormed("library", lib, Lookup(t.libraries.qidById, lib));
    case P1071 =>
      if ms.originPlace.Some? {
        var pid := OrEmpty(ms.originPlace.value.id);
        ResolveWellFormed("place", pid, Lookup(t.places.qidById, pid));
      }
    case _ =>
  }

  /** The manuscript block keeps the invariants when its ingredients are well formed. */
  lemma AssembleSound(s: Iri, name: string, values: seq<Option<Obj>>, works: set<string>)
    requires WellFormedIri(s) && name != ""
    requires forall k :: 0 <= k < |values| && values[k].Some? ==> WellFormedObj(values[k].value)
    requires forall q :: q in works ==> IsQid(q)
    ensures Sound(Assemble(s, name, values, works))
  {
    var g := Assemble(s, name, values, works);
    var typing := Triple(s, Wdt(P31), Node(Wd(Q_MANUSCRIPT)));
    var single := set k, tr | 0 <= k < |values| && k < |SINGLE_VALUED| && tr in Property(s, SINGLE_VALUED[k], values[k]) :: tr;
    ClassesAreQids();
    forall tr | tr in single ensures tr.subj == s && tr.pred.Wdt? && WellFormedObj(tr.obj) {
      var k :| 0 <= k < |values| && k < |SINGLE_VALUED| && tr in Property(s, SINGLE_VALUED[k], values[k]);
    }
    assert typing in g;
    forall tr | tr in g ensures tr.subj == s && WellFormedIri(tr.subj) && WellFormedObj(tr.obj) && HasClass(g, tr.subj) {
    }
    assert LabelsPaired(g);
  }

  lemma PropertyValuesWellFormed(t: Tables, ms: ManuscriptEl)
    requires Consistent(t)
    ensures forall k :: 0 <= k < |PropertyValues(t, ms)| && PropertyValues(t, ms)[k].Some? ==>
      WellFormedObj(PropertyValues(t, ms)[k].value)
  {
    forall k | 0 <= k < |SINGLE_VALUED| {
      PropertyValueWellFormed(t, ms, SINGLE_VALUED[k]);
    }
  }

  lemma ManuscriptTriplesSound(t: Tables, ms: ManuscriptEl, token: string)
    requires Consistent(t)
    ensures Sound(ManuscriptTriples(t, ms, token))
  {
    var mid := ManuscriptKey(ms, token);
    PropertyValuesWellFormed(t, ms);
    AssembleSound(LocalUri("manuscript", mid), ManuscriptLabel(t.libraries, ms, mid), PropertyValues(t, ms),
                  Exemplars(t.texts.qidByTitleKey, ms));
  }

  lemma ManuscriptsSound(t: Tables, mss: seq<ManuscriptEl>, tokens: nat -> string)
    requires Consistent(t)
    ensures Sound(EmitManuscripts(t, mss, tokens))
  {
    var f := (j: nat) => if j < |mss| then ManuscriptTriples(t, mss[j], tokens(j)) else {};
    forall j | j in Positions(|mss|) ensures Sound(f(j)) {
      ManuscriptTriplesSound(t, mss[j], tokens(j));
    }
    UnionOfSound(Positions(|mss|), f);
  }

  // ---------------------------------------------------------------- the whole run

  /**
   * The graph `main` serialises: the four authority files loaded, then people,
   * places, works, libraries and manuscripts emitted. The `uuid` fallbacks are
   * the tokens: `placeTokens(i)` for the `i`-th place in pre-order,
   * `msTokens(j)` for the `j`-th manuscript.
   */
  function Convert(
    ps: seq<PersonEl>, roots: seq<PlaceEl>, ts: seq<TextEl>, ls: seq<LibraryEl>, mss: seq<ManuscriptEl>,
    placeTokens: nat -> string, msTokens: nat -> string): (g: set<Triple>)
    ensures Sound(g)
  {
    var t := LoadAll(ps, roots, ts, ls);
    var people, places := EmitPeople(t.people), EmitPlaces(t.places.qidById, roots, placeTokens);
    var works, libraries := EmitWorks(t.texts), EmitLibraries(t.libraries);
    var manuscripts := EmitManuscripts(t, mss, msTokens);
    PeopleSound(t.people);
    PlacesSound(t.places.qidById, roots, placeTokens);
    WorksSound(t.texts);
    LibrariesSound(t.libraries);
    ManuscriptsSound(t, mss, msTokens);
    UnionSound(people, places);
    UnionSound(people + places, works);
    UnionSound(people + places + works, libraries);
    UnionSound(people + places + works + libraries, manuscripts);
    people + places + works + libraries + manuscripts
  }
}
