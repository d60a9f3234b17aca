/**
 * The authority loaders `load_people`, `load_places`, `load_texts` and
 * `load_libraries` (tools/convert_to_rdf/convert_to_rdf.py lines 167-237),
 * as pure functions from parsed record sets to lookup tables.
 */
module Authorities {
  import opened Wrappers
  import opened Text
  import opened Ids
  import opened Titles
  import opened Records
  import opened Index

  /** Every resolved QID in a table is a well-formed Wikidata item id. */
  predicate QidValues(m: map<string, Option<string>>) {
    forall k :: k in m && m[k].Some? ==> IsQid(m[k].value)
  }

  /** Every label in a table is non-empty and whitespace-normalised. */
  predicate LabelValues(m: map<string, string>) {
    forall k :: k in m ==> m[k] != "" && IsNormal(m[k])
  }

  // ---------------------------------------------------------------- people

  /**
   * A person's label: the non-empty parts among first names and surname,
   * joined by a space and normalised. When both parts have visible text the
   * label is their normal forms with exactly one space between them.
   */
  function PersonLabel(p: PersonEl): (name: string)
    ensures IsNormal(name)
    ensures Keep(name, IsSpace) == Keep(OrEmpty(p.firstNames), IsSpace) + Keep(OrEmpty(p.surname), IsSpace)
    ensures NameOf(p.firstNames) != "" && NameOf(p.surname) != "" ==>
      name == NameOf(p.firstNames) + " " + NameOf(p.surname)
    ensures NameOf(p.firstNames) == "" ==> name == NameOf(p.surname)
    ensures NameOf(p.surname) == "" ==> name == NameOf(p.firstNames)
  {
    var first, last := OrEmpty(p.firstNames), OrEmpty(p.surname);
    JoinedKeeps(first, last);
    JoinedNorm(first, last);
    Norm(Joined(first, last))
  }

  /** The non-empty parts joined by a single space. */
  function Joined(first: string, last: string): string {
    if first != "" && last != "" then first + " " + last else first + last
  }

  /** How the joined parts normalise, by which of them has visible text. */
  lemma JoinedNorm(first: string, last: string)
    ensures Norm(first) != "" && Norm(last) != "" ==> Norm(Joined(first, last)) == Norm(first) + " " + Norm(last)
    ensures Norm(first) == "" ==> Norm(Joined(first, last)) == Norm(last)
    ensures Norm(last) == "" ==> Norm(Joined(first, last)) == Norm(first)
  {
    if first != "" && last != "" {
      NormEmpty(first);
      NormEmpty(last);
      if Norm(first) != "" && Norm(last) != "" {
        NormJoin(first, " ", last);
      }
      if Norm(first) == "" {
        BlankFirst(first, last);
      }
      if Norm(last) == "" {
        BlankLast(first, last);
      }
    } else if first == "" {
      assert Joined(first, last) == last;
    } else {
      assert Joined(first, last) == first;
    }
  }

  lemma BlankFirst(first: string, last: string)
    requires All(first, IsSpace)
    ensures Norm(first + " " + last) == Norm(last)
  {
    var w := first + " ";
    AllAppend(first, " ", IsSpace);
    NormOuter(w, last, "");
    assert w + last + "" == first + " " + last;
  }

  lemma BlankLast(first: string, last: string)
    requires All(last, IsSpace)
    ensures Norm(first + " " + last) == Norm(first)
  {
    var w := " " + last;
    AllAppend(" ", last, IsSpace);
    NormOuter("", first, w);
    assert "" + first == first;
    ConcatAssoc(first, " ", last);
  }

  lemma JoinedKeeps(first: string, last: string)
    ensures Keep(Joined(first, last), IsSpace) == Keep(first, IsSpace) + Keep(last, IsSpace)
  {
    KeepAppend(first, last, IsSpace);
    KeepAppend(first + " ", last, IsSpace);
    KeepAppend(first, " ", IsSpace);
  }

  function PersonQid(p: PersonEl): Option<string> { ExtractQid(p.wikidataXref) }

  predicate Always<T>(x: T) { true }

  predicate HasLabel(p: PersonEl) { PersonLabel(p) != "" }

  datatype PeopleTables = PeopleTables(qidById: map<string, Option<string>>, labelById: map<string, string>)

  /**
   * `load_people`: every person is registered under its id, and one without an
   * id under the empty string; a later person with the same id overwrites the
   * QID, but only a non-empty label overwrites the label.
   */
  function LoadPeople(ps: seq<PersonEl>): (t: PeopleTables)
    ensures t.qidById.Keys == set p | p in ps :: PersonId(p)
    ensures t.labelById.Keys == set p | p in ps && HasLabel(p) :: PersonId(p)
    ensures QidValues(t.qidById)
    ensures LabelValues(t.labelById)
    ensures forall k, i :: LastWriteAt(ps, Always, PersonId, k, i) ==> t.qidById[k] == PersonQid(ps[i])
    ensures forall k, i :: LastWriteAt(ps, HasLabel, PersonId, k, i) ==> t.labelById[k] == PersonLabel(ps[i])
  {
    var qids := IndexBy(ps, Always, PersonId, PersonQid);
    var labels := IndexBy(ps, HasLabel, PersonId, PersonLabel);
    forall k | k in qids ensures qids[k].Some? ==> IsQid(qids[k].value) {
      var i :| WritesAt(ps, Always, PersonId, k, i);
      LastWriteExists(ps, Always, PersonId, k, i);
    }
    forall k | k in labels ensures labels[k] != "" && IsNormal(labels[k]) {
      var i :| WritesAt(ps, HasLabel, PersonId, k, i);
      LastWriteExists(ps, HasLabel, PersonId, k, i);
    }
    KeysOfIndex(ps, Always, PersonId, PersonQid);
    KeysOfIndex(ps, HasLabel, PersonId, PersonLabel);
    PeopleTables(qids, labels)
  }

  /** The keys of an index, as a set comprehension over the records. */
  lemma KeysOfIndex<T, V>(xs: seq<T>, keep: T -> bool, key: T -> string, val: T -> V)
    ensures IndexBy(xs, keep, key, val).Keys == set x | x in xs && keep(x) :: key(x)
  {
    var m := IndexBy(xs, keep, key, val);
    forall k | k in m ensures k in set x | x in xs && keep(x) :: key(x) {
      var i :| WritesAt(xs, keep, key, k, i);
      assert xs[i] in xs;
    }
    forall k | k in set x | x in xs && keep(x) :: key(x) ensures k in m {
      var x :| x in xs && keep(x) && key(x) == k;
      var i :| 0 <= i < |xs| && xs[i] == x;
      assert WritesAt(xs, keep, key, k, i);
    }
  }

  // ---------------------------------------------------------------- places

  /** A `<name>` element's text after whitespace normalisation; empty when the element has no text. */
  function NameOf(n: Option<string>): string { Norm(OrEmpty(n)) }

  /** The normalised texts of a place's names, in document order, skipping those that normalise to nothing. */
  function CleanNames(names: seq<Option<string>>): (r: seq<string>)
    ensures |r| <= |names|
    ensures forall i :: 0 <= i < |r| ==> r[i] != "" && IsNormal(r[i])
  {
    if names == [] then []
    else
      var n := NameOf(names[0]);
      if n != "" then [n] + CleanNames(names[1..]) else CleanNames(names[1..])
  }

  /** The cleaned names are exactly the non-empty cleaned texts, in document order. */
  lemma {:induction false} CleanNamesContents(names: seq<Option<string>>, x: string)
    ensures x in CleanNames(names) <==> x != "" && exists o :: o in names && NameOf(o) == x
  {
    if names != [] {
      CleanNamesContents(names[1..], x);
      assert forall o :: o in names <==> o == names[0] || o in names[1..];
    }
  }

  /** The first cleaned name comes from the first name element whose text survives cleaning. */
  lemma {:induction false} CleanNamesHead(names: seq<Option<string>>, i: nat)
    requires i < |names| && NameOf(names[i]) != ""
    requires forall j :: 0 <= j < i ==> NameOf(names[j]) == ""
    ensures CleanNames(names) != [] && CleanNames(names)[0] == NameOf(names[i])
  {
    if i > 0 {
      var rest := names[1..];
      assert NameOf(names[0]) == "";
      assert rest[i - 1] == names[i];
      forall j | 0 <= j < i - 1 ensures NameOf(rest[j]) == "" {
        assert rest[j] == names[j + 1];
      }
      CleanNamesHead(rest, i - 1);
      CleanNamesSkip(names);
    } else {
      CleanNamesTake(names);
    }
  }

  lemma CleanNamesSkip(names: seq<Option<string>>)
    requires names != [] && NameOf(names[0]) == ""
    ensures CleanNames(names) == CleanNames(names[1..])
  {
  }

  lemma CleanNamesTake(names: seq<Option<string>>)
    requires names != [] && NameOf(names[0]) != ""
    ensures CleanNames(names) == [NameOf(names[0])] + CleanNames(names[1..])
  {
  }

  function PlaceQid(p: PlaceEl): Option<string> { ExtractQid(p.wikidataXref) }

  function PlaceNames(p: PlaceEl): seq<string> { CleanNames(p.names) }

  predicate HasPlaceId(p: PlaceEl) { PlaceId(p) != "" }

  datatype PlaceTables = PlaceTables(qidById: map<string, Option<string>>, namesById: map<string, seq<string>>)

  /** One step of `walk`: register the node only when its id is non-empty. */
  function Register(t: PlaceTables, el: PlaceEl): PlaceTables {
    if HasPlaceId(el) then
      PlaceTables(t.qidById[PlaceId(el) := PlaceQid(el)], t.namesById[PlaceId(el) := PlaceNames(el)])
    else t
  }

  /** The loader's recursive walk: register the place, then always descend into its nested places. */
  function Walk(el: PlaceEl, t: PlaceTables): PlaceTables
    decreases el
  {
    WalkAll(el.children, Register(t, el))
  }

  function WalkAll(els: seq<PlaceEl>, t: PlaceTables): PlaceTables
    decreases els
  {
    if els == [] then t else WalkAll(els[1..], Walk(els[0], t))
  }

  /** Registering a list of nodes one after the other. */
  function RegisterAll(t: PlaceTables, nodes: seq<PlaceEl>): PlaceTables {
    PlaceTables(
      Assign(t.qidById, nodes, HasPlaceId, PlaceId, PlaceQid),
      Assign(t.namesById, nodes, HasPlaceId, PlaceId, PlaceNames))
  }

  lemma RegisterAllAppend(t: PlaceTables, a: seq<PlaceEl>, b: seq<PlaceEl>)
    ensures RegisterAll(t, a + b) == RegisterAll(RegisterAll(t, a), b)
  {
    AssignAppend(t.qidById, a, b, HasPlaceId, PlaceId, PlaceQid);
    AssignAppend(t.namesById, a, b, HasPlaceId, PlaceId, PlaceNames);
  }

  lemma RegisterAllEmpty(t: PlaceTables)
    ensures RegisterAll(t, []) == t
  {
  }

  lemma RegisterAllOne(t: PlaceTables, el: PlaceEl)
    ensures RegisterAll(t, [el]) == Register(t, el)
  {
    var one := [el];
    assert one[..|one| - 1] == [];
    assert one[|one| - 1] == el;
    assert Assign(t.qidById, one, HasPlaceId, PlaceId, PlaceQid)
        == (if HasPlaceId(el) then t.qidById[PlaceId(el) := PlaceQid(el)] else t.qidById);
    assert Assign(t.namesById, one, HasPlaceId, PlaceId, PlaceNames)
        == (if HasPlaceId(el) then t.namesById[PlaceId(el) := PlaceNames(el)] else t.namesById);
  }

  lemma FlattenCons(els: seq<PlaceEl>)
    requires els != []
    ensures Flatten([els[0]]) == [els[0]] + Flatten(els[0].children)
    ensures Flatten(els) == Flatten([els[0]]) + Flatten(els[1..])
  {
    var one := [els[0]];
    assert one[1..] == [];
    assert Flatten(one) == [els[0]] + Flatten(els[0].children) + Flatten([]);
  }

  /** The recursive walk registers the nodes in pre-order: it is the loop over `Flatten`. */
  lemma {:induction false} WalkIsPreorder(el: PlaceEl, t: PlaceTables)
    ensures Walk(el, t) == RegisterAll(t, Flatten([el]))
    decreases el, 1
  {
    FlattenCons([el]);
    WalkAllIsPreorder(el.children, Register(t, el));
    RegisterAllOne(t, el);
    RegisterAllAppend(t, [el], Flatten(el.children));
  }

  lemma {:induction false} WalkAllIsPreorder(els: seq<PlaceEl>, t: PlaceTables)
    ensures WalkAll(els, t) == RegisterAll(t, Flatten(els))
    decreases els, 0
  {
    if els == [] {
      RegisterAllEmpty(t);
    } else {
      WalkIsPreorder(els[0], t);
      WalkAllIsPreorder(els[1..], Walk(els[0], t));
      FlattenCons(els);
      RegisterAllAppend(t, Flatten([els[0]]), Flatten(els[1..]));
    }
  }

  /** A QID table entry, absent or well formed. */
  predicate QidOrNone(o: Option<string>) { o.Some? ==> IsQid(o.value) }

  /** A list of names, none of them empty. */
  predicate NoEmptyName(names: seq<string>) { forall i :: 0 <= i < |names| ==> names[i] != "" }

  /**
   * `load_places`: exactly the places, at any depth, whose id is non-empty are
   * registered; an unregistered parent does not hide its children.
   */
  function LoadPlaces(roots: seq<PlaceEl>): (t: PlaceTables)
    ensures t.qidById.Keys == set n | n in Flatten(roots) && HasPlaceId(n) :: PlaceId(n)
    ensures t.namesById.Keys == t.qidById.Keys
    ensures "" !in t.qidById
    ensures QidValues(t.qidById)
    ensures forall k :: k in t.namesById ==> NoEmptyName(t.namesById[k])
    ensures forall k, i :: LastWriteAt(Flatten(roots), HasPlaceId, PlaceId, k, i) ==>
      t.qidById[k] == PlaceQid(Flatten(roots)[i]) && t.namesById[k] == PlaceNames(Flatten(roots)[i])
  {
    var empty := PlaceTables(map[], map[]);
    var nodes := Flatten(roots);
    WalkAllIsPreorder(roots, empty);
    KeysOfIndex(nodes, HasPlaceId, PlaceId, PlaceQid);
    KeysOfIndex(nodes, HasPlaceId, PlaceId, PlaceNames);
    IndexValues(nodes, HasPlaceId, PlaceId, PlaceQid, QidOrNone);
    IndexValues(nodes, HasPlaceId, PlaceId, PlaceNames, NoEmptyName);
    WalkAll(roots, empty)
  }

  /** A place nested at any depth is registered whenever its own id is non-empty. */
  lemma PlacesRegisterEveryNode(roots: seq<PlaceEl>, r: PlaceEl, n: PlaceEl)
    requires r in roots && Descends(n, r) && HasPlaceId(n)
    ensures PlaceId(n) in LoadPlaces(roots).qidById
    ensures PlaceId(n) in LoadPlaces(roots).namesById
  {
    FlattenIsForest(roots, n);
  }

  /** Nothing outside the forest is registered. */
  lemma PlacesRegisterOnlyForestNodes(roots: seq<PlaceEl>, k: string)
    requires k in LoadPlaces(roots).qidById
    ensures exists r, n :: r in roots && Descends(n, r) && HasPlaceId(n) && PlaceId(n) == k
  {
    var n :| n in Flatten(roots) && HasPlaceId(n) && PlaceId(n) == k;
    FlattenIsForest(roots, n);
  }

  // ---------------------------------------------------------------- texts

  function TextTitle(t: TextEl): string { Norm(OrEmpty(t.title)) }

  function TextQid(t: TextEl): Option<string> { ExtractQid(t.wikidataXref) }

  predicate HasTitle(t: TextEl) { TextTitle(t) != "" }

  /** A text that enters the title index: it has both a title and a QID. */
  predicate Indexable(t: TextEl) { HasTitle(t) && TextQid(t).Some? }

  function TitleKeyOf(t: TextEl): string { TitleKey(TextTitle(t)) }

  function IndexedQid(t: TextEl): string { TextQid(t).GetOr("") }

  datatype TextTables = TextTables(
    qidById: map<string, Option<string>>,
    titleById: map<string, string>,
    qidByTitleKey: map<string, string>)

  /** `text_qid_by_id`: every text under its id, or the empty string without one, later ones overwriting. */
  function TextQids(ts: seq<TextEl>): (m: map<string, Option<string>>)
    ensures m.Keys == set t | t in ts :: TextId(t)
    ensures QidValues(m)
    ensures forall k, i :: LastWriteAt(ts, Always, TextId, k, i) ==> m[k] == TextQid(ts[i])
  {
    KeysOfIndex(ts, Always, TextId, TextQid);
    IndexValues(ts, Always, TextId, TextQid, QidOrNone);
    IndexBy(ts, Always, TextId, TextQid)
  }

  /** `text_title_by_id`: only texts whose normalised title is non-empty. */
  function TextTitles(ts: seq<TextEl>): (m: map<string, string>)
    ensures m.Keys == set t | t in ts && HasTitle(t) :: TextId(t)
    ensures LabelValues(m)
    ensures forall k, i :: LastWriteAt(ts, HasTitle, TextId, k, i) ==> m[k] == TextTitle(ts[i])
  {
    KeysOfIndex(ts, HasTitle, TextId, TextTitle);
    IndexValues(ts, HasTitle, TextId, TextTitle, NonEmptyNormal);
    IndexBy(ts, HasTitle, TextId, TextTitle)
  }

  predicate NonEmptyNormal(s: string) { s != "" && IsNormal(s) }

  /**
   * `text_qid_by_title_norm`: texts with both a title and a QID, keyed by the
   * title key; a later text with the same key overwrites an earlier one.
   */
  function TitleIndex(ts: seq<TextEl>): (m: map<string, string>)
    ensures m.Keys == set t | t in ts && Indexable(t) :: TitleKeyOf(t)
    ensures forall k :: k in m ==> IsTitleKey(k) && IsQid(m[k])
    ensures forall k, i :: LastWriteAt(ts, Indexable, TitleKeyOf, k, i) ==> m[k] == TextQid(ts[i]).value
  {
    KeysOfIndex(ts, Indexable, TitleKeyOf, IndexedQid);
    IndexValues(ts, Indexable, TitleKeyOf, IndexedQid, IsQid);
    IndexBy(ts, Indexable, TitleKeyOf, IndexedQid)
  }

  /** Every key of the title index was written last by some text, whose QID it holds. */
  lemma TitleIndexSource(ts: seq<TextEl>, key: string)
    requires key in TitleIndex(ts)
    ensures exists i :: LastWriteAt(ts, Indexable, TitleKeyOf, key, i) && TitleIndex(ts)[key] == TextQid(ts[i]).value
  {
    var x :| x in ts && Indexable(x) && TitleKeyOf(x) == key;
    var w :| 0 <= w < |ts| && ts[w] == x;
    assert WritesAt(ts, Indexable, TitleKeyOf, key, w);
    LastWriteExists(ts, Indexable, TitleKeyOf, key, w);
  }

  /** `load_texts`: the three tables built in one pass. */
  function LoadTexts(ts: seq<TextEl>): TextTables {
    TextTables(TextQids(ts), TextTitles(ts), TitleIndex(ts))
  }

  // ---------------------------------------------------------------- libraries

  /** A library's name: its normalised name, falling back to its id when that is empty. */
  function LibraryName(l: LibraryEl): (name: string)
    ensures LibraryId(l) != "" ==> name != ""
    ensures name == LibraryId(l) || NonEmptyNormal(name)
    ensures NameOf(l.name) != "" ==> name == NameOf(l.name)
    ensures NameOf(l.name) == "" ==> name == LibraryId(l)
  {
    var n := NameOf(l.name);
    if n != "" then n else LibraryId(l)
  }

  function LibraryQid(l: LibraryEl): Option<string> { ExtractQid(l.wikidataXref) }

  predicate HasLibraryId(l: LibraryEl) { LibraryId(l) != "" }

  predicate NonEmpty(s: string) { s != "" }

  datatype LibraryTables = LibraryTables(nameById: map<string, string>, qidById: map<string, Option<string>>)

  /** `load_libraries`: only libraries with a non-empty id; a library's name is never empty. */
  function LoadLibraries(ls: seq<LibraryEl>): (t: LibraryTables)
    ensures t.nameById.Keys == set l | l in ls && HasLibraryId(l) :: LibraryId(l)
    ensures t.qidById.Keys == t.nameById.Keys
    ensures "" !in t.nameById
    ensures forall k :: k in t.nameById ==> t.nameById[k] != ""
    ensures QidValues(t.qidById)
    ensures forall k, i :: LastWriteAt(ls, HasLibraryId, LibraryId, k, i) ==>
      t.nameById[k] == LibraryName(ls[i]) && t.qidById[k] == LibraryQid(ls[i])
  {
    KeysOfIndex(ls, HasLibraryId, LibraryId, LibraryName);
    KeysOfIndex(ls, HasLibraryId, LibraryId, LibraryQid);
    IndexValues(ls, HasLibraryId, LibraryId, LibraryName, NonEmpty);
    IndexValues(ls, HasLibraryId, LibraryId, LibraryQid, QidOrNone);
    LibraryTables(IndexBy(ls, HasLibraryId, LibraryId, LibraryName), IndexBy(ls, HasLibraryId, LibraryId, LibraryQid))
  }
}
