/**
 * The parts of the XML record sets the converter reads, as immutable values.
 * An `Option` field is an attribute or child element that may be missing;
 * a `seq` field is every matching child, in document order.
 */
module Records {
  import opened Wrappers

  /** `<person id>` in people.xml: `firstNames`, `surname` and the text of `xref[@type='wikidata']`. */
  datatype PersonEl = PersonEl(
    id: Option<string>,
    firstNames: Option<string>,
    surname: Option<string>,
    wikidataXref: Option<string>)

  /** `<place id>` in places.xml: its `name` children's texts, its xref, and its nested `place` children. */
  datatype PlaceEl = PlaceEl(
    id: Option<string>,
    names: seq<Option<string>>,
    wikidataXref: Option<string>,
    children: seq<PlaceEl>)

  /** `<text id>` in texts.xml. */
  datatype TextEl = TextEl(
    id: Option<string>,
    title: Option<string>,
    wikidataXref: Option<string>)

  /** `<library id>` in libraries.xml. */
  datatype LibraryEl = LibraryEl(
    id: Option<string>,
    name: Option<string>,
    wikidataXref: Option<string>)

  /** `<identifier libraryID>` of a manuscript, with its `shelfmark` child. */
  datatype IdentifierEl = IdentifierEl(libraryId: Option<string>, shelfmark: Option<string>)

  /** `history/origin/place` of a manuscript: a reference by id. */
  datatype OriginPlaceEl = OriginPlaceEl(id: Option<string>)

  /** `refs/link` of a manuscript. */
  datatype LinkEl = LinkEl(href: Option<string>)

  /**
   * `<manuscript id>` in the compiled manuscripts file. `contentTitles` holds, for
   * every `description/contents/msItem/title`, the concatenation of its text nodes.
   */
  datatype ManuscriptEl = ManuscriptEl(
    id: Option<string>,
    identifier: Option<IdentifierEl>,
    termPost: Option<string>,
    termAnte: Option<string>,
    originPlace: Option<OriginPlaceEl>,
    folios: Option<string>,
    pageHeight: Option<string>,
    pageWidth: Option<string>,
    link: Option<LinkEl>,
    contentTitles: seq<string>)

  /** The `id` attribute as the loaders read it: an absent attribute reads as the empty string. */
  function PersonId(p: PersonEl): string { OrEmpty(p.id) }
  function PlaceId(p: PlaceEl): string { OrEmpty(p.id) }
  function TextId(t: TextEl): string { OrEmpty(t.id) }
  function LibraryId(l: LibraryEl): string { OrEmpty(l.id) }

  /** Every place of a forest, each node before its children: the order of the recursive walks. */
  function Flatten(els: seq<PlaceEl>): (nodes: seq<PlaceEl>)
    ensures |els| > 0 ==> |nodes| > 0 && nodes[0] == els[0]
    decreases els
  {
    if els == [] then [] else [els[0]] + Flatten(els[0].children) + Flatten(els[1..])
  }

  /** `n` is `t` or a place nested in it at any depth. */
  predicate Descends(n: PlaceEl, t: PlaceEl)
    decreases t
  {
    n == t || exists c :: c in t.children && Descends(n, c)
  }

  /** The pre-order list holds exactly the nodes of the forest, at every depth. */
  lemma {:induction false} FlattenIsForest(els: seq<PlaceEl>, n: PlaceEl)
    ensures n in Flatten(els) <==> exists r :: r in els && Descends(n, r)
    decreases els
  {
    if els != [] {
      var head, rest := els[0], els[1..];
      assert Flatten(els) == [head] + Flatten(head.children) + Flatten(rest);
      FlattenIsForest(head.children, n);
      FlattenIsForest(rest, n);
      if n in Flatten(els) {
        if n == head {
          assert Descends(n, head);
        } else if n in Flatten(head.children) {
          var c :| c in head.children && Descends(n, c);
          assert Descends(n, head);
        } else {
          assert n in Flatten(rest);
          var r :| r in rest && Descends(n, r);
          assert r in els;
        }
      }
      if exists r :: r in els && Descends(n, r) {
        var r :| r in els && Descends(n, r);
        if r == head {
          if n != head {
            var c :| c in head.children && Descends(n, c);
            assert n in Flatten(head.children);
          }
        } else {
          assert r in rest;
          assert n in Flatten(rest);
        }
      }
    }
  }
}
