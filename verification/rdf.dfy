/**
 * The RDF the converter writes: Wikidata-aligned triples over `wd:`/`mira:`
 * nodes, and the output graph as a set (rdflib's `Graph` keeps no duplicates).
 */
module Rdf {
  import opened Ids
  import opened Numbers

  /** The Wikidata classes the converter asserts (tools/convert_to_rdf/convert_to_rdf.py lines 95-100). */
  const Q_MANUSCRIPT := "Q87167"
  const Q_HUMAN := "Q5"
  const Q_LIBRARY := "Q7075"
  const Q_ORG := "Q43229"
  const Q_WORK := "Q7725634"
  const Q_PLACE := "Q618123"

  /** The `wdt:` direct properties a manuscript can carry. */
  datatype WdProp =
    | P31    // instance of
    | P217   // inventory number (shelf mark)
    | P195   // collection
    | P571   // inception
    | P1071  // location of creation
    | P1104  // number of pages
    | P2048  // height
    | P2049  // width
    | P953   // full work available at URL
    | P1574  // exemplar of

  /** `rdf:type`, `rdfs:label`, `skos:prefLabel`, `skos:altLabel` and the `wdt:` properties. */
  datatype Pred = RdfType | RdfsLabel | PrefLabel | AltLabel | Wdt(prop: WdProp)

  datatype XsdType = XsdGYear | XsdDecimal | XsdAnyUri

  /** An object: a node, a plain literal, a typed literal kept in lexical form, or an `xsd:integer`. */
  datatype Obj = Node(iri: Iri) | Plain(text: string) | Typed(lexeme: string, xsd: XsdType) | Integer(value: nat)

  datatype Triple = Triple(subj: Iri, pred: Pred, obj: Obj)

  /** A `wd:` node names a QID; a `mira:` node has a non-empty sanitised key. */
  predicate WellFormedIri(i: Iri) {
    match i
    case Wd(q) => IsQid(q)
    case Local(_, key) => IsSafeKey(key)
  }

  /** No literal is empty, and typed literals are lexically valid for their type. */
  predicate WellFormedObj(o: Obj) {
    match o
    case Node(i) => WellFormedIri(i)
    case Plain(text) => text != ""
    case Typed(lexeme, XsdGYear) => IsGYear(lexeme)
    case Typed(lexeme, XsdDecimal) => IsDecimalLexeme(lexeme)
    case Typed(lexeme, XsdAnyUri) => lexeme != ""
    case Integer(_) => true
  }

  predicate WellFormed(g: set<Triple>) {
    forall tr :: tr in g ==> WellFormedIri(tr.subj) && WellFormedObj(tr.obj)
  }

  /** `rdfs:label` and `skos:prefLabel` are always written together, with the same text. */
  predicate LabelsPaired(g: set<Triple>) {
    && (forall tr :: tr in g && tr.pred == RdfsLabel ==> Triple(tr.subj, PrefLabel, tr.obj) in g)
    && (forall tr :: tr in g && tr.pred == PrefLabel ==> Triple(tr.subj, RdfsLabel, tr.obj) in g)
  }

  /** `s` is declared an instance of some class: by `rdf:type`, or by `wdt:P31` for manuscripts. */
  predicate HasClass(g: set<Triple>, s: Iri) {
    exists tr :: tr in g && tr.subj == s && (tr.pred == RdfType || tr.pred == Wdt(P31)) && tr.obj.Node?
  }

  /** Nothing is said about a subject without also saying what it is. */
  predicate EverySubjectTyped(g: set<Triple>) {
    forall tr :: tr in g ==> HasClass(g, tr.subj)
  }

  /** The three invariants every emitted graph keeps. */
  predicate Sound(g: set<Triple>) {
    WellFormed(g) && LabelsPaired(g) && EverySubjectTyped(g)
  }

  /** The triples emitted for every key of a loop, put together. */
  function UnionOf<K>(keys: set<K>, f: K -> set<Triple>): set<Triple> {
    set k, tr | k in keys && tr in f(k) :: tr
  }

  lemma UnionOfMember<K>(keys: set<K>, f: K -> set<Triple>, k: K, tr: Triple)
    requires k in keys && tr in f(k)
    ensures tr in UnionOf(keys, f)
  {
  }

  /** Two loops that emit the same triples for every key emit the same graph. */
  lemma UnionOfCongruent<K>(keys: set<K>, f: K -> set<Triple>, h: K -> set<Triple>)
    requires forall k :: k in keys ==> f(k) == h(k)
    ensures UnionOf(keys, f) == UnionOf(keys, h)
  {
  }

  /** The positions `0 .. n - 1` of a sequence of length `n`. */
  function Positions(n: nat): (ps: set<nat>)
    ensures forall i: nat :: i in ps <==> i < n
  {
    if n == 0 then {} else Positions(n - 1) + {n - 1}
  }

  /** A subject typed in part of a graph is typed in the whole. */
  lemma HasClassGrows(a: set<Triple>, b: set<Triple>, s: Iri)
    requires a <= b && HasClass(a, s)
    ensures HasClass(b, s)
  {
    var w :| w in a && w.subj == s && (w.pred == RdfType || w.pred == Wdt(P31)) && w.obj.Node?;
    assert w in b;
  }

  /** The invariants are kept by a union of sound parts. */
  lemma UnionOfSound<K>(keys: set<K>, f: K -> set<Triple>)
    requires forall k :: k in keys ==> Sound(f(k))
    ensures Sound(UnionOf(keys, f))
  {
    UnionOfWellFormed(keys, f);
    UnionOfPaired(keys, f);
    UnionOfTyped(keys, f);
  }

  lemma UnionOfWellFormed<K>(keys: set<K>, f: K -> set<Triple>)
    requires forall k :: k in keys ==> WellFormed(f(k))
    ensures WellFormed(UnionOf(keys, f))
  {
    var g := UnionOf(keys, f);
    forall tr | tr in g ensures WellFormedIri(tr.subj) && WellFormedObj(tr.obj) {
      var k :| k in keys && tr in f(k);
    }
  }

  lemma UnionOfPaired<K>(keys: set<K>, f: K -> set<Triple>)
    requires forall k :: k in keys ==> LabelsPaired(f(k))
    ensures LabelsPaired(UnionOf(keys, f))
  {
    var g := UnionOf(keys, f);
    forall tr | tr in g && tr.pred == RdfsLabel ensures Triple(tr.subj, PrefLabel, tr.obj) in g {
      var k :| k in keys && tr in f(k);
    }
    forall tr | tr in g && tr.pred == PrefLabel ensures Triple(tr.subj, RdfsLabel, tr.obj) in g {
      var k :| k in keys && tr in f(k);
    }
  }

  lemma UnionOfTyped<K>(keys: set<K>, f: K -> set<Triple>)
    requires forall k :: k in keys ==> EverySubjectTyped(f(k))
    ensures EverySubjectTyped(UnionOf(keys, f))
  {
    var g := UnionOf(keys, f);
    forall tr | tr in g ensures HasClass(g, tr.subj) {
      var k :| k in keys && tr in f(k);
      var w :| w in f(k) && w.subj == tr.subj && (w.pred == RdfType || w.pred == Wdt(P31)) && w.obj.Node?;
      assert w in g;
    }
  }

  /** The invariants are kept by a union of two sound graphs. */
  lemma UnionSound(a: set<Triple>, b: set<Triple>)
    requires Sound(a) && Sound(b)
    ensures Sound(a + b)
  {
    forall tr | tr in a + b ensures HasClass(a + b, tr.subj) {
      if tr in a {
        HasClassGrows(a, a + b, tr.subj);
      } else {
        HasClassGrows(b, a + b, tr.subj);
      }
    }
  }
}
