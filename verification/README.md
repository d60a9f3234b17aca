# MIrA TEI/XML to Wikidata-aligned RDF, modelled in Dafny

The converter `tools/convert_to_rdf/convert_to_rdf.py` reads four authority
files (people, places, texts, libraries) and a compiled manuscripts file, and
writes one RDF graph in which every entity is either a Wikidata node
(`wd:Q…`) or a local MIrA node (`mira:<kind>/<key>`). This project models:

- the string utilities `norm`, `safe_id`, `local_uri`, `extract_qid`,
  `normalize_title_key` and `extract_gYear` (modules `Text`, `Ids`, `Titles`,
  `Numbers`);
- the authority loaders `load_people`, `load_places` (with its recursive
  `walk`), `load_texts` and `load_libraries` (modules `Records`, `Index`,
  `Authorities`);
- the emission half of `main`: the people, places (`emit_place`), works and
  libraries loops and the per-manuscript block (modules `Rdf`, `Emitter`);
- what the emitted graph guarantees, entity by entity and property by property
  (module `Guarantees`), and the end-to-end example of one manuscript in
  "Example Library" (module `Scenario`).

XML elements are datatypes whose fields are `Option<string>`; `x or ""` is
`OrEmpty`, and Python's truthiness of an optional string is `Present`. A
Python dict filled in a loop is the fold `Index.Assign`: the last write to a
key wins, and `LastWriteAt` names the element that wrote it. The output graph
is a `set<Triple>`, as rdflib's `Graph` keeps no duplicate statements. The
two `uuid.uuid4()` fallbacks are parameters `nat -> string`: place number `i`
in pre-order gets `placeTokens(i)`, manuscript number `j` gets `msTokens(j)`.

Every graph `Convert` produces is `Sound`: every node is a QID or a
sanitised local key, no literal is empty, every typed literal is lexically
valid for its type (gYear, decimal, anyURI), `rdfs:label` and
`skos:prefLabel` always come in pairs with the same text, and every subject
has a class.

## Model

| member | source | states |
|---|---|---|
| Text.Norm | tools/convert_to_rdf/convert_to_rdf.py:107-109 | the result has no leading or trailing whitespace and every whitespace run is one space; the non-whitespace characters of the input survive, in order; it is never longer than the input |
| Text.NormFixedPoint | tools/convert_to_rdf/convert_to_rdf.py:107-109 | `norm` leaves a string unchanged exactly when it already has the normal shape |
| Text.NormIdempotent | tools/convert_to_rdf/convert_to_rdf.py:107-109 | normalising twice is the same as normalising once |
| Text.NormContains | tools/convert_to_rdf/convert_to_rdf.py:107-109 | a non-whitespace character occurs in `norm(s)` exactly when it occurs in `s` |
| Text.NormOfNormal | tools/convert_to_rdf/convert_to_rdf.py:107-109 | a string already in normal shape is its own `norm` |
| Text.NormEmpty | tools/convert_to_rdf/convert_to_rdf.py:107-109 | `norm` gives the empty string exactly when the input is all whitespace |
| Text.NormOuter | tools/convert_to_rdf/convert_to_rdf.py:107-109 | whitespace around a string does not change its `norm` |
| Text.NormJoin | tools/convert_to_rdf/convert_to_rdf.py:107-109 | two strings with non-blank `norm` joined by any whitespace normalise to their two `norm`s joined by one space: the whitespace between them becomes exactly one space at the seam |
| Text.NormSwap | tools/convert_to_rdf/convert_to_rdf.py:107-109 | stripping first and collapsing runs second gives the same result as collapsing first and stripping second |
| Text.Strip | tools/convert_to_rdf/convert_to_rdf.py:109 | `strip()` returns the contiguous middle of the input left after cutting whitespace from both ends: what it cuts is whitespace only, and the result has no whitespace at either end |
| Text.StripSplit | tools/convert_to_rdf/convert_to_rdf.py:109 | every input is whitespace, then its stripped form, then whitespace |
| Text.StripUnique | tools/convert_to_rdf/convert_to_rdf.py:109 | a non-blank middle between two whitespace runs is exactly what `strip()` returns, so the cut is unique |
| Text.StripOuter | tools/convert_to_rdf/convert_to_rdf.py:109 | extra whitespace around a string does not change its stripped form |
| Text.StripEmpty | tools/convert_to_rdf/convert_to_rdf.py:109 | `strip()` gives the empty string exactly when the input is all whitespace |
| Text.ReplaceRuns | tools/convert_to_rdf/convert_to_rdf.py:109 | `re.sub(r"\s+", " ", ·)` leaves every class character as a lone replacement; it starts with the replacement exactly when the input starts with a run, ends with the input's last character when that is outside the class, and brings in no character but the replacement |
| Text.ReplaceRunsFixedPoint | tools/convert_to_rdf/convert_to_rdf.py:109 | a string whose runs are already collapsed is left unchanged |
| Text.ReplaceRunsIdempotent | tools/convert_to_rdf/convert_to_rdf.py:109 | collapsing twice equals collapsing once |
| Text.ReplaceRunsOfRun | tools/convert_to_rdf/convert_to_rdf.py:109 | a whole run, of any length, becomes exactly one replacement character |
| Text.ReplaceRunsAppend | tools/convert_to_rdf/convert_to_rdf.py:109 | the substitution splits over a concatenation whose seam is not inside a run |
| Text.ReplaceRunsKeeps | tools/convert_to_rdf/convert_to_rdf.py:109 | collapsing runs removes and reorders none of the characters outside the class |
| Text.ReplaceRunsRight | tools/convert_to_rdf/convert_to_rdf.py:109 | collapsing the runs of a suffix before collapsing the whole string changes nothing |
| Text.ReplaceRunsRunPrefix | tools/convert_to_rdf/convert_to_rdf.py:109 | a string that starts with a run collapses to one replacement followed by the collapsed rest after the run |
| Text.Keep | tools/convert_to_rdf/convert_to_rdf.py:133 | deleting a character class never lengthens a string, and every character left is outside the class and comes from the input |
| Text.KeepContains | tools/convert_to_rdf/convert_to_rdf.py:133 | deleting a character class keeps exactly the characters outside it |
| Text.KeepAppend | tools/convert_to_rdf/convert_to_rdf.py:133 | deleting a class distributes over concatenation |
| Text.FirstAt | tools/convert_to_rdf/convert_to_rdf.py:126 | the leftmost position where a pattern matches, or none when it matches nowhere, as `re.search` scans |
| Ids.SafeId | tools/convert_to_rdf/convert_to_rdf.py:112-114 | the result holds only `[A-Za-z0-9._-]` and `_`, is never empty, is `"unknown"` for an empty input and is never longer than a non-empty input |
| Ids.SafeIdFixedPoint | tools/convert_to_rdf/convert_to_rdf.py:112-114 | `safe_id` leaves a key unchanged exactly when it holds only safe characters |
| Ids.SafeIdIdempotent | tools/convert_to_rdf/convert_to_rdf.py:112-114 | sanitising twice equals sanitising once |
| Ids.SafeIdOfUnsafeRun | tools/convert_to_rdf/convert_to_rdf.py:114 | a run of unsafe characters, however long, becomes one `_` |
| Ids.SafeIdAppend | tools/convert_to_rdf/convert_to_rdf.py:114 | sanitising splits over a concatenation whose seam is not inside an unsafe run |
| Ids.LocalUri | tools/convert_to_rdf/convert_to_rdf.py:117-119 | a local node of the given kind whose key is sanitised; a key that is already safe is kept verbatim |
| Ids.LocalUriStable | tools/convert_to_rdf/convert_to_rdf.py:117-119 | re-minting a local node from its own key gives the same node |
| Ids.NamespacesDisjoint | tools/convert_to_rdf/convert_to_rdf.py:83-89 | no `wd:` IRI equals a `mira:` IRI |
| Ids.LocalUriTextInjective | tools/convert_to_rdf/convert_to_rdf.py:117-119 | two local IRIs with slash-free kinds are equal only when kind and key are |
| Ids.ExtractQid | tools/convert_to_rdf/convert_to_rdf.py:122-127 | absent or empty text gives nothing; a result is a QID; there is a result exactly when some word-bounded `Q<digits>` occurs, and it is the leftmost one |
| Ids.ExtractQidOfQid | tools/convert_to_rdf/convert_to_rdf.py:122-127 | a field holding just a QID yields that QID |
| Titles.TitleKey | tools/convert_to_rdf/convert_to_rdf.py:130-136 | every key is lower-case letters, digits and single interior spaces, with no outer space (what the key keeps of the title is stated by the lemmas below) |
| Titles.TitleKeyFixedPoint | tools/convert_to_rdf/convert_to_rdf.py:130-136 | the keys are exactly the strings the normaliser leaves unchanged |
| Titles.TitleKeyIdempotent | tools/convert_to_rdf/convert_to_rdf.py:130-136 | normalising a key again changes nothing |
| Titles.TitleKeyKingsMirror | tools/convert_to_rdf/convert_to_rdf.py:130-136 | "The King's Mirror" and "the kings mirror" have the same key, "the kings mirror" |
| Titles.CleanupAppend | tools/convert_to_rdf/convert_to_rdf.py:132-134 | lower-casing, deleting apostrophes and blanking punctuation work character by character, so they split over a concatenation |
| Titles.CleanupSpaces | tools/convert_to_rdf/convert_to_rdf.py:132-134 | the per-character clean-up leaves whitespace as it is |
| Titles.CleanupCollapse | tools/convert_to_rdf/convert_to_rdf.py:132-135 | collapsing whitespace runs before the per-character clean-up does not change the collapsed result |
| Titles.TitleKeyOnePass | tools/convert_to_rdf/convert_to_rdf.py:130-136 | the key is `norm` of the per-character clean-up of the raw title: the first `norm` of the source adds nothing but what the final collapse and strip do |
| Titles.SameCleanupSameKey | tools/convert_to_rdf/convert_to_rdf.py:130-136 | titles with the same per-character clean-up have the same key |
| Titles.TitleKeyIgnoresCase | tools/convert_to_rdf/convert_to_rdf.py:132 | lower-casing a title does not change its key |
| Titles.TitleKeyIgnoresApostrophes | tools/convert_to_rdf/convert_to_rdf.py:133 | deleting the apostrophes of a title does not change its key |
| Titles.TitleKeyIgnoresSpacing | tools/convert_to_rdf/convert_to_rdf.py:132 | normalising the whitespace of a title does not change its key |
| Titles.TitleKeyPunctuation | tools/convert_to_rdf/convert_to_rdf.py:134 | a punctuation character in a title has the same effect on its key as a space in its place |
| Numbers.ExtractGYear | tools/convert_to_rdf/convert_to_rdf.py:139-160 | a result is a four-digit gYear; there is one exactly when a word-bounded run of three or of four or more digits exists; the leftmost long run wins, cut to four digits, otherwise the leftmost three-digit run padded with `0` |
| Numbers.GYearCirca845 | tools/convert_to_rdf/convert_to_rdf.py:155-157 | "c. 845 AD" gives "0845" |
| Numbers.GYearCirca1200 | tools/convert_to_rdf/convert_to_rdf.py:150-152 | "circa 1200-1250" gives "1200" |
| Numbers.GYearNinthCentury | tools/convert_to_rdf/convert_to_rdf.py:159-160 | "9th century" gives nothing |
| Numbers.GYear850Slash851 | tools/convert_to_rdf/convert_to_rdf.py:155-157 | "850/851" gives "0850" |
| Numbers.GYearLongRunPreferred | tools/convert_to_rdf/convert_to_rdf.py:149-152 | "850 or 1200" gives "1200": a four-digit year beats an earlier three-digit one |
| Numbers.FirstInteger | tools/convert_to_rdf/convert_to_rdf.py:405-408 | there is a folio count exactly when a digit occurs, and it is the value of the leftmost digit run |
| Numbers.DecimalValueOfText | tools/convert_to_rdf/convert_to_rdf.py:408 | the canonical decimal text of a count reads back as that count |
| Numbers.FirstDecimal | tools/convert_to_rdf/convert_to_rdf.py:411-418 | a dimension exists exactly when a digit occurs; it is a valid decimal lexeme taken from the leftmost digit onward |
| Numbers.DecimalEndIsLexeme | tools/convert_to_rdf/convert_to_rdf.py:413-414 | the text `\d+(?:\.\d+)?` matches is a valid `xsd:decimal` lexeme |
| Records.FlattenIsForest | tools/convert_to_rdf/convert_to_rdf.py:191-202 | a place is visited by the walk exactly when it descends from some top-level place |
| Index.IndexBy | tools/convert_to_rdf/convert_to_rdf.py:172-181 | a dict filled in a loop holds exactly the keys some kept element wrote, each bound to the value of the last element that wrote it |
| Index.AssignKeys | tools/convert_to_rdf/convert_to_rdf.py:179 | after the loop a key is present exactly when it was before or some element wrote it |
| Index.AssignLastWrite | tools/convert_to_rdf/convert_to_rdf.py:179 | the last write to a key decides its value |
| Index.AssignUntouched | tools/convert_to_rdf/convert_to_rdf.py:179 | a key no element writes keeps its earlier value |
| Index.AssignAppend | tools/convert_to_rdf/convert_to_rdf.py:198-202 | running the loop over two lists in a row equals running it over their concatenation |
| Index.LastWriteExists | tools/convert_to_rdf/convert_to_rdf.py:179 | a key that is written at all has a last write |
| Index.IndexValues | tools/convert_to_rdf/convert_to_rdf.py:179-181 | a property every stored value has holds for every value in the dict |
| Authorities.PersonLabel | tools/convert_to_rdf/convert_to_rdf.py:174-177 | a person's label is the normalised first names and the normalised surname joined by one space when both are non-blank, and the non-blank one alone otherwise; it is normal and holds the non-whitespace characters of first names followed by those of the surname |
| Authorities.JoinedNorm | tools/convert_to_rdf/convert_to_rdf.py:174-177 | normalising the space-joined non-empty parts equals joining their normalised forms with one space, or taking the only non-blank one |
| Authorities.LoadPeople | tools/convert_to_rdf/convert_to_rdf.py:167-182 | every person's `id or ""` is a QID key; only people with a non-empty label are label keys; values are the last person's QID and label |
| Authorities.CleanNames | tools/convert_to_rdf/convert_to_rdf.py:194 | the kept names are non-empty and normal, and no more than the name elements |
| Authorities.CleanNamesContents | tools/convert_to_rdf/convert_to_rdf.py:194 | a string is a kept name exactly when it is non-empty and some name element normalises to it |
| Authorities.CleanNamesHead | tools/convert_to_rdf/convert_to_rdf.py:194 | the first kept name is the first name element with non-empty normalised text |
| Authorities.WalkIsPreorder | tools/convert_to_rdf/convert_to_rdf.py:191-199 | the recursive walk of one place registers the place, then its subtree, in pre-order |
| Authorities.WalkAllIsPreorder | tools/convert_to_rdf/convert_to_rdf.py:198-202 | walking a list of places registers the pre-order list of all their descendants |
| Authorities.LoadPlaces | tools/convert_to_rdf/convert_to_rdf.py:185-204 | the keys are exactly the non-empty ids of places at any depth; the empty id is never a key; QIDs are QIDs and no names list holds an empty name; each id is bound to the QID and names of the last place in pre-order that carries it |
| Authorities.PlacesRegisterEveryNode | tools/convert_to_rdf/convert_to_rdf.py:191-199 | a nested place with a non-empty id is registered in both tables |
| Authorities.PlacesRegisterOnlyForestNodes | tools/convert_to_rdf/convert_to_rdf.py:191-202 | every registered id belongs to some place of the forest |
| Authorities.TextQids | tools/convert_to_rdf/convert_to_rdf.py:213-217 | every text's `id or ""` is a key, bound to the last such text's QID |
| Authorities.TextTitles | tools/convert_to_rdf/convert_to_rdf.py:215-219 | only texts with a non-empty title are keys; each is bound to the last such text's normal title |
| Authorities.TitleIndex | tools/convert_to_rdf/convert_to_rdf.py:218-221 | the keys are the title keys of texts with both a title and a QID; every key is a well-formed title key and every value a QID, that of the last text with the key |
| Authorities.LibraryName | tools/convert_to_rdf/convert_to_rdf.py:232 | a library's name is its normalised `<name>` when that is non-empty, and its id exactly when it is empty; so it is never empty for a library with an id |
| Authorities.LoadLibraries | tools/convert_to_rdf/convert_to_rdf.py:225-237 | only libraries with a non-empty id are keys, of both tables; names are never empty; each id is bound to the last such library's name and QID |
| Emitter.LoadAll | tools/convert_to_rdf/convert_to_rdf.py:287-290 | the four tables the emitters read are consistent: every stored QID is a QID, every label, title and library name is non-empty, and the keys of the place and library tables are the ids of the loaded records |
| Emitter.ResolveWellFormed | tools/convert_to_rdf/convert_to_rdf.py:308 | the subject rule `WD[qid] if qid else local_uri(kind, key)` always yields a well-formed node |
| Emitter.DescribedSound | tools/convert_to_rdf/convert_to_rdf.py:309-312 | a type statement plus an optional label pair is a sound graph |
| Emitter.PeopleSound | tools/convert_to_rdf/convert_to_rdf.py:305-312 | the people loop writes a sound graph |
| Emitter.PlaceKey | tools/convert_to_rdf/convert_to_rdf.py:319 | a place's local key is never empty |
| Emitter.PlaceTriplesSound | tools/convert_to_rdf/convert_to_rdf.py:315-327 | one place's statements form a sound graph |
| Emitter.PlacesSound | tools/convert_to_rdf/convert_to_rdf.py:315-333 | the recursive place emission writes a sound graph |
| Emitter.WorksSound | tools/convert_to_rdf/convert_to_rdf.py:335-342 | the works loop writes a sound graph |
| Emitter.LibrariesSound | tools/convert_to_rdf/convert_to_rdf.py:344-351 | the libraries loop writes a sound graph |
| Emitter.ManuscriptKey | tools/convert_to_rdf/convert_to_rdf.py:359 | a manuscript's key is never empty |
| Emitter.ManuscriptLabel | tools/convert_to_rdf/convert_to_rdf.py:381-385 | the label is `"<library> — <shelf>"` when both are present, the shelf mark when only it is, else `"MIRA manuscript <key>"`; it is never empty |
| Emitter.PropertyValueWellFormed | tools/convert_to_rdf/convert_to_rdf.py:367-423 | every value the manuscript block writes is well-formed for its type |
| Emitter.AssembleSound | tools/convert_to_rdf/convert_to_rdf.py:358-432 | a manuscript block with a well-formed subject, a non-empty label, well-formed values and QID works is sound |
| Emitter.ManuscriptTriplesSound | tools/convert_to_rdf/convert_to_rdf.py:358-432 | one manuscript's statements form a sound graph |
| Emitter.ManuscriptsSound | tools/convert_to_rdf/convert_to_rdf.py:358-432 | the manuscript loop writes a sound graph |
| Emitter.Convert | tools/convert_to_rdf/convert_to_rdf.py:286-432 | the whole output graph is sound |
| Rdf.Positions | tools/convert_to_rdf/convert_to_rdf.py:358 | the loop positions of a list of length `n` are exactly `0 .. n - 1` |
| Rdf.UnionOfMember | tools/convert_to_rdf/convert_to_rdf.py:306-312 | anything a loop iteration adds is in the graph |
| Rdf.UnionOfSound | tools/convert_to_rdf/convert_to_rdf.py:305-432 | a loop whose every iteration adds a sound graph builds a sound graph |
| Rdf.UnionSound | tools/convert_to_rdf/convert_to_rdf.py:293-432 | adding one sound graph to another keeps it sound |
| Guarantees.SubjectIsResolve | tools/convert_to_rdf/convert_to_rdf.py:308 | for a QID table entry, the subject rule is "the QID when there is one, else the local node" |
| Guarantees.DescribedContents | tools/convert_to_rdf/convert_to_rdf.py:309-312 | every class is asserted, and a non-empty label is written as both label predicates |
| Guarantees.PersonTriplesEmitted | tools/convert_to_rdf/convert_to_rdf.py:306-312 | the statements for each registered person id are in the people graph |
| Guarantees.PersonTableEntry | tools/convert_to_rdf/convert_to_rdf.py:172-181 | the last person with an id decides its QID, and its label when it has one |
| Guarantees.PersonEmitted | tools/convert_to_rdf/convert_to_rdf.py:305-312 | the last person with a given id is typed `wd:Q5` under the subject rule and, when labelled, carries its label |
| Guarantees.PeopleOnlyFromTable | tools/convert_to_rdf/convert_to_rdf.py:306-308 | every people statement is about the subject of some registered person |
| Guarantees.WorkTriplesEmitted | tools/convert_to_rdf/convert_to_rdf.py:336-342 | the statements for each registered text id are in the works graph |
| Guarantees.WorkTableEntry | tools/convert_to_rdf/convert_to_rdf.py:213-219 | the last text with an id decides its QID, and its title when it has one |
| Guarantees.WorkEmitted | tools/convert_to_rdf/convert_to_rdf.py:335-342 | the last text with a given id is typed `wd:Q7725634` under the subject rule and, when titled, carries its title |
| Guarantees.LibraryEmitted | tools/convert_to_rdf/convert_to_rdf.py:344-351 | the last library with a given id is typed both library and organisation and always carries a non-empty label pair |
| Guarantees.PlaceNodeEmitted | tools/convert_to_rdf/convert_to_rdf.py:315-330 | every visited place is typed `wd:Q618123`, labelled with its first name when it has names and alt-labelled with every further name |
| Guarantees.PlaceEmittedAtAnyDepth | tools/convert_to_rdf/convert_to_rdf.py:329-333 | a place nested at any depth is emitted |
| Guarantees.PlaceSubjectByLastWrite | tools/convert_to_rdf/convert_to_rdf.py:316-320 | a place with an id resolves through the QID of the last place in pre-order carrying that id |
| Guarantees.UnidentifiedPlaceIsLocal | tools/convert_to_rdf/convert_to_rdf.py:316-320 | a place without an id is always a local node: keyed by its first name, else by `place_<token>` |
| Guarantees.PlacesSharingIdShareSubject | tools/convert_to_rdf/convert_to_rdf.py:316-320 | two places with the same non-empty id get the same subject, whatever their tokens |
| Guarantees.AssembleLabels | tools/convert_to_rdf/convert_to_rdf.py:386-387 | the block carries exactly one label text, under both label predicates |
| Guarantees.AssembleProperty | tools/convert_to_rdf/convert_to_rdf.py:367-423 | a conditional property is written with a value exactly when that value was computed |
| Guarantees.AssembleExemplars | tools/convert_to_rdf/convert_to_rdf.py:425-432 | the P1574 statements are exactly one per matched work |
| Guarantees.AssembleAbout | tools/convert_to_rdf/convert_to_rdf.py:360-432 | everything in the block is about the manuscript's own subject |
| Guarantees.ManuscriptTypedAndLabelled | tools/convert_to_rdf/convert_to_rdf.py:359-387 | every manuscript is a local `mira:manuscript/` node, typed `wdt:P31 wd:Q87167`, with exactly one label text under both predicates, and nothing in its block is about another subject |
| Guarantees.ManuscriptProperty | tools/convert_to_rdf/convert_to_rdf.py:367-423 | each of P217, P195, P571, P1071, P1104, P2048, P2049 and P953 is written with a given object exactly when the block computes that value |
| Guarantees.ManuscriptExemplars | tools/convert_to_rdf/convert_to_rdf.py:425-432 | `wdt:P1574` links to a work exactly when some non-empty content title's key is in the title index with that QID |
| Guarantees.ManuscriptLabelShape | tools/convert_to_rdf/convert_to_rdf.py:383-385 | a manuscript with a shelf mark has a label ending in the shelf mark and, when its library has a name, starting with that name |
| Guarantees.ManuscriptLabelNamesLibrary | tools/convert_to_rdf/convert_to_rdf.py:382-385 | the library part of the label is the name of the last library carrying the referenced id |
| Guarantees.CollectionFollowsLibraryRule | tools/convert_to_rdf/convert_to_rdf.py:372-379 | `wdt:P195` points at the referenced library's QID when it has one, else at `mira:library/<id>`, also for an id no library carries |
| Guarantees.NoCollectionWithoutReference | tools/convert_to_rdf/convert_to_rdf.py:373-374 | without a library reference there is no `wdt:P195` |
| Guarantees.OriginFollowsPlaceRule | tools/convert_to_rdf/convert_to_rdf.py:395-402 | `wdt:P1071` points at the origin place's QID when the place table has one, else at `mira:place/<id>` |
| Guarantees.OriginFromTable | tools/convert_to_rdf/convert_to_rdf.py:396-402 | the origin place resolves through whatever QID the place table holds for its id |
| Guarantees.InceptionSource | tools/convert_to_rdf/convert_to_rdf.py:389-393 | `wdt:P571` reads `term_post` when it has text and `term_ante` only otherwise, and is always a gYear |
| Guarantees.FolioCountPresence | tools/convert_to_rdf/convert_to_rdf.py:404-408 | a folio count is written exactly when the folios text holds a digit |
| Guarantees.HeightPresence | tools/convert_to_rdf/convert_to_rdf.py:410-416 | a height is written exactly when the height text holds a digit |
| Guarantees.WidthPresence | tools/convert_to_rdf/convert_to_rdf.py:410-418 | a width is written exactly when the width text holds a digit |
| Guarantees.DigitPresence | tools/convert_to_rdf/convert_to_rdf.py:405-414 | normalising a text neither adds nor removes digits |
| Guarantees.ExemplarOfIndexedText | tools/convert_to_rdf/convert_to_rdf.py:426-432 | a content title whose key the last indexed text shares links the manuscript to that text's QID |
| Guarantees.ExemplarsComeFromTexts | tools/convert_to_rdf/convert_to_rdf.py:218-221 | every `wdt:P1574` names the QID of a text with a title and a QID whose key some content title shares |
| Guarantees.AuthoritiesInGraph | tools/convert_to_rdf/convert_to_rdf.py:305-351 | everything the four authority loops write is in the output graph |
| Guarantees.ManuscriptInGraph | tools/convert_to_rdf/convert_to_rdf.py:358-432 | everything written for each manuscript is in the output graph |
| Guarantees.PlacesIgnoreTokens | tools/convert_to_rdf/convert_to_rdf.py:319 | when every place has an id or a name, the place statements do not depend on the random tokens |
| Guarantees.ManuscriptsIgnoreTokens | tools/convert_to_rdf/convert_to_rdf.py:359 | when every manuscript has an id, the manuscript statements do not depend on the random tokens |
| Guarantees.TokensOnlyNameUnidentified | tools/convert_to_rdf/convert_to_rdf.py:319-359 | the whole graph is deterministic once every place has an id or a name and every manuscript an id |
| Guarantees.PeopleNotManuscripts | tools/convert_to_rdf/convert_to_rdf.py:305-312 | the people loop writes nothing about a `mira:manuscript/` node |
| Guarantees.PlacesNotManuscripts | tools/convert_to_rdf/convert_to_rdf.py:315-333 | the place emission writes nothing about a `mira:manuscript/` node |
| Guarantees.WorksNotManuscripts | tools/convert_to_rdf/convert_to_rdf.py:335-342 | the works loop writes nothing about a `mira:manuscript/` node |
| Guarantees.LibrariesNotManuscripts | tools/convert_to_rdf/convert_to_rdf.py:344-351 | the libraries loop writes nothing about a `mira:manuscript/` node |
| Guarantees.ManuscriptStatementsFromBlocks | tools/convert_to_rdf/convert_to_rdf.py:286-432 | every statement of the output graph about a `mira:manuscript/` node comes from the block of some manuscript |
| Scenario.LibraryTableEntry | tools/convert_to_rdf/convert_to_rdf.py:230-236 | library "lib1" named "Example Library" with Wikidata xref Q999 is loaded under that name and QID |
| Scenario.TitleIndexEntry | tools/convert_to_rdf/convert_to_rdf.py:213-221 | text "The King's Mirror" with QID Q42 indexes key "the kings mirror" to Q42 |
| Scenario.ScenarioGYear | tools/convert_to_rdf/convert_to_rdf.py:155-157 | the date text "845" gives the gYear "0845" |
| Scenario.ScenarioLabel | tools/convert_to_rdf/convert_to_rdf.py:381-385 | shelf mark "MS 123" in "Example Library" is labelled "Example Library — MS 123" |
| Scenario.ScenarioPresentValues | tools/convert_to_rdf/convert_to_rdf.py:372-393 | the example manuscript's collection is `wd:Q999` and its inception "0845" as a gYear |
| Scenario.ScenarioAbsentValues | tools/convert_to_rdf/convert_to_rdf.py:404-423 | without folios, dimensions or a link, none of those properties has a value |
| Scenario.ExampleStatements | tools/convert_to_rdf/convert_to_rdf.py:358-432 | the example manuscript is typed, labelled, in collection Q999, dated "0845" and an exemplar of Q42 |
| Scenario.ExampleOmissions | tools/convert_to_rdf/convert_to_rdf.py:404-423 | the example manuscript has no folio count, no height, no width and no link statement |
| Scenario.ExampleOnlyWork | tools/convert_to_rdf/convert_to_rdf.py:425-432 | Q42 is the only work the example manuscript is an exemplar of |
| Scenario.WholeRunOnlyBlock | tools/convert_to_rdf/convert_to_rdf.py:286-432 | in the example run, a statement about a manuscript node is in the graph only when the example manuscript's block holds it |
| Scenario.EndToEnd | tools/convert_to_rdf/convert_to_rdf.py:286-432 | the whole run over that library, text and manuscript writes the expected manuscript statements and no folio count, height, width or link for it, whatever the random tokens |

## Left out

- Argument parsing, file paths, `mkdir`, XML parsing with lxml, Turtle serialisation and the final `print`: the model starts from parsed records and ends with the set of triples.
- Prefix binding and rdflib's literal normalisation: objects keep their lexical form, and the namespaces appear only as the two IRI prefixes `wd:` and `mira:`.
- Unicode: text is modelled as ASCII for `\s`, `\d`, `\w`, `str.isspace` and `str.lower`; the apostrophes `’`, `'` and the backtick are matched literally.
- `uuid.uuid4().hex[:8]`: the random tokens are parameters, so the model states what holds for every token.
- The element queries: a record holds one value per `findtext`, a manuscript's `./identifier` is one optional element whose `libraryID` and `shelfmark` both come from it, and a content title is the already-joined `itertext()` text.
- The network-graph scripts under `tools/network_graphs`: they compute graph metrics with foreign libraries and floating point, outside the converter.
- Emitter.EmitPlaces: `emit_place` recurses over the tree; the model emits over the pre-order list of the same places, which `Authorities.WalkIsPreorder` shows is the order the identical recursion in `walk` visits them.
- Emitter.PropertyValue: `int(m.group(0))` is modelled as the unbounded value of the digit run. On the Python 3.11+ interpreter the converter requires, `int()` raises `ValueError` for a decimal string of more than 4300 digits, which aborts the whole run; the model writes the folio count for any length of digit run instead.

How the code behaves where a reader might expect otherwise:

- Duplicate `wdt:P1574` statements are written once: the code adds one statement per matching content title, but to an rdflib `Graph`, which stores each statement once.
- A place without an id, as well as a manuscript without one, gets a random key when it also has no name (`convert_to_rdf.py:319` and `:359`).
- A place without an id is always a local node: its lookup uses the empty id, which the place loader never registers, so the lookup always fails (`convert_to_rdf.py:316`).
- When two places share an id, every one of them takes the QID of the last one registered; `Guarantees.PlaceSubjectByLastWrite` states this.
- A `term_post` with text but no year hides a year in `term_ante`; `Guarantees.InceptionSource` states this.

The emitting functions carry no contract of their own; what they write is stated by lemmas in the table above:

- `Emitter.Resolve` (`convert_to_rdf.py:308`, `:320`, `:338`, `:347`): `Emitter.ResolveWellFormed`, `Guarantees.SubjectIsResolve`.
- `Emitter.PersonTriples`, `Emitter.EmitPeople` (`:305-312`): `Guarantees.PersonEmitted`, `Guarantees.PeopleOnlyFromTable`, `Emitter.PeopleSound`, `Guarantees.PeopleNotManuscripts`.
- `Emitter.PlaceSubject`, `Emitter.PlaceTriples`, `Emitter.EmitPlaces` (`:315-333`): `Guarantees.PlaceNodeEmitted`, `Guarantees.PlaceEmittedAtAnyDepth`, `Guarantees.PlaceSubjectByLastWrite`, `Guarantees.UnidentifiedPlaceIsLocal`, `Emitter.PlacesSound`.
- `Emitter.WorkTriples`, `Emitter.EmitWorks` (`:335-342`): `Guarantees.WorkEmitted`, `Emitter.WorksSound`.
- `Emitter.LibraryTriples`, `Emitter.EmitLibraries` (`:344-351`): `Guarantees.LibraryEmitted`, `Emitter.LibrariesSound`.
- `Emitter.Exemplars` (`:425-432`): `Guarantees.ManuscriptExemplars`, `Guarantees.ExemplarsComeFromTexts`.
- `Emitter.PropertyValue` (`:367-423`): `Guarantees.ManuscriptProperty`, `Emitter.PropertyValueWellFormed` and the per-property lemmas.
- `Emitter.ManuscriptTriples`, `Emitter.EmitManuscripts` (`:358-432`): `Guarantees.ManuscriptTypedAndLabelled`, `Guarantees.ManuscriptInGraph`, `Emitter.ManuscriptsSound`.
- `Authorities.Walk`, `Authorities.WalkAll` (`:191-202`): `Authorities.WalkIsPreorder`, `Authorities.WalkAllIsPreorder`.
- `Authorities.LoadTexts` (`:207-222`): `Authorities.TextQids`, `Authorities.TextTitles`, `Authorities.TitleIndex`.
