# Planet index: a verified model

This project models the core of a homework-sized Java program about exoplanet
data. `PlanetIndex` is an unbalanced binary search tree of `Planet` records. It
is ordered first by a key that a key-extractor function derives from each record,
and then, between records with equal keys, by the record's own `compareTo`.
The index supports:

- `add`, which refuses records with a null key and records already stored;
- two bulk `addAll`s, one from a collection and one from another index;
- bounded `doAll` traversals in pre-, in- and post-order;
- the invariant checker `wellFormed`, built from `okTree` and `countNodes`.

The project also models `PlanetDataReader.breakCSV`, which splits one line of
the planet catalogue into fields. Fields are separated by commas, and a field
may be wrapped in double quotes so that it can hold commas.

Modules:

- `Wrappers` (wrappers.dfy) defines `Option` and `Result`.
- `Planets` (planets.dfy) models a planet by its `dataString()`, kept as the
  UTF-16 code units of a Java `String`. `compareTo` becomes the sign of
  `String.compareTo`, which compares those units one by one. The lemmas prove it
  is a strict total order.
- `SearchTrees` (search_tree.dfy) holds:
  - the node tree as a datatype;
  - the ordering invariant `SearchTree`;
  - `Insert`, the recursive `doAdd` on values;
  - `InsertAll`;
  - the lemmas that `Insert` keeps the invariant, adds exactly one leaf for a new
    record and changes nothing for a stored one.
- `Traversals` (traversal.dfy) holds `Visit`, the private `doAll` with the
  visitor's calls collected into a sequence. The lemmas prove:
  - the pruned descent visits exactly the in-range records of the full traversal;
  - an in-order visit comes out sorted.
- `PlanetIndexes` (planet_index.dfy) holds:
  - `CountNodes`, `OkTree` and `wellFormed` as written;
  - the class `PlanetIndex`, whose fields `root` and `size` the methods `Add`,
    `DoAdd`, `AddAll` and `AddAllFrom` update;
  - a worked example taken from the unit tests.
- `PlanetDataReader` (planet_data_reader.dfy) holds `BreakCSV`, the loop of
  `breakCSV`. It is proved equal to the function `Fields`, which takes one
  pass (`NextCut`) per field. The lemmas describe which lines split and into
  what:
  - round trips through comma-joined fields and through quoted fields;
  - the error cases.

Keys are modelled as `int`, with `None` standing for a null key. The key extractor is
a total function `Planet -> Option<int>`.

## Model

| member | source | states |
|---|---|---|
| Planets.CompareTo | homework-8/src/edu/uwm/cs351/Planet.java:83-86 | the comparison yields a sign -1, 0 or 1 |
| Planets.CompareToZero | homework-8/src/edu/uwm/cs351/Planet.java:83-92 | `compareTo` is 0 exactly for equal planets, which is what `equals` relies on |
| Planets.SurrogatePairSortsBelow | homework-8/src/edu/uwm/cs351/Planet.java:83-86 | the order is by UTF-16 code unit: U+FFFF sorts above U+1F600, whose first unit is the surrogate D83D |
| Planets.CompareToFlip | homework-8/src/edu/uwm/cs351/Planet.java:83-86 | swapping the arguments negates the comparison |
| Planets.CompareToTransitive | homework-8/src/edu/uwm/cs351/Planet.java:83-86 | the comparison is transitive |
| SearchTrees.PrecedesStrictTotal | homework-8/src/edu/uwm/cs351/PlanetIndex.java:162-166 | the (key, `compareTo`) order that `doAdd` descends by is a strict total order on keyed records |
| SearchTrees.SearchTree | homework-8/src/edu/uwm/cs351/PlanetIndex.java:56-65 | the ordering invariant that `okTree` checks; every record in a search tree has a key |
| SearchTrees.Traverse | homework-8/src/edu/uwm/cs351/PlanetIndex.java:218-234 | the unbounded traversal in each order lists as many records as the tree has nodes |
| SearchTrees.TraverseContents | homework-8/src/edu/uwm/cs351/PlanetIndex.java:218-234 | an unbounded traversal lists every node once and holds exactly the stored records |
| SearchTrees.InOrderSorted | homework-8/src/edu/uwm/cs351/PlanetIndex.java:66-97 | the ordering invariant holds exactly when the in-order sequence is keyed and strictly ascending |
| SearchTrees.SearchTreeCount | homework-8/src/edu/uwm/cs351/PlanetIndex.java:124-127 | a search tree stores no record twice: its node count is its number of distinct records |
| SearchTrees.Insert | homework-8/src/edu/uwm/cs351/PlanetIndex.java:154-179 | `doAdd` on values: the result stores the old records plus the new one, all keyed |
| SearchTrees.InsertNew | homework-8/src/edu/uwm/cs351/PlanetIndex.java:156-160 | a record not yet stored is hung on one fresh leaf in place of an absent child, and the tree grows by one node |
| SearchTrees.InsertExisting | homework-8/src/edu/uwm/cs351/PlanetIndex.java:165-166 | a record equal under `compareTo` to a stored one leaves the tree unchanged |
| SearchTrees.InsertSearchTree | homework-8/src/edu/uwm/cs351/PlanetIndex.java:154-179 | insertion keeps the ordering invariant |
| SearchTrees.InsertIdempotent | homework-8/src/edu/uwm/cs351/PlanetIndex.java:165-166 | adding the same record twice is the same as adding it once |
| SearchTrees.SameKeyBothStored | homework-8/src/edu/uwm/cs351/PlanetIndex.java:162-175 | two different records with the same key are both stored, and the node count grows by two |
| SearchTrees.AddOne | homework-8/src/edu/uwm/cs351/PlanetIndex.java:140-146 | `add` on values: a null-keyed record leaves the records as they were, any other is added to them |
| SearchTrees.InsertAll | homework-8/src/edu/uwm/cs351/PlanetIndex.java:185-191 | adding a sequence stores the old records plus every record of the sequence that has a key |
| SearchTrees.InsertAllSearchTree | homework-8/src/edu/uwm/cs351/PlanetIndex.java:185-191 | adding a sequence keeps the ordering invariant |
| SearchTrees.InsertAllCount | homework-8/src/edu/uwm/cs351/PlanetIndex.java:185-191 | filling an empty index leaves one node per distinct keyed record |
| SearchTrees.InsertAllAppend | homework-8/src/edu/uwm/cs351/PlanetIndex.java:185-191 | adding `a + b` is adding `a` and then `b` |
| SearchTrees.InsertAllExisting | homework-8/src/edu/uwm/cs351/PlanetIndex.java:197-199 | adding records that are all already stored changes nothing, so an index may add itself |
| SearchTrees.InsertAllLeft | homework-8/src/edu/uwm/cs351/PlanetIndex.java:168-171 | records that all precede the root's record all end up in its left subtree |
| SearchTrees.InsertAllRight | homework-8/src/edu/uwm/cs351/PlanetIndex.java:172-175 | records that all follow the root's record all end up in its right subtree |
| SearchTrees.PreOrderCopy | homework-8/src/edu/uwm/cs351/PlanetIndex.java:197-199 | re-adding a search tree's records in pre-order rebuilds exactly the same tree |
| Traversals.Visit | homework-8/src/edu/uwm/cs351/PlanetIndex.java:218-234 | the private `doAll`: the pruned descent hands over no more records than the tree has nodes |
| Traversals.FilterMembers | homework-8/src/edu/uwm/cs351/PlanetIndex.java:223-227 | the in-range filter keeps exactly the records whose key lies in the inclusive bounds |
| Traversals.FilterSorted | homework-8/src/edu/uwm/cs351/PlanetIndex.java:223-230 | dropping out-of-range records from an ascending sequence leaves it ascending |
| Traversals.FilterUnbounded | homework-8/src/edu/uwm/cs351/PlanetIndex.java:198 | with both bounds null, no keyed record is dropped |
| Traversals.VisitIsFilter | homework-8/src/edu/uwm/cs351/PlanetIndex.java:218-234 | the pruned descent hands over exactly the in-range records of the full traversal, in the traversal's order |
| Traversals.InOrderVisitSorted | homework-8/src/edu/uwm/cs351/PlanetIndex.java:201-216 | an in-order visit hands over exactly the stored in-range records, in strictly ascending order |
| Traversals.InvertedRangeVisitsNothing | homework-8/src/edu/uwm/cs351/PlanetIndex.java:223-225 | a lower bound above the upper bound visits nothing |
| Traversals.TraverseSameRecords | homework-8/src/edu/uwm/cs351/PlanetIndex.java:218-234 | the three traversal orders list the same records, as a multiset |
| Traversals.VisitAtMostOnce | homework-8/src/edu/uwm/cs351/PlanetIndex.java:218-234 | each node is handed to the visitor at most once: the visited records are a sub-multiset of the full traversal |
| Traversals.VisitSameRecords | homework-8/src/edu/uwm/cs351/PlanetIndex.java:218-234 | pre-order and post-order visits hand over the same records as the in-order visit, as a multiset |
| PlanetIndexes.CountNodes | homework-8/src/edu/uwm/cs351/PlanetIndex.java:47-54 | `countNodes` returns either the number of nodes below it or -1 |
| PlanetIndexes.CountNodesDepth | homework-8/src/edu/uwm/cs351/PlanetIndex.java:47-54 | `countNodes` returns the node count when the subtree fits within `size` levels from depth `d`, and -1 otherwise |
| PlanetIndexes.OkTree | homework-8/src/edu/uwm/cs351/PlanetIndex.java:66-97 | `okTree` fails at any node whose record has a null key |
| PlanetIndexes.OkTreeIff | homework-8/src/edu/uwm/cs351/PlanetIndex.java:66-97 | with consistent bounds, `okTree` holds exactly for a search tree whose records all pass the inherited key and record bounds |
| PlanetIndexes.OkTreeRoot | homework-8/src/edu/uwm/cs351/PlanetIndex.java:101 | the unbounded check at the root holds exactly for search trees |
| PlanetIndexes.WellFormedAsWritten | homework-8/src/edu/uwm/cs351/PlanetIndex.java:99-108 | `wellFormed` as written passes only a keyed tree whose `size` is its node count or -1 |
| PlanetIndexes.WellFormedAsWrittenAccepts | homework-8/src/edu/uwm/cs351/PlanetIndex.java:99-108 | `wellFormed` as written accepts exactly a search tree whose size is right, or a non-empty search tree with `size == -1` |
| PlanetIndexes.WellFormedAsWrittenMissesNegativeSize | homework-8/src/edu/uwm/cs351/PlanetIndex.java:104 | a one-node tree with `size == -1` passes the check as written, although it has one node |
| PlanetIndexes.ExampleTraversals | homework-8/src/TestPlanetIndex.java:688-696 | the three traversal orders of the tree that the example builds |
| PlanetIndexes.ExampleAddsRight | homework-8/src/TestPlanetIndex.java:689-691 | the first three `add`s of the example build the expected right spine |
| PlanetIndexes.ExampleAddsLeft | homework-8/src/TestPlanetIndex.java:692-693 | the last two `add`s of the example build the expected left subtree |
| PlanetIndexes.AddThenVisitExample | homework-8/src/TestPlanetIndex.java:688-696 | records with keys 3, 5, 4, 1, 2 added in that order are visited pre-order as 3 1 2 5 4, post-order as 2 1 4 5 3 and in order as 1 2 3 4 5 |
| PlanetIndexes.PlanetIndex.WellFormed | homework-8/src/edu/uwm/cs351/PlanetIndex.java:99-108 | the corrected check holds exactly when the tree is a search tree and `size` is its node count |
| PlanetIndexes.PlanetIndex.constructor | homework-8/src/edu/uwm/cs351/PlanetIndex.java:114-118 | a new index has the given extractor, is empty with size 0, and is well formed |
| PlanetIndexes.PlanetIndex.Size | homework-8/src/edu/uwm/cs351/PlanetIndex.java:124-127 | `size()` is the number of distinct records stored |
| PlanetIndexes.PlanetIndex.Add | homework-8/src/edu/uwm/cs351/PlanetIndex.java:135-152 | the result is true exactly for a keyed record not stored yet, and exactly when `size` grew by one. A null-keyed or stored record changes nothing. A new one hangs on a fresh leaf. The invariant is kept |
| PlanetIndexes.PlanetIndex.DoAdd | homework-8/src/edu/uwm/cs351/PlanetIndex.java:154-179 | the descent returns the inserted tree, and `size` grows by the number of nodes added |
| PlanetIndexes.PlanetIndex.AddAll | homework-8/src/edu/uwm/cs351/PlanetIndex.java:185-191 | after the loop, the tree is the sequence added in order, it stores the old records plus the keyed new ones, and it is well formed |
| PlanetIndexes.PlanetIndex.DoAll | homework-8/src/edu/uwm/cs351/PlanetIndex.java:212-216 | the visited records are the in-range records of the full traversal, exactly the stored in-range ones; in order they come out ascending, and an inverted range gives none |
| PlanetIndexes.PlanetIndex.AddAllFrom | homework-8/src/edu/uwm/cs351/PlanetIndex.java:197-199 | adds the other index's records in pre-order. Afterwards it stores its old records plus those of the other index that have a key under its own extractor. It copies the other tree exactly into an empty index with the same extractor, and adding an index to itself changes nothing |
| PlanetDataReader.IndexOf | homework-8/src/edu/uwm/cs351/PlanetDataReader.java:79-80 | `String.indexOf(c, from)` returns -1 or a position at or after `from` that holds `c` |
| PlanetDataReader.IndexOfFirst | homework-8/src/edu/uwm/cs351/PlanetDataReader.java:79-80 | `indexOf` returns the first occurrence: no earlier position at or after the start holds the character |
| PlanetDataReader.IndexOfIs | homework-8/src/edu/uwm/cs351/PlanetDataReader.java:79-80 | the first occurrence, or -1 when there is none, is what `indexOf` returns |
| PlanetDataReader.NextCut | homework-8/src/edu/uwm/cs351/PlanetDataReader.java:79-94 | one pass of the loop that finds a field moves the cursor strictly forward, but not past the end |
| PlanetDataReader.FieldsFrom | homework-8/src/edu/uwm/cs351/PlanetDataReader.java:78-95 | the loop from a cursor, one pass per field: a cursor before the end of the line yields at least one field when the rest of the line splits |
| PlanetDataReader.Fields | homework-8/src/edu/uwm/cs351/PlanetDataReader.java:76-97 | `breakCSV` as written: the empty line has no fields, and any other line that splits has at least one |
| PlanetDataReader.IntendedFields | homework-8/src/edu/uwm/cs351/PlanetDataReader.java:81 | the splitter with the comma test `comma >= 0`: the empty line has no fields, and any other line that splits has at least one |
| PlanetDataReader.BreakCSV | homework-8/src/edu/uwm/cs351/PlanetDataReader.java:76-97 | the loop returns exactly `Fields(s)`: the list of fields, or the "cannot handle this line" error for a stray or unclosed quote |
| PlanetDataReader.QuoteFreeFields | homework-8/src/edu/uwm/cs351/PlanetDataReader.java:79-83 | a quote-free line that does not open with a comma always splits, into fields that hold no comma |
| PlanetDataReader.LeadingCommaSwallowsLine | homework-8/src/edu/uwm/cs351/PlanetDataReader.java:81 | as written, a quote-free line that opens with a comma comes back whole, as a single field |
| PlanetDataReader.JoinFields | homework-8/src/edu/uwm/cs351/PlanetDataReader.java:79-94 | from any cursor, joining the fields of a quote-free line with commas rebuilds the rest of the line, unless it ends in a comma |
| PlanetDataReader.BreakThenJoin | homework-8/src/edu/uwm/cs351/PlanetDataReader.java:76-97 | joining the fields of a quote-free line with commas rebuilds the line, unless it ends in a comma |
| PlanetDataReader.FieldsOfJoin | homework-8/src/edu/uwm/cs351/PlanetDataReader.java:79-94 | resumed where a comma-joined run of plain fields starts, splitting gives those fields back |
| PlanetDataReader.SplitJoin | homework-8/src/edu/uwm/cs351/PlanetDataReader.java:76-97 | splitting comma-joined plain fields gives them back, provided the first and last fields are not empty |
| PlanetDataReader.IntendedSplitJoin | homework-8/src/edu/uwm/cs351/PlanetDataReader.java:81 | with the comma test `comma >= 0`, an empty first field is given back too |
| PlanetDataReader.LeadingEmptyFieldLost | homework-8/src/edu/uwm/cs351/PlanetDataReader.java:81 | the line ",a" comes back as one field ",a" instead of the fields "" and "a" |
| PlanetDataReader.FieldsOfJoinQuoted | homework-8/src/edu/uwm/cs351/PlanetDataReader.java:84-90 | resumed where a run of quoted fields starts, splitting gives those fields back exactly, commas inside them included |
| PlanetDataReader.SplitJoinQuoted | homework-8/src/edu/uwm/cs351/PlanetDataReader.java:76-97 | a line of quoted, comma-separated fields splits back into exactly those fields |
| PlanetDataReader.MisplacedQuoteFails | homework-8/src/edu/uwm/cs351/PlanetDataReader.java:85 | a quote that is reached but does not open a field makes the line fail |
| PlanetDataReader.UnclosedQuoteFails | homework-8/src/edu/uwm/cs351/PlanetDataReader.java:85-87 | a line with a single quote fails, wherever the quote stands |
| PlanetDataReader.TrailingCommaIgnored | homework-8/src/edu/uwm/cs351/PlanetDataReader.java:79-94 | one comma at the end of a quote-free line adds no empty last field |

## Left out

- Object identity is not modelled:
  - a node tree is a value, so cycles, shared nodes and nodes whose record is null cannot be built;
  - the self-loop case that `countNodes` and `okTree` guard against is therefore not modelled;
  - `PlanetIndex.DoAdd` rebuilds the search path instead of relinking `left` and `right` in place.
- The null checks that throw are not modelled, because a value can never be null here. This covers a null extractor in the constructor, a null record in `add`, and a null visitor or order in `doAll`. The `okTree` dereference of `keyExtractor.apply(p1)` for a null bound key is left out too.
- PlanetIndexes.PlanetIndex.DoAll: the `Consumer` visitor is replaced by the sequence of records it would receive. The `addAll(PlanetIndex)` callback is modelled as adding that sequence.
- `report` and `doReport` only print. They are not modelled, and a failed check is simply `false`.
- PlanetIndexes.PlanetIndex.Add: `size` is an unbounded integer, so the 32-bit overflow of `++size` after 2^31 - 1 records is not modelled.
- Planets.CompareTo: returns only the sign of `String.compareTo`, not the character or length difference, because every caller tests only the sign.
- Keys are integers rather than an arbitrary `Comparable`, with the sign of `Integer.compareTo`. A `Double` or `String` key would only change the order used.
- Planets.Planet: a planet is its `dataString()`, so planets equal under `compareTo` are assumed to have equal keys. In Java, `dataString()` writes field values without escaping, so two planets with different fields (and so possibly different keys) can render alike; `doAdd` would then never compare them and would store both. The results that an index holds no duplicates (`SearchTreeCount`, `InsertAllCount`, `PlanetIndex.Size`) rest on this assumption.
- `Planet` is reduced to its `dataString()`. Its fields, `getField` and `hashCode` are not part of this model.
- The nested `TestInternals` class and the other tests are not modelled. One test scenario is stated as `PlanetIndexes.AddThenVisitExample`.
- From `PlanetDataReader`, the constructor, which reads a `Reader`, parses numbers and prints progress, is not modelled. Neither are `createIntegerPlanetIndex`, `createDoublePlanetIndex` and `createStringPlanetIndex`: they are I/O and field lookups around `addAll`. `Main` and `TestEfficiency` are not part of this model.
- PlanetDataReader.BreakCSV: returns a `Result` whose failure stands for the `UnsupportedOperationException`. The array conversion at the end is a plain sequence.
- PlanetDataReader.BreakCSV: the line is a Dafny `string` of Unicode scalar values, not of UTF-16 code units. It only searches for `,` and `"`, which are single code units that never occur inside a surrogate pair, so the fields are the same.

## Findings

| source | as written | input that shows it | evidently intended | confidence | as-written member | corrected member |
|---|---|---|---|---|---|---|
| homework-8/src/edu/uwm/cs351/PlanetIndex.java:104 | `countNodes(root, 0) != size` treats the -1 that `countNodes` returns when it gives up like a count | a one-node tree with `size == -1`: `countNodes` returns -1 at depth 0 because `0 >= -1`, so the check passes | reject the -1 result, so that `size` must equal the node count | not executed | PlanetIndexes.WellFormedAsWrittenMissesNegativeSize | PlanetIndexes.PlanetIndex.WellFormed |
| homework-8/src/edu/uwm/cs351/PlanetDataReader.java:81 | `comma > 0` ignores a comma at position 0 | the line ",a" gives the single field ",a" | `comma >= 0`, giving the fields "" and "a" | not executed | PlanetDataReader.LeadingEmptyFieldLost | PlanetDataReader.IntendedSplitJoin |

The first finding also contradicts the source's own comments. The comment at
PlanetIndex.java:103 says the number of nodes must equal the tree size, and the
`countNodes` Javadoc at PlanetIndex.java:39-45 describes -1 as the signal that
it gave up, not as a count. The model follows the code in `WellFormedAsWritten`,
and the class uses the corrected check. For the second finding, `BreakCSV` and `Fields` keep
the test as written. `IntendedFields` is the same splitter with the comma test
`comma >= 0`.
