# premiscsv2xml: the CSV-row to PREMIS mapping

`premiscsv2xml.py` turns two CSV files into one PREMIS 3.0 XML document.
The first file holds objects and the second holds events. Each CSV row
arrives as a dictionary from column name to cell text.

- `setup_xml` creates the root `<premis:premis>`. The root declares the
  `premis`, `xlink` and `xsi` prefixes, a schema location and `version="3.0"`.
- `describe_objects` maps each object row to an `<object>` and inserts it at
  index 0 of the root. The root therefore lists the objects in reverse row
  order. For each object:
  - `xsi:type` names the category.
  - The identifier is decoded from the text of a Python list, by dropping
    `[`, `]` and `'` and splitting at `", "`.
  - For a file only, an `<objectCharacteristics>` holds fixity, size and
    format, and a `<storage>` holds the content location.
  - Each non-empty `|`-separated entry of the linked-events cell becomes a
    `<linkingEventIdentifier>`, inserted at index 99.
- `describe_events` maps each event row to a fixed `<event>` skeleton. The
  skeleton holds the row's seven cells as texts and is inserted at index 99
  of the root.
- `create_unit` does every insertion. It creates a PREMIS-namespaced element
  and calls the parent's `insert(index, ...)`, and an index past the end
  means "append".

The model has seven modules.

- `Tree` holds the element tree. A live element is a `class Node` whose
  attributes, text and child list change in place. `Element` is the value a
  node denotes, and `Denotes(n, e, r)` ties a node to that value and to the
  set `r` of nodes below it. `CreateUnit` is `create_unit`. The builders
  `AddLeaf`, `AddPair` and the rest are the `create_unit` sequences that
  recur in the mapping.
- `Rows` holds rows, as maps from column name to cell, and the lookup of a
  list of columns. A lookup fails with the first missing column, as the
  source's `KeyError` does.
- `Text` holds the two string operations: `str.replace(c, '')` with a
  one-character pattern, and `str.split(sep)`.
- `Passes` holds the shape both row loops share: insert each row's element
  at a fixed index, and stop at the first row that cannot be mapped.
- `ObjectMapping` and `EventMapping` each have two parts:
  - Specification functions (`ObjectElement`, `DescribedObjects`,
    `EventElement`, `DescribedEvents`) give the element a row becomes, or
    the error it raises.
  - Methods (`DescribeObjects`, `DescribeEvents` and their helpers) build
    the live tree step by step, as the source does. Each is proved to leave
    the root denoting what the specification functions give.
- `Document` holds `setup_xml` and the part of `main` that calls the two
  passes.

Two details of the code are worth noting, and the model keeps both:

- Fixity, size and format are children of `<objectCharacteristics>`
  (premiscsv2xml.py:81-89), not of `<object>` itself.
- An identifier that decodes to more than two parts is accepted. Only
  `id_list[0]` and `id_list[1]` are used (premiscsv2xml.py:63-64), and any
  further part is ignored. Fewer than two parts raise an `IndexError`.

Some functions are reference definitions rather than properties:
`Rows.Cells`, `Tree.Attach`, `Passes.Values`, `EventMapping.EventResults`,
`ObjectMapping.ObjectResults` and `ObjectMapping.LinkElements`. Each names a
list built element by element, or a parent with one more child, and the
lemmas in the table state what holds of it.

## Model

| member | source | states |
|---|---|---|
| Rows.FirstMissing | premiscsv2xml.py:178-184 | the position of the first listed column the row lacks; every column before it is present |
| Rows.Lookup | premiscsv2xml.py:178-184 | a successful lookup of a list of columns yields one cell per column |
| Rows.LookupResult | premiscsv2xml.py:178-184 | a lookup succeeds exactly when every column is present; the cells then come in column order, and otherwise the error names the first missing column |
| Rows.LookupCells | premiscsv2xml.py:178-184 | when every column is present, the lookup yields exactly Cells |
| Text.RemoveChar | premiscsv2xml.py:45-47 | `replace(c, '')` leaves no `c`, keeps every other character and adds none |
| Text.RemoveCharConcat | premiscsv2xml.py:45-47 | removing a character distributes over concatenation |
| Text.RemoveCharAbsent | premiscsv2xml.py:45-47 | removing a character that does not occur changes nothing |
| Text.Split | premiscsv2xml.py:120 | `split` always yields at least one piece |
| Text.JoinSplit | premiscsv2xml.py:120 | joining the pieces with the separator gives the input back, so splitting loses nothing |
| Text.SplitWhole | premiscsv2xml.py:120 | a string without the separator splits into itself alone, so an empty events cell gives the single piece "" |
| Text.SplitCount | premiscsv2xml.py:45-47 | a string containing the separator splits into at least two pieces |
| Text.SplitFirst | premiscsv2xml.py:45-47 | when the first separator follows `t`, `t` is the first piece and the rest are the pieces of what follows |
| Text.FirstAbsent | premiscsv2xml.py:45-47 | a separator whose first character is absent does not occur |
| Text.SplitPiecesFree | premiscsv2xml.py:120-122 | no piece of a split at a one-character separator contains that character, so no event token holds a bar |
| Text.NonEmpty | premiscsv2xml.py:121-122 | the kept tokens are exactly the non-empty ones, none is added, and there are no more of them than pieces |
| Text.NonEmptyAppend | premiscsv2xml.py:121-122 | filtering the empty tokens distributes over concatenation, so order is kept |
| Tree.QualifiedInjective | premiscsv2xml.py:23-24 | distinct local names give distinct namespaced element names |
| Tree.Clamp | premiscsv2xml.py:25 | the position `insert` uses never exceeds the length and equals the index when the index is in range |
| Tree.Inserted | premiscsv2xml.py:25 | `insert` adds exactly one element; an index at or past the end appends, and index 0 prepends |
| Tree.InsertedAt | premiscsv2xml.py:25 | the new element sits at the clamped index, earlier elements stay put and later ones move up by one |
| Tree.InsertedMultiset | premiscsv2xml.py:25 | `insert` keeps every old element and adds the new one, losing and duplicating nothing |
| Tree.AttachInOrder | premiscsv2xml.py:54-62 | three children inserted at indexes that are each past the end of the list come out in call order |
| Tree.Node.constructor | premiscsv2xml.py:24 | a new element has the given name and no text or children |
| Tree.DenotesGrow | premiscsv2xml.py:19-26 | a subtree's value survives when more nodes are allowed below it |
| Tree.InsertDenotes | premiscsv2xml.py:25 | inserting a node into a child list inserts its value at the same place in the values |
| Tree.Adopt | premiscsv2xml.py:25 | a parent that gained a filled child at an index denotes its old value with that child's value inserted there |
| Tree.CreateUnit | premiscsv2xml.py:19-26 | a fresh, empty, PREMIS-namespaced element is inserted into the parent's child list at the clamped index, the other children keeping their order |
| Tree.AddLeaf | premiscsv2xml.py:57-64 | create_unit followed by setting the new element's text inserts a text-bearing element and leaves the rest of the parent as it was |
| Tree.AddSingle | premiscsv2xml.py:160-165 | an element holding one text-bearing child is inserted |
| Tree.FillPair | premiscsv2xml.py:54-64 | two text-bearing children inserted into an empty element end up in call order |
| Tree.AddPair | premiscsv2xml.py:54-64 | an element holding two text-bearing children, in call order, is inserted |
| Tree.FillTriple | premiscsv2xml.py:103-114 | three text-bearing children inserted into an empty element end up in call order |
| Tree.AddTriple | premiscsv2xml.py:81-114 | an element holding three text-bearing children, in call order, is inserted |
| Passes.Reverse | premiscsv2xml.py:48-50 | element k of the result is element n-1-k of the input |
| Passes.ReverseMultiset | premiscsv2xml.py:48-50 | reversing keeps every element exactly once |
| Passes.InsertAllStep | premiscsv2xml.py:141-144 | one more row either inserts its element into the current root or stops the pass with its error |
| Passes.InsertAllSucceeds | premiscsv2xml.py:44-134 | a pass succeeds exactly when every row maps |
| Passes.InsertAllFirstError | premiscsv2xml.py:44-134 | a failing pass reports the error of the first row that does not map |
| Passes.InsertAllMultiset | premiscsv2xml.py:44-184 | a pass in which every row maps adds exactly one element per row to the parent, at any index and for any number of rows, losing and duplicating nothing |
| Passes.InsertAllPrefix | premiscsv2xml.py:142-144 | insertions at `index` never move the parent's first `index` children |
| Passes.InsertAllAppends | premiscsv2xml.py:141-144 | while the parent holds at most `index` children before each insertion, the elements follow the existing children in row order |
| Passes.InsertAllPrepends | premiscsv2xml.py:48-50 | inserting at index 0 puts the elements before the existing children in reverse row order |
| Passes.InsertBeforeEnd | premiscsv2xml.py:142-144 | once the parent holds more than `index` children, the new element lands at `index` and the old last child stays last |
| Passes.AppendAllInOrder | premiscsv2xml.py:142-144 | appending each element keeps row order after the existing children, whatever their number |
| EventMapping.EventTexts | premiscsv2xml.py:178-184 | the texts of an event skeleton, in document order, are the seven cells in the order they are read |
| EventMapping.EventElementResult | premiscsv2xml.py:141-184 | an event row maps exactly when it has all seven columns; the event is then the skeleton over the row's cells, and otherwise the error names the first missing column in reading order |
| EventMapping.EventCarriesRow | premiscsv2xml.py:178-184 | the texts of a mapped event are the row's seven cells, unchanged |
| EventMapping.DescribedEventsSucceed | premiscsv2xml.py:141-184 | describe_events succeeds exactly when every event row maps |
| EventMapping.DescribedEventsStop | premiscsv2xml.py:141-184 | the first event row that does not map ends the pass with that row's error |
| EventMapping.DescribedEventsAppend | premiscsv2xml.py:141-144 | while the root never holds more than 100 children, the events follow the existing children in row order |
| EventMapping.EventNotLast | premiscsv2xml.py:142-144 | with more than 99 children in the root, the new event lands at position 99 and the old last child stays last |
| EventMapping.AppendedEventsInOrder | premiscsv2xml.py:142-144 | with appending, the events follow the existing children in row order however many there are |
| EventMapping.FillOutcomeInformation | premiscsv2xml.py:166-177 | an empty eventOutcomeInformation gets eventOutcome and then eventOutcomeDetail holding its note |
| EventMapping.AddOutcomeInformation | premiscsv2xml.py:166-177 | a filled eventOutcomeInformation is inserted into the event |
| EventMapping.EventBuilt | premiscsv2xml.py:145-177 | the five insertions at indexes 1, 1, 2, 3 and 4 into an empty event give the skeleton's children in order |
| EventMapping.FillEvent | premiscsv2xml.py:145-184 | an empty event ends up denoting the skeleton filled with the seven cells |
| EventMapping.AddEvent | premiscsv2xml.py:142-184 | the root gains the filled event at index 99 and nothing else changes |
| EventMapping.DescribeEvent | premiscsv2xml.py:141-184 | one row either adds its event at index 99 or leaves the root unchanged and reports the first missing column |
| EventMapping.DescribeEvents | premiscsv2xml.py:137-184 | describe_events succeeds exactly when DescribedEvents does, leaving the root denoting its value, and otherwise reports its error |
| ObjectMapping.DecodeIdentifier | premiscsv2xml.py:45-47 | decoding always yields at least one part, so `id_list[0]` exists |
| ObjectMapping.IdentifierRoundTrip | premiscsv2xml.py:45-64 | the text of a two-element list, written `['T', 'V']` or `[T, V]`, decodes to its two elements, type first and value second, when neither holds a bracket, a quote or ", " |
| ObjectMapping.DecodeStripped | premiscsv2xml.py:45-47 | any cell that the three replacements turn into `t, v` decodes to `[t, v]` when neither part holds ", " |
| ObjectMapping.UuidIdentifier | premiscsv2xml.py:45-64 | the cell `[UUID, abc-123]` decodes to the type `UUID` and the value `abc-123` |
| ObjectMapping.FirstSeparator | premiscsv2xml.py:47 | when `t` holds no ", ", the first ", " in `t, v` is the one right after `t` |
| ObjectMapping.RemoveAround | premiscsv2xml.py:45-47 | removing a character absent from `t` and `v` only changes the literal parts around them |
| ObjectMapping.RemoveInside | premiscsv2xml.py:45-47 | the same, when the outer literal parts disappear entirely |
| ObjectMapping.StripOpen | premiscsv2xml.py:45-46 | dropping `[` from a list's text drops only its opening bracket |
| ObjectMapping.StripClose | premiscsv2xml.py:47 | dropping `]` drops only the closing bracket |
| ObjectMapping.StripQuotes | premiscsv2xml.py:47 | dropping the quotes leaves `t, v` |
| ObjectMapping.StripListText | premiscsv2xml.py:45-47 | the three replacements turn the list text into `t, v` |
| ObjectMapping.PlainOpen | premiscsv2xml.py:45-46 | dropping `[` from `[t, v]` drops only its opening bracket |
| ObjectMapping.DropLast | premiscsv2xml.py:47 | dropping a character that occurs only at the end removes just that last character |
| ObjectMapping.StripPlainListText | premiscsv2xml.py:45-47 | the three replacements turn `[t, v]` into `t, v` |
| ObjectMapping.IdentifierMalformed | premiscsv2xml.py:63-64 | `id_list[1]` is missing exactly when the stripped identifier holds no ", " |
| ObjectMapping.AttachLinksKeeps | premiscsv2xml.py:120-133 | the link loop changes only the object's children and adds one per non-empty token |
| ObjectMapping.AttachLinksMultiset | premiscsv2xml.py:120-133 | the link loop adds exactly one link per non-empty token, wherever it lands, and removes nothing |
| ObjectMapping.LinksAfter | premiscsv2xml.py:120-133 | on an object with at most 99 children, the loop leaves those children first and puts exactly the links after them, in some order, however many tokens there are |
| ObjectMapping.LinksAppended | premiscsv2xml.py:120-133 | when the object's children plus its non-empty tokens number at most 100, the links follow its other children in token order, one per non-empty token |
| ObjectMapping.LinkNotLast | premiscsv2xml.py:123-125 | with more than 99 children in the object, a new link lands at position 99 and the old last child stays last |
| ObjectMapping.AppendedLinksInOrder | premiscsv2xml.py:123-125 | with appending, the links follow the other children in token order however many there are |
| ObjectMapping.ObjectElementResult | premiscsv2xml.py:44-134 | an object row maps exactly when it is Mappable; otherwise the error is the first failure in reading order: a missing identifier or category, a malformed identifier, a missing file column, then a missing events column |
| ObjectMapping.ObjectElementValue | premiscsv2xml.py:44-134 | a row that maps becomes the object built from its decoded identifier, its category, its file cells and its event tokens |
| ObjectMapping.BodyShape | premiscsv2xml.py:48-133 | an object has the category in `xsi:type`, the identifier first, characteristics and storage second and third exactly for a file, and after them exactly the links for the non-empty tokens and nothing else; the links are in token order when at most 100 children result |
| ObjectMapping.ObjectContents | premiscsv2xml.py:44-133 | a mapped object carries the row's category and decoded identifier, for a file the characteristics and storage built from its cells, and after them exactly the links for the non-empty event tokens and nothing else; the links are in token order when at most 100 children result |
| ObjectMapping.AttachLinksPrefix | premiscsv2xml.py:123-125 | the link insertions at index 99 leave the object's first children, up to 99 of them, in place |
| ObjectMapping.DescribedObjectsSucceed | premiscsv2xml.py:44-134 | describe_objects succeeds exactly when every object row maps |
| ObjectMapping.DescribedObjectsReversed | premiscsv2xml.py:48-50 | the objects come before the existing children, last row first |
| ObjectMapping.DescribedObjectsStop | premiscsv2xml.py:44-134 | the first object row that does not map ends the pass with that row's error |
| ObjectMapping.AddFormat | premiscsv2xml.py:87-101 | a format holding formatRegistry with name, key and role in that order is inserted |
| ObjectMapping.FillCharacteristics | premiscsv2xml.py:81-117 | an empty objectCharacteristics gets fixity (algorithm, digest, originator), size and format, in that order, with the row's cells as texts |
| ObjectMapping.AddCharacteristics | premiscsv2xml.py:66-117 | a filled objectCharacteristics is inserted into the object |
| ObjectMapping.AddStorage | premiscsv2xml.py:69-80 | a storage holding contentLocation with type and value is inserted |
| ObjectMapping.AddLinks | premiscsv2xml.py:120-133 | the link loop leaves the object denoting AttachLinks over the tokens |
| ObjectMapping.FillObject | premiscsv2xml.py:54-133 | an object with only its `xsi:type` gets the identifier, for a file the characteristics and storage, and then its links |
| ObjectMapping.ObjectBuilt | premiscsv2xml.py:54-71 | the insertions at indexes 2, 5 and 7 into an empty object give the identifier, characteristics and storage in that order |
| ObjectMapping.AddObject | premiscsv2xml.py:48-133 | the root gains the filled object at index 0 and nothing else changes |
| ObjectMapping.DescribeObject | premiscsv2xml.py:44-133 | one row either adds its object at index 0 or leaves the root unchanged and reports the first failure |
| ObjectMapping.DescribeObjects | premiscsv2xml.py:39-134 | describe_objects succeeds exactly when DescribedObjects does, leaving the root denoting its value, and otherwise reports its error |
| Document.SetupXml | premiscsv2xml.py:29-36 | a fresh root with the PREMIS name, the three namespace declarations, the schema location, version 3.0 and no children |
| Document.DocumentSucceeds | premiscsv2xml.py:222-224 | the conversion succeeds exactly when every object row and every event row maps; a failing object row stops it before any event row |
| Document.ObjectsInRoot | premiscsv2xml.py:222-223 | after describe_objects the root holds the objects, last row first, and nothing else |
| Document.DocumentLayout | premiscsv2xml.py:222-224 | with at most 100 rows in all, the document holds the objects in reverse row order and then the events in row order |
| Document.DocumentMultiset | premiscsv2xml.py:222-224 | for any number of rows, a successful conversion holds exactly one top-level element per object row and per event row, none lost or repeated |
| Document.ObjectsStayFirst | premiscsv2xml.py:142-144 | however many events follow, the root's first objects, up to 99 of them, keep their places |
| Document.EventAmongObjects | premiscsv2xml.py:142-144 | with more than 99 objects, an event lands at position 99, and the first row's object follows it |
| Document.CorrectedDocumentLayout | premiscsv2xml.py:142-144 | with the events appended, the objects in reverse row order are followed by the events in row order, however many rows there are |
| Document.BuildDocument | premiscsv2xml.py:222-224 | the root built from both passes denotes Document's value exactly when Document succeeds, and otherwise the outcome carries Document's error |

## Left out

- Reading the CSV files (`ififuncs.extract_metadata`, premiscsv2xml.py:220-221) is not modelled. That module is not part of this model. Rows are given as maps from column name to cell.
- Argument parsing (`parse_args`, premiscsv2xml.py:188-209) is not modelled.
- Writing the document (`write_premis`, premiscsv2xml.py:11-16) is not modelled. `main` (premiscsv2xml.py:212-224) never calls it, so the print at premiscsv2xml.py:185 is the run's only output. That print is output only and is not modelled either.
- `setup_xml` parses a fixed XML literal. The model builds the same root directly as a constant and does not model XML parsing or serialisation.
- Text and attribute values that XML cannot hold are not modelled. lxml raises `ValueError` when a value set as `.text` or as an attribute holds NUL or another C0 control character other than tab, newline and carriage return (premiscsv2xml.py:51-53, 63-64, 102-119, 132-133 and 178-184). The success conditions (ObjectMapping.Mappable, ObjectMapping.ObjectElementResult, EventMapping.EventElementResult, Document.DocumentSucceeds) assume cells without such characters; for a row holding one, the source fails where the model says the row maps.
- Negative insertion indexes are not modelled, because no call site passes one.
- ObjectMapping.DescribeObject: when a row cannot be mapped, the model changes nothing. The source has usually already inserted a partial `<object>` (or, in `describe_events`, a partial `<event>`) before it raises. The exception ends the program before anything is written, so the model reports the same error and omits the partial tree.
- EventMapping.DescribeEvent: the same as DescribeObject, for the partial `<event>`.
- Tree.AddLeaf: the source creates every element of a skeleton first and sets the texts afterwards (for example premiscsv2xml.py:102-119 and 178-184). The model sets each text when the element is created. The final tree is the same, because nothing reads a text in between. The source can also raise a `KeyError` between two text assignments; that case is covered by DescribeObject above.
- An element's text is a string whose default is "". lxml's distinction between no text (`None`) and empty text is not modelled.
- `Node.nsmap` holds only the namespace declarations made on that element. lxml's inherited namespace view is not modelled.
- ObjectMapping.FillObject: the model fills `<objectCharacteristics>` before it creates `<storage>`. The source creates `<storage>` (premiscsv2xml.py:69-80) before it fills the characteristics (premiscsv2xml.py:81-101). The model creates and fills each in turn, characteristics first, at the same indexes 5 and 7. Likewise the source creates fixity's children (premiscsv2xml.py:103-111) after size and format (premiscsv2xml.py:84-101), while FillCharacteristics creates them right after fixity. Each fill touches only its own subtree, so the final object is the same.
- The builders that fill a subtree (FillPair, FillEvent, FillObject and the others) work on an element that has no children yet. That matches every call in the source.

## Findings

| source | as written | input that shows it | evidently intended | confidence | as-written member | corrected member |
|---|---|---|---|---|---|---|
| premiscsv2xml.py:142-144 | every `<event>` is inserted at index 99 of the root | 100 object rows and one event row: the event becomes child 99, and the object of the first row comes after it | the events follow all the objects, in row order | not executed | Document.EventAmongObjects | Document.CorrectedDocumentLayout |
| premiscsv2xml.py:123-125 | every `<linkingEventIdentifier>` is inserted at index 99 of its object | a non-file object whose events cell holds 100 non-empty tokens: the last link lands before the 99th token's link | the links follow the object's other children, in token order | not executed | ObjectMapping.LinkNotLast | ObjectMapping.AppendedLinksInOrder |

The methods model the code as written. `Document.CorrectedDocument` and
`ObjectMapping.AppendLinks` define the corrected behaviour, and the corrected
members above prove the intended order about them.
