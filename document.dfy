/**
 * The whole conversion: setup_xml builds the empty <premis:premis> root,
 * describe_objects fills it with the objects and describe_events then adds
 * the events to the same root.
 */
module Document {
  import opened Rows
  import opened Tree
  import opened Passes
  import opened EventMapping
  import opened ObjectMapping

  const XlinkNamespace := "http://www.w3.org/1999/xlink"
  const XsiNamespace := "http://www.w3.org/2001/XMLSchema-instance"

  /** The Clark name of the `xsi:schemaLocation` attribute. */
  const SchemaLocation := "{" + XsiNamespace + "}schemaLocation"

  /** The root setup_xml parses: prefixes for PREMIS, XLink and XSI, the schema location and version 3.0. */
  function PremisRoot(): Element
  {
    Element(Qualified("premis"),
            map["premis" := PremisNamespace, "xlink" := XlinkNamespace, "xsi" := XsiNamespace],
            map[SchemaLocation := PremisNamespace + " https://www.loc.gov/standards/premis/premis.xsd", "version" := "3.0"],
            "", [])
  }

  /** setup_xml: a fresh root holding nothing but its namespaces and attributes. */
  method SetupXml() returns (premis: Node)
    ensures fresh(premis) && Denotes(premis, PremisRoot(), {})
  {
    var root := PremisRoot();
    premis := new Node(root.name, root.nsmap, root.attrs);
  }

  /**
   * The root after both passes, or the error that stopped them: the event
   * rows are only reached once every object row has been mapped.
   */
  function Document(objectRows: seq<Row>, eventRows: seq<Row>): Result<Element>
  {
    match DescribedObjects(PremisRoot(), objectRows)
    case Failure(e) => Failure(e)
    case Success(d) => DescribedEvents(d, eventRows)
  }

  /**
   * The conversion succeeds exactly when every object row and every event
   * row maps; an object row that does not map stops it before any event is
   * looked at.
   */
  lemma DocumentSucceeds(objectRows: seq<Row>, eventRows: seq<Row>)
    ensures Document(objectRows, eventRows).Success? <==>
              AllSucceed(ObjectResults(objectRows)) && AllSucceed(EventResults(eventRows))
    ensures !AllSucceed(ObjectResults(objectRows)) ==>
              DescribedObjects(PremisRoot(), objectRows).Failure? &&
              Document(objectRows, eventRows) == Failure(DescribedObjects(PremisRoot(), objectRows).error)
  {
    InsertAllSucceeds(PremisRoot(), ObjectIndex, ObjectResults(objectRows));
    if AllSucceed(ObjectResults(objectRows)) {
      InsertAllSucceeds(DescribedObjects(PremisRoot(), objectRows).value, EventIndex, EventResults(eventRows));
    }
  }

  /** The root once the objects are in: their elements, last row first. */
  lemma ObjectsInRoot(objectRows: seq<Row>)
    requires AllSucceed(ObjectResults(objectRows))
    ensures DescribedObjects(PremisRoot(), objectRows) ==
              Success(PremisRoot().(children := Reverse(Values(ObjectResults(objectRows)))))
  {
    DescribedObjectsReversed(PremisRoot(), objectRows);
    assert Reverse(Values(ObjectResults(objectRows))) + [] == Reverse(Values(ObjectResults(objectRows)));
  }

  /**
   * With at most 100 rows in all, the document holds the objects in
   * reverse row order, followed by the events in row order.
   */
  lemma DocumentLayout(objectRows: seq<Row>, eventRows: seq<Row>)
    requires AllSucceed(ObjectResults(objectRows)) && AllSucceed(EventResults(eventRows))
    requires |objectRows| + |eventRows| <= EventIndex + 1
    ensures Document(objectRows, eventRows) ==
              Success(PremisRoot().(children := Reverse(Values(ObjectResults(objectRows))) + Values(EventResults(eventRows))))
  {
    ObjectsInRoot(objectRows);
    DescribedEventsAppend(DescribedObjects(PremisRoot(), objectRows).value, eventRows);
  }

  /**
   * However many rows there are, a conversion in which every row maps holds
   * exactly one top-level element per row: each object and each event,
   * none lost and none repeated.
   */
  lemma DocumentMultiset(objectRows: seq<Row>, eventRows: seq<Row>)
    requires AllSucceed(ObjectResults(objectRows)) && AllSucceed(EventResults(eventRows))
    ensures Document(objectRows, eventRows).Success?
    ensures multiset(Document(objectRows, eventRows).value.children) ==
              multiset(Values(ObjectResults(objectRows))) + multiset(Values(EventResults(eventRows)))
    ensures |Document(objectRows, eventRows).value.children| == |objectRows| + |eventRows|
  {
    ObjectsInRoot(objectRows);
    var d := DescribedObjects(PremisRoot(), objectRows).value;
    ReverseMultiset(Values(ObjectResults(objectRows)));
    InsertAllMultiset(d, EventIndex, EventResults(eventRows));
    assert |Document(objectRows, eventRows).value.children| ==
           |multiset(Document(objectRows, eventRows).value.children)|;
  }

  /**
   * However many events follow, the first 99 objects of the root (last row
   * first) keep their places.
   */
  lemma ObjectsStayFirst(objectRows: seq<Row>, eventRows: seq<Row>, m: nat)
    requires AllSucceed(ObjectResults(objectRows)) && AllSucceed(EventResults(eventRows))
    requires m <= |objectRows| && m <= EventIndex
    ensures Document(objectRows, eventRows).Success?
    ensures |Document(objectRows, eventRows).value.children| >= m
    ensures Document(objectRows, eventRows).value.children[..m] == Reverse(Values(ObjectResults(objectRows)))[..m]
  {
    ObjectsInRoot(objectRows);
    var d := DescribedObjects(PremisRoot(), objectRows).value;
    InsertAllPrefix(d, EventIndex, EventResults(eventRows), m);
  }

  /**
   * With 100 or more objects, a single event lands at position 99, among
   * the objects: the <object> of the first row still follows it.
   */
  lemma EventAmongObjects(objectRows: seq<Row>, row: Row)
    requires AllSucceed(ObjectResults(objectRows)) && |objectRows| > EventIndex
    requires EventElement(row).Success?
    ensures Document(objectRows, [row]).Success?
    ensures |Document(objectRows, [row]).value.children| == |objectRows| + 1
    ensures Document(objectRows, [row]).value.children[EventIndex] == EventElement(row).value
    ensures Document(objectRows, [row]).value.children[|objectRows|] == ObjectElement(objectRows[0]).value
  {
    ObjectsInRoot(objectRows);
    var d := DescribedObjects(PremisRoot(), objectRows).value;
    EventNotLast(d, row);
    var objects := Values(ObjectResults(objectRows));
    assert d.children[|d.children| - 1] == objects[0];
  }

  /** The corrected conversion: the events appended after the objects. */
  function CorrectedDocument(objectRows: seq<Row>, eventRows: seq<Row>): Result<Element>
  {
    match DescribedObjects(PremisRoot(), objectRows)
    case Failure(e) => Failure(e)
    case Success(d) => AppendedEvents(d, eventRows)
  }

  /** Corrected, the objects precede the events however many rows there are. */
  lemma CorrectedDocumentLayout(objectRows: seq<Row>, eventRows: seq<Row>)
    requires AllSucceed(ObjectResults(objectRows)) && AllSucceed(EventResults(eventRows))
    ensures CorrectedDocument(objectRows, eventRows) ==
              Success(PremisRoot().(children := Reverse(Values(ObjectResults(objectRows))) + Values(EventResults(eventRows))))
  {
    ObjectsInRoot(objectRows);
    AppendedEventsInOrder(DescribedObjects(PremisRoot(), objectRows).value, eventRows);
  }

  /**
   * main, past reading its arguments and the two CSV files: set up the
   * root, describe the objects and, if that succeeded, the events.
   */
  method BuildDocument(objectRows: seq<Row>, eventRows: seq<Row>)
    returns (premis: Node, outcome: Outcome, ghost doc: Element, ghost r: set<Node>)
    ensures premis !in r && Denotes(premis, doc, r)
    ensures outcome == Done <==> Document(objectRows, eventRows).Success?
    ensures outcome == Done ==> doc == Document(objectRows, eventRows).value
    ensures outcome.Failed? ==> outcome.error == Document(objectRows, eventRows).error
  {
    premis := SetupXml();
    outcome, doc, r := DescribeObjects(premis, objectRows, PremisRoot(), {});
    if outcome.Failed? {
      return;
    }
    outcome, doc, r := DescribeEvents(premis, eventRows, doc, r);
  }
}
