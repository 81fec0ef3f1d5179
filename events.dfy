/**
 * describe_events: each event row becomes an <event> element inserted into
 * the root at index 99, with a fixed skeleton whose seven texts are copied
 * from the row unchanged.
 */
module EventMapping {
  import opened Rows
  import opened Tree
  import opened Passes

  /** The columns an event row must have, in the order the mapping reads them. */
  const EventFields: seq<string> := [
    "eventIdentifierType", "eventIdentifierValue", "eventType", "eventDateTime",
    "eventDetail", "eventOutcome", "eventOutcomeDetailNote"]

  /** The index describe_events passes to create_unit for every event. */
  const EventIndex: nat := 99

  /** The <event> skeleton filled with the seven cell texts `v`, in EventFields order. */
  function EventTree(v: seq<string>): Element
    requires |v| == 7
  {
    Unit("event", [
      Unit("eventIdentifier", [Leaf("eventIdentifierType", v[0]), Leaf("eventIdentifierValue", v[1])]),
      Leaf("eventType", v[2]),
      Leaf("eventDateTime", v[3]),
      Unit("eventDetailInformation", [Leaf("eventDetail", v[4])]),
      OutcomeInformation(v[5], v[6])])
  }

  /** The <eventOutcomeInformation> part of an <event>. */
  function OutcomeInformation(outcome: string, note: string): Element
  {
    Unit("eventOutcomeInformation", [
      Leaf("eventOutcome", outcome),
      Unit("eventOutcomeDetail", [Leaf("eventOutcomeDetailNote", note)])])
  }

  /** The texts of an <event>, read in document order, are the row's cells in EventFields order. */
  lemma EventTexts(v: seq<string>)
    requires |v| == 7
    ensures Texts(EventTree(v)) == v
  {
    var t := EventTree(v);
    var identifier, detail, outcome := t.children[0], t.children[3], t.children[4];
    assert Texts(identifier) == [v[0], v[1]] by {
      TextsOfCons(identifier.children[0], identifier.children[1..]);
      TextsOfSingle(identifier.children[1]);
      assert identifier.children == [identifier.children[0]] + [identifier.children[1]];
    }
    assert Texts(detail) == [v[4]] by {
      TextsOfSingle(detail.children[0]);
    }
    assert Texts(outcome) == [v[5], v[6]] by {
      var outcomeDetail := outcome.children[1];
      assert Texts(outcomeDetail) == [v[6]] by {
        TextsOfSingle(outcomeDetail.children[0]);
      }
      TextsOfCons(outcome.children[0], [outcomeDetail]);
      TextsOfSingle(outcomeDetail);
      assert outcome.children == [outcome.children[0]] + [outcomeDetail];
    }
    TextsOfSingle(outcome);
    TextsOfCons(detail, [outcome]);
    TextsOfCons(t.children[2], [detail, outcome]);
    TextsOfCons(t.children[1], [t.children[2], detail, outcome]);
    TextsOfCons(identifier, t.children[1..]);
    assert t.children == [identifier] + t.children[1..];
    assert [detail] + [outcome] == [detail, outcome];
    assert [t.children[2]] + [detail, outcome] == [t.children[2], detail, outcome];
    assert [t.children[1]] + [t.children[2], detail, outcome] == t.children[1..];
  }

  /** The <event> a row becomes, or the first column it lacks. */
  function EventElement(row: Row): Result<Element>
  {
    match Lookup(row, EventFields)
    case Failure(e) => Failure(e)
    case Success(v) => Success(EventTree(v))
  }

  /**
   * A row maps exactly when it has all seven columns; the <event> then
   * carries the cells, and otherwise the error names the first column, in
   * EventFields order, that the row lacks.
   */
  lemma EventElementResult(row: Row)
    ensures EventElement(row).Success? <==> forall f :: f in EventFields ==> f in row
    ensures EventElement(row).Success? ==>
              EventElement(row).value == EventTree(Cells(row, EventFields))
    ensures EventElement(row).Failure? ==>
              EventElement(row).error == MissingField(EventFields[FirstMissing(row, EventFields)])
  {
    LookupResult(row, EventFields);
    if Lookup(row, EventFields).Success? {
      LookupCells(row, EventFields);
    }
  }

  /** The cells an <event> carries are the row's values, column by column. */
  lemma EventCarriesRow(row: Row)
    requires EventElement(row).Success?
    ensures forall f :: f in EventFields ==> f in row
    ensures Texts(EventElement(row).value) == Cells(row, EventFields)
  {
    EventElementResult(row);
    EventTexts(Cells(row, EventFields));
  }

  /** What each row maps to, in row order. */
  function EventResults(rows: seq<Row>): (rs: seq<Result<Element>>)
    ensures |rs| == |rows|
    ensures forall k :: 0 <= k < |rows| ==> rs[k] == EventElement(rows[k])
  {
    seq(|rows|, k requires 0 <= k < |rows| => EventElement(rows[k]))
  }

  /**
   * The root `doc` after describe_events has processed `rows`: each <event>
   * inserted at index 99 in turn, or the error of the first row that lacks
   * a column.
   */
  function DescribedEvents(doc: Element, rows: seq<Row>): Result<Element>
  {
    InsertAll(doc, EventIndex, EventResults(rows))
  }

  /** The pass succeeds exactly when every row has all seven columns. */
  lemma DescribedEventsSucceed(doc: Element, rows: seq<Row>)
    ensures DescribedEvents(doc, rows).Success? <==> forall k :: 0 <= k < |rows| ==> EventElement(rows[k]).Success?
  {
    InsertAllSucceeds(doc, EventIndex, EventResults(rows));
  }

  /**
   * Once the rows before `rows[k]` have been processed, a row lacking a
   * column ends the pass with that row's error.
   */
  lemma DescribedEventsStop(doc: Element, rows: seq<Row>, k: nat, d: Element)
    requires k < |rows| && EventElement(rows[k]).Failure?
    requires InsertAll(doc, EventIndex, EventResults(rows)[..k]) == Success(d)
    ensures DescribedEvents(doc, rows) == Failure(EventElement(rows[k]).error)
  {
    var rs := EventResults(rows);
    InsertAllSucceeds(doc, EventIndex, rs[..k]);
    assert forall j :: 0 <= j < k ==> rs[..k][j] == rs[j];
    InsertAllFirstError(doc, EventIndex, rs, k);
  }

  /**
   * While the root never holds more than 99 children before an insertion,
   * index 99 is past the end every time: the events follow the existing
   * children, in row order.
   */
  lemma DescribedEventsAppend(doc: Element, rows: seq<Row>)
    requires AllSucceed(EventResults(rows))
    requires |doc.children| + |rows| <= EventIndex + 1
    ensures DescribedEvents(doc, rows) == Success(doc.(children := doc.children + Values(EventResults(rows))))
  {
    InsertAllAppends(doc, EventIndex, EventResults(rows));
  }

  /**
   * Once the root holds 100 or more children (objects and earlier events),
   * the next <event> lands at position 99 instead of at the end.
   */
  lemma EventNotLast(d: Element, row: Row)
    requires EventElement(row).Success? && |d.children| > EventIndex
    ensures InsertAll(d, EventIndex, EventResults([row])) ==
              Success(d.(children := Inserted(d.children, EventIndex, EventElement(row).value)))
    ensures Inserted(d.children, EventIndex, EventElement(row).value)[EventIndex] == EventElement(row).value
    ensures Inserted(d.children, EventIndex, EventElement(row).value)[|d.children|] == d.children[|d.children| - 1]
  {
    assert EventResults([row])[..0] == [];
    InsertBeforeEnd(d, EventIndex, EventElement(row).value);
  }

  /** The corrected pass: every <event> appended to the root. */
  function AppendedEvents(doc: Element, rows: seq<Row>): Result<Element>
  {
    AppendAll(doc, EventResults(rows))
  }

  /** Appended, the events follow the existing children in row order, however many there are. */
  lemma AppendedEventsInOrder(doc: Element, rows: seq<Row>)
    requires AllSucceed(EventResults(rows))
    ensures AppendedEvents(doc, rows) == Success(doc.(children := doc.children + Values(EventResults(rows))))
  {
    AppendAllInOrder(doc, EventResults(rows));
  }

  /** Fills an empty <eventOutcomeInformation> with <eventOutcome> and <eventOutcomeDetail>. */
  method FillOutcomeInformation(unit: Node, outcome: string, note: string, ghost outside: set<Node>)
    returns (ghost below: set<Node>)
    requires Denotes(unit, Unit("eventOutcomeInformation", []), {}) && unit in outside
    modifies unit`children
    ensures outside !! below
    ensures Denotes(unit, OutcomeInformation(outcome, note), below)
  {
    ghost var first := Leaf("eventOutcome", outcome);
    ghost var second := Unit("eventOutcomeDetail", [Leaf("eventOutcomeDetailNote", note)]);
    AttachInOrder("eventOutcomeInformation", 1, first, 2, second, 2, second);
    below := AddLeaf(1, unit, "eventOutcome", outcome, Unit("eventOutcomeInformation", []), {}, outside);
    below := AddSingle(2, unit, "eventOutcomeDetail", 1, "eventOutcomeDetailNote", note,
                       Unit("eventOutcomeInformation", [first]), below, outside);
  }

  /** Adds a filled <eventOutcomeInformation> to `parent`. */
  method AddOutcomeInformation(index: nat, parent: Node, outcome: string, note: string,
                               ghost e: Element, ghost r: set<Node>, ghost outside: set<Node>)
    returns (ghost r': set<Node>)
    requires Denotes(parent, e, r) && parent in outside && outside !! r
    modifies parent`children
    ensures r <= r' && outside !! r'
    ensures Denotes(parent, Attach(e, index, OutcomeInformation(outcome, note)), r')
  {
    ghost var u := OutcomeInformation(outcome, note);
    ghost var ks := parent.children;
    assert ChildrenDenote(ks, e.children, r);
    var unit := CreateUnit(index, parent, "eventOutcomeInformation");
    ghost var below := FillOutcomeInformation(unit, outcome, note, outside + {unit});
    r' := r + {unit} + below;
    Adopt(parent, e, ks, r, index, unit, u, below);
  }

  /** The child insertions describe_events performs on an empty <event>, as values. */
  lemma EventBuilt(v: seq<string>)
    requires |v| == 7
    ensures
      var t := EventTree(v);
      Attach(Attach(Attach(Attach(Attach(Unit("event", []), 1, t.children[0]), 1, t.children[1]),
        2, t.children[2]), 3, t.children[3]), 4, t.children[4]) == t
  {
  }

  /** Fills an empty <event> with the skeleton and the seven texts `v`. */
  method FillEvent(eventParent: Node, v: seq<string>, ghost outside: set<Node>)
    returns (ghost below: set<Node>)
    requires |v| == 7
    requires Denotes(eventParent, Unit("event", []), {}) && eventParent in outside
    modifies eventParent`children
    ensures outside !! below
    ensures Denotes(eventParent, EventTree(v), below)
  {
    ghost var t := EventTree(v);
    ghost var e := Unit("event", []);
    below := AddPair(1, eventParent, "eventIdentifier", 1, "eventIdentifierType", v[0], 2, "eventIdentifierValue", v[1],
                     e, {}, outside);
    e := Attach(e, 1, t.children[0]);
    below := AddLeaf(1, eventParent, "eventType", v[2], e, below, outside);
    e := Attach(e, 1, t.children[1]);
    below := AddLeaf(2, eventParent, "eventDateTime", v[3], e, below, outside);
    e := Attach(e, 2, t.children[2]);
    below := AddSingle(3, eventParent, "eventDetailInformation", 1, "eventDetail", v[4], e, below, outside);
    e := Attach(e, 3, t.children[3]);
    below := AddOutcomeInformation(4, eventParent, v[5], v[6], e, below, outside);
    e := Attach(e, 4, t.children[4]);
    EventBuilt(v);
  }

  /** Creates an <event> at index 99 of the root and fills it with the cells `v`. */
  method AddEvent(premis: Node, v: seq<string>, ghost doc: Element, ghost r: set<Node>)
    returns (ghost r': set<Node>)
    requires |v| == 7
    requires Denotes(premis, doc, r) && premis !in r
    modifies premis`children
    ensures premis !in r' && Denotes(premis, Attach(doc, EventIndex, EventTree(v)), r')
  {
    ghost var ks := premis.children;
    assert ChildrenDenote(ks, doc.children, r);
    var eventParent := CreateUnit(EventIndex, premis, "event");
    ghost var below := FillEvent(eventParent, v, {premis, eventParent});
    r' := r + {eventParent} + below;
    Adopt(premis, doc, ks, r, EventIndex, eventParent, EventTree(v), below);
  }

  /**
   * One pass of the describe_events loop: the row's columns are looked up,
   * then an <event> is created at index 99 of the root and filled. A row
   * lacking a column leaves the root as it was and reports that column.
   */
  method DescribeEvent(premis: Node, row: Row, ghost doc: Element, ghost r: set<Node>)
    returns (outcome: Outcome, ghost doc': Element, ghost r': set<Node>)
    requires Denotes(premis, doc, r) && premis !in r
    modifies premis`children
    ensures premis !in r' && Denotes(premis, doc', r')
    ensures EventElement(row).Failure? ==>
              outcome == Failed(EventElement(row).error) && doc' == doc && premis.children == old(premis.children)
    ensures EventElement(row).Success? ==> outcome == Done && doc' == Attach(doc, EventIndex, EventElement(row).value)
  {
    var found := Lookup(row, EventFields);
    if found.Failure? {
      return Failed(found.error), doc, r;
    }
    r' := AddEvent(premis, found.value, doc, r);
    outcome, doc' := Done, Attach(doc, EventIndex, EventTree(found.value));
  }

  /**
   * describe_events: the rows are processed in order until one lacks a
   * column. On success the root holds the value DescribedEvents gives;
   * otherwise the error is that of the first such row.
   */
  method DescribeEvents(premis: Node, rows: seq<Row>, ghost doc: Element, ghost r: set<Node>)
    returns (outcome: Outcome, ghost doc': Element, ghost r': set<Node>)
    requires Denotes(premis, doc, r) && premis !in r
    modifies premis`children
    ensures premis !in r' && Denotes(premis, doc', r')
    ensures outcome == Done <==> DescribedEvents(doc, rows).Success?
    ensures outcome == Done ==> doc' == DescribedEvents(doc, rows).value
    ensures outcome.Failed? ==> outcome.error == DescribedEvents(doc, rows).error
  {
    ghost var rs := EventResults(rows);
    doc', r' := doc, r;
    var i := 0;
    while i < |rows|
      invariant 0 <= i <= |rows|
      invariant premis !in r' && Denotes(premis, doc', r')
      invariant InsertAll(doc, EventIndex, rs[..i]) == Success(doc')
    {
      InsertAllStep(doc, EventIndex, rs, i, doc');
      ghost var old_doc := doc';
      outcome, doc', r' := DescribeEvent(premis, rows[i], doc', r');
      if outcome.Failed? {
        DescribedEventsStop(doc, rows, i, old_doc);
        return;
      }
      i := i + 1;
    }
    assert rs[..i] == rs;
    outcome := Done;
  }
}
