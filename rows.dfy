/**
 * Input rows and the ways mapping a row can fail. A row is one CSV record as
 * the loader hands it over: a mapping from column name to cell text.
 */
module Rows {

  type Row = map<string, string>

  /** Why a row cannot be mapped; either one aborts the whole run. */
  datatype MappingError =
    | MissingField(field: string)  // the row lacks a column the mapping indexes
    | MalformedIdentifier          // objectIdentifier decodes to fewer than two parts

  datatype Result<T> = Success(value: T) | Failure(error: MappingError)

  /** What a mapping pass reports: done, or the error that stopped it. */
  datatype Outcome = Done | Failed(error: MappingError)

  /**
   * The position of the first of `fields` that `row` lacks, or |fields| when
   * it has them all: looking the fields up in this order, the lookup at the
   * returned position is the one that fails first.
   */
  function FirstMissing(row: Row, fields: seq<string>): (k: nat)
    ensures k <= |fields|
    ensures forall j :: 0 <= j < k ==> fields[j] in row
    ensures k < |fields| ==> fields[k] !in row
    decreases |fields|
  {
    if fields == [] then 0
    else if fields[0] !in row then 0
    else 1 + FirstMissing(row, fields[1..])
  }

  /** `row[f]` for each of `fields` in turn; the first absent one raises the error. */
  function Lookup(row: Row, fields: seq<string>): (r: Result<seq<string>>)
    ensures r.Success? ==> |r.value| == |fields|
    decreases |fields|
  {
    if fields == [] then Success([])
    else if fields[0] !in row then Failure(MissingField(fields[0]))
    else
      match Lookup(row, fields[1..])
      case Failure(e) => Failure(e)
      case Success(rest) => Success([row[fields[0]]] + rest)
  }

  /**
   * A lookup succeeds exactly when the row has every field, and then gives
   * the fields' values in order; otherwise its error names the first field,
   * in the order given, that the row lacks.
   */
  lemma {:induction false} LookupResult(row: Row, fields: seq<string>)
    ensures Lookup(row, fields).Success? <==> forall f :: f in fields ==> f in row
    ensures Lookup(row, fields).Success? ==>
              forall j :: 0 <= j < |fields| ==> Lookup(row, fields).value[j] == row[fields[j]]
    ensures Lookup(row, fields).Failure? ==>
              Lookup(row, fields).error == MissingField(fields[FirstMissing(row, fields)])
    decreases |fields|
  {
    if fields != [] {
      LookupResult(row, fields[1..]);
      assert forall f :: f in fields ==> f == fields[0] || f in fields[1..];
      if Lookup(row, fields).Success? {
        var rest := Lookup(row, fields[1..]).value;
        assert forall j :: 1 <= j < |fields| ==> fields[j] == fields[1..][j - 1];
      }
    }
  }

  /** The values of `fields` in `row`, in order. */
  function Cells(row: Row, fields: seq<string>): (c: seq<string>)
    requires forall f :: f in fields ==> f in row
    ensures |c| == |fields|
    ensures forall j :: 0 <= j < |fields| ==> c[j] == row[fields[j]]
  {
    seq(|fields|, j requires 0 <= j < |fields| => row[fields[j]])
  }

  /** A row holding every field looks them all up: the result is their Cells. */
  lemma LookupCells(row: Row, fields: seq<string>)
    requires forall f :: f in fields ==> f in row
    ensures Lookup(row, fields) == Success(Cells(row, fields))
  {
    LookupResult(row, fields);
    assert Lookup(row, fields).value == Cells(row, fields);
  }
}
