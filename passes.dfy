/**
 * The shape both mapping passes share: each row is mapped to an element (or
 * an error), and the elements are inserted one after another into the same
 * parent at the same index. The first row that cannot be mapped stops the
 * pass, as the KeyError or IndexError it raises does.
 */
module Passes {
  import opened Rows
  import opened Tree

  /** `rs` mapped without error throughout. */
  predicate AllSucceed(rs: seq<Result<Element>>)
  {
    forall k :: 0 <= k < |rs| ==> rs[k].Success?
  }

  /** The elements of a pass that mapped without error. */
  function Values(rs: seq<Result<Element>>): (es: seq<Element>)
    requires AllSucceed(rs)
    ensures |es| == |rs|
    ensures forall k :: 0 <= k < |rs| ==> es[k] == rs[k].value
  {
    seq(|rs|, k requires 0 <= k < |rs| => rs[k].value)
  }

  /** `s` back to front. */
  function Reverse<T>(s: seq<T>): (r: seq<T>)
    ensures |r| == |s|
    ensures forall k :: 0 <= k < |s| ==> r[k] == s[|s| - 1 - k]
    decreases |s|
  {
    if s == [] then [] else [s[|s| - 1]] + Reverse(s[..|s| - 1])
  }

  /**
   * `doc` after inserting the mapped elements `rs` at `index`, one after
   * another, or the error of the first entry that failed.
   */
  function InsertAll(doc: Element, index: nat, rs: seq<Result<Element>>): Result<Element>
    decreases |rs|
  {
    if rs == [] then Success(doc)
    else
      match InsertAll(doc, index, rs[..|rs| - 1])
      case Failure(e) => Failure(e)
      case Success(d) =>
        match rs[|rs| - 1]
        case Failure(e) => Failure(e)
        case Success(x) => Success(Attach(d, index, x))
  }

  /** One more step of a pass that has succeeded so far. */
  lemma InsertAllStep(doc: Element, index: nat, rs: seq<Result<Element>>, i: nat, d: Element)
    requires i < |rs| && InsertAll(doc, index, rs[..i]) == Success(d)
    ensures InsertAll(doc, index, rs[..i + 1]) ==
              if rs[i].Success? then Success(Attach(d, index, rs[i].value)) else Failure(rs[i].error)
  {
    assert rs[..i + 1][..i] == rs[..i];
  }

  /** A pass succeeds exactly when every row maps. */
  lemma {:induction false} InsertAllSucceeds(doc: Element, index: nat, rs: seq<Result<Element>>)
    ensures InsertAll(doc, index, rs).Success? <==> AllSucceed(rs)
    decreases |rs|
  {
    if rs != [] {
      var init := rs[..|rs| - 1];
      InsertAllSucceeds(doc, index, init);
      assert forall k :: 0 <= k < |init| ==> init[k] == rs[k];
    }
  }

  /** A failing pass reports the error of the first row that does not map. */
  lemma {:induction false} InsertAllFirstError(doc: Element, index: nat, rs: seq<Result<Element>>, k: nat)
    requires k < |rs| && rs[k].Failure?
    requires forall j :: 0 <= j < k ==> rs[j].Success?
    ensures InsertAll(doc, index, rs) == Failure(rs[k].error)
    decreases |rs|
  {
    var init := rs[..|rs| - 1];
    if k < |rs| - 1 {
      assert init[k] == rs[k];
      InsertAllFirstError(doc, index, init, k);
    } else {
      assert forall j :: 0 <= j < |init| ==> init[j] == rs[j];
      InsertAllSucceeds(doc, index, init);
    }
  }

  /**
   * While the parent never holds more than `index` children before an
   * insertion, every insertion is past the end: the elements follow the
   * existing children, in row order.
   */
  lemma {:induction false} InsertAllAppends(doc: Element, index: nat, rs: seq<Result<Element>>)
    requires AllSucceed(rs) && |doc.children| + |rs| <= index + 1
    ensures InsertAll(doc, index, rs) == Success(doc.(children := doc.children + Values(rs)))
    decreases |rs|
  {
    if rs != [] {
      var init := rs[..|rs| - 1];
      assert AllSucceed(init) by {
        assert forall k :: 0 <= k < |init| ==> init[k] == rs[k];
      }
      InsertAllAppends(doc, index, init);
      var x := rs[|rs| - 1].value;
      var d := doc.(children := doc.children + Values(init));
      assert InsertAll(doc, index, rs) == Success(Attach(d, index, x));
      assert Attach(d, index, x).children == d.children + [x];
      assert Values(rs) == Values(init) + [x];
      assert d.children + [x] == doc.children + Values(rs);
    } else {
      assert doc.children + Values(rs) == doc.children;
    }
  }

  /**
   * Inserting at the front, as describe_objects does, puts the elements
   * before the existing children in reverse row order.
   */
  lemma {:induction false} InsertAllPrepends(doc: Element, rs: seq<Result<Element>>)
    requires AllSucceed(rs)
    ensures InsertAll(doc, 0, rs) == Success(doc.(children := Reverse(Values(rs)) + doc.children))
    decreases |rs|
  {
    if rs != [] {
      var init := rs[..|rs| - 1];
      assert AllSucceed(init) by {
        assert forall k :: 0 <= k < |init| ==> init[k] == rs[k];
      }
      InsertAllPrepends(doc, init);
      var x := rs[|rs| - 1].value;
      var d := doc.(children := Reverse(Values(init)) + doc.children);
      assert InsertAll(doc, 0, rs) == Success(Attach(d, 0, x));
      assert Attach(d, 0, x).children == [x] + d.children;
      assert Values(rs)[..|rs| - 1] == Values(init);
      assert Reverse(Values(rs)) == [x] + Reverse(Values(init));
      assert [x] + (Reverse(Values(init)) + doc.children) == Reverse(Values(rs)) + doc.children;
    } else {
      assert Reverse(Values(rs)) + doc.children == doc.children;
    }
  }

  /** Reversing keeps every element, once each. */
  lemma {:induction false} ReverseMultiset<T>(s: seq<T>)
    ensures multiset(Reverse(s)) == multiset(s)
    decreases |s|
  {
    if s != [] {
      ReverseMultiset(s[..|s| - 1]);
      assert s == s[..|s| - 1] + [s[|s| - 1]];
    }
  }

  /**
   * Whatever the index and however many rows there are, a pass that
   * succeeds adds exactly one element per row to the parent, losing and
   * duplicating nothing.
   */
  lemma {:induction false} InsertAllMultiset(doc: Element, index: nat, rs: seq<Result<Element>>)
    requires AllSucceed(rs)
    ensures InsertAll(doc, index, rs).Success?
    ensures multiset(InsertAll(doc, index, rs).value.children) == multiset(doc.children) + multiset(Values(rs))
    decreases |rs|
  {
    if rs == [] {
      assert Values(rs) == [];
    } else {
      var init := rs[..|rs| - 1];
      var x := rs[|rs| - 1].value;
      ValuesInit(rs);
      InsertAllMultiset(doc, index, init);
      var d := InsertAll(doc, index, init).value;
      assert InsertAll(doc, index, rs) == Success(Attach(d, index, x));
      InsertedMultiset(d.children, index, x);
    }
  }

  /** The elements of all rows but the last, and then the last row's element. */
  lemma ValuesInit(rs: seq<Result<Element>>)
    requires AllSucceed(rs) && rs != []
    ensures AllSucceed(rs[..|rs| - 1])
    ensures Values(rs) == Values(rs[..|rs| - 1]) + [rs[|rs| - 1].value]
  {
    var init := rs[..|rs| - 1];
    assert forall k :: 0 <= k < |init| ==> init[k] == rs[k];
  }

  /** Insertions at `index` never move the first `m <= index` children of the parent. */
  lemma {:induction false} InsertAllPrefix(doc: Element, index: nat, rs: seq<Result<Element>>, m: nat)
    requires AllSucceed(rs) && m <= |doc.children| && m <= index
    ensures InsertAll(doc, index, rs).Success?
    ensures |InsertAll(doc, index, rs).value.children| >= m
    ensures InsertAll(doc, index, rs).value.children[..m] == doc.children[..m]
    decreases |rs|
  {
    if rs != [] {
      var init := rs[..|rs| - 1];
      assert AllSucceed(init) by {
        assert forall k :: 0 <= k < |init| ==> init[k] == rs[k];
      }
      InsertAllPrefix(doc, index, init, m);
      var d := InsertAll(doc, index, init).value;
      InsertedAt(d.children, index, rs[|rs| - 1].value);
    }
  }

  /**
   * Once the parent already holds more than `index` children, an insertion
   * at `index` is not at the end: the new element lands at `index` and the
   * previous last child stays last.
   */
  lemma InsertBeforeEnd(d: Element, index: nat, x: Element)
    requires |d.children| > index
    ensures Attach(d, index, x).children[index] == x
    ensures Attach(d, index, x).children[|d.children|] == d.children[|d.children| - 1]
  {
    InsertedAt(d.children, index, x);
  }

  /** The pass with each element appended instead of inserted at a fixed index. */
  function AppendAll(doc: Element, rs: seq<Result<Element>>): Result<Element>
    decreases |rs|
  {
    if rs == [] then Success(doc)
    else
      match AppendAll(doc, rs[..|rs| - 1])
      case Failure(e) => Failure(e)
      case Success(d) =>
        match rs[|rs| - 1]
        case Failure(e) => Failure(e)
        case Success(x) => Success(d.(children := d.children + [x]))
  }

  /** Appending keeps row order after the existing children, however many there are. */
  lemma {:induction false} AppendAllInOrder(doc: Element, rs: seq<Result<Element>>)
    requires AllSucceed(rs)
    ensures AppendAll(doc, rs) == Success(doc.(children := doc.children + Values(rs)))
    decreases |rs|
  {
    if rs != [] {
      var init := rs[..|rs| - 1];
      assert AllSucceed(init) by {
        assert forall k :: 0 <= k < |init| ==> init[k] == rs[k];
      }
      AppendAllInOrder(doc, init);
      var x := rs[|rs| - 1].value;
      var d := doc.(children := doc.children + Values(init));
      assert AppendAll(doc, rs) == Success(d.(children := d.children + [x]));
      assert Values(rs) == Values(init) + [x];
      assert (doc.children + Values(init)) + [x] == doc.children + Values(rs);
    } else {
      assert doc.children + Values(rs) == doc.children;
    }
  }
}
