/**
 * The PREMIS element tree. `Node` is a live element as lxml keeps it: its
 * text, attributes and ordered child list change in place, and the handles
 * the mapping holds keep pointing at the same element after it has been
 * attached to a parent. `Element` is the value such a tree denotes, which the
 * specifications of the mapping are written against.
 */
module Tree {

  const PremisNamespace := "http://www.loc.gov/premis/v3"

  /** The Clark name `{namespace}local` of an element in the PREMIS namespace. */
  function Qualified(local: string): string
  {
    "{" + PremisNamespace + "}" + local
  }

  /** Distinct local names give distinct element names. */
  lemma QualifiedInjective(a: string, b: string)
    requires Qualified(a) == Qualified(b)
    ensures a == b
  {
    assert a == Qualified(a)[|PremisNamespace| + 2..];
    assert b == Qualified(b)[|PremisNamespace| + 2..];
  }

  /** An element as a value: name, namespace declarations, attributes, text and children. */
  datatype Element = Element(
    name: string,
    nsmap: map<string, string>,
    attrs: map<string, string>,
    text: string,
    children: seq<Element>)

  /** A PREMIS element with no attributes and no children, carrying `text`. */
  function Leaf(local: string, text: string): Element
  {
    Element(Qualified(local), map[], map[], text, [])
  }

  /** A PREMIS element with no attributes and no text, holding `children`. */
  function Unit(local: string, children: seq<Element>): Element
  {
    Element(Qualified(local), map[], map[], "", children)
  }

  /** The texts of the childless elements under `e`, in document order. */
  function Texts(e: Element): seq<string>
    decreases e, 1
  {
    if e.children == [] then [e.text] else TextsOf(e.children)
  }

  function TextsOf(es: seq<Element>): seq<string>
    decreases es, 0
  {
    if es == [] then [] else Texts(es[0]) + TextsOf(es[1..])
  }

  lemma TextsOfCons(e: Element, rest: seq<Element>)
    ensures TextsOf([e] + rest) == Texts(e) + TextsOf(rest)
  {
    assert ([e] + rest)[1..] == rest;
  }

  lemma TextsOfSingle(e: Element)
    ensures TextsOf([e]) == Texts(e)
  {
    assert [e][1..] == [];
  }

  /** Python's list-insert position: an index past the end means the end. */
  function Clamp(index: nat, length: nat): (i: nat)
    ensures i <= length
    ensures index <= length ==> i == index
  {
    if index < length then index else length
  }

  /**
   * `children.insert(index, x)`: `x` goes in front of the element at
   * `index`, or at the end when `index` is past it.
   */
  function Inserted<T>(s: seq<T>, index: nat, x: T): (r: seq<T>)
    ensures |r| == |s| + 1
    ensures index >= |s| ==> r == s + [x]
    ensures index == 0 ==> r == [x] + s
    decreases |s|
  {
    if index == 0 || s == [] then [x] + s
    else [s[0]] + Inserted(s[1..], index - 1, x)
  }

  /**
   * Where the inserted element lands: at the clamped index, with the
   * elements before it unmoved and those after it shifted up by one.
   */
  lemma {:induction false} InsertedAt<T>(s: seq<T>, index: nat, x: T)
    ensures Inserted(s, index, x)[Clamp(index, |s|)] == x
    ensures forall i :: 0 <= i < Clamp(index, |s|) ==> Inserted(s, index, x)[i] == s[i]
    ensures forall i :: Clamp(index, |s|) < i <= |s| ==> Inserted(s, index, x)[i] == s[i - 1]
    decreases |s|
  {
    if index != 0 && s != [] {
      InsertedAt(s[1..], index - 1, x);
    }
  }

  /** `insert` neither loses nor duplicates anything: the old elements and the new one. */
  lemma {:induction false} InsertedMultiset<T>(s: seq<T>, index: nat, x: T)
    ensures multiset(Inserted(s, index, x)) == multiset(s) + multiset{x}
    decreases |s|
  {
    if index != 0 && s != [] {
      InsertedMultiset(s[1..], index - 1, x);
      assert s == [s[0]] + s[1..];
    }
  }

  /** A sequence that starts with `p` continues with what is left once `p` is taken away. */
  lemma SuffixMultiset<T>(cs: seq<T>, p: seq<T>)
    requires |p| <= |cs| && cs[..|p|] == p
    ensures multiset(cs[|p|..]) == multiset(cs) - multiset(p)
  {
    assert cs == p + cs[|p|..];
  }

  /** `e` after `parent.insert(index, c)`: only the child list changes. */
  function Attach(e: Element, index: nat, c: Element): (r: Element)
    ensures r.name == e.name && r.nsmap == e.nsmap && r.attrs == e.attrs && r.text == e.text
    ensures r.children == Inserted(e.children, index, c)
  {
    e.(children := Inserted(e.children, index, c))
  }

  /** Children inserted at positions that are each past the end come out in order. */
  lemma AttachInOrder(local: string, i1: nat, a: Element, i2: nat, b: Element, i3: nat, c: Element)
    requires i2 >= 1 && i3 >= 2
    ensures Attach(Unit(local, []), i1, a) == Unit(local, [a])
    ensures Attach(Unit(local, [a]), i2, b) == Unit(local, [a, b])
    ensures Attach(Unit(local, [a, b]), i3, c) == Unit(local, [a, b, c])
  {
    assert [] + [a] == [a];
    assert [a] + [b] == [a, b];
    assert [a, b] + [c] == [a, b, c];
  }

  /**
   * A live element. Its name and namespace declarations are fixed when it is
   * created; its attributes, text and child list are updated in place.
   */
  class Node {
    const name: string
    const nsmap: map<string, string>
    var attrs: map<string, string>
    var text: string
    var children: seq<Node>

    constructor (name: string, nsmap: map<string, string>, attrs: map<string, string>)
      ensures this.name == name && this.nsmap == nsmap && this.attrs == attrs
      ensures text == "" && children == []
    {
      this.name := name;
      this.nsmap := nsmap;
      this.attrs := attrs;
      text := "";
      children := [];
    }
  }

  /**
   * The element rooted at `n` currently has the value `e`, and every node
   * below `n` lies in `r`. Nothing outside `{n} + r` is read, so the value
   * survives any update that leaves those nodes alone.
   */
  ghost predicate Denotes(n: Node, e: Element, r: set<Node>)
    reads n, r
    decreases e
  {
    n.name == e.name && n.nsmap == e.nsmap && n.attrs == e.attrs && n.text == e.text &&
    |n.children| == |e.children| &&
    forall i :: 0 <= i < |n.children| ==> n.children[i] in r && Denotes(n.children[i], e.children[i], r)
  }

  /** The nodes `ks` have the values `es`, and they and their descendants lie in `r`. */
  ghost predicate ChildrenDenote(ks: seq<Node>, es: seq<Element>, r: set<Node>)
    reads r
  {
    |ks| == |es| && forall i :: 0 <= i < |ks| ==> ks[i] in r && Denotes(ks[i], es[i], r)
  }

  /** Naming more nodes as possible descendants keeps a value. */
  lemma {:induction false} DenotesGrow(n: Node, e: Element, r: set<Node>, r': set<Node>)
    requires Denotes(n, e, r) && r <= r'
    ensures Denotes(n, e, r')
    decreases e
  {
    forall i | 0 <= i < |n.children|
      ensures n.children[i] in r' && Denotes(n.children[i], e.children[i], r')
    {
      DenotesGrow(n.children[i], e.children[i], r, r');
    }
  }

  /**
   * Inserting a node into a child list inserts its value at the same place
   * in the list of values.
   */
  lemma InsertDenotes(ks: seq<Node>, es: seq<Element>, r0: set<Node>, r: set<Node>,
                      index: nat, k: Node, e: Element)
    requires ChildrenDenote(ks, es, r0) && r0 <= r && k in r && Denotes(k, e, r)
    ensures ChildrenDenote(Inserted(ks, index, k), Inserted(es, index, e), r)
  {
    forall i | 0 <= i < |ks| ensures Denotes(ks[i], es[i], r) {
      DenotesGrow(ks[i], es[i], r0, r);
    }
    InsertedAt(ks, index, k);
    InsertedAt(es, index, e);
  }

  /**
   * A parent whose child list gained the node `k` at `index`, with `k`
   * denoting `x`, denotes its old value with `x` inserted at `index`.
   */
  lemma Adopt(p: Node, e: Element, ks: seq<Node>, r: set<Node>, index: nat, k: Node, x: Element, below: set<Node>)
    requires p.name == e.name && p.nsmap == e.nsmap && p.attrs == e.attrs && p.text == e.text
    requires ChildrenDenote(ks, e.children, r) && p.children == Inserted(ks, index, k) && Denotes(k, x, below)
    ensures Denotes(p, Attach(e, index, x), r + {k} + below)
  {
    DenotesGrow(k, x, below, r + {k} + below);
    InsertDenotes(ks, e.children, r, r + {k} + below, index, k, x);
  }

  /**
   * `create_unit(index, parent, unitname)`: a new, empty PREMIS element is
   * inserted into `parent`'s children at `index` (clamped to the end).
   */
  method CreateUnit(index: nat, parent: Node, unitName: string) returns (unit: Node)
    modifies parent`children
    ensures fresh(unit) && Denotes(unit, Unit(unitName, []), {})
    ensures parent.children == Inserted(old(parent.children), index, unit)
  {
    unit := new Node(Qualified(unitName), map[], map[]);
    parent.children := Inserted(parent.children, index, unit);
  }

  /*
   * The builders below each create one element with `create_unit` and fill
   * it completely. They thread the value `e` of `parent` and the set `r` of
   * its descendants; `outside` holds nodes that must never become
   * descendants (the parent and its ancestors), which is how the callers
   * know the new nodes are new.
   */

  /** A `create_unit` followed by setting the new element's text. */
  method AddLeaf(index: nat, parent: Node, local: string, text: string,
                 ghost e: Element, ghost r: set<Node>, ghost outside: set<Node>)
    returns (ghost r': set<Node>)
    requires Denotes(parent, e, r) && parent in outside && outside !! r
    modifies parent`children
    ensures r <= r' && outside !! r'
    ensures Denotes(parent, Attach(e, index, Leaf(local, text)), r')
  {
    ghost var ks := parent.children;
    assert ChildrenDenote(ks, e.children, r);
    var leaf := CreateUnit(index, parent, local);
    leaf.text := text;
    r' := r + {leaf};
    DenotesGrow(leaf, Leaf(local, text), {}, r');
    InsertDenotes(ks, e.children, r, r', index, leaf, Leaf(local, text));
  }

  /** An element holding one text-bearing child. */
  method AddSingle(index: nat, parent: Node, local: string,
                   leafIndex: nat, leafLocal: string, leafText: string,
                   ghost e: Element, ghost r: set<Node>, ghost outside: set<Node>)
    returns (ghost r': set<Node>)
    requires Denotes(parent, e, r) && parent in outside && outside !! r
    modifies parent`children
    ensures r <= r' && outside !! r'
    ensures Denotes(parent, Attach(e, index, Unit(local, [Leaf(leafLocal, leafText)])), r')
  {
    ghost var ks := parent.children;
    assert ChildrenDenote(ks, e.children, r);
    var unit := CreateUnit(index, parent, local);
    ghost var below := AddLeaf(leafIndex, unit, leafLocal, leafText, Unit(local, []), {}, outside + {unit});
    r' := r + {unit} + below;
    Adopt(parent, e, ks, r, index, unit, Unit(local, [Leaf(leafLocal, leafText)]), below);
  }

  /** Fills an empty element with two text-bearing children, in the order given. */
  method FillPair(unit: Node, ghost local: string,
                  firstIndex: nat, firstLocal: string, firstText: string,
                  secondIndex: nat, secondLocal: string, secondText: string,
                  ghost outside: set<Node>)
    returns (ghost below: set<Node>)
    requires secondIndex >= 1
    requires Denotes(unit, Unit(local, []), {}) && unit in outside
    modifies unit`children
    ensures outside !! below
    ensures Denotes(unit, Unit(local, [Leaf(firstLocal, firstText), Leaf(secondLocal, secondText)]), below)
  {
    ghost var first, second := Leaf(firstLocal, firstText), Leaf(secondLocal, secondText);
    AttachInOrder(local, firstIndex, first, secondIndex, second, 2, second);
    below := AddLeaf(firstIndex, unit, firstLocal, firstText, Unit(local, []), {}, outside);
    below := AddLeaf(secondIndex, unit, secondLocal, secondText, Unit(local, [first]), below, outside);
  }

  /** An element holding two text-bearing children, in the order given. */
  method AddPair(index: nat, parent: Node, local: string,
                 firstIndex: nat, firstLocal: string, firstText: string,
                 secondIndex: nat, secondLocal: string, secondText: string,
                 ghost e: Element, ghost r: set<Node>, ghost outside: set<Node>)
    returns (ghost r': set<Node>)
    requires secondIndex >= 1
    requires Denotes(parent, e, r) && parent in outside && outside !! r
    modifies parent`children
    ensures r <= r' && outside !! r'
    ensures Denotes(parent, Attach(e, index, Unit(local, [Leaf(firstLocal, firstText), Leaf(secondLocal, secondText)])), r')
  {
    ghost var u := Unit(local, [Leaf(firstLocal, firstText), Leaf(secondLocal, secondText)]);
    ghost var ks := parent.children;
    assert ChildrenDenote(ks, e.children, r);
    var unit := CreateUnit(index, parent, local);
    ghost var below := FillPair(unit, local, firstIndex, firstLocal, firstText, secondIndex, secondLocal, secondText,
                                outside + {unit});
    r' := r + {unit} + below;
    Adopt(parent, e, ks, r, index, unit, u, below);
  }

  /** Fills an empty element with three text-bearing children, in the order given. */
  method FillTriple(unit: Node, ghost local: string,
                    firstIndex: nat, firstLocal: string, firstText: string,
                    secondIndex: nat, secondLocal: string, secondText: string,
                    thirdIndex: nat, thirdLocal: string, thirdText: string,
                    ghost outside: set<Node>)
    returns (ghost below: set<Node>)
    requires secondIndex >= 1 && thirdIndex >= 2
    requires Denotes(unit, Unit(local, []), {}) && unit in outside
    modifies unit`children
    ensures outside !! below
    ensures Denotes(unit, Unit(local, [Leaf(firstLocal, firstText), Leaf(secondLocal, secondText),
                                       Leaf(thirdLocal, thirdText)]), below)
  {
    ghost var first, second, third := Leaf(firstLocal, firstText), Leaf(secondLocal, secondText), Leaf(thirdLocal, thirdText);
    AttachInOrder(local, firstIndex, first, secondIndex, second, thirdIndex, third);
    below := AddLeaf(firstIndex, unit, firstLocal, firstText, Unit(local, []), {}, outside);
    below := AddLeaf(secondIndex, unit, secondLocal, secondText, Unit(local, [first]), below, outside);
    below := AddLeaf(thirdIndex, unit, thirdLocal, thirdText, Unit(local, [first, second]), below, outside);
  }

  /** An element holding three text-bearing children, in the order given. */
  method AddTriple(index: nat, parent: Node, local: string,
                   firstIndex: nat, firstLocal: string, firstText: string,
                   secondIndex: nat, secondLocal: string, secondText: string,
                   thirdIndex: nat, thirdLocal: string, thirdText: string,
                   ghost e: Element, ghost r: set<Node>, ghost outside: set<Node>)
    returns (ghost r': set<Node>)
    requires secondIndex >= 1 && thirdIndex >= 2
    requires Denotes(parent, e, r) && parent in outside && outside !! r
    modifies parent`children
    ensures r <= r' && outside !! r'
    ensures Denotes(parent, Attach(e, index, Unit(local, [Leaf(firstLocal, firstText), Leaf(secondLocal, secondText),
                                                          Leaf(thirdLocal, thirdText)])), r')
  {
    ghost var u := Unit(local, [Leaf(firstLocal, firstText), Leaf(secondLocal, secondText), Leaf(thirdLocal, thirdText)]);
    ghost var ks := parent.children;
    assert ChildrenDenote(ks, e.children, r);
    var unit := CreateUnit(index, parent, local);
    ghost var below := FillTriple(unit, local, firstIndex, firstLocal, firstText, secondIndex, secondLocal, secondText,
                                  thirdIndex, thirdLocal, thirdText, outside + {unit});
    r' := r + {unit} + below;
    Adopt(parent, e, ks, r, index, unit, u, below);
  }
}
