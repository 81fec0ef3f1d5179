/**
 * describe_objects: each object row becomes an <object> element inserted at
 * the front of the root. Its identifier is decoded from the text of a
 * Python list, files get characteristics and a storage location, and each
 * non-empty entry of the '|'-separated event list becomes a link.
 */
module ObjectMapping {
  import opened Text
  import opened Rows
  import opened Tree
  import opened Passes

  /** The Clark name of the `xsi:type` attribute. */
  const XsiType := "{http://www.w3.org/2001/XMLSchema-instance}type"

  /** The columns every object row is read for first, in order. */
  const HeadFields: seq<string> := ["objectIdentifier", "objectCategory"]

  /** The columns a file row is read for, in the order the mapping reads them. */
  const FileFields: seq<string> := [
    "size", "messageDigestOriginator", "messageDigest", "messageDigestAlgorithm",
    "formatRegistryName", "formatRegistryKey", "formatRegistryRole",
    "contentLocationType", "contentLocationValue"]

  /** The column read last, for every object row. */
  const LinkFields: seq<string> := ["linkingEventIdentifierValue"]

  /** The index describe_objects passes to create_unit for every object. */
  const ObjectIndex: nat := 0

  /** The index describe_objects passes to create_unit for every link. */
  const LinkIndex: nat := 99

  /**
   * The identifier cell with the brackets and quotes of a Python list's
   * text dropped, then split at each ", ".
   */
  function DecodeIdentifier(s: string): (parts: seq<string>)
    ensures |parts| >= 1
  {
    Split(RemoveChar(RemoveChar(RemoveChar(s, '['), ']'), '\''), ", ")
  }

  /**
   * Python's text for the list `[t, v]` of two strings, as long as neither
   * holds a backslash or a character that `repr` escapes.
   */
  function ListText(t: string, v: string): string
  {
    "['" + t + "', '" + v + "']"
  }

  /** The same list written without quotes, as `[t, v]`. */
  function PlainListText(t: string, v: string): string
  {
    "[" + t + ", " + v + "]"
  }

  /**
   * Any cell that the three replaces turn into `t, v` decodes to the type
   * `t` and the value `v`, when neither contains ", ".
   */
  lemma DecodeStripped(s: string, t: string, v: string)
    requires RemoveChar(RemoveChar(RemoveChar(s, '['), ']'), '\'') == t + ", " + v
    requires !Contains(t, ", ") && !Contains(v, ", ")
    ensures DecodeIdentifier(s) == [t, v]
  {
    FirstSeparator(t, v);
    SplitFirst(t, ", ", v);
    SplitWhole(v, ", ");
  }

  /**
   * Decoding inverts the text of a two-element list, quoted or not, as
   * long as neither element contains a bracket, a quote or ", ".
   */
  lemma IdentifierRoundTrip(t: string, v: string)
    requires '[' !in t && ']' !in t && '\'' !in t && !Contains(t, ", ")
    requires '[' !in v && ']' !in v && '\'' !in v && !Contains(v, ", ")
    ensures DecodeIdentifier(ListText(t, v)) == [t, v]
    ensures DecodeIdentifier(PlainListText(t, v)) == [t, v]
  {
    StripListText(t, v);
    DecodeStripped(ListText(t, v), t, v);
    StripPlainListText(t, v);
    DecodeStripped(PlainListText(t, v), t, v);
  }

  /** A UUID-typed identifier written as `[UUID, abc-123]`. */
  lemma UuidIdentifier()
    ensures DecodeIdentifier("[UUID, abc-123]") == ["UUID", "abc-123"]
  {
    FirstAbsent("UUID", ", ");
    FirstAbsent("abc-123", ", ");
    assert PlainListText("UUID", "abc-123") == "[UUID, abc-123]";
    IdentifierRoundTrip("UUID", "abc-123");
  }

  /** When `t` holds no ", ", the first ", " in `t, v` is the one after `t`. */
  lemma FirstSeparator(t: string, v: string)
    requires !Contains(t, ", ")
    ensures forall i: nat :: i < |t| ==> !OccursAt(t + ", " + v, ", ", i)
  {
    var plain := t + ", " + v;
    forall i: nat | i < |t|
      ensures !OccursAt(plain, ", ", i)
    {
      if i + 2 <= |t| {
        assert plain[i..i + 2] == t[i..i + 2];
        assert !OccursAt(t, ", ", i);
      } else {
        assert plain[i + 1] == ',';
        assert plain[i..i + 2][1] == ',';
      }
    }
  }

  /** Dropping a character found in neither `t` nor `v` only touches the literal parts around them. */
  lemma RemoveAround(x: string, t: string, y: string, v: string, z: string, c: char, x': string, y': string, z': string)
    requires c !in t && c !in v
    requires RemoveChar(x, c) == x' && RemoveChar(y, c) == y' && RemoveChar(z, c) == z'
    ensures RemoveChar(x + t + y + v + z, c) == x' + t + y' + v + z'
  {
    RemoveCharConcat(x + t + y + v, z, c);
    RemoveCharConcat(x + t + y, v, c);
    RemoveCharConcat(x + t, y, c);
    RemoveCharConcat(x, t, c);
    RemoveCharAbsent(t, c);
    RemoveCharAbsent(v, c);
  }

  /** The literal parts of the list text without their opening brackets. */
  lemma OpenPieces()
    ensures RemoveChar("['", '[') == "'" && RemoveChar("', '", '[') == "', '" && RemoveChar("']", '[') == "']"
  {}

  /** The literal parts without their closing brackets. */
  lemma ClosePieces()
    ensures RemoveChar("'", ']') == "'" && RemoveChar("', '", ']') == "', '" && RemoveChar("']", ']') == "'"
  {}

  /** The literal parts without their quotes. */
  lemma QuotePieces()
    ensures RemoveChar("'", '\'') == [] && RemoveChar("', '", '\'') == ", "
  {}

  /** Dropping the quotes leaves `t, v`. */
  lemma StripQuotes(t: string, v: string)
    requires '\'' !in t && '\'' !in v
    ensures RemoveChar("'" + t + "', '" + v + "'", '\'') == t + ", " + v
  {
    QuotePieces();
    RemoveInside("'", t, "', '", v, "'", '\'', ", ");
  }

  /** RemoveAround when the outer parts vanish entirely. */
  lemma RemoveInside(x: string, t: string, y: string, v: string, z: string, c: char, y': string)
    requires c !in t && c !in v
    requires RemoveChar(x, c) == [] && RemoveChar(y, c) == y' && RemoveChar(z, c) == []
    ensures RemoveChar(x + t + y + v + z, c) == t + y' + v
  {
    RemoveAround(x, t, y, v, z, c, [], y', []);
    assert [] + t + y' + v + [] == t + y' + v;
  }

  /** Dropping the opening bracket from the list text. */
  lemma StripOpen(t: string, v: string)
    requires '[' !in t && '[' !in v
    ensures RemoveChar("['" + t + "', '" + v + "']", '[') == "'" + t + "', '" + v + "']"
  {
    OpenPieces();
    RemoveAround("['", t, "', '", v, "']", '[', "'", "', '", "']");
  }

  /** Dropping the closing bracket from what is left. */
  lemma StripClose(t: string, v: string)
    requires ']' !in t && ']' !in v
    ensures RemoveChar("'" + t + "', '" + v + "']", ']') == "'" + t + "', '" + v + "'"
  {
    ClosePieces();
    RemoveAround("'", t, "', '", v, "']", ']', "'", "', '", "'");
  }

  /** Dropping the opening bracket from `[t, v]`. */
  lemma PlainOpen(t: string, v: string)
    requires '[' !in t && '[' !in v
    ensures RemoveChar(PlainListText(t, v), '[') == t + ", " + v + "]"
  {
    var rest := t + ", " + v + "]";
    assert PlainListText(t, v) == ['['] + rest;
    DropFirst(rest, '[');
  }

  /** Dropping a character from the front of a text that holds it nowhere else. */
  lemma DropFirst(p: string, c: char)
    requires c !in p
    ensures RemoveChar([c] + p, c) == p
  {
    RemoveCharConcat([c], p, c);
    RemoveCharAbsent(p, c);
    assert RemoveChar([c], c) == [];
    assert [] + p == p;
  }

  /** Dropping a character from the end of a text that holds it nowhere else. */
  lemma DropLast(p: string, c: char)
    requires c !in p
    ensures RemoveChar(p + [c], c) == p
  {
    RemoveCharConcat(p, [c], c);
    RemoveCharAbsent(p, c);
    assert RemoveChar([c], c) == [];
    assert p + [] == p;
  }

  /** Dropping brackets and quotes from `[t, v]` leaves `t, v`. */
  lemma StripPlainListText(t: string, v: string)
    requires '[' !in t && ']' !in t && '\'' !in t
    requires '[' !in v && ']' !in v && '\'' !in v
    ensures RemoveChar(RemoveChar(RemoveChar(PlainListText(t, v), '['), ']'), '\'') == t + ", " + v
  {
    var plain := t + ", " + v;
    PlainOpen(t, v);
    assert ']' !in plain && '\'' !in plain;
    DropLast(plain, ']');
    RemoveCharAbsent(plain, '\'');
  }

  /** Dropping brackets and quotes from the list text leaves `t, v`. */
  lemma StripListText(t: string, v: string)
    requires '[' !in t && ']' !in t && '\'' !in t
    requires '[' !in v && ']' !in v && '\'' !in v
    ensures RemoveChar(RemoveChar(RemoveChar(ListText(t, v), '['), ']'), '\'') == t + ", " + v
  {
    StripOpen(t, v);
    StripClose(t, v);
    StripQuotes(t, v);
  }

  /**
   * `id_list[1]` exists exactly when the stripped cell contains ", ":
   * otherwise the identifier is malformed.
   */
  lemma IdentifierMalformed(s: string)
    ensures |DecodeIdentifier(s)| < 2 <==> !Contains(RemoveChar(RemoveChar(RemoveChar(s, '['), ']'), '\''), ", ")
  {
    var stripped := RemoveChar(RemoveChar(RemoveChar(s, '['), ']'), '\'');
    if Contains(stripped, ", ") {
      SplitCount(stripped, ", ");
    } else {
      SplitWhole(stripped, ", ");
    }
  }

  /** The linkingEventIdentifier element for the event identifier `id`. */
  function LinkElement(id: string): Element
  {
    Unit("linkingEventIdentifier", [Leaf("linkingEventIdentifierType", "UUID"), Leaf("linkingEventIdentifierValue", id)])
  }

  /** The link elements for `ids`, in order. */
  function LinkElements(ids: seq<string>): (es: seq<Element>)
    ensures |es| == |ids|
    ensures forall k :: 0 <= k < |ids| ==> es[k] == LinkElement(ids[k])
  {
    seq(|ids|, k requires 0 <= k < |ids| => LinkElement(ids[k]))
  }

  /** `e` after the link loop over `pieces`: each non-empty piece inserted as a link at index 99. */
  function AttachLinks(e: Element, pieces: seq<string>): Element
    decreases |pieces|
  {
    if pieces == [] then e
    else
      var before := AttachLinks(e, pieces[..|pieces| - 1]);
      var piece := pieces[|pieces| - 1];
      if piece != "" then Attach(before, LinkIndex, LinkElement(piece)) else before
  }

  /** The link loop changes nothing but the child list, and adds one child per non-empty piece. */
  lemma {:induction false} AttachLinksKeeps(e: Element, pieces: seq<string>)
    ensures AttachLinks(e, pieces).name == e.name && AttachLinks(e, pieces).attrs == e.attrs
    ensures AttachLinks(e, pieces).nsmap == e.nsmap && AttachLinks(e, pieces).text == e.text
    ensures |AttachLinks(e, pieces).children| == |e.children| + |NonEmpty(pieces)|
    decreases |pieces|
  {
    if pieces != [] {
      var init := pieces[..|pieces| - 1];
      AttachLinksKeeps(e, init);
      assert pieces == init + [pieces[|pieces| - 1]];
      NonEmptyAppend(init, [pieces[|pieces| - 1]]);
    }
  }

  /** One more piece adds its link at the end of the list of links, or nothing when it is empty. */
  lemma LinksSnoc(init: seq<string>, piece: string)
    ensures piece != "" ==> LinkElements(NonEmpty(init + [piece])) == LinkElements(NonEmpty(init)) + [LinkElement(piece)]
    ensures piece == "" ==> NonEmpty(init + [piece]) == NonEmpty(init)
  {
    NonEmptyAppend(init, [piece]);
    if piece != "" {
      assert NonEmpty([piece]) == [piece];
    } else {
      assert NonEmpty([piece]) == [];
    }
  }

  /**
   * While the object never holds more than 99 children before a link is
   * inserted, the links follow the existing children, one per non-empty
   * piece, in order.
   */
  lemma {:induction false} LinksAppended(e: Element, pieces: seq<string>)
    requires |e.children| + |NonEmpty(pieces)| <= LinkIndex + 1
    ensures AttachLinks(e, pieces) == e.(children := e.children + LinkElements(NonEmpty(pieces)))
    decreases |pieces|
  {
    if pieces == [] {
      assert e.children + LinkElements(NonEmpty(pieces)) == e.children;
    } else {
      var init := pieces[..|pieces| - 1];
      var piece := pieces[|pieces| - 1];
      assert pieces == init + [piece];
      NonEmptyAppend(init, [piece]);
      LinksAppended(e, init);
      LinksSnoc(init, piece);
      if piece != "" {
        var before := AttachLinks(e, init);
        assert |before.children| <= LinkIndex;
        assert before.children + [LinkElement(piece)] == e.children + LinkElements(NonEmpty(pieces));
      }
    }
  }

  /**
   * With 100 or more children already in the object, the next link lands
   * at position 99 rather than at the end.
   */
  lemma LinkNotLast(e: Element, id: string)
    requires id != "" && |e.children| > LinkIndex
    ensures AttachLinks(e, [id]) == Attach(e, LinkIndex, LinkElement(id))
    ensures Attach(e, LinkIndex, LinkElement(id)).children[LinkIndex] == LinkElement(id)
    ensures Attach(e, LinkIndex, LinkElement(id)).children[|e.children|] == e.children[|e.children| - 1]
  {
    assert [id][..0] == [];
    InsertBeforeEnd(e, LinkIndex, LinkElement(id));
  }


  /** The link loop adds exactly the links for the non-empty pieces, wherever they land. */
  lemma {:induction false} AttachLinksMultiset(e: Element, pieces: seq<string>)
    ensures multiset(AttachLinks(e, pieces).children) == multiset(e.children) + multiset(LinkElements(NonEmpty(pieces)))
    decreases |pieces|
  {
    if pieces == [] {
      assert LinkElements(NonEmpty(pieces)) == [];
    } else {
      var init := pieces[..|pieces| - 1];
      var piece := pieces[|pieces| - 1];
      AttachLinksMultiset(e, init);
      assert pieces == init + [piece];
      LinksSnoc(init, piece);
      if piece != "" {
        InsertedMultiset(AttachLinks(e, init).children, LinkIndex, LinkElement(piece));
      }
    }
  }

  /**
   * Whatever the number of pieces, the children past the existing ones,
   * which the links never displace, are exactly the links, in some order.
   */
  lemma LinksAfter(e: Element, pieces: seq<string>)
    requires |e.children| <= LinkIndex
    ensures |AttachLinks(e, pieces).children| >= |e.children|
    ensures AttachLinks(e, pieces).children[..|e.children|] == e.children
    ensures multiset(AttachLinks(e, pieces).children[|e.children|..]) == multiset(LinkElements(NonEmpty(pieces)))
  {
    AttachLinksPrefix(e, pieces, |e.children|);
    assert e.children[..|e.children|] == e.children;
    AttachLinksMultiset(e, pieces);
    SuffixMultiset(AttachLinks(e, pieces).children, e.children);
  }

  /** The corrected link loop: each link appended to the object. */
  function AppendLinks(e: Element, pieces: seq<string>): Element
    decreases |pieces|
  {
    if pieces == [] then e
    else
      var before := AppendLinks(e, pieces[..|pieces| - 1]);
      var piece := pieces[|pieces| - 1];
      if piece != "" then before.(children := before.children + [LinkElement(piece)]) else before
  }

  /** Appended, the links follow the existing children in order, however many there are. */
  lemma {:induction false} AppendedLinksInOrder(e: Element, pieces: seq<string>)
    ensures AppendLinks(e, pieces) == e.(children := e.children + LinkElements(NonEmpty(pieces)))
    decreases |pieces|
  {
    if pieces == [] {
      assert e.children + LinkElements(NonEmpty(pieces)) == e.children;
    } else {
      var init := pieces[..|pieces| - 1];
      var piece := pieces[|pieces| - 1];
      AppendedLinksInOrder(e, init);
      assert pieces == init + [piece];
      LinksSnoc(init, piece);
    }
  }

  /** The <object> as first created: no children, `xsi:type` naming the category. */
  function ObjectBase(category: string): Element
  {
    Element(Qualified("object"), map[], map[XsiType := "premis:" + category], "", [])
  }

  /** The <objectIdentifier> of an object. */
  function IdentifierElement(idType: string, idValue: string): Element
  {
    Unit("objectIdentifier", [Leaf("objectIdentifierType", idType), Leaf("objectIdentifierValue", idValue)])
  }

  /** The <objectCharacteristics> of a file, from its cells in FileFields order. */
  function Characteristics(f: seq<string>): Element
    requires |f| == |FileFields|
  {
    Unit("objectCharacteristics", [
      Unit("fixity", [Leaf("messageDigestAlgorithm", f[3]), Leaf("messageDigest", f[2]),
                      Leaf("messageDigestOriginator", f[1])]),
      Leaf("size", f[0]),
      FormatElement(f[4], f[5], f[6])])
  }

  /** The <format> of a file. */
  function FormatElement(name: string, key: string, role: string): Element
  {
    Unit("format", [Unit("formatRegistry", [Leaf("formatRegistryName", name), Leaf("formatRegistryKey", key),
                                            Leaf("formatRegistryRole", role)])])
  }

  /** The <storage> of a file. */
  function StorageElement(locationType: string, locationValue: string): Element
  {
    Unit("storage", [Unit("contentLocation", [Leaf("contentLocationType", locationType),
                                              Leaf("contentLocationValue", locationValue)])])
  }

  /** The <object> before its links: the identifier, then for a file its characteristics and storage. */
  function ObjectBody(category: string, idType: string, idValue: string, f: seq<string>): Element
    requires category == "file" ==> |f| == |FileFields|
  {
    ObjectBase(category).(children := [IdentifierElement(idType, idValue)] +
      if category == "file" then [Characteristics(f), StorageElement(f[7], f[8])] else [])
  }

  /**
   * The <object> a row becomes, or the error of the first failing step:
   * the identifier and category cells, then a second identifier part, then
   * for a file its nine cells, then the linked events cell.
   */
  function ObjectElement(row: Row): Result<Element>
  {
    match Lookup(row, HeadFields)
    case Failure(e) => Failure(e)
    case Success(head) =>
      var ids := DecodeIdentifier(head[0]);
      if |ids| < 2 then Failure(MalformedIdentifier)
      else
        match (if head[1] == "file" then Lookup(row, FileFields) else Success([]))
        case Failure(e) => Failure(e)
        case Success(f) =>
          match Lookup(row, LinkFields)
          case Failure(e) => Failure(e)
          case Success(links) => Success(AttachLinks(ObjectBody(head[1], ids[0], ids[1], f), Split(links[0], "|")))
  }

  /**
   * A row describe_objects can map: it has the identifier and category,
   * the identifier has a second part, a file has its nine columns and the
   * linked events column is there.
   */
  predicate Mappable(row: Row)
  {
    "objectIdentifier" in row && "objectCategory" in row &&
    |DecodeIdentifier(row["objectIdentifier"])| >= 2 &&
    (row["objectCategory"] == "file" ==> forall k :: k in FileFields ==> k in row) &&
    "linkingEventIdentifierValue" in row
  }

  /**
   * A row maps exactly when it is Mappable; otherwise the error is that of
   * the first step, in reading order, that fails.
   */
  lemma ObjectElementResult(row: Row)
    ensures ObjectElement(row).Success? <==> Mappable(row)
    ensures !(forall k :: k in HeadFields ==> k in row) ==>
              ObjectElement(row) == Failure(MissingField(HeadFields[FirstMissing(row, HeadFields)]))
    ensures (forall k :: k in HeadFields ==> k in row) && |DecodeIdentifier(row["objectIdentifier"])| < 2 ==>
              ObjectElement(row) == Failure(MalformedIdentifier)
    ensures (forall k :: k in HeadFields ==> k in row) && |DecodeIdentifier(row["objectIdentifier"])| >= 2 &&
            row["objectCategory"] == "file" && !(forall k :: k in FileFields ==> k in row) ==>
              ObjectElement(row) == Failure(MissingField(FileFields[FirstMissing(row, FileFields)]))
    ensures (forall k :: k in HeadFields ==> k in row) && |DecodeIdentifier(row["objectIdentifier"])| >= 2 &&
            (row["objectCategory"] == "file" ==> forall k :: k in FileFields ==> k in row) &&
            "linkingEventIdentifierValue" !in row ==>
              ObjectElement(row) == Failure(MissingField("linkingEventIdentifierValue"))
  {
    LookupResult(row, HeadFields);
    LookupResult(row, FileFields);
    LookupResult(row, LinkFields);
    assert "linkingEventIdentifierValue" in LinkFields;
  }

  /** The <object> a Mappable row becomes, read from its cells. */
  function MappedObject(row: Row): Element
    requires Mappable(row)
  {
    var ids := DecodeIdentifier(row["objectIdentifier"]);
    var category := row["objectCategory"];
    AttachLinks(ObjectBody(category, ids[0], ids[1], if category == "file" then Cells(row, FileFields) else []),
                Split(row["linkingEventIdentifierValue"], "|"))
  }

  /** A row that maps becomes MappedObject. */
  lemma ObjectElementValue(row: Row)
    requires ObjectElement(row).Success?
    ensures Mappable(row) && ObjectElement(row).value == MappedObject(row)
  {
    ObjectElementResult(row);
    LookupResult(row, HeadFields);
    LookupResult(row, LinkFields);
    var head := Lookup(row, HeadFields).value;
    assert head[0] == row["objectIdentifier"] && head[1] == row["objectCategory"];
    if head[1] == "file" {
      LookupCells(row, FileFields);
    }
  }

  /** The number of children an <object> has before its links: the identifier, and for a file two more. */
  function BodySize(category: string): nat
  {
    if category == "file" then 3 else 1
  }

  /**
   * The shape of an <object> built from its parts: after the body come the
   * links and nothing else, in token order as long as they fit below index
   * 100.
   */
  lemma BodyShape(category: string, idType: string, idValue: string, f: seq<string>, pieces: seq<string>)
    requires category == "file" ==> |f| == |FileFields|
    ensures
      var o := AttachLinks(ObjectBody(category, idType, idValue, f), pieces);
      o.name == Qualified("object") && o.attrs == map[XsiType := "premis:" + category] &&
      |o.children| == BodySize(category) + |NonEmpty(pieces)| &&
      o.children[0] == IdentifierElement(idType, idValue) &&
      (category == "file" ==> o.children[1] == Characteristics(f) && o.children[2] == StorageElement(f[7], f[8])) &&
      multiset(o.children[BodySize(category)..]) == multiset(LinkElements(NonEmpty(pieces))) &&
      (BodySize(category) + |NonEmpty(pieces)| <= LinkIndex + 1 ==>
         o.children[BodySize(category)..] == LinkElements(NonEmpty(pieces)))
  {
    var body := ObjectBody(category, idType, idValue, f);
    AttachLinksKeeps(body, pieces);
    LinksAfter(body, pieces);
    var o := AttachLinks(body, pieces);
    assert o.children[0] == o.children[..BodySize(category)][0];
    if category == "file" {
      assert o.children[1] == o.children[..BodySize(category)][1];
      assert o.children[2] == o.children[..BodySize(category)][2];
    }
    if BodySize(category) + |NonEmpty(pieces)| <= LinkIndex + 1 {
      LinksAppended(body, pieces);
    }
  }

  /**
   * What a mapped <object> holds: the category in `xsi:type`; the decoded
   * identifier first; for a file its characteristics and storage built
   * from its cells; then exactly the links for the non-empty entries of
   * the events cell and nothing else, in entry order while there are at
   * most 100 children.
   */
  lemma ObjectContents(row: Row, o: Element)
    requires ObjectElement(row) == Success(o)
    ensures Mappable(row)
    ensures o.name == Qualified("object") && o.attrs == map[XsiType := "premis:" + row["objectCategory"]]
    ensures
      var ids := DecodeIdentifier(row["objectIdentifier"]);
      var base := BodySize(row["objectCategory"]);
      var pieces := Split(row["linkingEventIdentifierValue"], "|");
      |o.children| == base + |NonEmpty(pieces)| &&
      o.children[0] == IdentifierElement(ids[0], ids[1]) &&
      multiset(o.children[base..]) == multiset(LinkElements(NonEmpty(pieces))) &&
      (base + |NonEmpty(pieces)| <= LinkIndex + 1 ==> o.children[base..] == LinkElements(NonEmpty(pieces)))
    ensures row["objectCategory"] == "file" ==>
              o.children[1] == Characteristics(Cells(row, FileFields)) &&
              o.children[2] == StorageElement(Cells(row, FileFields)[7], Cells(row, FileFields)[8])
  {
    ObjectElementValue(row);
    var ids := DecodeIdentifier(row["objectIdentifier"]);
    var category := row["objectCategory"];
    var f := if category == "file" then Cells(row, FileFields) else [];
    BodyShape(category, ids[0], ids[1], f, Split(row["linkingEventIdentifierValue"], "|"));
  }

  /** Links go in at index 99 or later, so the first children, up to 99 of them, stay in place. */
  lemma {:induction false} AttachLinksPrefix(e: Element, pieces: seq<string>, m: nat)
    requires m <= |e.children| && m <= LinkIndex
    ensures |AttachLinks(e, pieces).children| >= m && AttachLinks(e, pieces).children[..m] == e.children[..m]
    decreases |pieces|
  {
    if pieces != [] {
      var init := pieces[..|pieces| - 1];
      AttachLinksPrefix(e, init, m);
      var before := AttachLinks(e, init);
      if pieces[|pieces| - 1] != "" {
        InsertedAt(before.children, LinkIndex, LinkElement(pieces[|pieces| - 1]));
      }
    }
  }

  /** What each row maps to, in row order. */
  function ObjectResults(rows: seq<Row>): (rs: seq<Result<Element>>)
    ensures |rs| == |rows|
    ensures forall k :: 0 <= k < |rows| ==> rs[k] == ObjectElement(rows[k])
  {
    seq(|rows|, k requires 0 <= k < |rows| => ObjectElement(rows[k]))
  }

  /**
   * The root `doc` after describe_objects has processed `rows`: each
   * <object> inserted at the front in turn, or the error of the first row
   * that cannot be mapped.
   */
  function DescribedObjects(doc: Element, rows: seq<Row>): Result<Element>
  {
    InsertAll(doc, ObjectIndex, ObjectResults(rows))
  }

  /** The pass succeeds exactly when every row maps. */
  lemma DescribedObjectsSucceed(doc: Element, rows: seq<Row>)
    ensures DescribedObjects(doc, rows).Success? <==> forall k :: 0 <= k < |rows| ==> ObjectElement(rows[k]).Success?
  {
    InsertAllSucceeds(doc, ObjectIndex, ObjectResults(rows));
  }

  /** Inserting at the front reverses the rows: the last row's <object> comes first. */
  lemma DescribedObjectsReversed(doc: Element, rows: seq<Row>)
    requires AllSucceed(ObjectResults(rows))
    ensures DescribedObjects(doc, rows) == Success(doc.(children := Reverse(Values(ObjectResults(rows))) + doc.children))
  {
    InsertAllPrepends(doc, ObjectResults(rows));
  }

  /**
   * Once the rows before `rows[k]` have been processed, a row that cannot
   * be mapped ends the pass with that row's error.
   */
  lemma DescribedObjectsStop(doc: Element, rows: seq<Row>, k: nat, d: Element)
    requires k < |rows| && ObjectElement(rows[k]).Failure?
    requires InsertAll(doc, ObjectIndex, ObjectResults(rows)[..k]) == Success(d)
    ensures DescribedObjects(doc, rows) == Failure(ObjectElement(rows[k]).error)
  {
    var rs := ObjectResults(rows);
    InsertAllSucceeds(doc, ObjectIndex, rs[..k]);
    assert forall j :: 0 <= j < k ==> rs[..k][j] == rs[j];
    InsertAllFirstError(doc, ObjectIndex, rs, k);
  }

  /** Fills an empty <format> with its <formatRegistry>. */
  method AddFormat(index: nat, parent: Node, name: string, key: string, role: string,
                   ghost e: Element, ghost r: set<Node>, ghost outside: set<Node>)
    returns (ghost r': set<Node>)
    requires Denotes(parent, e, r) && parent in outside && outside !! r
    modifies parent`children
    ensures r <= r' && outside !! r'
    ensures Denotes(parent, Attach(e, index, FormatElement(name, key, role)), r')
  {
    ghost var ks := parent.children;
    assert ChildrenDenote(ks, e.children, r);
    var format := CreateUnit(index, parent, "format");
    ghost var below := AddTriple(1, format, "formatRegistry", 0, "formatRegistryName", name, 1, "formatRegistryKey", key,
                                 2, "formatRegistryRole", role, Unit("format", []), {}, outside + {format});
    r' := r + {format} + below;
    Adopt(parent, e, ks, r, index, format, FormatElement(name, key, role), below);
  }

  /** Fills an empty <objectCharacteristics> with fixity, size and format. */
  method FillCharacteristics(unit: Node, f: seq<string>, ghost outside: set<Node>)
    returns (ghost below: set<Node>)
    requires |f| == |FileFields|
    requires Denotes(unit, Unit("objectCharacteristics", []), {}) && unit in outside
    modifies unit`children
    ensures outside !! below
    ensures Denotes(unit, Characteristics(f), below)
  {
    var c := Characteristics(f);
    AttachInOrder("objectCharacteristics", 0, c.children[0], 1, c.children[1], 2, c.children[2]);
    below := AddTriple(0, unit, "fixity", 0, "messageDigestAlgorithm", f[3], 1, "messageDigest", f[2],
                       2, "messageDigestOriginator", f[1], Unit("objectCharacteristics", []), {}, outside);
    below := AddLeaf(1, unit, "size", f[0], Unit("objectCharacteristics", [c.children[0]]), below, outside);
    below := AddFormat(2, unit, f[4], f[5], f[6], Unit("objectCharacteristics", [c.children[0], c.children[1]]),
                       below, outside);
  }

  /** Adds a filled <objectCharacteristics> to `parent`. */
  method AddCharacteristics(index: nat, parent: Node, f: seq<string>,
                            ghost e: Element, ghost r: set<Node>, ghost outside: set<Node>)
    returns (ghost r': set<Node>)
    requires |f| == |FileFields|
    requires Denotes(parent, e, r) && parent in outside && outside !! r
    modifies parent`children
    ensures r <= r' && outside !! r'
    ensures Denotes(parent, Attach(e, index, Characteristics(f)), r')
  {
    ghost var ks := parent.children;
    assert ChildrenDenote(ks, e.children, r);
    var unit := CreateUnit(index, parent, "objectCharacteristics");
    ghost var below := FillCharacteristics(unit, f, outside + {unit});
    r' := r + {unit} + below;
    Adopt(parent, e, ks, r, index, unit, Characteristics(f), below);
  }

  /** Adds a filled <storage> to `parent`. */
  method AddStorage(index: nat, parent: Node, locationType: string, locationValue: string,
                    ghost e: Element, ghost r: set<Node>, ghost outside: set<Node>)
    returns (ghost r': set<Node>)
    requires Denotes(parent, e, r) && parent in outside && outside !! r
    modifies parent`children
    ensures r <= r' && outside !! r'
    ensures Denotes(parent, Attach(e, index, StorageElement(locationType, locationValue)), r')
  {
    ghost var ks := parent.children;
    assert ChildrenDenote(ks, e.children, r);
    var storage := CreateUnit(index, parent, "storage");
    ghost var below := AddPair(0, storage, "contentLocation", 0, "contentLocationType", locationType,
                               1, "contentLocationValue", locationValue, Unit("storage", []), {}, outside + {storage});
    r' := r + {storage} + below;
    Adopt(parent, e, ks, r, index, storage, StorageElement(locationType, locationValue), below);
  }

  /**
   * The link loop of describe_objects: each non-empty piece of the events
   * cell becomes a <linkingEventIdentifier> inserted at index 99.
   */
  method AddLinks(objectParent: Node, pieces: seq<string>, ghost e: Element, ghost r: set<Node>, ghost outside: set<Node>)
    returns (ghost r': set<Node>)
    requires Denotes(objectParent, e, r) && objectParent in outside && outside !! r
    modifies objectParent`children
    ensures r <= r' && outside !! r'
    ensures Denotes(objectParent, AttachLinks(e, pieces), r')
  {
    r' := r;
    var i := 0;
    while i < |pieces|
      invariant 0 <= i <= |pieces|
      invariant r <= r' && outside !! r'
      invariant Denotes(objectParent, AttachLinks(e, pieces[..i]), r')
    {
      assert pieces[..i + 1][..i] == pieces[..i];
      var event := pieces[i];
      if event != "" {
        r' := AddPair(LinkIndex, objectParent, "linkingEventIdentifier",
                      1, "linkingEventIdentifierType", "UUID", 2, "linkingEventIdentifierValue", event,
                      AttachLinks(e, pieces[..i]), r', outside);
      }
      i := i + 1;
    }
    assert pieces[..i] == pieces;
  }

  /** Fills an <object> that so far has only its `xsi:type`. */
  method FillObject(objectParent: Node, category: string, idType: string, idValue: string, f: seq<string>,
                    pieces: seq<string>, ghost outside: set<Node>)
    returns (ghost below: set<Node>)
    requires category == "file" ==> |f| == |FileFields|
    requires Denotes(objectParent, ObjectBase(category), {}) && objectParent in outside
    modifies objectParent`children
    ensures outside !! below
    ensures Denotes(objectParent, AttachLinks(ObjectBody(category, idType, idValue, f), pieces), below)
  {
    ghost var e := ObjectBase(category);
    below := AddPair(2, objectParent, "objectIdentifier", 1, "objectIdentifierType", idType, 2, "objectIdentifierValue", idValue,
                     e, {}, outside);
    e := Attach(e, 2, IdentifierElement(idType, idValue));
    if category == "file" {
      below := AddCharacteristics(5, objectParent, f, e, below, outside);
      e := Attach(e, 5, Characteristics(f));
      below := AddStorage(7, objectParent, f[7], f[8], e, below, outside);
      e := Attach(e, 7, StorageElement(f[7], f[8]));
    }
    ObjectBuilt(category, idType, idValue, f);
    below := AddLinks(objectParent, pieces, e, below, outside);
  }

  /** The insertions describe_objects performs on an empty <object>, as values. */
  lemma ObjectBuilt(category: string, idType: string, idValue: string, f: seq<string>)
    requires category == "file" ==> |f| == |FileFields|
    ensures category != "file" ==>
              Attach(ObjectBase(category), 2, IdentifierElement(idType, idValue)) == ObjectBody(category, idType, idValue, f)
    ensures category == "file" ==>
              Attach(Attach(Attach(ObjectBase(category), 2, IdentifierElement(idType, idValue)), 5, Characteristics(f)),
                     7, StorageElement(f[7], f[8])) == ObjectBody(category, idType, idValue, f)
  {
  }

  /** Creates an <object> at the front of the root, sets its category and fills it. */
  method AddObject(premis: Node, category: string, idType: string, idValue: string, f: seq<string>,
                   pieces: seq<string>, ghost doc: Element, ghost r: set<Node>)
    returns (ghost r': set<Node>)
    requires category == "file" ==> |f| == |FileFields|
    requires Denotes(premis, doc, r) && premis !in r
    modifies premis`children
    ensures premis !in r'
    ensures Denotes(premis, Attach(doc, ObjectIndex, AttachLinks(ObjectBody(category, idType, idValue, f), pieces)), r')
  {
    ghost var ks := premis.children;
    assert ChildrenDenote(ks, doc.children, r);
    var objectParent := CreateUnit(ObjectIndex, premis, "object");
    objectParent.attrs := objectParent.attrs[XsiType := "premis:" + category];
    ghost var below := FillObject(objectParent, category, idType, idValue, f, pieces, {premis, objectParent});
    r' := r + {objectParent} + below;
    Adopt(premis, doc, ks, r, ObjectIndex, objectParent, AttachLinks(ObjectBody(category, idType, idValue, f), pieces), below);
  }

  /**
   * One pass of the describe_objects loop: the row's cells are looked up
   * and the identifier decoded, then the <object> is built at the front of
   * the root. A row that cannot be mapped leaves the root as it was.
   */
  method DescribeObject(premis: Node, row: Row, ghost doc: Element, ghost r: set<Node>)
    returns (outcome: Outcome, ghost doc': Element, ghost r': set<Node>)
    requires Denotes(premis, doc, r) && premis !in r
    modifies premis`children
    ensures premis !in r' && Denotes(premis, doc', r')
    ensures ObjectElement(row).Failure? ==>
              outcome == Failed(ObjectElement(row).error) && doc' == doc && premis.children == old(premis.children)
    ensures ObjectElement(row).Success? ==> outcome == Done && doc' == Attach(doc, ObjectIndex, ObjectElement(row).value)
  {
    doc', r' := doc, r;
    var head := Lookup(row, HeadFields);
    if head.Failure? {
      return Failed(head.error), doc', r';
    }
    var ids := DecodeIdentifier(head.value[0]);
    if |ids| < 2 {
      return Failed(MalformedIdentifier), doc', r';
    }
    var category := head.value[1];
    var f: seq<string> := [];
    if category == "file" {
      var found := Lookup(row, FileFields);
      if found.Failure? {
        return Failed(found.error), doc', r';
      }
      f := found.value;
    }
    var links := Lookup(row, LinkFields);
    if links.Failure? {
      return Failed(links.error), doc', r';
    }
    var pieces := Split(links.value[0], "|");
    r' := AddObject(premis, category, ids[0], ids[1], f, pieces, doc, r);
    outcome, doc' := Done, Attach(doc, ObjectIndex, AttachLinks(ObjectBody(category, ids[0], ids[1], f), pieces));
  }

  /**
   * describe_objects: the rows are processed in order until one cannot be
   * mapped. On success the root holds the value DescribedObjects gives;
   * otherwise the error is that of the first such row.
   */
  method DescribeObjects(premis: Node, rows: seq<Row>, ghost doc: Element, ghost r: set<Node>)
    returns (outcome: Outcome, ghost doc': Element, ghost r': set<Node>)
    requires Denotes(premis, doc, r) && premis !in r
    modifies premis`children
    ensures premis !in r' && Denotes(premis, doc', r')
    ensures outcome == Done <==> DescribedObjects(doc, rows).Success?
    ensures outcome == Done ==> doc' == DescribedObjects(doc, rows).value
    ensures outcome.Failed? ==> outcome.error == DescribedObjects(doc, rows).error
  {
    ghost var rs := ObjectResults(rows);
    doc', r' := doc, r;
    var i := 0;
    while i < |rows|
      invariant 0 <= i <= |rows|
      invariant premis !in r' && Denotes(premis, doc', r')
      invariant InsertAll(doc, ObjectIndex, rs[..i]) == Success(doc')
    {
      InsertAllStep(doc, ObjectIndex, rs, i, doc');
      ghost var before := doc';
      outcome, doc', r' := DescribeObject(premis, rows[i], doc', r');
      if outcome.Failed? {
        DescribedObjectsStop(doc, rows, i, before);
        return;
      }
      i := i + 1;
    }
    assert rs[..i] == rs;
    outcome := Done;
  }
}
