/** The parser as it runs: positions that move over the buffer, an error and a nesting depth kept in the
    document. */
module XmlParser {
  import opened Wrappers
  import opened XmlText
  import opened XmlModel

  datatype ClosingType = OPEN | CLOSED | CLOSING

  /** Children found earlier, in front of those still to be parsed. */
  function Under(kids: seq<Element>, r: Nodes): Nodes {
    match r
    case Bad(error) => Bad(error)
    case AtEnd(more) => AtEnd(kids + more)
    case Closed(more, next, name) => Closed(kids + more, next, name)
  }

  lemma UnderMore(kids: seq<Element>, e: Element, r: Nodes)
    ensures Under(kids, Prepend(e, r)) == Under(kids + [e], r)
  {
    if !r.Bad? {
      assert kids + ([e] + r.kids) == (kids + [e]) + r.kids;
    }
  }

  lemma UnderEnds(kids: seq<Element>, next: nat, name: Text)
    ensures Under(kids, AtEnd([])) == AtEnd(kids) && Under(kids, Closed([], next, name)) == Closed(kids, next, name)
    ensures forall why :: Under(kids, Bad(why)) == Bad(why)
  {
    assert kids + [] == kids;
  }

  lemma UnderNone(r: Nodes)
    ensures Under([], r) == r
  {
    if !r.Bad? {
      assert [] + r.kids == r.kids;
    }
  }

  /** A null pointer is None. */
  type Position = Option<nat>

  class Document {
    const buffer: Text
    var errorId: Option<XmlError>
    var parsingDepth: nat

    constructor (buffer: Text)
      ensures this.buffer == buffer && errorId == None && parsingDepth == 0
    {
      this.buffer, this.errorId, this.parsingDepth := buffer, None, 0;
    }

    method SkipSpace(from: nat) returns (p: nat)
      requires from <= |buffer|
      ensures p == SkipWhiteSpace(buffer, from)
    {
      p := from;
      while IsWhiteSpace(At(buffer, p))
        invariant from <= p <= |buffer| && SkipWhiteSpace(buffer, p) == SkipWhiteSpace(buffer, from)
        decreases |buffer| - p
      {
        p := p + 1;
      }
    }

    method ScanName(from: nat) returns (p: Position)
      requires from <= |buffer|
      ensures p == ParseName(buffer, from)
    {
      if At(buffer, from) == NUL || !IsNameStartChar(At(buffer, from)) {
        return None;
      }
      var q := from + 1;
      while At(buffer, q) != NUL && IsNameChar(At(buffer, q))
        invariant from < q <= |buffer| && NameEnd(buffer, q) == NameEnd(buffer, from + 1)
        decreases |buffer| - q
      {
        q := q + 1;
      }
      p := Some(q);
    }

    /** The end of a text closed by `endChar`. */
    method ScanText(from: nat, endChar: Byte) returns (end: Position)
      requires from <= |buffer| && endChar != NUL
      ensures end == Find(buffer, from, endChar)
    {
      var p := from;
      while At(buffer, p) != NUL
        invariant from <= p <= |buffer| && Find(buffer, p, endChar) == Find(buffer, from, endChar)
        decreases |buffer| - p
      {
        if buffer[p] == endChar {
          return Some(p);
        }
        p := p + 1;
      }
      end := None;
    }

    method ScanAttribute(from: nat) returns (a: Attr, next: Position)
      requires from <= |buffer|
      ensures ParseAttribute(buffer, from) == if next.Some? then Some((a, next.value)) else None
    {
      hide ParseName, SkipWhiteSpace, Find, Decode;
      a, next := Attr([], []), None;
      var nameEnd := ScanName(from);
      if nameEnd.None? || At(buffer, nameEnd.value) == NUL {
        NoEquals(from);
        return;
      }
      var w := SkipSpace(nameEnd.value);
      if At(buffer, w) != EQUALS {
        return;
      }
      var u := SkipSpace(w + 1);
      if At(buffer, u) != QUOTE && At(buffer, u) != APOS {
        return;
      }
      var end := ScanText(u + 1, buffer[u]);
      if end.Some? {
        a, next := Attr(buffer[from..nameEnd.value], Decode(buffer[u + 1..end.value])), Some(end.value + 1);
      }
    }

    /** Nothing but white space leads from a name at the end of the text to an equals sign. */
    lemma NoEquals(from: nat)
      requires from <= |buffer| && (ParseName(buffer, from).None? || At(buffer, ParseName(buffer, from).value) == NUL)
      ensures ParseAttribute(buffer, from) == None
    {
      hide ParseName, Decode, Find;
    }

    /** `Attribute`: a walk along the attributes. */
    method FindAttribute(attrs: seq<Attr>, name: Text) returns (found: bool)
      ensures found <==> HasName(attrs, name)
    {
      var i := 0;
      while i < |attrs|
        invariant i <= |attrs| && forall k | 0 <= k < i :: attrs[k].name != name
      {
        if attrs[i].name == name {
          return true;
        }
        i := i + 1;
      }
      found := false;
    }

    method ScanAttributes(from: nat) returns (attrs: seq<Attr>, sealed: bool, next: Position)
      requires from <= |buffer| && errorId.None?
      modifies this`errorId
      ensures match ParseAttributes(buffer, from, [])
              case BadTag(error) => next.None? && errorId == Some(error)
              case Tag(s, a, n) => next == Some(n) && sealed == s && attrs == a && errorId.None?
    {
      hide SkipWhiteSpace, ParseAttribute, HasName;
      var p := from;
      attrs, sealed, next := [], false, None;
      while true
        invariant from <= p <= |buffer| && errorId.None?
        invariant ParseAttributes(buffer, p, attrs) == ParseAttributes(buffer, from, [])
        decreases |buffer| - p
      {
        var w := SkipSpace(p);
        if At(buffer, w) == NUL {
          errorId := Some(ParsingElement);
          return;
        } else if IsNameStartChar(At(buffer, w)) {
          var a, after := ScanAttribute(w);
          var duplicate := FindAttribute(attrs, a.name);
          if after.None? || duplicate {
            errorId := Some(ParsingAttribute);
            return;
          }
          p, attrs := after.value, attrs + [a];
        } else if At(buffer, w) == GREATER {
          return attrs, false, Some(w + 1);
        } else if At(buffer, w) == SLASH && At(buffer, w + 1) == GREATER {
          return attrs, true, Some(w + 2);
        } else {
          errorId := Some(ParsingElement);
          return;
        }
      }
    }

    /** What reading an element from behind its `<` comes to: the next position if there is one, the
        element with its closing type, and the end tag that a nested call has read. */
    predicate ElementRead(
      from: nat, depth: nat, next: Position, e: Element, closing: ClosingType, endTag: Text, error: Option<XmlError>)
      requires from <= |buffer|
    {
      match ReadTag(buffer, from)
      case BadHead(why) => next.None? && error == if why == ParsingFailed then None else Some(why)
      case EndTag(name, n) => next == Some(n) && e.name == name && closing == CLOSING && endTag == [] && error.None?
      case Whole(whole, n) => next == Some(n) && e == whole && closing == CLOSED && endTag == [] && error.None?
      case Opened(name, attrs, n) =>
        closing == OPEN &&
        if At(buffer, n) == NUL then next == Some(n) && e == Element(name, attrs, []) && endTag == [] && error.None?
        else ContentRead(n, depth, next, e.kids, endTag, error) && (next.Some? ==> e.name == name && e.attrs == attrs)
    }

    /** What reading the children of a node at nesting depth `depth` comes to. */
    predicate ContentRead(
      from: nat, depth: nat, next: Position, kids: seq<Element>, endTag: Text, error: Option<XmlError>)
      requires from <= |buffer|
    {
      if depth + 1 == MAX_DEPTH then next.None? && error == Some(DepthExceeded)
      else
        match ParseNodes(buffer, from, depth + 1)
        case Bad(why) => next.None? && error == Some(why)
        case AtEnd(found) => next.None? && error.None? && kids == found
        case Closed(found, n, name) => next == Some(n) && error.None? && kids == found && endTag == name
    }

    /** `XMLElement::ParseDeep`. */
    method ScanElement(from: nat) returns (next: Position, e: Element, closing: ClosingType, endTag: Text)
      requires from <= |buffer| && errorId.None? && parsingDepth < MAX_DEPTH
      modifies this
      ensures parsingDepth == old(parsingDepth)
      ensures ElementRead(from, parsingDepth, next, e, closing, endTag, errorId)
      decreases |buffer| - from
    {
      hide SkipWhiteSpace, ParseName, ParseAttributes, ParseNodes;
      next, e, closing, endTag := None, Element([], [], []), OPEN, [];
      var p := SkipSpace(from);
      if At(buffer, p) == SLASH {
        closing := CLOSING;
        p := p + 1;
      }
      var nameEnd := ScanName(p);
      if nameEnd.None? {
        return;
      }
      var attrs, sealed, after := ScanAttributes(nameEnd.value);
      e := Element(buffer[p..nameEnd.value], attrs, []);
      closing := if sealed then CLOSED else closing;
      next := after;
      if next.None? || At(buffer, next.value) == NUL || closing != OPEN {
        return;
      }
      var kids;
      next, kids, endTag := ScanNodes(next.value);
      e := Element(e.name, e.attrs, kids);
    }

    /** `XMLNode::ParseDeep`: the children of a node, one call deeper. */
    method ScanNodes(from: nat) returns (next: Position, kids: seq<Element>, endTag: Text)
      requires from <= |buffer| && errorId.None? && parsingDepth < MAX_DEPTH
      modifies this
      ensures parsingDepth == old(parsingDepth)
      ensures ContentRead(from, parsingDepth, next, kids, endTag, errorId)
      decreases |buffer| - from, 1
    {
      hide SkipWhiteSpace, ReadTag, ParseNodes, Under, Prepend;
      next, kids, endTag := None, [], [];
      parsingDepth := parsingDepth + 1;
      if parsingDepth == MAX_DEPTH {
        errorId := Some(DepthExceeded);
      } else {
        next, kids, endTag := ScanSiblings(from);
      }
      parsingDepth := parsingDepth - 1;
    }

    method ScanSiblings(from: nat) returns (next: Position, kids: seq<Element>, endTag: Text)
      requires from <= |buffer| && errorId.None? && parsingDepth < MAX_DEPTH
      modifies this
      ensures parsingDepth == old(parsingDepth)
      ensures match ParseNodes(buffer, from, parsingDepth)
              case Bad(why) => next.None? && errorId == Some(why)
              case AtEnd(found) => next.None? && errorId.None? && kids == found
              case Closed(found, n, name) => next == Some(n) && errorId.None? && kids == found && endTag == name
      decreases |buffer| - from, 0
    {
      hide ReadTag, SkipWhiteSpace, IsElement, Under, Prepend;
      next, kids, endTag := None, [], [];
      var p := from;
      ghost var depth := parsingDepth;
      UnderNone(ParseNodes(buffer, from, depth));
      while At(buffer, p) != NUL
        invariant from <= p <= |buffer| && errorId.None? && parsingDepth == depth && next.None?
        invariant Under(kids, ParseNodes(buffer, p, depth)) == ParseNodes(buffer, from, depth)
        decreases |buffer| - p
      {
        var w := SkipSpace(p);
        UnderEnds(kids, 0, []);
        if At(buffer, w) == NUL {
          break;
        }
        if !IsElement(buffer, w) {
          errorId := Some(Unsupported);
          return;
        }
        var after, e, closing, end := ScanElement(w + 1);
        if after.None? {
          errorId := if errorId.None? then Some(ParsingFailed) else errorId;
          return;
        }
        if closing == CLOSING {
          UnderEnds(kids, after.value, e.name);
          return after, kids, e.name;
        }
        if (end == [] && closing == OPEN) || (end != [] && (closing != OPEN || end != e.name)) {
          errorId := Some(MismatchedElement);
          return;
        }
        UnderMore(kids, e, ParseNodes(buffer, after.value, depth));
        p, kids := after.value, kids + [e];
      }
      NothingLeft(p, depth);
      UnderEnds(kids, 0, []);
    }

    lemma NothingLeft(p: nat, depth: nat)
      requires p <= |buffer| && (At(buffer, SkipWhiteSpace(buffer, p)) == NUL || At(buffer, p) == NUL)
      ensures ParseNodes(buffer, p, depth) == AtEnd([])
    {
    }

    /** A whole document: what is returned when the children end with an end tag does not matter. */
    method ParseDocument() returns (kids: seq<Element>)
      requires errorId.None? && parsingDepth == 0
      modifies this
      ensures parsingDepth == 0
      ensures Parse(buffer) == if errorId.Some? then Failed(errorId.value) else XmlModel.Document(kids)
    {
      hide SkipWhiteSpace, ParseNodes;
      kids := [];
      var p := SkipSpace(0);
      p := SkipByteOrderMark(buffer, p);
      if At(buffer, p) == NUL {
        errorId := Some(EmptyDocument);
        return;
      }
      var next, endTag;
      next, kids, endTag := ScanNodes(p);
    }
  }
}
