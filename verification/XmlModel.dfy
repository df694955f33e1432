/** Elements and attributes, the text the printer makes of them, and what the parser makes of a text. */
module XmlModel {
  import opened Wrappers
  import opened XmlText

  datatype Attr = Attr(name: Text, value: Text)
  datatype Element = Element(name: Text, attrs: seq<Attr>, kids: seq<Element>)

  const MAX_DEPTH: nat := 500

  // ---------------------------------------------------------------- printing

  function Spaces(n: nat): (r: Text)
    ensures |r| == n && forall b | b in r :: b == SPACE
  {
    if n == 0 then [] else [SPACE] + Spaces(n - 1)
  }

  /** Where a new line of an indented document begins. */
  function Margin(depth: nat, compact: bool): Text {
    if compact then [] else [LF] + Spaces(4 * depth)
  }

  function Lead(depth: nat, compact: bool, first: bool): Text {
    if first && !compact then Spaces(4 * depth) else Margin(depth, compact)
  }

  function AttrText(a: Attr): Text {
    [SPACE] + a.name + [EQUALS, QUOTE] + EscapeText(a.value) + [QUOTE]
  }

  function AttrsText(attrs: seq<Attr>): Text {
    if attrs == [] then [] else AttrText(attrs[0]) + AttrsText(attrs[1..])
  }

  function CloseText(name: Text): Text {
    [LESS, SLASH] + name + [GREATER]
  }

  function StartText(name: Text, attrs: seq<Attr>): Text {
    [LESS] + name + AttrsText(attrs)
  }

  /** The rest of an element, `inner` being the text of its children. */
  function EndText(e: Element, inner: Text, depth: nat, compact: bool): Text {
    if e.kids == [] then [SLASH, GREATER] else [GREATER] + inner + Margin(depth, compact) + CloseText(e.name)
  }

  /** At depth 0 of an indented document an element is followed by a line end. */
  function LastText(depth: nat, compact: bool): Text {
    if depth == 0 && !compact then [LF] else []
  }

  function ElementText(e: Element, inner: Text, depth: nat, compact: bool, first: bool): Text {
    Lead(depth, compact, first) + StartText(e.name, e.attrs) + EndText(e, inner, depth, compact) +
      LastText(depth, compact)
  }

  /** The elements of one level; `first` says that nothing has been printed yet. */
  function KidsText(kids: seq<Element>, depth: nat, compact: bool, first: bool): Text
    decreases kids
  {
    if kids == [] then []
    else
      var inner := KidsText(kids[0].kids, depth + 1, compact, first && compact);
      ElementText(kids[0], inner, depth, compact, first) + KidsText(kids[1..], depth, compact, first && compact)
  }

  // ---------------------------------------------------------------- parsing

  datatype XmlError =
    | EmptyDocument
    | ParsingFailed
    | ParsingElement
    | ParsingAttribute
    | MismatchedElement
    | DepthExceeded
    | Unsupported

  function SkipWhiteSpace(t: Text, p: nat): (r: nat)
    requires p <= |t|
    ensures p <= r <= |t| && !IsWhiteSpace(At(t, r))
    decreases |t| - p
  {
    if IsWhiteSpace(At(t, p)) then SkipWhiteSpace(t, p + 1) else p
  }

  function NameEnd(t: Text, p: nat): (r: nat)
    requires p <= |t|
    ensures p <= r <= |t|
    decreases |t| - p
  {
    if IsNameChar(At(t, p)) then NameEnd(t, p + 1) else p
  }

  /** The end of the name that begins at `p`. */
  function ParseName(t: Text, p: nat): (r: Option<nat>)
    requires p <= |t|
    ensures r.Some? ==> p < r.value <= |t|
  {
    if IsNameStartChar(At(t, p)) then Some(NameEnd(t, p + 1)) else None
  }

  function ParseAttribute(t: Text, p: nat): (r: Option<(Attr, nat)>)
    requires p <= |t|
    ensures r.Some? ==> p < r.value.1 <= |t|
  {
    match ParseName(t, p)
    case None => None
    case Some(e) =>
      var w := SkipWhiteSpace(t, e);
      if At(t, w) != EQUALS then None
      else
        var u := SkipWhiteSpace(t, w + 1);
        if At(t, u) != QUOTE && At(t, u) != APOS then None
        else
          match Find(t, u + 1, t[u])
          case None => None
          case Some(s) => Some((Attr(t[p..e], Decode(t[u + 1..s])), s + 1))
  }

  predicate HasName(attrs: seq<Attr>, name: Text) {
    exists i | 0 <= i < |attrs| :: attrs[i].name == name
  }

  datatype Tag = BadTag(error: XmlError) | Tag(sealed: bool, attrs: seq<Attr>, next: nat)

  /** The rest of a tag whose attributes up to `p` are `seen`. */
  function ParseAttributes(t: Text, p: nat, seen: seq<Attr>): (r: Tag)
    requires p <= |t|
    ensures r.Tag? ==> p < r.next <= |t|
    ensures r.BadTag? ==> r.error == ParsingElement || r.error == ParsingAttribute
    decreases |t| - p
  {
    var w := SkipWhiteSpace(t, p);
    var b := At(t, w);
    if b == NUL then BadTag(ParsingElement)
    else if IsNameStartChar(b) then
      match ParseAttribute(t, w)
      case None => BadTag(ParsingAttribute)
      case Some((a, next)) =>
        if HasName(seen, a.name) then BadTag(ParsingAttribute) else ParseAttributes(t, next, seen + [a])
    else if b == GREATER then Tag(false, seen, w + 1)
    else if b == SLASH && At(t, w + 1) == GREATER then Tag(true, seen, w + 2)
    else BadTag(ParsingElement)
  }

  /** Whether the name of the element behind `<` at `p` has a slash in front, and where it begins. */
  function NameStart(t: Text, p: nat): (r: (bool, nat))
    requires p <= |t|
    ensures p <= r.1 <= |t|
  {
    var w := SkipWhiteSpace(t, p);
    if At(t, w) == SLASH then (true, w + 1) else (false, w)
  }

  /** What a node's text begins with decides what the node is. */
  predicate IsElement(t: Text, w: nat) {
    At(t, w) == LESS && At(t, w + 1) != 63 && At(t, w + 1) != 33
  }

  /** What stands next: nothing, an end tag, a sealed element, or the start of an element with content. */
  datatype Head =
    | NoMore
    | BadHead(error: XmlError)
    | EndTag(name: Text, next: nat)
    | Whole(e: Element, next: nat)
    | Opened(name: Text, attrs: seq<Attr>, next: nat)

  /** The tag behind a `<`. A slash in front of the name makes an end tag, but one at the end of the tag
      overrides it. */
  function ReadTag(t: Text, p: nat): (r: Head)
    requires p <= |t|
    ensures !r.NoMore? && (!r.BadHead? ==> p < r.next <= |t|)
    ensures r.EndTag? ==> r.name != []
  {
    var (closing, n) := NameStart(t, p);
    match ParseName(t, n)
    case None => BadHead(ParsingFailed)
    case Some(e) =>
      match ParseAttributes(t, e, [])
      case BadTag(error) => BadHead(error)
      case Tag(sealed, attrs, next) =>
        if sealed then Whole(Element(t[n..e], attrs, []), next)
        else if closing then EndTag(t[n..e], next)
        else Opened(t[n..e], attrs, next)
  }

  function ReadHead(t: Text, p: nat): (r: Head)
    requires p <= |t|
    ensures !r.NoMore? && !r.BadHead? ==> p < r.next <= |t|
    ensures r.EndTag? ==> r.name != []
  {
    var w := SkipWhiteSpace(t, p);
    if At(t, w) == NUL then NoMore
    else if !IsElement(t, w) then BadHead(Unsupported)
    else ReadTag(t, w + 1)
  }

  /** The children of a node: an error, or up to the end of the text, or up to the end tag `name`. */
  datatype Nodes = Bad(error: XmlError) | AtEnd(kids: seq<Element>) | Closed(kids: seq<Element>, next: nat, name: Text)

  function Prepend(e: Element, r: Nodes): (all: Nodes)
    ensures all.Closed? <==> r.Closed?
    ensures all.Closed? ==> all.next == r.next && all.name == r.name
  {
    match r
    case Bad(error) => Bad(error)
    case AtEnd(kids) => AtEnd([e] + kids)
    case Closed(kids, next, name) => Closed([e] + kids, next, name)
  }

  /** The children found from `p` on, `depth` calls deep. */
  function ParseNodes(t: Text, p: nat, depth: nat): (r: Nodes)
    requires p <= |t|
    ensures r.Closed? ==> p < r.next <= |t| && r.name != []
    decreases |t| - p
  {
    match ReadHead(t, p)
    case NoMore => AtEnd([])
    case BadHead(error) => Bad(error)
    case EndTag(name, next) => Closed([], next, name)
    case Whole(e, next) => Prepend(e, ParseNodes(t, next, depth))
    case Opened(name, attrs, next) =>
      if At(t, next) == NUL then Bad(MismatchedElement)
      else if depth + 1 == MAX_DEPTH then Bad(DepthExceeded)
      else
        match ParseNodes(t, next, depth + 1)
        case Bad(error) => Bad(error)
        case AtEnd(_) => Bad(ParsingFailed)
        case Closed(kids, after, end) =>
          if end != name then Bad(MismatchedElement)
          else Prepend(Element(name, attrs, kids), ParseNodes(t, after, depth))
  }

  datatype Parsed = Failed(error: XmlError) | Document(kids: seq<Element>)

  function SkipByteOrderMark(t: Text, p: nat): (r: nat)
    requires p <= |t|
    ensures p <= r <= |t|
  {
    if At(t, p) == 0xEF && At(t, p + 1) == 0xBB && At(t, p + 2) == 0xBF then p + 3 else p
  }

  /** An end tag without an element ends the document, and what follows it is not looked at. */
  function Parse(t: Text): Parsed {
    var p := SkipByteOrderMark(t, SkipWhiteSpace(t, 0));
    if At(t, p) == NUL then Failed(EmptyDocument)
    else
      match ParseNodes(t, p, 1)
      case Bad(error) => Failed(error)
      case AtEnd(kids) => Document(kids)
      case Closed(kids, _, _) => Document(kids)
  }
}
