/** Parsing what was printed. */
module XmlRoundTrip {
  import opened Wrappers
  import opened XmlText
  import opened XmlDecoding
  import opened XmlModel

  // ---------------------------------------------------------------- what comes back

  function RereadAttr(a: Attr): Attr {
    Attr(a.name, Normalize(a.value))
  }

  function RereadAttrs(attrs: seq<Attr>): seq<Attr> {
    if attrs == [] then [] else [RereadAttr(attrs[0])] + RereadAttrs(attrs[1..])
  }

  /** Elements with the line ends of their values normalized. */
  function Reread(kids: seq<Element>): (r: seq<Element>)
    ensures |r| == |kids|
  {
    if kids == [] then []
    else [Element(kids[0].name, RereadAttrs(kids[0].attrs), Reread(kids[0].kids))] + Reread(kids[1..])
  }

  predicate PrintableAttr(a: Attr) {
    ValidName(a.name) && NUL !in a.value
  }

  predicate PrintableTag(name: Text, attrs: seq<Attr>) {
    ValidName(name) && forall a | a in attrs :: PrintableAttr(a)
  }

  /** Names are names, and values are C strings. */
  predicate Printable(kids: seq<Element>) {
    kids == [] || (PrintableTag(kids[0].name, kids[0].attrs) && Printable(kids[0].kids) && Printable(kids[1..]))
  }

  /** No attribute has the name of one in front of it. */
  predicate Distinct(seen: seq<Attr>, attrs: seq<Attr>)
    decreases attrs
  {
    attrs == [] || (!HasName(seen, attrs[0].name) && Distinct(seen + [RereadAttr(attrs[0])], attrs[1..]))
  }

  /** The parser takes the elements when it is `depth` calls deep: attribute names are distinct throughout
      and elements with children are not nested to the limit. */
  predicate Fits(kids: seq<Element>, depth: nat) {
    kids == [] ||
    (Distinct([], kids[0].attrs) && (kids[0].kids == [] || (depth + 1 != MAX_DEPTH && Fits(kids[0].kids, depth + 1))) &&
     Fits(kids[1..], depth))
  }

  predicate NoReturns(kids: seq<Element>) {
    kids == [] || ((forall a | a in kids[0].attrs :: CR !in a.value) && NoReturns(kids[0].kids) && NoReturns(kids[1..]))
  }

  lemma {:induction false} RereadAttrsSame(attrs: seq<Attr>)
    ensures RereadAttrs(attrs) == attrs <==> forall a | a in attrs :: CR !in a.value
  {
    if attrs != [] {
      RereadAttrsSame(attrs[1..]);
      assert attrs == [attrs[0]] + attrs[1..];
    }
  }

  lemma {:induction false} RereadSame(kids: seq<Element>)
    ensures Reread(kids) == kids <==> NoReturns(kids)
    decreases kids
  {
    if kids != [] {
      var e := kids[0];
      RereadAttrsSame(e.attrs);
      RereadSame(e.kids);
      RereadSame(kids[1..]);
      assert kids == [e] + kids[1..];
    }
  }

  // ---------------------------------------------------------------- the parts of a tag

  lemma {:induction false} SkipOver(t: Text, p: nat, ws: Text)
    requires Has(t, p, ws) && forall b | b in ws :: IsWhiteSpace(b)
    ensures SkipWhiteSpace(t, p) == SkipWhiteSpace(t, p + |ws|)
    decreases |ws|
  {
    if ws != [] {
      assert ws == [ws[0]] + ws[1..];
      HasSplit(t, p, [ws[0]], ws[1..]);
      HasAt(t, p, ws, 0);
      SkipOver(t, p + 1, ws[1..]);
    }
  }

  lemma {:induction false} NameEndFound(t: Text, p: nat, name: Text)
    requires Has(t, p, name) && (forall b | b in name :: IsNameChar(b)) && !IsNameChar(At(t, p + |name|))
    ensures NameEnd(t, p) == p + |name|
    decreases |name|
  {
    if name != [] {
      assert name == [name[0]] + name[1..];
      HasSplit(t, p, [name[0]], name[1..]);
      HasAt(t, p, name, 0);
      NameEndFound(t, p + 1, name[1..]);
    }
  }

  lemma NameFound(t: Text, p: nat, name: Text)
    requires ValidName(name) && Has(t, p, name) && !IsNameChar(At(t, p + |name|))
    ensures ParseName(t, p) == Some(p + |name|) && t[p..p + |name|] == name
  {
    assert name == [name[0]] + name[1..];
    HasSplit(t, p, [name[0]], name[1..]);
    HasAt(t, p, name, 0);
    NameEndFound(t, p + 1, name[1..]);
  }

  /** A quoted value, from behind its opening quote. */
  lemma {:induction false} ValueFound(t: Text, p: nat, v: Text)
    requires NUL !in v && Has(t, p, EscapeText(v)) && Has(t, p + |EscapeText(v)|, [QUOTE])
    ensures Find(t, p, QUOTE) == Some(p + |EscapeText(v)|) && Decode(t[p..p + |EscapeText(v)|]) == Normalize(v)
  {
    hide EscapeText, Decode, Normalize, Find;
    var x := EscapeText(v);
    HasAt(t, p + |x|, [QUOTE], 0);
    EscapeHasNoQuote(v);
    forall k | p <= k < p + |x| ensures t[k] != QUOTE && t[k] != NUL {
      HasAt(t, p, x, k - p);
      assert x[k - p] in x;
    }
    FindFirst(t, p, p + |x|, QUOTE);
    DecodeOfEscape(v);
  }

  lemma AttributeParts(t: Text, p: nat, a: Attr)
    requires PrintableAttr(a) && Has(t, p, AttrText(a))
    ensures var n, x := |a.name|, EscapeText(a.value);
            |AttrText(a)| == n + |x| + 4 && Has(t, p, [SPACE]) && Has(t, p + 1, a.name) &&
            Has(t, p + 1 + n, [EQUALS, QUOTE]) &&
            Has(t, p + 3 + n, x) && Has(t, p + 3 + n + |x|, [QUOTE])
    ensures a.name != [] && IsNameStartChar(a.name[0]) && !IsNameChar(EQUALS) && ValidName(a.name) && NUL !in a.value
  {
    hide Has, EscapeText;
    HasSplit(t, p, [SPACE] + a.name + [EQUALS, QUOTE] + EscapeText(a.value), [QUOTE]);
    HasSplit4(t, p, [SPACE], a.name, [EQUALS, QUOTE], EscapeText(a.value));
  }

  lemma AttributeFound(t: Text, p: nat, a: Attr)
    requires PrintableAttr(a) && Has(t, p, AttrText(a))
    ensures p + |AttrText(a)| <= |t| && |AttrText(a)| > 0 && t[p] == SPACE && IsNameStartChar(At(t, p + 1))
    ensures ParseAttribute(t, p + 1) == Some((RereadAttr(a), p + |AttrText(a)|))
  {
    hide *;
    var n, x := |a.name|, EscapeText(a.value);
    AttributeParts(t, p, a);
    HasAt(t, p, [SPACE], 0);
    HasAt(t, p + 1, a.name, 0);
    HasAt(t, p + 1 + n, [EQUALS, QUOTE], 0);
    HasAt(t, p + 1 + n, [EQUALS, QUOTE], 1);
    HasAt(t, p + 3 + n + |x|, [QUOTE], 0);
    NameFound(t, p + 1, a.name);
    ValueFound(t, p + n + 3, a.value);
    PiecesOfAttribute(t, p + 1, a, n, |x|);
  }

  /** The parser's way through an attribute whose parts are known. */
  lemma PiecesOfAttribute(t: Text, p: nat, a: Attr, n: nat, m: nat)
    requires p + n + 2 + m < |t| && ParseName(t, p) == Some(p + n) && t[p..p + n] == a.name
    requires t[p + n] == EQUALS && t[p + n + 1] == QUOTE
    requires Find(t, p + n + 2, QUOTE) == Some(p + n + 2 + m)
    requires Decode(t[p + n + 2..p + n + 2 + m]) == Normalize(a.value)
    ensures ParseAttribute(t, p) == Some((RereadAttr(a), p + n + m + 3))
  {
    hide ParseName, Find, Decode, Normalize;
    assert SkipWhiteSpace(t, p + n) == p + n && SkipWhiteSpace(t, p + n + 1) == p + n + 1;
  }

  /** One attribute more. */
  lemma AttributesStep(t: Text, p: nat, b: Attr, next: nat, seen: seq<Attr>)
    requires p < next <= |t| && t[p] == SPACE && IsNameStartChar(At(t, p + 1))
    requires ParseAttribute(t, p + 1) == Some((b, next))
    ensures ParseAttributes(t, p, seen) ==
            if HasName(seen, b.name) then BadTag(ParsingAttribute) else ParseAttributes(t, next, seen + [b])
  {
    hide ParseAttribute, HasName;
    assert SkipWhiteSpace(t, p) == p + 1;
  }

  lemma AttrsUnfold(attrs: seq<Attr>, seen: seq<Attr>)
    ensures attrs == [] ==> AttrsText(attrs) == [] && seen + RereadAttrs(attrs) == seen && Distinct(seen, attrs)
    ensures attrs != [] ==>
            var a, b, rest := attrs[0], RereadAttr(attrs[0]), attrs[1..];
            AttrsText(attrs) == AttrText(a) + AttrsText(rest) &&
            seen + RereadAttrs(attrs) == (seen + [b]) + RereadAttrs(rest) &&
            (Distinct(seen, attrs) <==> !HasName(seen, b.name) && Distinct(seen + [b], rest))
  {
  }

  lemma {:induction false} AttributesFound(t: Text, p: nat, attrs: seq<Attr>, seen: seq<Attr>)
    requires (forall a | a in attrs :: PrintableAttr(a)) && Has(t, p, AttrsText(attrs)) && p <= |t|
    ensures p + |AttrsText(attrs)| <= |t|
    ensures ParseAttributes(t, p, seen) ==
            if Distinct(seen, attrs) then ParseAttributes(t, p + |AttrsText(attrs)|, seen + RereadAttrs(attrs))
            else BadTag(ParsingAttribute)
    decreases |attrs|
  {
    hide *;
    AttrsUnfold(attrs, seen);
    if attrs != [] {
      var a, b, rest := attrs[0], RereadAttr(attrs[0]), attrs[1..];
      HasSplit(t, p, AttrText(a), AttrsText(rest));
      AttributeFound(t, p, a);
      AttributesStep(t, p, b, p + |AttrText(a)|, seen);
      AttributesFound(t, p + |AttrText(a)|, rest, seen + [b]);
    }
  }

  // ---------------------------------------------------------------- heads

  lemma MarginIsWhite(depth: nat, compact: bool, first: bool)
    ensures forall b | b in Lead(depth, compact, first) :: IsWhiteSpace(b)
    ensures forall b | b in Margin(depth, compact) :: IsWhiteSpace(b)
    ensures forall b | b in LastText(depth, compact) :: IsWhiteSpace(b)
  {
  }

  /** The name and the attributes of an element, with `end` behind them. */
  lemma TagFound(t: Text, p: nat, name: Text, attrs: seq<Attr>, end: Byte) returns (q: nat)
    requires PrintableTag(name, attrs) && Has(t, p, StartText(name, attrs))
    requires At(t, p + |StartText(name, attrs)|) == end && (end == SLASH || end == GREATER)
    ensures q == p + |StartText(name, attrs)| && p + 1 + |name| <= q < |t| && t[q] == end
    ensures t[p] == LESS && IsElement(t, p) && SkipWhiteSpace(t, p) == p && NameStart(t, p + 1) == (false, p + 1)
    ensures ParseName(t, p + 1) == Some(p + 1 + |name|) && t[p + 1..p + 1 + |name|] == name
    ensures ParseAttributes(t, p + 1 + |name|, []) ==
            if Distinct([], attrs) then ParseAttributes(t, q, RereadAttrs(attrs)) else BadTag(ParsingAttribute)
  {
    hide *;
    StartParts(t, p, name, attrs);
    q := p + |StartText(name, attrs)|;
    SeenInside(t, q);
    HasAt(t, p, [LESS], 0);
    if attrs != [] {
      AttrsHead(t, p + 1 + |name|, attrs);
    }
    NameFound(t, p + 1, name);
    AttributesFound(t, p + 1 + |name|, attrs, []);
    NameBegins(t, p, name);
  }

  lemma SeenInside(t: Text, p: nat)
    requires At(t, p) == SLASH || At(t, p) == GREATER
    ensures p < |t| && t[p] == At(t, p)
  {
  }

  lemma StartParts(t: Text, p: nat, name: Text, attrs: seq<Attr>)
    requires PrintableTag(name, attrs) && Has(t, p, StartText(name, attrs))
    ensures Has(t, p, [LESS]) && Has(t, p + 1, name) && Has(t, p + 1 + |name|, AttrsText(attrs))
    ensures |StartText(name, attrs)| == 1 + |name| + |AttrsText(attrs)| && (attrs == [] ==> AttrsText(attrs) == [])
    ensures [] + RereadAttrs(attrs) == RereadAttrs(attrs)
    ensures ValidName(name) && (forall a | a in attrs :: PrintableAttr(a))
    ensures !IsNameChar(SPACE) && !IsNameChar(SLASH) && !IsNameChar(GREATER)
  {
    hide Has;
    HasSplit3(t, p, [LESS], name, AttrsText(attrs));
  }

  /** Behind `<`, a name is neither an end tag nor one of the other nodes. */
  lemma NameBegins(t: Text, p: nat, name: Text)
    requires ValidName(name) && At(t, p) == LESS && Has(t, p + 1, name)
    ensures IsElement(t, p) && SkipWhiteSpace(t, p) == p && NameStart(t, p + 1) == (false, p + 1)
  {
    HasAt(t, p + 1, name, 0);
  }

  lemma AttrsHead(t: Text, p: nat, attrs: seq<Attr>)
    requires attrs != [] && Has(t, p, AttrsText(attrs))
    ensures At(t, p) == SPACE
  {
    var a := attrs[0];
    HasSplit(t, p, AttrText(a), AttrsText(attrs[1..]));
    assert 0 < |AttrText(a)| && AttrText(a)[0] == SPACE;
    HasAt(t, p, AttrText(a), 0);
  }

  /** Reading a head whose name and attributes have been read. */
  lemma HeadRead(t: Text, p: nat, e: nat)
    requires p < e <= |t| && t[p] == LESS && IsElement(t, p) && SkipWhiteSpace(t, p) == p
    requires NameStart(t, p + 1) == (false, p + 1) && ParseName(t, p + 1) == Some(e)
    ensures ReadHead(t, p) == match ParseAttributes(t, e, [])
                              case BadTag(error) => BadHead(error)
                              case Tag(sealed, attrs, next) =>
                                if sealed then Whole(Element(t[p + 1..e], attrs, []), next)
                                  else Opened(t[p + 1..e], attrs, next)
  {
    hide SkipWhiteSpace, NameStart, ParseName, ParseAttributes, IsElement;
  }

  lemma TagEnd(t: Text, q: nat, attrs: seq<Attr>)
    requires q < |t|
    ensures t[q] == SLASH && At(t, q + 1) == GREATER ==> ParseAttributes(t, q, attrs) == Tag(true, attrs, q + 2)
    ensures t[q] == GREATER ==> ParseAttributes(t, q, attrs) == Tag(false, attrs, q + 1)
  {
    hide ParseAttribute;
  }

  /** An element without children. */
  lemma WholeFound(t: Text, p: nat, e: Element)
    requires PrintableTag(e.name, e.attrs) && Has(t, p, StartText(e.name, e.attrs))
    requires Has(t, p + |StartText(e.name, e.attrs)|, [SLASH, GREATER])
    ensures ReadHead(t, p) ==
            if Distinct([], e.attrs)
            then Whole(Element(e.name, RereadAttrs(e.attrs), []), p + |StartText(e.name, e.attrs)| + 2)
            else BadHead(ParsingAttribute)
  {
    hide *;
    HasAt(t, p + |StartText(e.name, e.attrs)|, [SLASH, GREATER], 0);
    HasAt(t, p + |StartText(e.name, e.attrs)|, [SLASH, GREATER], 1);
    var q := TagFound(t, p, e.name, e.attrs, SLASH);
    HeadRead(t, p, p + 1 + |e.name|);
    TagEnd(t, q, RereadAttrs(e.attrs));
  }

  lemma OpenedFound(t: Text, p: nat, e: Element)
    requires PrintableTag(e.name, e.attrs) && Has(t, p, StartText(e.name, e.attrs))
    requires Has(t, p + |StartText(e.name, e.attrs)|, [GREATER])
    ensures ReadHead(t, p) ==
            if Distinct([], e.attrs) then Opened(e.name, RereadAttrs(e.attrs), p + |StartText(e.name, e.attrs)| + 1)
            else BadHead(ParsingAttribute)
  {
    hide *;
    HasAt(t, p + |StartText(e.name, e.attrs)|, [GREATER], 0);
    var q := TagFound(t, p, e.name, e.attrs, GREATER);
    HeadRead(t, p, p + 1 + |e.name|);
    TagEnd(t, q, RereadAttrs(e.attrs));
  }

  lemma EndTagFound(t: Text, p: nat, name: Text)
    requires ValidName(name) && Has(t, p, CloseText(name))
    ensures ReadHead(t, p) == EndTag(name, p + |CloseText(name)|)
  {
    hide Has, ValidName, NameEnd;
    HasSplit3(t, p, [LESS, SLASH], name, [GREATER]);
    HasAt(t, p, [LESS, SLASH], 0);
    HasAt(t, p, [LESS, SLASH], 1);
    HasAt(t, p + 2 + |name|, [GREATER], 0);
    NameFound(t, p + 2, name);
  }

  /** White space in front of a head does not matter. */
  lemma HeadSkips(t: Text, p: nat, q: nat)
    requires p <= |t| && q <= |t| && SkipWhiteSpace(t, p) == SkipWhiteSpace(t, q)
    ensures ReadHead(t, p) == ReadHead(t, q)
  {
  }

  /** The parts of an element on its page; white space leads to its start and follows its end. */
  lemma ElementParts(
    t: Text, p: nat, e: Element, inner: Text, depth: nat, compact: bool, first: bool)
    returns (start: nat, end: nat, last: nat)
    requires Has(t, p, ElementText(e, inner, depth, compact, first))
    ensures p <= start && end == start + |StartText(e.name, e.attrs)|
    ensures last == end + |EndText(e, inner, depth, compact)|
    ensures last <= p + |ElementText(e, inner, depth, compact, first)| <= |t|
    ensures Has(t, start, StartText(e.name, e.attrs)) && Has(t, end, EndText(e, inner, depth, compact))
    ensures SkipWhiteSpace(t, p) == SkipWhiteSpace(t, start)
    ensures SkipWhiteSpace(t, last) == SkipWhiteSpace(t, p + |ElementText(e, inner, depth, compact, first)|)
  {
    hide Has, SkipWhiteSpace, StartText, EndText, Lead, LastText, IsWhiteSpace;
    var lead, after := Lead(depth, compact, first), LastText(depth, compact);
    HasSplit4(t, p, lead, StartText(e.name, e.attrs), EndText(e, inner, depth, compact), after);
    MarginIsWhite(depth, compact, first);
    SkipOver(t, p, lead);
    start := p + |lead|;
    end := start + |StartText(e.name, e.attrs)|;
    last := end + |EndText(e, inner, depth, compact)|;
    HasInside(t, last, after);
    SkipOver(t, last, after);
  }

  lemma HasInside(t: Text, p: nat, x: Text)
    requires Has(t, p, x)
    ensures p + |x| <= |t|
  {
  }

  lemma EndTexts(e: Element, inner: Text, depth: nat, compact: bool)
    ensures e.kids == [] ==> EndText(e, inner, depth, compact) == [SLASH, GREATER]
    ensures e.kids != [] ==>
            EndText(e, inner, depth, compact) == [GREATER] + inner + Margin(depth, compact) + CloseText(e.name)
    ensures |CloseText(e.name)| > 0
  {
  }

  /** The head of an element without children. */
  lemma LeafHead(t: Text, p: nat, e: Element, depth: nat, compact: bool, first: bool) returns (q: nat)
    requires PrintableTag(e.name, e.attrs) && e.kids == [] && Has(t, p, ElementText(e, [], depth, compact, first))
    ensures p < q <= p + |ElementText(e, [], depth, compact, first)| <= |t|
    ensures ReadHead(t, p) == if Distinct([], e.attrs) then Whole(Element(e.name, RereadAttrs(e.attrs), []), q)
            else BadHead(ParsingAttribute)
    ensures SkipWhiteSpace(t, q) == SkipWhiteSpace(t, p + |ElementText(e, [], depth, compact, first)|)
  {
    hide *;
    EndTexts(e, [], depth, compact);
    var start, end;
    start, end, q := ElementParts(t, p, e, [], depth, compact, first);
    HeadSkips(t, p, start);
    WholeFound(t, start, e);
  }

  /** The start and the end of an element with children. */
  lemma BranchHead(
    t: Text, p: nat, e: Element, inner: Text, depth: nat, compact: bool, first: bool)
    returns (q: nat, next: nat)
    requires PrintableTag(e.name, e.attrs) && e.kids != [] && Has(t, p, ElementText(e, inner, depth, compact, first))
    ensures p < q && q + |inner| < next <= p + |ElementText(e, inner, depth, compact, first)| <= |t| && Has(t, q, inner)
    ensures ReadHead(t, p) == if Distinct([], e.attrs) then Opened(e.name, RereadAttrs(e.attrs), q)
            else BadHead(ParsingAttribute)
    ensures ReadHead(t, q + |inner|) == EndTag(e.name, next)
    ensures SkipWhiteSpace(t, next) == SkipWhiteSpace(t, p + |ElementText(e, inner, depth, compact, first)|)
  {
    hide *;
    var start, end, last := ElementParts(t, p, e, inner, depth, compact, first);
    HeadSkips(t, p, start);
    next := BranchEnd(t, end, e, inner, depth, compact);
    OpenedFound(t, start, e);
    q := end + 1;
  }

  lemma BranchEnd(t: Text, p: nat, e: Element, inner: Text, depth: nat, compact: bool) returns (next: nat)
    requires PrintableTag(e.name, e.attrs) && e.kids != [] && Has(t, p, EndText(e, inner, depth, compact))
    ensures Has(t, p, [GREATER]) && Has(t, p + 1, inner) && next == p + |EndText(e, inner, depth, compact)|
    ensures p + 1 + |inner| < next <= |t| && ReadHead(t, p + 1 + |inner|) == EndTag(e.name, next)
  {
    hide EndText, Margin, CloseText, Has, ReadHead, IsWhiteSpace, ValidName;
    var margin := Margin(depth, compact);
    EndTexts(e, inner, depth, compact);
    HasSplit4(t, p, [GREATER], inner, margin, CloseText(e.name));
    MarginIsWhite(depth, compact, false);
    SkipOver(t, p + 1 + |inner|, margin);
    HasInside(t, p + 1 + |inner|, margin);
    HasInside(t, p + 1 + |inner| + |margin|, CloseText(e.name));
    HeadSkips(t, p + 1 + |inner|, p + 1 + |inner| + |margin|);
    EndTagFound(t, p + 1 + |inner| + |margin|, e.name);
    next := p + |EndText(e, inner, depth, compact)|;
  }

  // ---------------------------------------------------------------- elements

  function PrependAll(kids: seq<Element>, r: Nodes): Nodes {
    if kids == [] then r else Prepend(kids[0], PrependAll(kids[1..], r))
  }

  lemma {:induction false} PrependAllTo(kids: seq<Element>, rest: seq<Element>, next: nat, name: Text)
    ensures PrependAll(kids, Closed(rest, next, name)) == Closed(kids + rest, next, name)
    ensures PrependAll(kids, AtEnd(rest)) == AtEnd(kids + rest)
  {
    if kids == [] {
      assert kids + rest == rest;
    } else {
      PrependAllTo(kids[1..], rest, next, name);
      assert [kids[0]] + (kids[1..] + rest) == kids + rest;
    }
  }

  lemma NodesSkip(t: Text, p: nat, q: nat, d: nat)
    requires p <= |t| && q <= |t| && SkipWhiteSpace(t, p) == SkipWhiteSpace(t, q)
    ensures ParseNodes(t, p, d) == ParseNodes(t, q, d)
  {
    HeadSkips(t, p, q);
  }

  /** Children begin with white space or with `<`. */
  lemma KidsHead(t: Text, p: nat, kids: seq<Element>, depth: nat, compact: bool, first: bool)
    requires kids != [] && Has(t, p, KidsText(kids, depth, compact, first))
    ensures At(t, p) != NUL
  {
    hide AttrsText, EndText, LastText;
    var lead := Lead(depth, compact, first);
    var text := KidsText(kids, depth, compact, first);
    MarginIsWhite(depth, compact, first);
    assert 0 < |text| && (text[0] == LESS || text[0] in lead);
    HasAt(t, p, text, 0);
  }

  lemma HeadStep(t: Text, p: nat, d: nat)
    requires p <= |t|
    ensures ReadHead(t, p).BadHead? ==> ParseNodes(t, p, d) == Bad(ReadHead(t, p).error)
    ensures ReadHead(t, p).Whole? ==>
            ParseNodes(t, p, d) == Prepend(ReadHead(t, p).e, ParseNodes(t, ReadHead(t, p).next, d))
    ensures ReadHead(t, p).Opened? && d + 1 == MAX_DEPTH ==>
              ParseNodes(t, p, d) ==
              Bad(if At(t, ReadHead(t, p).next) == NUL then MismatchedElement else DepthExceeded)
  {
    hide ReadHead;
  }

  /** An opened element, whose children and end tag have been found. */
  lemma OpenStep(
    t: Text, p: nat, q: nat, end: nat, next: nat, name: Text, attrs: seq<Attr>, kids: seq<Element>, d: nat,
    fits: bool)
    requires p < q <= end < next <= |t| && At(t, q) != NUL && d + 1 != MAX_DEPTH
    requires ReadHead(t, p) == Opened(name, attrs, q) && ReadHead(t, end) == EndTag(name, next)
    requires fits ==> ParseNodes(t, q, d + 1) == PrependAll(kids, ParseNodes(t, end, d + 1))
    requires !fits ==> ParseNodes(t, q, d + 1).Bad?
    ensures fits ==> ParseNodes(t, p, d) == Prepend(Element(name, attrs, kids), ParseNodes(t, next, d))
    ensures !fits ==> ParseNodes(t, p, d).Bad?
  {
    hide ReadHead, PrependAll;
    PrependAllTo(kids, [], next, name);
    assert kids + [] == kids;
  }

  lemma KidsUnfold(kids: seq<Element>, d: nat, depth: nat, compact: bool, first: bool)
    ensures kids == [] ==> KidsText(kids, depth, compact, first) == [] && Fits(kids, d) && Reread(kids) == []
    ensures kids != [] ==>
            var e, rest := kids[0], kids[1..];
            KidsText(kids, depth, compact, first) ==
              ElementText(e, KidsText(e.kids, depth + 1, compact, first && compact), depth, compact, first) +
                KidsText(rest, depth, compact, first && compact) &&
            (Printable(kids) ==> PrintableTag(e.name, e.attrs) && Printable(e.kids) && Printable(rest)) &&
            (Fits(kids, d) <==>
             Distinct([], e.attrs) && (e.kids == [] || (d + 1 != MAX_DEPTH && Fits(e.kids, d + 1))) && Fits(rest, d)) &&
            Reread(kids) == [Element(e.name, RereadAttrs(e.attrs), Reread(e.kids))] + Reread(rest)
    ensures kids == [] ==> Reread(kids) == []
  {
    hide ElementText, PrintableTag, Distinct, RereadAttrs;
  }

  lemma PrependFirst(e: Element, kids: seq<Element>, r: Nodes)
    ensures PrependAll([e] + kids, r) == Prepend(e, PrependAll(kids, r)) && PrependAll([], r) == r
    ensures if r.Bad? then Prepend(e, r) == r else !Prepend(e, r).Bad?
  {
    assert ([e] + kids)[1..] == kids;
  }

  lemma {:induction false} KidsParse(
    t: Text, p: nat, kids: seq<Element>, d: nat, depth: nat, compact: bool, first: bool)
    requires Printable(kids) && d < MAX_DEPTH && Has(t, p, KidsText(kids, depth, compact, first))
    ensures p + |KidsText(kids, depth, compact, first)| <= |t|
    ensures Fits(kids, d) ==>
            ParseNodes(t, p, d) ==
            PrependAll(Reread(kids), ParseNodes(t, p + |KidsText(kids, depth, compact, first)|, d))
    ensures !Fits(kids, d) ==> ParseNodes(t, p, d).Bad?
    decreases kids
  {
    hide *;
    HasInside(t, p, KidsText(kids, depth, compact, first));
    KidsUnfold(kids, d, depth, compact, first);
    if kids == [] {
      PrependFirst(Element([], [], []), [], ParseNodes(t, p, d));
    } else {
      var e, more := kids[0], KidsText(kids[1..], depth, compact, first && compact);
      var inner := KidsText(e.kids, depth + 1, compact, first && compact);
      var text := ElementText(e, inner, depth, compact, first);
      HasSplit(t, p, text, more);
      KidsParse(t, p + |text|, kids[1..], d, depth, compact, first && compact);
      var own := Element(e.name, RereadAttrs(e.attrs), Reread(e.kids));
      PrependFirst(own, Reread(kids[1..]), ParseNodes(t, p + |text| + |more|, d));
      PrependFirst(own, [], ParseNodes(t, p + |text|, d));
      HeadStep(t, p, d);
      if e.kids == [] {
        KidsUnfold(e.kids, d + 1, depth + 1, compact, first && compact);
        var q := LeafHead(t, p, e, depth, compact, first);
        NodesSkip(t, q, p + |text|, d);
      } else {
        var q, next := BranchHead(t, p, e, inner, depth, compact, first);
        if Distinct([], e.attrs) && d + 1 != MAX_DEPTH {
          NodesSkip(t, next, p + |text|, d);
          KidsHead(t, q, e.kids, depth + 1, compact, first && compact);
          KidsParse(t, q, e.kids, d + 1, depth + 1, compact, first && compact);
          OpenStep(t, p, q, q + |inner|, next, e.name, RereadAttrs(e.attrs), Reread(e.kids), d, Fits(e.kids, d + 1));
        }
      }
    }
  }

  // ---------------------------------------------------------------- the round trip

  /** The text of a whole document, printed from a given depth. */
  function Print(kids: seq<Element>, depth: nat, compact: bool): Text {
    KidsText(kids, depth, compact, true)
  }

  /** There is no byte order mark in front of the first element. */
  lemma StartFound(t: Text, kids: seq<Element>, depth: nat, compact: bool) returns (p: nat)
    requires kids != [] && Has(t, 0, KidsText(kids, depth, compact, true))
    ensures p <= |t| && SkipByteOrderMark(t, SkipWhiteSpace(t, 0)) == p && At(t, p) == LESS
    ensures ParseNodes(t, p, 1) == ParseNodes(t, 0, 1)
  {
    var lead := Lead(depth, compact, true);
    var text := KidsText(kids, depth, compact, true);
    p := |lead|;
    assert text == lead + text[p..] && text[p] == LESS;
    HasSplit(t, 0, lead, text[p..]);
    HasAt(t, 0, text, p);
    MarginIsWhite(depth, compact, true);
    SkipOver(t, 0, lead);
    NodesSkip(t, 0, p, 1);
  }

  /** Parsing what was printed gives the document with its line ends normalized, as long as it fits;
      otherwise the parser reports an error. */
  lemma {:induction false} PrintedParses(kids: seq<Element>, depth: nat, compact: bool)
    requires kids != [] && Printable(kids)
    ensures var r := Parse(Print(kids, depth, compact));
            if Fits(kids, 1) then r == Document(Reread(kids)) else r.Failed?
  {
    hide ParseNodes, KidsText, Reread, Fits, Has, SkipWhiteSpace, SkipByteOrderMark, PrependAll, Printable;
    var t := Print(kids, depth, compact);
    WholeText(t);
    var p := StartFound(t, kids, depth, compact);
    KidsParse(t, 0, kids, 1, depth, compact, true);
    PrependAllTo(Reread(kids), [], 0, []);
    assert Reread(kids) + [] == Reread(kids);
  }

  lemma WholeText(t: Text)
    ensures Has(t, 0, t) && forall d :: ParseNodes(t, |t|, d) == AtEnd([])
  {
    assert t[0..|t|] == t;
    assert ReadHead(t, |t|) == NoMore;
  }

  /** The round trip: a document of valid names and C strings is rebuilt exactly when attribute names are
      distinct within each element, nesting stays below the limit, no value has a CR, and there is
      something to print. */
  lemma {:induction false} RoundTrip(kids: seq<Element>, depth: nat, compact: bool)
    requires Printable(kids)
    ensures Parse(Print(kids, depth, compact)) == Document(kids) <==> kids != [] && Fits(kids, 1) && NoReturns(kids)
  {
    if kids == [] {
      assert Parse([]) == Failed(EmptyDocument);
    } else {
      PrintedParses(kids, depth, compact);
      RereadSame(kids);
    }
  }

  // ---------------------------------------------------------------- the nesting limit

  /** How many elements with children are nested in one another. */
  function Height(kids: seq<Element>): nat {
    if kids == [] then 0
    else
      var inner, more := if kids[0].kids == [] then 0 else 1 + Height(kids[0].kids), Height(kids[1..]);
      if inner < more then more else inner
  }

  predicate DistinctNames(kids: seq<Element>) {
    kids == [] || (Distinct([], kids[0].attrs) && DistinctNames(kids[0].kids) && DistinctNames(kids[1..]))
  }

  /** What fits is what has distinct attribute names and stays below the limit. */
  lemma {:induction false} FitsIsShallow(kids: seq<Element>, d: nat)
    requires d < MAX_DEPTH
    ensures Fits(kids, d) <==> DistinctNames(kids) && d + Height(kids) < MAX_DEPTH
    decreases kids
  {
    if kids != [] {
      FitsIsShallow(kids[1..], d);
      if d + 1 < MAX_DEPTH {
        FitsIsShallow(kids[0].kids, d + 1);
      }
    }
  }

  // ---------------------------------------------------------------- the layout of what is printed

  /** How an element with a child is printed: on lines of their own, four blanks a level, the child sealed. */
  lemma PrintedLayout(a: Text, b: Text, attr: Text)
    ensures var root := Element(a, [Attr(attr, [LETTER_X])], [Element(b, [], [])]);
            var start := [LESS] + a + ([SPACE] + attr + [EQUALS, QUOTE] + [LETTER_X] + [QUOTE]);
            && Print([root], 0, false) ==
               start + ([GREATER] + PrintedLeaf(b, 1) + [LF] + ([LESS, SLASH] + a + [GREATER])) + [LF]
            && Print([root], 0, true) == start + ([GREATER] + PrintedLeaf(b, 0) + ([LESS, SLASH] + a + [GREATER]))
  {
    hide AttrsText, Spaces, KidsText, AttrText, PrintedLeaf, EscapeText;
    var root := Element(a, [Attr(attr, [LETTER_X])], [Element(b, [], [])]);
    PrintedAttribute(attr);
    LeafLayout(b);
    PrintedOne(root, 0, true, true);
    PrintedOne(root, 0, false, true);
    FourBlanks();
  }

  /** An element without children, on a line of its own below level 0. */
  function PrintedLeaf(name: Text, depth: nat): Text {
    (if depth == 0 then [] else [LF] + seq(4 * depth, i => SPACE)) + ([LESS] + name) + [SLASH, GREATER]
  }

  lemma LeafLayout(name: Text)
    ensures KidsText([Element(name, [], [])], 1, false, false) == PrintedLeaf(name, 1)
    ensures KidsText([Element(name, [], [])], 1, true, true) == PrintedLeaf(name, 0)
  {
    hide Spaces, KidsText;
    var leaf := Element(name, [], []);
    PrintedOne(leaf, 1, true, true);
    PrintedOne(leaf, 1, false, false);
    FourBlanks();
  }

  lemma FourBlanks()
    ensures Spaces(4) == [SPACE, SPACE, SPACE, SPACE] && Spaces(0) == [] && AttrsText([]) == []
    ensures forall depth, compact, first :: KidsText([], depth, compact, first) == []
  {
    assert Spaces(1) == [SPACE] && Spaces(2) == [SPACE, SPACE] && Spaces(3) == [SPACE, SPACE, SPACE];
  }

  lemma PrintedAttribute(name: Text)
    ensures AttrsText([Attr(name, [LETTER_X])]) == [SPACE] + name + [EQUALS, QUOTE] + [LETTER_X] + [QUOTE]
  {
    var attrs := [Attr(name, [LETTER_X])];
    assert EscapeText([LETTER_X]) == EscapeByte(LETTER_X) + EscapeText([]) == [LETTER_X];
    assert AttrsText(attrs) == AttrText(attrs[0]) + AttrsText(attrs[1..]);
  }

  lemma PrintedOne(e: Element, depth: nat, compact: bool, first: bool)
    ensures KidsText([e], depth, compact, first) ==
            ElementText(e, KidsText(e.kids, depth + 1, compact, first && compact), depth, compact, first)
  {
    assert KidsText([e][1..], depth, compact, first && compact) == [];
  }
}
