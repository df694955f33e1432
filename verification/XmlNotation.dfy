/** Documents as they may be written, and what the parser makes of them. */
module XmlNotation {
  import opened Wrappers
  import opened XmlText
  import opened XmlModel
  import opened XmlRoundTrip
  import opened XmlValues

  // ---------------------------------------------------------------- the notation

  /** An attribute with the white space in front of it and around its equals sign. */
  datatype Assignment =
    Assignment(front: Text, name: Text, left: Text, right: Text, quote: Byte, value: seq<Piece>)

  /** A tag: white space in front of the name, the attributes, and white space behind them. */
  datatype Start = Start(gap: Text, name: Text, attrs: seq<Assignment>, back: Text)

  /** An element stands alone, or has an end tag, which may bear another name; `tail`, `gap` and `back` are
      the white space in front of the end tag, in front of its slash and behind its name. */
  datatype Node =
    | Sealed(front: Text, start: Start)
    | Paired(front: Text, start: Start, kids: seq<Node>, tail: Text, gap: Text, ending: Text, back: Text)

  predicate White(ws: Text) {
    forall i | 0 <= i < |ws| :: Blank(ws[i])
  }

  predicate ValidAssignment(a: Assignment) {
    ValidName(a.name) && White(a.front) && White(a.left) && White(a.right) && (a.quote == QUOTE || a.quote == APOS) &&
    ValidPieces(a.value, a.quote)
  }

  /** White space keeps the first attribute from the name in front of it. */
  predicate ValidStart(s: Start) {
    && ValidName(s.name) && White(s.gap) && White(s.back)
    && (forall i | 0 <= i < |s.attrs| :: ValidAssignment(s.attrs[i]))
    && (s.attrs != [] ==> s.attrs[0].front != [])
  }

  predicate ValidNodes(ns: seq<Node>) {
    ns == [] ||
    (White(ns[0].front) && ValidStart(ns[0].start) &&
     (ns[0].Paired? ==> ValidEnd(ns[0]) && ValidNodes(ns[0].kids)) && ValidNodes(ns[1..]))
  }

  predicate ValidEnd(n: Node)
    requires n.Paired?
  {
    White(n.tail) && White(n.gap) && White(n.back) && ValidName(n.ending)
  }

  /** Attributes have different names. */
  predicate NamesDiffer(attrs: seq<Assignment>) {
    forall i, j | 0 <= i < j < |attrs| :: attrs[i].name != attrs[j].name
  }

  /** The attributes of every element have different names, and every end tag bears the name of its element. */
  predicate WellFormed(ns: seq<Node>) {
    ns == [] ||
    (NamesDiffer(ns[0].start.attrs) && (ns[0].Paired? ==> ns[0].ending == ns[0].start.name && WellFormed(ns[0].kids)) &&
     WellFormed(ns[1..]))
  }

  /** How many elements with end tags are nested in one another. */
  function Nesting(ns: seq<Node>): nat {
    if ns == [] then 0
    else
      var inner, more := if ns[0].Paired? then 1 + Nesting(ns[0].kids) else 0, Nesting(ns[1..]);
      if inner < more then more else inner
  }

  function AssignmentText(a: Assignment): Text
    requires ValidAssignment(a)
  {
    a.front + a.name + (a.left + [EQUALS]) + (a.right + [a.quote]) + (ValueText(a.value, a.quote) + [a.quote])
  }

  function AssignmentsText(attrs: seq<Assignment>): Text
    requires forall i | 0 <= i < |attrs| :: ValidAssignment(attrs[i])
  {
    if attrs == [] then [] else AssignmentText(attrs[0]) + AssignmentsText(attrs[1..])
  }

  function TagText(s: Start): Text
    requires ValidStart(s)
  {
    ([LESS] + s.gap) + s.name + AssignmentsText(s.attrs) + s.back
  }

  function EndTagText(n: Node): Text
    requires n.Paired?
  {
    ([LESS] + n.gap + [SLASH]) + n.ending + n.back + [GREATER]
  }

  function NodesText(ns: seq<Node>): Text
    requires ValidNodes(ns)
  {
    if ns == [] then []
    else
      var n := ns[0];
      ((n.front + TagText(n.start)) +
       (if n.Sealed? then [SLASH, GREATER] else [GREATER] + NodesText(n.kids) + n.tail + EndTagText(n))) +
      NodesText(ns[1..])
  }

  // ---------------------------------------------------------------- what it stands for

  function AttrsOf(attrs: seq<Assignment>): (r: seq<Attr>)
    ensures |r| == |attrs|
    ensures forall i | 0 <= i < |attrs| :: r[i].name == attrs[i].name && r[i].value == ValueMeans(attrs[i].value)
  {
    if attrs == [] then [] else [Attr(attrs[0].name, ValueMeans(attrs[0].value))] + AttrsOf(attrs[1..])
  }

  function ElementsOf(ns: seq<Node>): seq<Element> {
    if ns == [] then []
    else
      [Element(ns[0].start.name, AttrsOf(ns[0].start.attrs), if ns[0].Paired? then ElementsOf(ns[0].kids) else [])] +
      ElementsOf(ns[1..])
  }

  // ---------------------------------------------------------------- white space and names

  lemma {:induction false} WhiteSkipped(t: Text, p: nat, ws: Text)
    requires White(ws) && Has(t, p, ws)
    ensures p + |ws| <= |t| && SkipWhiteSpace(t, p) == SkipWhiteSpace(t, p + |ws|)
    ensures ws != [] ==> Blank(At(t, p))
  {
    forall b | b in ws ensures IsWhiteSpace(b) {
      AlphabetsAreTested(b);
    }
    if ws != [] {
      HasAt(t, p, ws, 0);
    }
    SkipOver(t, p, ws);
  }

  /** White space ends where something else begins. */
  lemma SkippedTo(t: Text, p: nat, ws: Text, x: Byte)
    requires White(ws) && Has(t, p, ws) && At(t, p + |ws|) == x && !Blank(x)
    ensures p + |ws| <= |t| && SkipWhiteSpace(t, p) == p + |ws|
  {
    AlphabetsAreTested(x);
    WhiteSkipped(t, p, ws);
  }

  /** A name is followed by white space or by something that is no part of a name. */
  lemma NameRead(t: Text, p: nat, name: Text)
    requires ValidName(name) && Has(t, p, name) && !ContinuesName(At(t, p + |name|))
    ensures ParseName(t, p) == Some(p + |name|) && p + |name| <= |t| && t[p..p + |name|] == name
    ensures At(t, p) == name[0] && StartsName(At(t, p)) && IsNameStartChar(At(t, p)) && |name| > 0
  {
    AlphabetsAreTested(At(t, p + |name|));
    HasAt(t, p, name, 0);
    AlphabetsAreTested(name[0]);
    NameFound(t, p, name);
  }

  // ---------------------------------------------------------------- attributes

  lemma AssignmentParts(t: Text, p: nat, a: Assignment)
    requires ValidAssignment(a) && Has(t, p, AssignmentText(a))
    ensures var n := p + |a.front|; var e := n + |a.name|; var u := e + |a.left| + 1;
            var v := u + |a.right| + 1; var x := ValueText(a.value, a.quote);
            && Has(t, p, a.front) && Has(t, n, a.name) && Has(t, e, a.left) && Has(t, e + |a.left|, [EQUALS])
            && Has(t, u, a.right) && Has(t, u + |a.right|, [a.quote]) && Has(t, v, x) && Has(t, v + |x|, [a.quote])
            && p + |AssignmentText(a)| == v + |x| + 1
  {
    hide Has, ValueText;
    var x := ValueText(a.value, a.quote);
    HasSplit(t, p, a.front + a.name + (a.left + [EQUALS]) + (a.right + [a.quote]), x + [a.quote]);
    HasSplit4(t, p, a.front, a.name, a.left + [EQUALS], a.right + [a.quote]);
    HasSplit(t, p + |a.front| + |a.name|, a.left, [EQUALS]);
    HasSplit(t, p + |a.front| + |a.name| + |a.left| + 1, a.right, [a.quote]);
    HasSplit(t, p + |a.front| + |a.name| + |a.left| + 1 + |a.right| + 1, x, [a.quote]);
  }

  /** Between the quotes the value is found and read. */
  lemma ValueRead(t: Text, v: nat, ps: seq<Piece>, quote: Byte)
    requires ValidPieces(ps, quote) && (quote == QUOTE || quote == APOS)
    requires Has(t, v, ValueText(ps, quote)) && Has(t, v + |ValueText(ps, quote)|, [quote])
    ensures var e := v + |ValueText(ps, quote)|;
            e < |t| && Find(t, v, quote) == Some(e) && Decode(t[v..e]) == ValueMeans(ps)
  {
    hide ValueText, ValueMeans, Decode, Find, ValidPieces;
    var x := ValueText(ps, quote);
    HasAt(t, v + |x|, [quote], 0);
    ValueIsInside(ps, quote);
    forall k | v <= k < v + |x| ensures t[k] != quote && t[k] != NUL {
      HasAt(t, v, x, k - v);
      assert x[k - v] in x;
    }
    FindFirst(t, v, v + |x|, quote);
    ValueIsRead(ps, quote);
  }

  lemma AssignmentRead(t: Text, p: nat, a: Assignment)
    requires ValidAssignment(a) && Has(t, p, AssignmentText(a))
    ensures var n := p + |a.front|;
            && n < p + |AssignmentText(a)| <= |t| && SkipWhiteSpace(t, p) == n && IsNameStartChar(At(t, n))
            && ParseAttribute(t, n) == Some((Attr(a.name, ValueMeans(a.value)), p + |AssignmentText(a)|))
    ensures a.front != [] ==> Blank(At(t, p))
  {
    hide Has, ValueText, ValueMeans, ParseName, Find, Decode, SkipWhiteSpace, ValidName, ValidPieces, White, At,
         AssignmentText, IsNameStartChar, ParseAttribute;
    var n := p + |a.front|;
    var e := n + |a.name|;
    var u := e + |a.left| + 1;
    AssignmentParts(t, p, a);
    HasAt(t, e + |a.left|, [EQUALS], 0);
    HasAt(t, u + |a.right|, [a.quote], 0);
    ValueRead(t, u + |a.right| + 1, a.value, a.quote);
    SkippedTo(t, u, a.right, a.quote);
    SkippedTo(t, e, a.left, EQUALS);
    NoNames(t, e, a.left, EQUALS);
    NameRead(t, n, a.name);
    NoBlank(a.name[0]);
    SkippedTo(t, p, a.front, At(t, n));
    WhiteSkipped(t, p, a.front);
    AttributePieces(t, n, e, u - 1, u + |a.right|, u + |a.right| + 1 + |ValueText(a.value, a.quote)|);
  }

  /** The parser's way through an attribute whose parts are known. */
  lemma AttributePieces(t: Text, n: nat, e: nat, equals: nat, open: nat, end: nat)
    requires n < e <= equals < open < end < |t| && ParseName(t, n) == Some(e)
    requires SkipWhiteSpace(t, e) == equals && t[equals] == EQUALS && SkipWhiteSpace(t, equals + 1) == open
    requires (t[open] == QUOTE || t[open] == APOS) && Find(t, open + 1, t[open]) == Some(end)
    ensures ParseAttribute(t, n) == Some((Attr(t[n..e], Decode(t[open + 1..end])), end + 1))
  {
    hide ParseName, SkipWhiteSpace, Find, Decode;
  }

  lemma NoBlank(b: Byte)
    ensures ContinuesName(b) ==> !Blank(b)
    ensures StartsName(b) ==> !Blank(b) && ContinuesName(b) && b !in [NUL, 33, SLASH, GREATER, 63]
  {
  }

  /** White space and what is not part of a name end a name. */
  lemma NoNames(t: Text, p: nat, ws: Text, x: Byte)
    requires White(ws) && Has(t, p, ws) && At(t, p + |ws|) == x && !ContinuesName(x)
    ensures !ContinuesName(At(t, p))
  {
    if ws != [] {
      HasAt(t, p, ws, 0);
    }
  }

  /** The parser's step over one attribute. */
  lemma AttributesGo(t: Text, p: nat, n: nat, a: Attr, next: nat, seen: seq<Attr>)
    requires p <= n < next <= |t| && SkipWhiteSpace(t, p) == n && IsNameStartChar(At(t, n))
    requires ParseAttribute(t, n) == Some((a, next)) && !HasName(seen, a.name)
    ensures ParseAttributes(t, p, seen) == ParseAttributes(t, next, seen + [a])
  {
    hide SkipWhiteSpace, ParseAttribute, HasName;
  }

  /** ... and over one whose name it has seen. */
  lemma AttributesStop(t: Text, p: nat, n: nat, a: Attr, next: nat, seen: seq<Attr>)
    requires p <= n < next <= |t| && SkipWhiteSpace(t, p) == n && IsNameStartChar(At(t, n))
    requires ParseAttribute(t, n) == Some((a, next)) && HasName(seen, a.name)
    ensures ParseAttributes(t, p, seen) == BadTag(ParsingAttribute)
  {
    hide SkipWhiteSpace, ParseAttribute, HasName;
  }

  /** No attribute has the name of one in front of it. */
  predicate New(seen: seq<Attr>, attrs: seq<Assignment>)
    decreases attrs
  {
    attrs == [] ||
    (!HasName(seen, attrs[0].name) && New(seen + [Attr(attrs[0].name, ValueMeans(attrs[0].value))], attrs[1..]))
  }

  lemma {:induction false} NewIsDiffering(seen: seq<Attr>, attrs: seq<Assignment>)
    ensures New(seen, attrs) <==>
            NamesDiffer(attrs) && forall i | 0 <= i < |attrs| :: !HasName(seen, attrs[i].name)
    decreases attrs
  {
    if attrs != [] {
      var a := Attr(attrs[0].name, ValueMeans(attrs[0].value));
      forall name ensures HasName(seen + [a], name) <==> HasName(seen, name) || a.name == name {
        NameAdded(seen, a, name);
      }
      NewIsDiffering(seen + [a], attrs[1..]);
    }
  }

  lemma NameAdded(seen: seq<Attr>, a: Attr, name: Text)
    ensures HasName(seen + [a], name) <==> HasName(seen, name) || a.name == name
  {
    assert (seen + [a])[|seen|] == a;
    if HasName(seen, name) {
      var i :| 0 <= i < |seen| && seen[i].name == name;
      assert (seen + [a])[i] == seen[i];
    }
  }

  lemma AssignmentsUnfold(attrs: seq<Assignment>, seen: seq<Attr>)
    requires forall i | 0 <= i < |attrs| :: ValidAssignment(attrs[i])
    ensures attrs == [] ==> AssignmentsText(attrs) == [] && seen + AttrsOf(attrs) == seen && New(seen, attrs)
    ensures attrs != [] ==>
              var a := Attr(attrs[0].name, ValueMeans(attrs[0].value));
              AssignmentsText(attrs) == AssignmentText(attrs[0]) + AssignmentsText(attrs[1..]) &&
              seen + AttrsOf(attrs) == (seen + [a]) + AttrsOf(attrs[1..]) &&
              (New(seen, attrs) <==> !HasName(seen, a.name) && New(seen + [a], attrs[1..]))
  {
    hide AssignmentText, ValidAssignment, HasName;
  }

  lemma {:induction false} AssignmentsRead(t: Text, p: nat, attrs: seq<Assignment>, seen: seq<Attr>)
    requires forall i | 0 <= i < |attrs| :: ValidAssignment(attrs[i])
    requires p <= |t| && Has(t, p, AssignmentsText(attrs))
    ensures p + |AssignmentsText(attrs)| <= |t|
    ensures ParseAttributes(t, p, seen) ==
            if New(seen, attrs) then ParseAttributes(t, p + |AssignmentsText(attrs)|, seen + AttrsOf(attrs))
            else BadTag(ParsingAttribute)
    ensures attrs != [] && attrs[0].front != [] ==> Blank(At(t, p))
    decreases |attrs|
  {
    hide Has, ValidAssignment, AssignmentText, AssignmentsText, ParseAttributes, ParseAttribute, SkipWhiteSpace, At,
         AttrsOf, ValueMeans, Blank, IsNameStartChar, HasName, New;
    AssignmentsUnfold(attrs, seen);
    if attrs != [] {
      var a := Attr(attrs[0].name, ValueMeans(attrs[0].value));
      var n, next := p + |attrs[0].front|, p + |AssignmentText(attrs[0])|;
      HasSplit(t, p, AssignmentText(attrs[0]), AssignmentsText(attrs[1..]));
      AssignmentRead(t, p, attrs[0]);
      AssignmentsRead(t, next, attrs[1..], seen + [a]);
      if HasName(seen, a.name) {
        AttributesStop(t, p, n, a, next, seen);
      } else {
        AttributesGo(t, p, n, a, next, seen);
      }
    }
  }

  // ---------------------------------------------------------------- tags

  lemma AttributesSkip(t: Text, p: nat, q: nat, seen: seq<Attr>)
    requires p <= |t| && q <= |t| && SkipWhiteSpace(t, p) == SkipWhiteSpace(t, q)
    ensures ParseAttributes(t, p, seen) == ParseAttributes(t, q, seen)
  {
    hide SkipWhiteSpace, ParseAttribute, HasName;
  }

  lemma TagParts(t: Text, p: nat, s: Start)
    requires ValidStart(s) && Has(t, p, TagText(s))
    ensures var n := p + 1 + |s.gap|; var e := n + |s.name|; var q := e + |AssignmentsText(s.attrs)|;
            && Has(t, p, [LESS]) && Has(t, p + 1, s.gap) && Has(t, n, s.name) && Has(t, e, AssignmentsText(s.attrs))
            && Has(t, q, s.back) && p + |TagText(s)| == q + |s.back| && At(t, p) == LESS
            && (s.attrs == [] ==> AssignmentsText(s.attrs) == [])
  {
    hide Has, ValidAssignment, ValidName, White;
    HasSplit4(t, p, [LESS] + s.gap, s.name, AssignmentsText(s.attrs), s.back);
    HasSplit(t, p, [LESS], s.gap);
    HasAt(t, p, [LESS], 0);
  }

  /** Behind `<` and white space, a name is neither an end tag nor one of the other nodes. */
  lemma NameIsNext(t: Text, p: nat, gap: Text, name: Text)
    requires At(t, p) == LESS && White(gap) && Has(t, p + 1, gap) && ValidName(name) && Has(t, p + 1 + |gap|, name)
    ensures p + 1 + |gap| <= |t| && IsElement(t, p) && NameStart(t, p + 1) == (false, p + 1 + |gap|)
    ensures SkipWhiteSpace(t, p) == p
  {
    hide SkipWhiteSpace, White, Has, StartsName, ContinuesName, Blank;
    HasAt(t, p + 1 + |gap|, name, 0);
    NoBlank(name[0]);
    SkippedTo(t, p + 1, gap, name[0]);
    FirstOfGap(t, p + 1, gap);
    NothingSkipped(t, p);
  }

  lemma NothingSkipped(t: Text, p: nat)
    requires At(t, p) == LESS
    ensures p < |t| && SkipWhiteSpace(t, p) == p
  {
  }

  lemma FirstOfGap(t: Text, p: nat, gap: Text)
    requires White(gap) && Has(t, p, gap)
    ensures gap != [] ==> At(t, p) != 63 && At(t, p) != 33
  {
    if gap != [] {
      HasAt(t, p, gap, 0);
    }
  }

  /** The name and the attributes of an element, with `end` behind them. */
  lemma StartRead(t: Text, p: nat, s: Start, end: Byte)
    requires ValidStart(s) && Has(t, p, TagText(s)) && At(t, p + |TagText(s)|) == end
    requires end == SLASH || end == GREATER
    ensures var n := p + 1 + |s.gap|; var e := n + |s.name|; var q := p + |TagText(s)|;
            && p < n < e <= q < |t| && IsElement(t, p) && SkipWhiteSpace(t, p) == p
            && NameStart(t, p + 1) == (false, n) && ParseName(t, n) == Some(e) && t[n..e] == s.name
            && ParseAttributes(t, e, []) ==
               if New([], s.attrs) then ParseAttributes(t, q, AttrsOf(s.attrs)) else BadTag(ParsingAttribute)
  {
    hide Has, SkipWhiteSpace, ParseName, ParseAttributes, AssignmentsText, TagText, AttrsOf, ValidAssignment, White,
         ValidName, NameStart, IsElement, StartsName, ContinuesName, Blank, At, IsNameStartChar,
         New;
    var n := p + 1 + |s.gap|;
    var e := n + |s.name|;
    var q0 := e + |AssignmentsText(s.attrs)|;
    TagParts(t, p, s);
    EndsThere(t, q0 + |s.back|, end);
    NameIsNext(t, p, s.gap, s.name);
    AssignmentsRead(t, e, s.attrs, []);
    assert [] + AttrsOf(s.attrs) == AttrsOf(s.attrs);
    if s.attrs == [] {
      NoNames(t, q0, s.back, end);
    } else {
      NoBlank(At(t, e));
    }
    NameRead(t, n, s.name);
    WhiteSkipped(t, q0, s.back);
    AttributesSkip(t, q0, q0 + |s.back|, AttrsOf(s.attrs));
  }

  lemma EndsThere(t: Text, p: nat, end: Byte)
    requires At(t, p) == end && (end == SLASH || end == GREATER)
    ensures p < |t| && t[p] == end && !Blank(end) && !ContinuesName(end)
  {
  }

  /** The head of an element that stands alone, and of one with an end tag. */
  lemma HeadOfTag(t: Text, p: nat, n: nat, e: nat, q: nat, name: Text, attrs: seq<Attr>, sealed: bool, fits: bool)
    requires p < n < e <= q < |t| && IsElement(t, p) && SkipWhiteSpace(t, p) == p
    requires NameStart(t, p + 1) == (false, n) && ParseName(t, n) == Some(e) && t[n..e] == name
    requires ParseAttributes(t, e, []) == if fits then ParseAttributes(t, q, attrs) else BadTag(ParsingAttribute)
    requires if sealed then t[q] == SLASH && At(t, q + 1) == GREATER else t[q] == GREATER
    ensures ReadHead(t, p) ==
            if !fits then BadHead(ParsingAttribute)
            else if sealed then Whole(Element(name, attrs, []), q + 2)
            else Opened(name, attrs, q + 1)
  {
    hide SkipWhiteSpace, NameStart, ParseName, ParseAttributes;
    TagEnd(t, q, attrs);
  }

  /** The start of an element behind white space. */
  lemma StartFound(t: Text, p: nat, front: Text, s: Start, sealed: bool)
    requires White(front) && ValidStart(s) && Has(t, p, front + TagText(s))
    requires var q := p + |front| + |TagText(s)|;
             if sealed then Has(t, q, [SLASH, GREATER]) else Has(t, q, [GREATER])
    ensures var q := p + |front| + |TagText(s)|;
            && p < q < |t| && At(t, p) != NUL && At(t, SkipWhiteSpace(t, p)) == LESS
            && ReadHead(t, p) ==
               if !New([], s.attrs) then BadHead(ParsingAttribute)
               else if sealed then Whole(Element(s.name, AttrsOf(s.attrs), []), q + 2)
               else Opened(s.name, AttrsOf(s.attrs), q + 1)
  {
    hide Has, SkipWhiteSpace, ParseName, ParseAttributes, TagText, AttrsOf, ValidStart, White, NameStart, IsElement,
         ReadHead, New;
    var q := p + |front| + |TagText(s)|;
    var end := if sealed then SLASH else GREATER;
    HasSplit(t, p, front, TagText(s));
    HasAt(t, q, if sealed then [SLASH, GREATER] else [GREATER], 0);
    if sealed {
      HasAt(t, q, [SLASH, GREATER], 1);
    }
    StartRead(t, p + |front|, s, end);
    var n := p + |front| + 1 + |s.gap|;
    HeadOfTag(t, p + |front|, n, n + |s.name|, q, s.name, AttrsOf(s.attrs), sealed,
              New([], s.attrs));
    WhiteSkipped(t, p, front);
    HeadSkips(t, p, p + |front|);
    SomethingThere(t, p, p + |front|);
  }

  lemma SomethingThere(t: Text, p: nat, q: nat)
    requires p <= q < |t| && IsElement(t, q) && SkipWhiteSpace(t, p) == SkipWhiteSpace(t, q)
    ensures At(t, p) != NUL && At(t, SkipWhiteSpace(t, p)) == LESS
  {
  }

  lemma EndTagParts(t: Text, p: nat, n: Node)
    requires n.Paired? && Has(t, p, EndTagText(n))
    ensures var a := p + 1 + |n.gap| + 1; var e := a + |n.ending|;
            && At(t, p) == LESS && Has(t, p + 1, n.gap) && At(t, a - 1) == SLASH && Has(t, a, n.ending)
            && Has(t, e, n.back) && At(t, e + |n.back|) == GREATER && p + |EndTagText(n)| == e + |n.back| + 1
  {
    hide Has, At;
    var a := p + 1 + |n.gap| + 1;
    HasSplit4(t, p, [LESS] + n.gap + [SLASH], n.ending, n.back, [GREATER]);
    HasSplit3(t, p, [LESS], n.gap, [SLASH]);
    HasAt(t, p, [LESS], 0);
    HasAt(t, a - 1, [SLASH], 0);
    HasAt(t, a + |n.ending| + |n.back|, [GREATER], 0);
  }

  /** An end tag, behind white space. */
  lemma EndRead(t: Text, p: nat, n: Node)
    requires n.Paired? && ValidEnd(n)
    requires Has(t, p, n.tail + EndTagText(n))
    ensures var q := p + |n.tail| + |EndTagText(n)|;
            q <= |t| && ReadHead(t, p) == EndTag(n.ending, q) && At(t, p) != NUL
  {
    hide Has, SkipWhiteSpace, ParseName, ParseAttributes, ValidName, White, EndTagText, StartsName, ContinuesName;
    var m := p + |n.tail|;
    var a := m + 1 + |n.gap| + 1;
    var e := a + |n.ending|;
    HasSplit(t, p, n.tail, EndTagText(n));
    EndTagParts(t, m, n);
    SkippedTo(t, m + 1, n.gap, SLASH);
    FirstOfGap(t, m + 1, n.gap);
    NothingSkipped(t, m);
    EndsThere(t, e + |n.back|, GREATER);
    NoNames(t, e, n.back, GREATER);
    NameRead(t, a, n.ending);
    WhiteSkipped(t, e, n.back);
    AttributesSkip(t, e, e + |n.back|, []);
    TagEnd(t, e + |n.back|, []);
    WhiteSkipped(t, p, n.tail);
    assert IsElement(t, m);
    HeadSkips(t, p, m);
    SomethingThere(t, p, m);
  }

  // ---------------------------------------------------------------- elements

  /** The first error in the order of the text, for a parser that is `d` calls deep; an end tag with another
      name comes to light behind the children. */
  function Blame(ns: seq<Node>, d: nat): Option<XmlError> {
    if ns == [] then None
    else if !NamesDiffer(ns[0].start.attrs) then Some(ParsingAttribute)
    else if ns[0].Paired? && BlamePair(ns[0], d).Some? then BlamePair(ns[0], d)
    else Blame(ns[1..], d)
  }

  function BlamePair(n: Node, d: nat): Option<XmlError>
    requires n.Paired?
  {
    if d + 1 == MAX_DEPTH then Some(DepthExceeded)
    else if Blame(n.kids, d + 1).Some? then Blame(n.kids, d + 1)
    else if n.ending != n.start.name then Some(MismatchedElement)
    else None
  }

  lemma {:induction false} BlamelessIsWellFormed(ns: seq<Node>, d: nat)
    requires d < MAX_DEPTH
    ensures Blame(ns, d).None? <==> WellFormed(ns) && d + Nesting(ns) < MAX_DEPTH
    decreases ns
  {
    hide NamesDiffer;
    if ns != [] {
      BlamelessIsWellFormed(ns[1..], d);
      if ns[0].Paired? && d + 1 < MAX_DEPTH {
        BlamelessIsWellFormed(ns[0].kids, d + 1);
      }
    }
  }

  lemma NothingSeen(attrs: seq<Assignment>)
    ensures New([], attrs) <==> NamesDiffer(attrs)
  {
    NewIsDiffering([], attrs);
  }

  lemma NodesUnfold(ns: seq<Node>, d: nat)
    requires ValidNodes(ns)
    ensures ns == [] ==> NodesText(ns) == [] && ElementsOf(ns) == [] && Blame(ns, d) == None
    ensures ns != [] ==>
              var n, rest := ns[0], ns[1..];
              && White(n.front) && ValidStart(n.start) && ValidNodes(rest)
              && (n.Sealed? ==>
                    NodesText(ns) == ((n.front + TagText(n.start)) + [SLASH, GREATER]) + NodesText(rest) &&
                    ElementsOf(ns) == [Element(n.start.name, AttrsOf(n.start.attrs), [])] + ElementsOf(rest))
              && (n.Paired? ==>
                    ValidEnd(n) && ValidNodes(n.kids) &&
                    NodesText(ns) == ((n.front + TagText(n.start)) +
                                      ([GREATER] + NodesText(n.kids) + n.tail + EndTagText(n))) + NodesText(rest) &&
                    ElementsOf(ns) == [Element(n.start.name, AttrsOf(n.start.attrs), ElementsOf(n.kids))] +
                                      ElementsOf(rest))
    ensures ns != [] ==>
              Blame(ns, d) == if !NamesDiffer(ns[0].start.attrs) then Some(ParsingAttribute)
                else if ns[0].Paired? && BlamePair(ns[0], d).Some? then BlamePair(ns[0], d)
                else Blame(ns[1..], d)
  {
    hide TagText, EndTagText, White, AttrsOf, ValidName, NamesDiffer, ValidEnd;
  }

  /** The elements are read as written, whatever follows, or the first error among them is found. */
  lemma {:induction false} NodesRead(t: Text, p: nat, ns: seq<Node>, d: nat)
    requires ValidNodes(ns) && d < MAX_DEPTH && p <= |t| && Has(t, p, NodesText(ns))
    ensures p + |NodesText(ns)| <= |t|
    ensures ParseNodes(t, p, d) == match Blame(ns, d)
            case Some(error) => Bad(error)
            case None => PrependAll(ElementsOf(ns), ParseNodes(t, p + |NodesText(ns)|, d))
    ensures ns != [] ==> At(t, p) != NUL && At(t, SkipWhiteSpace(t, p)) == LESS
    decreases ns
  {
    hide *;
    NodesUnfold(ns, d);
    if ns == [] {
      PrependFirst(Element([], [], []), [], ParseNodes(t, p, d));
    } else {
      var n, rest := ns[0], ns[1..];
      var head := n.front + TagText(n.start);
      var q := p + |head|;
      var own := Element(n.start.name, AttrsOf(n.start.attrs), if n.Paired? then ElementsOf(n.kids) else []);
      var next: nat;
      NothingSeen(n.start.attrs);
      if n.Sealed? {
        next := q + 2;
        HasSplit3(t, p, head, [SLASH, GREATER], NodesText(rest));
        StartFound(t, p, n.front, n.start, true);
        HasInside(t, q, [SLASH, GREATER]);
        HeadStep(t, p, d);
      } else {
        HasSplit(t, p, head + ([GREATER] + NodesText(n.kids) + n.tail + EndTagText(n)), NodesText(rest));
        next := PairedRead(t, p, n, d);
      }
      NodesRead(t, next, rest, d);
      PrependFirst(own, ElementsOf(rest), ParseNodes(t, p + |NodesText(ns)|, d));
      PrependFirst(own, [], ParseNodes(t, next, d));
    }
  }

  lemma {:induction false} PairedRead(t: Text, p: nat, n: Node, d: nat) returns (next: nat)
    requires n.Paired? && White(n.front) && ValidStart(n.start) && ValidEnd(n) && ValidNodes(n.kids) && d < MAX_DEPTH
    requires Has(t, p, (n.front + TagText(n.start)) + ([GREATER] + NodesText(n.kids) + n.tail + EndTagText(n)))
    ensures next == p + |(n.front + TagText(n.start)) + ([GREATER] + NodesText(n.kids) + n.tail + EndTagText(n))|
    ensures p < next <= |t| && At(t, p) != NUL && At(t, SkipWhiteSpace(t, p)) == LESS
    ensures ParseNodes(t, p, d) ==
            if !NamesDiffer(n.start.attrs) then Bad(ParsingAttribute)
            else if BlamePair(n, d).Some? then Bad(BlamePair(n, d).value)
            else Prepend(Element(n.start.name, AttrsOf(n.start.attrs), ElementsOf(n.kids)), ParseNodes(t, next, d))
    decreases n
  {
    hide *;
    var head, inner := n.front + TagText(n.start), NodesText(n.kids);
    var q := p + |head|;
    var m := q + 1 + |inner|;
    NothingSeen(n.start.attrs);
    HasSplit(t, p, head, [GREATER] + inner + n.tail + EndTagText(n));
    HasSplit4(t, q, [GREATER], inner, n.tail, EndTagText(n));
    HasSplit(t, m, n.tail, EndTagText(n));
    HasInside(t, q, [GREATER]);
    StartFound(t, p, n.front, n.start, false);
    EndRead(t, m, n);
    HeadStep(t, p, d);
    next := m + |n.tail| + |EndTagText(n)|;
    NodesUnfold(n.kids, d + 1);
    if d + 1 < MAX_DEPTH {
      NodesRead(t, q + 1, n.kids, d + 1);
    } else if n.kids != [] {
      KidsBegin(t, q + 1, n.kids);
    }
    if NamesDiffer(n.start.attrs) {
      PairStep(t, p, q + 1, m, next, n, AttrsOf(n.start.attrs), d);
    }
  }

  /** Children that are written begin with something. */
  lemma KidsBegin(t: Text, p: nat, ns: seq<Node>)
    requires ValidNodes(ns) && ns != [] && Has(t, p, NodesText(ns))
    ensures At(t, p) != NUL
  {
    hide *;
    NodesUnfold(ns, 0);
    var n, rest := ns[0], ns[1..];
    var head := n.front + TagText(n.start);
    if n.Sealed? {
      HasSplit3(t, p, head, [SLASH, GREATER], NodesText(rest));
      StartFound(t, p, n.front, n.start, true);
    } else {
      HasSplit3(t, p, head, [GREATER] + NodesText(n.kids) + n.tail + EndTagText(n), NodesText(rest));
      HasSplit4(t, p + |head|, [GREATER], NodesText(n.kids), n.tail, EndTagText(n));
      StartFound(t, p, n.front, n.start, false);
    }
  }

  /** An opened element, whose children and end tag have been found. */
  lemma PairStep(t: Text, p: nat, q: nat, m: nat, next: nat, n: Node, attrs: seq<Attr>, d: nat)
    requires n.Paired? && p < q <= m < next <= |t| && At(t, q) != NUL && d < MAX_DEPTH
    requires ReadHead(t, p) == Opened(n.start.name, attrs, q) && ReadHead(t, m) == EndTag(n.ending, next)
    requires d + 1 < MAX_DEPTH ==>
               ParseNodes(t, q, d + 1) == match Blame(n.kids, d + 1)
               case Some(error) => Bad(error)
               case None => PrependAll(ElementsOf(n.kids), ParseNodes(t, m, d + 1))
    ensures ParseNodes(t, p, d) ==
            if BlamePair(n, d).Some? then Bad(BlamePair(n, d).value)
            else Prepend(Element(n.start.name, attrs, ElementsOf(n.kids)), ParseNodes(t, next, d))
  {
    hide ReadHead, PrependAll, Blame, ElementsOf;
    PrependAllTo(ElementsOf(n.kids), [], next, n.ending);
    assert ElementsOf(n.kids) + [] == ElementsOf(n.kids);
  }

  // ---------------------------------------------------------------- documents

  /** A document: white space, perhaps the mark of the byte order, elements, white space. */
  function DocumentText(lead: Text, marked: bool, ns: seq<Node>, trail: Text): Text
    requires ValidNodes(ns)
  {
    (lead + if marked then [0xEF, 0xBB, 0xBF] else []) + NodesText(ns) + trail
  }

  /** The parser starts at the first element, with or without the mark. */
  lemma DocumentStarts(t: Text, lead: Text, marked: bool, p: nat) returns (q: nat)
    requires White(lead) && Has(t, 0, lead + if marked then [0xEF, 0xBB, 0xBF] else [])
    requires p == |lead| + (if marked then 3 else 0) <= |t| && At(t, p) != NUL && At(t, SkipWhiteSpace(t, p)) == LESS
    ensures p <= q <= |t| && SkipWhiteSpace(t, p) == SkipWhiteSpace(t, q) && At(t, q) != NUL
    ensures SkipByteOrderMark(t, SkipWhiteSpace(t, 0)) == q
  {
    hide White;
    var mark := if marked then [0xEF, 0xBB, 0xBF] else [];
    HasSplit(t, 0, lead, mark);
    WhiteSkipped(t, 0, lead);
    q := if marked then p else SkipWhiteSpace(t, p);
    if marked {
      HasAt(t, |lead|, mark, 0);
      HasAt(t, |lead|, mark, 1);
      HasAt(t, |lead|, mark, 2);
    } else {
      NothingSkipped(t, q);
    }
  }

  /** A document, however it is written, is parsed to the elements it stands for if attribute names differ,
      end tags bear the names of their elements, and these are not nested to the limit; otherwise the
      parser reports the first error. */
  lemma WrittenParses(lead: Text, marked: bool, ns: seq<Node>, trail: Text)
    requires White(lead) && White(trail) && ns != [] && ValidNodes(ns)
    ensures Parse(DocumentText(lead, marked, ns, trail)) == match Blame(ns, 1)
            case Some(error) => Failed(error)
            case None => Document(ElementsOf(ns))
    ensures Blame(ns, 1).None? <==> WellFormed(ns) && 1 + Nesting(ns) < 500
  {
    hide Has, White, ValidNodes, Nesting, NodesText, ElementsOf, ParseNodes, PrependAll, SkipWhiteSpace,
         SkipByteOrderMark, Blame, WellFormed;
    var t := DocumentText(lead, marked, ns, trail);
    var front := lead + if marked then [0xEF, 0xBB, 0xBF] else [];
    BlamelessIsWellFormed(ns, 1);
    WholeText(t);
    HasSplit3(t, 0, front, NodesText(ns), trail);
    NodesRead(t, |front|, ns, 1);
    var q := DocumentStarts(t, lead, marked, |front|);
    NodesSkip(t, |front|, q, 1);
    WhiteSkipped(t, |front| + |NodesText(ns)|, trail);
    NodesSkip(t, |front| + |NodesText(ns)|, |t|, 1);
    PrependAllTo(ElementsOf(ns), [], 0, []);
    assert ElementsOf(ns) + [] == ElementsOf(ns);
  }
}
