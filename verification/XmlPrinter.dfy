/** The printer: a buffer that is written as elements are opened, given attributes and closed. */
module XmlPrinter {
  import opened Wrappers
  import opened XmlText
  import opened XmlModel

  /** The greater-than sign that an opened element still owes. */
  function Seal(justOpened: bool): Text {
    if justOpened then [GREATER] else []
  }

  class Printer {
    var buffer: Text
    var stack: seq<Text>
    var depth: nat
    var elementJustOpened: bool
    var firstElement: bool
    const compact: bool
    const initialDepth: nat

    /** The depth counts the open elements. */
    predicate Valid()
      reads this
    {
      depth == initialDepth + |stack| && (elementJustOpened ==> stack != [])
    }

    constructor (compact: bool, depth: nat)
      ensures Valid() && this.compact == compact && this.depth == depth
      ensures buffer == [] && stack == [] && !elementJustOpened && firstElement
    {
      this.buffer, this.stack := [], [];
      this.depth, this.initialDepth := depth, depth;
      this.elementJustOpened, this.firstElement := false, true;
      this.compact := compact;
    }

    method Write(data: Text)
      modifies this`buffer
      ensures buffer == old(buffer) + data
    {
      buffer := buffer + data;
    }

    method PrintSpace(n: nat)
      modifies this`buffer
      ensures buffer == old(buffer) + Spaces(4 * n)
    {
      var i := 0;
      while i < n
        invariant i <= n && buffer == old(buffer) + Spaces(4 * i)
      {
        Write([SPACE, SPACE, SPACE, SPACE]);
        SpacesMore(4 * i);
        i := i + 1;
      }
    }

    static lemma SpacesMore(n: nat)
      ensures Spaces(n) + [SPACE, SPACE, SPACE, SPACE] == Spaces(n + 4)
    {
      if n > 0 {
        SpacesMore(n - 1);
      } else {
        assert Spaces(1) == [SPACE] && Spaces(2) == [SPACE, SPACE] && Spaces(3) == [SPACE, SPACE, SPACE];
      }
      assert [SPACE] + Spaces(n + 3) == Spaces(n + 4);
    }

    /** Writes the entity that stands for `b`, if there is one. */
    method PrintEntity(b: Byte) returns (printed: bool)
      modifies this`buffer
      ensures printed <==> EntityFor(b).Some?
      ensures buffer == old(buffer) + if printed then EscapeByte(b) else []
    {
      var i := 0;
      while i < |ENTITIES|
        invariant i <= |ENTITIES| && buffer == old(buffer) && forall k | 0 <= k < i :: ENTITIES[k].value != b
      {
        if ENTITIES[i].value == b {
          EntityIs(b, i);
          Write([AMP]);
          Write(ENTITIES[i].pattern);
          Write([SEMICOLON]);
          return true;
        }
        i := i + 1;
      }
      printed := false;
    }

    static lemma EntityIs(b: Byte, i: nat)
      requires i < |ENTITIES| && ENTITIES[i].value == b
      ensures EntityFor(b) == Some(i)
    {
    }

    /** The run from `p` to `q` that has not been written, and what `v` becomes from `q` on. */
    static function Waiting(v: Text, p: nat, q: nat): Text
      requires p <= q <= |v|
    {
      v[p..q] + EscapeText(v[q..])
    }

    static lemma WaitingMore(v: Text, p: nat, q: nat)
      requires p <= q < |v|
      ensures EntityFor(v[q]).None? ==> Waiting(v, p, q) == Waiting(v, p, q + 1)
      ensures EntityFor(v[q]).Some? ==> Waiting(v, p, q) == v[p..q] + EscapeByte(v[q]) + Waiting(v, q + 1, q + 1)
    {
      hide EntityFor, EscapeByte;
      var run, rest := v[p..q], EscapeText(v[q + 1..]);
      assert v[q..][1..] == v[q + 1..];
      assert EscapeText(v[q..]) == EscapeByte(v[q]) + rest;
      Plain(v[q]);
      assert v[p..q + 1] == run + [v[q]];
      Regroup(run, EscapeByte(v[q]), rest);
      assert v[q + 1..q + 1] + rest == rest;
    }

    static lemma Plain(b: Byte)
      ensures EntityFor(b).None? ==> EscapeByte(b) == [b]
    {
    }

    static lemma WaitingEnds(v: Text, p: nat)
      requires p <= |v|
      ensures Waiting(v, 0, 0) == EscapeText(v) && Waiting(v, p, |v|) == v[p..|v|]
    {
      assert v[0..] == v;
    }

    /** Writes a value with entities for the special characters, in runs between them. */
    method PrintString(v: Text)
      requires NUL !in v
      modifies this`buffer
      ensures buffer == old(buffer) + EscapeText(v)
    {
      hide EscapeText, EscapeByte, EntityFor, Waiting;
      WaitingEnds(v, 0);
      assert forall k | 0 <= k < |v| :: v[k] != NUL;
      var p, q := 0, 0;
      while At(v, q) != NUL
        invariant p <= q <= |v| && buffer + Waiting(v, p, q) == old(buffer) + EscapeText(v)
        decreases |v| - q
      {
        WaitingMore(v, p, q);
        if EntityFor(v[q]).Some? {
          Write(v[p..q]);
          var printed := PrintEntity(v[q]);
          p := q + 1;
        }
        q := q + 1;
      }
      WaitingEnds(v, p);
      Write(v[p..q]);
    }

    method SealElementIfJustOpened()
      modifies this`buffer, this`elementJustOpened
      ensures buffer == old(buffer) + Seal(old(elementJustOpened)) && !elementJustOpened
    {
      if elementJustOpened {
        elementJustOpened := false;
        Write([GREATER]);
      }
    }

    method PrepareForNewNode()
      modifies this`buffer, this`elementJustOpened, this`firstElement
      ensures buffer == old(buffer) + Seal(old(elementJustOpened)) + Lead(depth, compact, old(firstElement))
      ensures !elementJustOpened && firstElement == (old(firstElement) && compact)
    {
      hide Spaces, Seal;
      SealElementIfJustOpened();
      if compact {
        return;
      }
      if firstElement {
        PrintSpace(depth);
      } else {
        Write([LF]);
        PrintSpace(depth);
      }
      firstElement := false;
    }

    method OpenElement(name: Text)
      requires Valid()
      modifies this
      ensures Valid() && stack == old(stack) + [name] && elementJustOpened
      ensures firstElement == (old(firstElement) && compact)
      ensures buffer == old(buffer) + Seal(old(elementJustOpened)) + Lead(old(depth), compact, old(firstElement)) +
              [LESS] + name
    {
      PrepareForNewNode();
      stack := stack + [name];
      Write([LESS]);
      Write(name);
      elementJustOpened := true;
      depth := depth + 1;
    }

    method PushAttribute(name: Text, value: Text)
      requires NUL !in value
      modifies this`buffer
      ensures buffer == old(buffer) + AttrText(Attr(name, value))
    {
      Write([SPACE]);
      Write(name);
      Write([EQUALS, QUOTE]);
      PrintString(value);
      Write([QUOTE]);
    }

    method WriteEndTag(name: Text)
      modifies this`buffer
      ensures buffer == old(buffer) + (Margin(depth, compact) + CloseText(name))
    {
      hide Spaces;
      if !compact {
        Write([LF]);
        PrintSpace(depth);
      }
      Write([LESS, SLASH]);
      Write(name);
      Write([GREATER]);
      assert CloseText(name) == [LESS, SLASH] + name + [GREATER];
    }

    /** Closes the element opened last: sealed if nothing came after its attributes. */
    method CloseElement()
      requires Valid() && stack != []
      modifies this
      ensures Valid() && stack == old(stack)[..|old(stack)| - 1] && !elementJustOpened
      ensures firstElement == old(firstElement)
      ensures var name := old(stack)[|old(stack)| - 1];
              var end := if old(elementJustOpened) then [SLASH, GREATER] else Margin(depth, compact) + CloseText(name);
              buffer == old(buffer) + end + LastText(depth, compact)
    {
      hide Spaces, CloseText, Margin;
      depth := depth - 1;
      var name := stack[|stack| - 1];
      stack := stack[..|stack| - 1];
      if elementJustOpened {
        Write([SLASH, GREATER]);
      } else {
        WriteEndTag(name);
      }
      if depth == 0 && !compact {
        Write([LF]);
      }
      elementJustOpened := false;
    }

    /** Values end where their C strings end. */
    static predicate CStrings(kids: seq<Element>) {
      kids == [] || ((forall a | a in kids[0].attrs :: NUL !in a.value) && CStrings(kids[0].kids) &&
                     CStrings(kids[1..]))
    }

    /** Visits an element: opens it, pushes its attributes, visits its children, closes it. */
    method PrintElement(e: Element)
      requires Valid() && (forall a | a in e.attrs :: NUL !in a.value) && CStrings(e.kids)
      modifies this
      ensures Valid() && stack == old(stack) && !elementJustOpened && firstElement == (old(firstElement) && compact)
      ensures buffer == old(buffer) + Seal(old(elementJustOpened)) +
              ElementText(e, KidsText(e.kids, depth + 1, compact, firstElement), depth, compact, old(firstElement))
      decreases e
    {
      hide ElementText, KidsText, Lead, Margin, CloseText, LastText, AttrsText, CStrings, Seal, Owed;
      ghost var inner := KidsText(e.kids, depth + 1, compact, firstElement && compact);
      OwedFirst(e.kids, depth + 1, compact, firstElement && compact);
      Assembled(buffer + Seal(elementJustOpened), e, inner, depth, compact, firstElement);
      OpenElement(e.name);
      PushAttributes(e.attrs);
      PrintKids(e.kids);
      CloseElement();
    }

    method PushAttributes(attrs: seq<Attr>)
      requires forall a | a in attrs :: NUL !in a.value
      modifies this`buffer
      ensures buffer == old(buffer) + AttrsText(attrs)
    {
      hide AttrText;
      var i := 0;
      while i < |attrs|
        invariant i <= |attrs| && buffer + AttrsText(attrs[i..]) == old(buffer) + AttrsText(attrs)
      {
        assert attrs[i] in attrs && attrs[i..][1..] == attrs[i + 1..];
        assert buffer + (AttrText(attrs[i]) + AttrsText(attrs[i + 1..])) ==
          (buffer + AttrText(attrs[i])) + AttrsText(attrs[i + 1..]);
        assert attrs[i] == Attr(attrs[i].name, attrs[i].value);
        PushAttribute(attrs[i].name, attrs[i].value);
        i := i + 1;
      }
    }

    /** Visits children in order. */
    method PrintKids(kids: seq<Element>)
      requires Valid() && CStrings(kids)
      modifies this
      ensures Valid() && stack == old(stack)
      ensures elementJustOpened == (old(elementJustOpened) && kids == [])
      ensures firstElement == (old(firstElement) && (compact || kids == []))
      ensures buffer == old(buffer) + Owed(kids, depth, compact, old(elementJustOpened), old(firstElement))
      decreases kids
    {
      hide Owed, CStrings, KidsText, ElementText, Seal;
      var i := 0;
      assert kids[0..] == kids;
      while i < |kids|
        invariant i <= |kids| && Valid() && stack == old(stack) && CStrings(kids[i..])
        invariant elementJustOpened == (old(elementJustOpened) && i == 0)
        invariant firstElement == (old(firstElement) && (compact || i == 0))
        invariant buffer + Owed(kids[i..], depth, compact, elementJustOpened, firstElement) ==
                  old(buffer) + Owed(kids, depth, compact, old(elementJustOpened), old(firstElement))
      {
        OwedNext(kids[i..], buffer, depth, compact, elementJustOpened, firstElement);
        assert kids[i..][0] == kids[i] && kids[i..][1..] == kids[i + 1..];
        PrintElement(kids[i]);
        i := i + 1;
      }
      assert kids[i..] == [];
      OwedNone(depth, compact, elementJustOpened, firstElement);
    }

    /** What the children add, the first of them sealing an element that has just been opened. */
    static function Owed(kids: seq<Element>, depth: nat, compact: bool, justOpened: bool, first: bool): Text {
      (if kids == [] then [] else Seal(justOpened)) + KidsText(kids, depth, compact, first)
    }

    static lemma OwedFirst(kids: seq<Element>, depth: nat, compact: bool, first: bool)
      ensures Owed(kids, depth, compact, true, first) ==
              if kids == [] then [] else [GREATER] + KidsText(kids, depth, compact, first)
    {
    }

    static lemma OwedNone(depth: nat, compact: bool, justOpened: bool, first: bool)
      ensures Owed([], depth, compact, justOpened, first) == []
    {
    }

    static lemma OwedNext(kids: seq<Element>, buffer: Text, depth: nat, compact: bool, justOpened: bool, first: bool)
      requires kids != [] && CStrings(kids)
      ensures (forall a | a in kids[0].attrs :: NUL !in a.value) && CStrings(kids[0].kids) && CStrings(kids[1..])
      ensures var text := ElementText(kids[0], KidsText(kids[0].kids, depth + 1, compact, first && compact), depth,
                                      compact, first);
              buffer + Owed(kids, depth, compact, justOpened, first) ==
              (buffer + Seal(justOpened) + text) + Owed(kids[1..], depth, compact, false, first && compact)
    {
      hide Owed, KidsText, ElementText, Seal;
      OwedSplit(kids, depth, compact, justOpened, first);
      var text :=
        ElementText(kids[0], KidsText(kids[0].kids, depth + 1, compact, first && compact), depth, compact, first);
      var rest := Owed(kids[1..], depth, compact, false, first && compact);
      Regroup(buffer, Seal(justOpened), text + rest);
      Regroup(buffer + Seal(justOpened), text, rest);
    }

    static lemma OwedSplit(kids: seq<Element>, depth: nat, compact: bool, justOpened: bool, first: bool)
      requires kids != []
      ensures var text := ElementText(kids[0], KidsText(kids[0].kids, depth + 1, compact, first && compact), depth,
                                      compact, first);
              Owed(kids, depth, compact, justOpened, first) ==
              Seal(justOpened) + (text + Owed(kids[1..], depth, compact, false, first && compact))
    {
      hide ElementText;
    }

    /** The parts that the methods write, put together. */
    static lemma Assembled(b: Text, e: Element, inner: Text, depth: nat, compact: bool, first: bool)
      ensures var front := b + Lead(depth, compact, first) + [LESS] + e.name + AttrsText(e.attrs);
              b + ElementText(e, inner, depth, compact, first) ==
              if e.kids == [] then front + [SLASH, GREATER] + LastText(depth, compact)
              else front + ([GREATER] + inner) + (Margin(depth, compact) + CloseText(e.name)) + LastText(depth, compact)
    {
      hide Lead, AttrsText, LastText, Margin, CloseText;
    }
  }
}
