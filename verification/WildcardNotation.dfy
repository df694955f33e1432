/** Patterns as they are written down, said without the scanners. */
module WildcardNotation {
  import opened Wrappers
  import opened WildcardScanners
  import opened Wildcards

  // ---------------------------------------------------------------- writing items down

  /** The characters that stand for themselves only behind an escape. */
  predicate Special(ch: char, c: Cards) {
    ch == c.anything || ch == c.single || ch == c.escape || (c.setEnabled && ch == c.setOpen) ||
    (c.altEnabled && (ch == c.altOpen || ch == c.altClose || ch == c.altOr))
  }

  /** The text of items: characters with a meaning are escaped; a set stands between its brackets, with the
      sign for not in front; the branches of an alternative stand between its brackets with separators. */
  function Show(items: seq<Item>, c: Cards): string
    decreases Size(items), 1
  {
    if items == [] then "" else ShowItem(items[0], c) + Show(items[1..], c)
  }

  function ShowItem(item: Item, c: Cards): string
    decreases ItemSize(item), 0
  {
    match item
    case Any => [c.anything]
    case Single => [c.single]
    case Lit(ch) => if Special(ch, c) then [c.escape, ch] else [ch]
    case OneOf(chars) => [c.setOpen] + chars + [c.setClose]
    case NoneOf(chars) => [c.setOpen, c.setNot] + chars + [c.setClose]
    case Alt(branches) => [c.altOpen] + ShowBranches(branches, c) + [c.altClose]
  }

  function ShowBranches(bs: Branches, c: Cards): string
    decreases BranchesSize(bs), 0
  {
    if bs.NoBranch? then ""
    else Show(bs.body, c) + if bs.others.NoBranch? then "" else [c.altOr] + ShowBranches(bs.others, c)
  }

  /** Items that can be written down. A set has a character, and the closing bracket can only be its first;
      the sign for not cannot be the first of a set without it; an alternative has a branch. */
  predicate Writable(items: seq<Item>, c: Cards)
    decreases Size(items), 1
  {
    items == [] || (WritableItem(items[0], c) && Writable(items[1..], c))
  }

  predicate WritableItem(item: Item, c: Cards)
    decreases ItemSize(item), 0
  {
    match item
    case Any => true
    case Single => true
    case Lit(_) => true
    case OneOf(chars) => c.setEnabled && chars != [] && chars[0] != c.setNot && c.setClose !in chars[1..]
    case NoneOf(chars) => c.setEnabled && chars != [] && c.setClose !in chars[1..]
    case Alt(branches) => c.altEnabled && branches.Branch? && WritableBranches(branches, c)
  }

  predicate WritableBranches(bs: Branches, c: Cards)
    decreases BranchesSize(bs), 0
  {
    bs.NoBranch? || (Writable(bs.body, c) && WritableBranches(bs.others, c))
  }

  /** The characters with a meaning differ; the sign for not and the one that closes a set may be any. */
  predicate Distinct(c: Cards) {
    && c.anything != c.single && c.anything != c.escape && c.single != c.escape
    && (c.setEnabled ==> Apart(c.setOpen, c))
    && (c.altEnabled ==>
          Apart(c.altOpen, c) && Apart(c.altClose, c) && Apart(c.altOr, c) &&
          c.altOpen != c.altClose && c.altOpen != c.altOr && c.altClose != c.altOr)
    && (c.setEnabled && c.altEnabled ==>
          c.altOpen != c.setOpen && c.altClose != c.setOpen && c.altOr != c.setOpen)
  }

  predicate Apart(ch: char, c: Cards) {
    ch != c.anything && ch != c.single && ch != c.escape
  }

  // ---------------------------------------------------------------- texts within texts

  /** The text `t` stands in `p` at `i`. */
  predicate At(p: string, i: nat, t: string) {
    i + |t| <= |p| && p[i..i + |t|] == t
  }

  lemma AtParts(p: string, i: nat, a: string, b: string)
    ensures At(p, i, a + b) <==> At(p, i, a) && At(p, i + |a|, b)
  {
    if At(p, i, a + b) {
      assert p[i..i + |a|] == (a + b)[..|a|];
      assert p[i + |a|..i + |a| + |b|] == (a + b)[|a|..];
    }
    if At(p, i, a) && At(p, i + |a|, b) {
      assert p[i..i + |a + b|] == p[i..i + |a|] + p[i + |a|..i + |a| + |b|];
    }
  }

  lemma AtOne(p: string, i: nat, ch: char)
    ensures At(p, i, [ch]) <==> i < |p| && p[i] == ch
  {
  }

  lemma AtCut(p: string, e: nat, i: nat, t: string)
    requires At(p, i, t) && i + |t| <= e <= |p|
    ensures At(p[..e], i, t)
  {
  }

  // ---------------------------------------------------------------- sets

  /** The scanners find the end of the rest of a set. */
  lemma {:induction false} RestOfSet(p: string, i: nat, chars: string, c: Cards)
    requires c.setEnabled && c.setClose !in chars && At(p, i, chars + [c.setClose])
    ensures IsSet(p, i, Rest, c) && SetEnd(p, i, Rest, c) == Some(i + |chars| + 1) && UntilClose(p, i, c) == chars
    decreases |chars|
  {
    AtParts(p, i, chars, [c.setClose]);
    AtOne(p, i + |chars|, c.setClose);
    if chars == [] {
    } else {
      assert chars == [chars[0]] + chars[1..];
      assert chars + [c.setClose] == [chars[0]] + (chars[1..] + [c.setClose]);
      AtParts(p, i, [chars[0]], chars[1..] + [c.setClose]);
      AtOne(p, i, chars[0]);
      RestOfSet(p, i + 1, chars[1..], c);
    }
  }

  /** ... and a set is read as it was written. */
  lemma ShownSet(p: string, i: nat, item: Item, c: Cards)
    requires (item.OneOf? || item.NoneOf?) && WritableItem(item, c) && At(p, i, ShowItem(item, c))
    ensures AtSet(p, i, c) && PastSet(p, i, c) == i + |ShowItem(item, c)| && ParseSet(p, i + 1, c) == item
  {
    hide IsSet, SetEnd, UntilClose, ParseSet, AtSet, PastSet, At;
    var chars := item.chars;
    var tail := chars[1..] + [c.setClose];
    var front := if item.OneOf? then [c.setOpen] else [c.setOpen, c.setNot];
    assert chars == [chars[0]] + chars[1..];
    assert ShowItem(item, c) == front + ([chars[0]] + tail);
    AtParts(p, i, front, [chars[0]] + tail);
    AtParts(p, i + |front|, [chars[0]], tail);
    AtOne(p, i + |front|, chars[0]);
    RestOfSet(p, i + |front| + 1, chars[1..], c);
    if item.OneOf? {
      AtOne(p, i, c.setOpen);
      SetBegins(p, i, c);
    } else {
      assert front == [c.setOpen] + [c.setNot];
      AtParts(p, i, [c.setOpen], [c.setNot]);
      AtOne(p, i, c.setOpen);
      AtOne(p, i + 1, c.setNot);
      NegatedSetBegins(p, i, c);
    }
  }

  lemma SetBegins(p: string, i: nat, c: Cards)
    requires c.setEnabled && i + 2 <= |p| && p[i] == c.setOpen && p[i + 1] != c.setNot && IsSet(p, i + 2, Rest, c)
    ensures AtSet(p, i, c) && Some(PastSet(p, i, c)) == SetEnd(p, i + 2, Rest, c)
    ensures ParseSet(p, i + 1, c) == OneOf([p[i + 1]] + UntilClose(p, i + 2, c))
  {
  }

  lemma NegatedSetBegins(p: string, i: nat, c: Cards)
    requires c.setEnabled && i + 3 <= |p| && p[i] == c.setOpen && p[i + 1] == c.setNot && IsSet(p, i + 3, Rest, c)
    ensures AtSet(p, i, c) && Some(PastSet(p, i, c)) == SetEnd(p, i + 3, Rest, c)
    ensures ParseSet(p, i + 1, c) == NoneOf([p[i + 2]] + UntilClose(p, i + 3, c))
  {
    assert IsSet(p, i + 2, First, c) && SetEnd(p, i + 2, First, c) == SetEnd(p, i + 3, Rest, c);
  }

  // ---------------------------------------------------------------- alternatives

  /** One character of an alternative that the scanners pass over. */
  lemma PassChar(p: string, i: nat, depth: nat, c: Cards)
    requires Distinct(c) && c.altEnabled && depth > 0 && i < |p| && p[i] != c.escape
    requires c.setEnabled ==> p[i] != c.setOpen
    ensures p[i] != c.altOpen && p[i] != c.altClose ==>
              AltEnd(p, i, Next, depth, c) == AltEnd(p, i + 1, Next, depth, c) &&
              (p[i] != c.altOr || depth > 1 ==>
                AltSubEnd(p, i, Next, depth, c) == AltSubEnd(p, i + 1, Next, depth, c))
    ensures p[i] == c.altOpen ==>
              AltEnd(p, i, Next, depth, c) == AltEnd(p, i + 1, Next, depth + 1, c) &&
              AltSubEnd(p, i, Next, depth, c) == AltSubEnd(p, i + 1, Next, depth + 1, c)
    ensures p[i] == c.altClose && depth > 1 ==>
              AltEnd(p, i, Next, depth, c) == AltEnd(p, i + 1, Next, depth - 1, c) &&
              AltSubEnd(p, i, Next, depth, c) == AltSubEnd(p, i + 1, Next, depth - 1, c)
    ensures p[i] == c.altClose && depth == 1 ==>
              AltEnd(p, i, Next, depth, c) == Some(i + 1) && AltSubEnd(p, i, Next, depth, c) == Some(i)
    ensures p[i] == c.altOr && depth == 1 ==> AltSubEnd(p, i, Next, depth, c) == Some(i)
  {
  }

  lemma PassEscaped(p: string, i: nat, depth: nat, c: Cards)
    requires c.altEnabled && depth > 0 && i + 1 < |p| && p[i] == c.escape
    ensures AltEnd(p, i, Next, depth, c) == AltEnd(p, i + 2, Next, depth, c)
    ensures AltSubEnd(p, i, Next, depth, c) == AltSubEnd(p, i + 2, Next, depth, c)
  {
    assert AltEnd(p, i + 1, Escape, depth, c) == AltEnd(p, i + 2, Next, depth, c);
    assert AltSubEnd(p, i + 1, Escape, depth, c) == AltSubEnd(p, i + 2, Next, depth, c);
  }

  lemma PassSet(p: string, i: nat, depth: nat, c: Cards)
    requires Distinct(c) && c.altEnabled && depth > 0 && AtSet(p, i, c)
    ensures AltEnd(p, i, Next, depth, c) == AltEnd(p, PastSet(p, i, c), Next, depth, c)
    ensures AltSubEnd(p, i, Next, depth, c) == AltSubEnd(p, PastSet(p, i, c), Next, depth, c)
  {
  }

  /** The scanners of alternatives pass over what is written, at every depth. */
  lemma {:induction false} ScansPass(p: string, i: nat, items: seq<Item>, depth: nat, c: Cards)
    requires Distinct(c) && c.altEnabled && depth > 0 && Writable(items, c) && At(p, i, Show(items, c))
    ensures AltEnd(p, i, Next, depth, c) == AltEnd(p, i + |Show(items, c)|, Next, depth, c)
    ensures AltSubEnd(p, i, Next, depth, c) == AltSubEnd(p, i + |Show(items, c)|, Next, depth, c)
    decreases Size(items), 1
  {
    hide AltEnd, AltSubEnd, ShowItem, At, Distinct, WritableItem;
    if items != [] {
      AtParts(p, i, ShowItem(items[0], c), Show(items[1..], c));
      ScansPassItem(p, i, items[0], depth, c);
      ScansPass(p, i + |ShowItem(items[0], c)|, items[1..], depth, c);
    }
  }

  lemma {:induction false} ScansPassItem(p: string, i: nat, item: Item, depth: nat, c: Cards)
    requires Distinct(c) && c.altEnabled && depth > 0 && WritableItem(item, c) && At(p, i, ShowItem(item, c))
    ensures AltEnd(p, i, Next, depth, c) == AltEnd(p, i + |ShowItem(item, c)|, Next, depth, c)
    ensures AltSubEnd(p, i, Next, depth, c) == AltSubEnd(p, i + |ShowItem(item, c)|, Next, depth, c)
    decreases ItemSize(item), 0
  {
    hide AltEnd, AltSubEnd, AtSet, PastSet, Show, ShowBranches, Writable, WritableBranches;
    var t := ShowItem(item, c);
    assert t != [] && p[i] == p[i..i + |t|][0];
    match item
    case OneOf(_) =>
      ShownSet(p, i, item, c);
      PassSet(p, i, depth, c);
    case NoneOf(_) =>
      ShownSet(p, i, item, c);
      PassSet(p, i, depth, c);
    case Alt(bs) =>
      var inner := ShowBranches(bs, c);
      assert t == [c.altOpen] + (inner + [c.altClose]);
      AtParts(p, i, [c.altOpen], inner + [c.altClose]);
      AtParts(p, i + 1, inner, [c.altClose]);
      AtOne(p, i + 1 + |inner|, c.altClose);
      PassChar(p, i, depth, c);
      ScansPassBranches(p, i + 1, bs, depth + 1, c);
      PassChar(p, i + 1 + |inner|, depth + 1, c);
    case Lit(ch) =>
      if Special(ch, c) {
        PassEscaped(p, i, depth, c);
      } else {
        PassChar(p, i, depth, c);
      }
    case Any => PassChar(p, i, depth, c);
    case Single => PassChar(p, i, depth, c);
  }

  lemma {:induction false} ScansPassBranches(p: string, i: nat, bs: Branches, depth: nat, c: Cards)
    requires Distinct(c) && c.altEnabled && depth > 0 && WritableBranches(bs, c) && At(p, i, ShowBranches(bs, c))
    ensures AltEnd(p, i, Next, depth, c) == AltEnd(p, i + |ShowBranches(bs, c)|, Next, depth, c)
    ensures depth > 1 ==> AltSubEnd(p, i, Next, depth, c) == AltSubEnd(p, i + |ShowBranches(bs, c)|, Next, depth, c)
    decreases BranchesSize(bs), 0
  {
    hide AltEnd, AltSubEnd, Show, At, Writable;
    if bs.Branch? {
      var t, u := Show(bs.body, c), ShowBranches(bs.others, c);
      if bs.others.NoBranch? {
        assert ShowBranches(bs, c) == t;
        ScansPass(p, i, bs.body, depth, c);
      } else {
        assert ShowBranches(bs, c) == t + ([c.altOr] + u);
        AtParts(p, i, t, [c.altOr] + u);
        AtParts(p, i + |t|, [c.altOr], u);
        AtOne(p, i + |t|, c.altOr);
        ScansPass(p, i, bs.body, depth, c);
        PassChar(p, i + |t|, depth, c);
        ScansPassBranches(p, i + |t| + 1, bs.others, depth, c);
      }
    }
  }

  // ---------------------------------------------------------------- reading back

  /** What is written is read back, whatever follows. */
  lemma {:induction false} ReadsBack(p: string, i: nat, items: seq<Item>, c: Cards)
    requires Distinct(c) && Writable(items, c) && At(p, i, Show(items, c))
    ensures Parse(p, i, false, c) == items + Parse(p, i + |Show(items, c)|, false, c)
    decreases Size(items), 1
  {
    if items != [] {
      var t, u := ShowItem(items[0], c), Show(items[1..], c);
      AtParts(p, i, t, u);
      ReadsItem(p, i, items[0], c);
      ReadsBack(p, i + |t|, items[1..], c);
      assert items == [items[0]] + items[1..];
    }
  }

  /** The parts of the parse, one at a time. */
  lemma ParseChar(p: string, i: nat, c: Cards)
    requires Distinct(c) && i < |p|
    ensures p[i] == c.anything ==> Parse(p, i, false, c) == [Any] + Parse(p, i + 1, false, c)
    ensures p[i] == c.single ==> Parse(p, i, false, c) == [Single] + Parse(p, i + 1, false, c)
    ensures !Special(p[i], c) ==> Parse(p, i, false, c) == [Lit(p[i])] + Parse(p, i + 1, false, c)
  {
    hide AltEnd, IsAlt, IsSet, ParseBranches, ParseSet;
  }

  lemma ParseEscaped(p: string, i: nat, c: Cards)
    requires Distinct(c) && i + 1 < |p| && p[i] == c.escape
    ensures Parse(p, i, false, c) == [Lit(p[i + 1])] + Parse(p, i + 2, false, c)
  {
    hide AltEnd, AtAlt, AtSet, ParseBranches, ParseSet;
    assert Parse(p, i, false, c) == Parse(p, i + 1, true, c);
  }

  lemma ParseOneSet(p: string, i: nat, c: Cards)
    requires Distinct(c) && AtSet(p, i, c)
    ensures Parse(p, i, false, c) == [ParseSet(p, i + 1, c)] + Parse(p, PastSet(p, i, c), false, c)
  {
    hide AltEnd, AtAlt, PastSet, ParseBranches, ParseSet, IsSet;
  }

  lemma ParseOneAlt(p: string, i: nat, p2: nat, c: Cards)
    requires Distinct(c) && c.altEnabled && i < |p| && p[i] == c.altOpen
    requires AltEnd(p, i + 1, Next, 1, c) == Some(p2)
    ensures i + 1 < p2 <= |p|
    ensures Parse(p, i, false, c) == [Item.Alt(ParseBranches(p, i + 1, p2, c))] + Parse(p, p2, false, c)
  {
    hide AltEnd, IsAlt, PastSet, ParseBranches, ParseSet, IsSet;
  }

  lemma ParseEnd(p: string, items: seq<Item>, c: Cards)
    ensures items + Parse(p, |p|, false, c) == items
  {
  }

  lemma {:induction false} ReadsItem(p: string, i: nat, item: Item, c: Cards)
    requires Distinct(c) && WritableItem(item, c) && At(p, i, ShowItem(item, c))
    ensures Parse(p, i, false, c) == [item] + Parse(p, i + |ShowItem(item, c)|, false, c)
    decreases ItemSize(item), 0
  {
    hide Parse, ParseBranches, ParseSet, AltEnd, AtSet, PastSet, ShowBranches, WritableBranches;
    var t := ShowItem(item, c);
    assert t != [] && p[i] == p[i..i + |t|][0];
    match item
    case OneOf(_) =>
      ShownSet(p, i, item, c);
      ParseOneSet(p, i, c);
    case NoneOf(_) =>
      ShownSet(p, i, item, c);
      ParseOneSet(p, i, c);
    case Alt(bs) =>
      var inner := ShowBranches(bs, c);
      var p2 := i + 1 + |inner| + 1;
      assert t == [c.altOpen] + (inner + [c.altClose]);
      AtParts(p, i, [c.altOpen], inner + [c.altClose]);
      AtParts(p, i + 1, inner, [c.altClose]);
      AtOne(p, i + 1 + |inner|, c.altClose);
      ScansPassBranches(p, i + 1, bs, 1, c);
      PassChar(p, p2 - 1, 1, c);
      ParseOneAlt(p, i, p2, c);
      ReadsBranches(p, i + 1, p2, bs, c);
    case Lit(ch) =>
      if Special(ch, c) {
        ParseEscaped(p, i, c);
      } else {
        ParseChar(p, i, c);
      }
    case Any => ParseChar(p, i, c);
    case Single => ParseChar(p, i, c);
  }

  lemma {:induction false} ReadsBranches(p: string, p1: nat, p2: nat, bs: Branches, c: Cards)
    requires Distinct(c) && c.altEnabled && bs.Branch? && WritableBranches(bs, c)
    requires At(p, p1, ShowBranches(bs, c)) && p2 == p1 + |ShowBranches(bs, c)| + 1 <= |p|
    requires p[p2 - 1] == c.altClose
    ensures ParseBranches(p, p1, p2, c) == bs
    decreases BranchesSize(bs), 0
  {
    hide Parse, AltEnd, AltSubEnd, Show, Writable;
    var t, u := Show(bs.body, c), ShowBranches(bs.others, c);
    var end := p1 + |t|;
    if bs.others.NoBranch? {
      assert ShowBranches(bs, c) == t;
    } else {
      assert ShowBranches(bs, c) == t + ([c.altOr] + u);
      AtParts(p, p1, t, [c.altOr] + u);
      AtParts(p, end, [c.altOr], u);
      AtOne(p, end, c.altOr);
      ReadsBranches(p, end + 1, p2, bs.others, c);
    }
    AtCut(p, p2, p1, t);
    AtCut(p, end, p1, t);
    ScansPass(p[..p2], p1, bs.body, 1, c);
    PassChar(p[..p2], end, 1, c);
    ReadsBack(p[..end], p1, bs.body, c);
    ParseEnd(p[..end], bs.body, c);
  }

  // ---------------------------------------------------------------- the laws

  /** A pattern that was written down from items is read as these items. */
  lemma ShownParses(items: seq<Item>, c: Cards)
    requires Distinct(c) && Writable(items, c)
    ensures Pattern(Show(items, c), c) == items
  {
    ReadsBack(Show(items, c), 0, items, c);
    ParseEnd(Show(items, c), items, c);
  }

  /** What a pattern that was written down matches is in the language of its items, and it never throws. It
      is exactly their language where choices cannot be wrong: without nested alternatives and stars in
      branches, or with branches of one length each. */
  lemma ShownMatches(s: string, items: seq<Item>, c: Cards)
    requires Distinct(c) && Writable(items, c)
    ensures var r := Matches(s, Show(items, c), c);
            && !r.Threw? && (r.Matched? ==> Lang(items, s))
            && (Flat(items) ==> (r.Matched? <==> CommitLang(items, s)))
            && ((Flat(items) && StarFreeAlts(items)) || Rigid(items) ==> (r.Matched? <==> Lang(items, s)))
  {
    var p := Show(items, c);
    ShownParses(items, c);
    MatchSound(s, p, c);
    if Flat(items) {
      MatchExact(s, p, c);
    }
    if Rigid(items) {
      MatchRigid(s, p, c);
    }
  }

  /** A set of the usual notation matches exactly the single characters between its brackets, or all others
      with the sign for not. */
  lemma SetMatches(s: string, chars: string)
    requires chars != [] && ']' !in chars[1..]
    ensures chars[0] != '!' ==>
              (Matches(s, "[" + chars + "]", EXTENDED).Matched? <==> |s| == 1 && s[0] in chars)
    ensures Matches(s, "[!" + chars + "]", EXTENDED).Matched? <==> |s| == 1 && s[0] !in chars
  {
    if chars[0] != '!' {
      OneItem(s, OneOf(chars));
    }
    OneItem(s, NoneOf(chars));
  }

  lemma OneItem(s: string, item: Item)
    requires (item.OneOf? || item.NoneOf?) && WritableItem(item, EXTENDED)
    ensures Matches(s, ShowItem(item, EXTENDED), EXTENDED).Matched? <==> |s| == 1 && Allows(item, s[0])
  {
    var items := [item];
    assert items[1..] == [] && Show(items, EXTENDED) == ShowItem(item, EXTENDED) + "" == ShowItem(item, EXTENDED);
    ShownMatches(s, items, EXTENDED);
    assert s != [] ==> (Lang([], s[1..]) <==> s[1..] == []);
    assert Lang(items, s) <==> s != [] && Allows(item, s[0]) && Lang([], s[1..]);
  }
}
