/** The wildcard matcher, proved against the language that a pattern denotes. */
module Wildcards {
  import opened Wrappers
  import opened WildcardScanners

  // ---------------------------------------------------------------- the matcher

  datatype MatchResult = Matched(used: nat) | Failed | Threw

  function Further(r: MatchResult, n: nat): MatchResult {
    if r.Matched? then Matched(r.used + n) else r
  }

  predicate AtAlt(p: string, i: nat, c: Cards) {
    i < |p| && c.altEnabled && p[i] == c.altOpen && IsAlt(p, i + 1, Next, 1, c)
  }

  /** Does the pattern `p`, from position `i`, match `s` or, when `partial`, some beginning of `s`? */
  function Match(s: string, p: string, i: nat, partial: bool, escape: bool, c: Cards): (r: MatchResult)
    requires i <= |p|
    ensures r.Matched? ==> r.used <= |s|
    decreases |p| - i, |s|
  {
    if i == |p| then if partial || s == [] then Matched(0) else Failed
    else if escape then
      if s == [] || s[0] != p[i] then Failed else Further(Match(s[1..], p, i + 1, partial, false, c), 1)
    else if p[i] == c.anything then
      var r := Match(s, p, i + 1, partial, false, c);
      if !r.Failed? then r
      else if s == [] then Failed
      else Further(Match(s[1..], p, i, partial, false, c), 1)
    else if p[i] == c.single then
      if s == [] then Failed else Further(Match(s[1..], p, i + 1, partial, false, c), 1)
    else if p[i] == c.escape then Match(s, p, i + 1, partial, true, c)
    else if AtSet(p, i, c) then
      match MatchSet(s, p, i + 1, NotOrFirstIn, c)
      case SetThrew => Threw
      case Out => Failed
      case In => if s == [] then Failed else Further(Match(s[1..], p, PastSet(p, i, c), partial, false, c), 1)
    else if AtAlt(p, i, c) then MatchAlt(s, p, i + 1, AltEnd(p, i + 1, Next, 1, c).value, partial, c)
    else if s == [] || s[0] != p[i] then Failed
    else Further(Match(s[1..], p, i + 1, partial, false, c), 1)
  }

  /** Try the branches of an alternative one by one. The first begins at `p1`, the last ends before the
      closing character in front of `p2`. A branch is matched as a beginning of `s`, and then the rest
      of the pattern from where the branch stopped. */
  function MatchAlt(s: string, p: string, p1: nat, p2: nat, partial: bool, c: Cards): (r: MatchResult)
    requires p1 < p2 <= |p|
    ensures r.Matched? ==> r.used <= |s|
    decreases |p| - p1, |s|
  {
    match AltSubEnd(p[..p2], p1, Next, 1, c)
    case None => Threw
    case Some(end) =>
      var r1 := Match(s, p[..end], p1, true, false, c);
      if r1.Threw? then Threw
      else
        var r2 := if r1.Matched? then Further(Match(s[r1.used..], p, p2, partial, false, c), r1.used) else Failed;
        if !r2.Failed? then r2
        else if end + 1 == p2 then Failed
        else MatchAlt(s, p, end + 1, p2, partial, c)
  }

  // ---------------------------------------------------------------- patterns and their language

  datatype Item =
    | Any
    | Single
    | Lit(ch: char)
    | OneOf(chars: string)
    | NoneOf(chars: string)
    | Alt(branches: Branches)

  datatype Branches = NoBranch | Branch(body: seq<Item>, others: Branches)

  function Size(items: seq<Item>): nat {
    if items == [] then 0 else ItemSize(items[0]) + Size(items[1..])
  }

  function ItemSize(item: Item): (n: nat)
    ensures n > 0
  {
    if item.Alt? then 1 + BranchesSize(item.branches) else 1
  }

  function BranchesSize(bs: Branches): nat {
    if bs.NoBranch? then 0 else 1 + Size(bs.body) + BranchesSize(bs.others)
  }

  lemma AltSize(items: seq<Item>)
    requires items != []
    ensures items[0].Alt? ==> BranchesSize(items[0].branches) + Size(items[1..]) < Size(items)
  {
    assert Size(items) == ItemSize(items[0]) + Size(items[1..]);
  }

  predicate Allows(item: Item, ch: char) {
    match item
    case Any => false
    case Single => true
    case Lit(l) => ch == l
    case OneOf(chars) => ch in chars
    case NoneOf(chars) => ch !in chars
    case Alt(_) => false
  }

  /** The strings a pattern stands for. */
  ghost predicate Lang(items: seq<Item>, s: string)
    decreases Size(items)
  {
    if items == [] then s == []
    else
      AltSize(items);
      match items[0]
      case Any => exists k: nat | k <= |s| :: Lang(items[1..], s[k..])
      case Alt(bs) => LangAlt(bs, items[1..], s)
      case _ => s != [] && Allows(items[0], s[0]) && Lang(items[1..], s[1..])
  }

  /** A beginning of `s` is in one of the branches, and the remainder is in the rest. */
  ghost predicate LangAlt(bs: Branches, rest: seq<Item>, s: string)
    decreases BranchesSize(bs) + Size(rest)
  {
    bs.Branch? &&
    ((exists k: nat | k <= |s| :: Lang(bs.body, s[..k]) && Lang(rest, s[k..])) || LangAlt(bs.others, rest, s))
  }

  function UntilClose(p: string, i: nat, c: Cards): string
    requires i <= |p|
    decreases |p| - i
  {
    if i == |p| || p[i] == c.setClose then [] else [p[i]] + UntilClose(p, i + 1, c)
  }

  /** The set whose inside begins at `i`. Its first character belongs to it even if it is the closing one. */
  function ParseSet(p: string, i: nat, c: Cards): Item
    requires i <= |p| && IsSet(p, i, NotOrFirst, c)
  {
    if p[i] != c.setNot then OneOf([p[i]] + UntilClose(p, i + 1, c))
    else
      assert IsSet(p, i + 1, First, c);
      NoneOf([p[i + 1]] + UntilClose(p, i + 2, c))
  }

  function Parse(p: string, i: nat, escape: bool, c: Cards): seq<Item>
    requires i <= |p|
    decreases |p| - i
  {
    if i == |p| then []
    else if escape then [Lit(p[i])] + Parse(p, i + 1, false, c)
    else if p[i] == c.anything then [Any] + Parse(p, i + 1, false, c)
    else if p[i] == c.single then [Single] + Parse(p, i + 1, false, c)
    else if p[i] == c.escape then Parse(p, i + 1, true, c)
    else if AtSet(p, i, c) then [ParseSet(p, i + 1, c)] + Parse(p, PastSet(p, i, c), false, c)
    else if AtAlt(p, i, c) then
      var p2 := AltEnd(p, i + 1, Next, 1, c).value;
      [Alt(ParseBranches(p, i + 1, p2, c))] + Parse(p, p2, false, c)
    else [Lit(p[i])] + Parse(p, i + 1, false, c)
  }

  function ParseBranches(p: string, p1: nat, p2: nat, c: Cards): Branches
    requires p1 < p2 <= |p|
    decreases |p| - p1
  {
    match AltSubEnd(p[..p2], p1, Next, 1, c)
    case None => NoBranch
    case Some(end) =>
      Branch(Parse(p[..end], p1, false, c), if end + 1 == p2 then NoBranch else ParseBranches(p, end + 1, p2, c))
  }

  /** The matcher on parsed patterns. */
  function MatchItems(items: seq<Item>, s: string, partial: bool): (r: MatchResult)
    ensures !r.Threw? && (r.Matched? ==> r.used <= |s|)
    decreases Size(items), |s|
  {
    if items == [] then if partial || s == [] then Matched(0) else Failed
    else
      AltSize(items);
      match items[0]
      case Any =>
        var r := MatchItems(items[1..], s, partial);
        if !r.Failed? then r
        else if s == [] then Failed
        else Further(MatchItems(items, s[1..], partial), 1)
      case Alt(bs) => MatchBranches(bs, items[1..], s, partial)
      case _ =>
        if s == [] || !Allows(items[0], s[0]) then Failed
        else Further(MatchItems(items[1..], s[1..], partial), 1)
  }

  function MatchBranches(bs: Branches, rest: seq<Item>, s: string, partial: bool): (r: MatchResult)
    ensures !r.Threw? && (r.Matched? ==> r.used <= |s|)
    decreases BranchesSize(bs) + Size(rest), |s|
  {
    if bs.NoBranch? then Failed
    else
      var r1 := MatchItems(bs.body, s, true);
      var r2 := if r1.Matched? then Further(MatchItems(rest, s[r1.used..], partial), r1.used) else Failed;
      if !r2.Failed? then r2 else MatchBranches(bs.others, rest, s, partial)
  }

  // ---------------------------------------------------------------- matching is matching of the parse

  /** `match_set` decides membership in the set as parsed. */
  lemma {:induction false} SetMeans(s: string, p: string, i: nat, c: Cards)
    requires i <= |p| && IsSet(p, i, NotOrFirst, c)
    ensures MatchSet(s, p, i, NotOrFirstIn, c) == if s != [] && Allows(ParseSet(p, i, c), s[0]) then In else Out
  {
    if p[i] == c.setNot {
      assert IsSet(p, i + 1, First, c) && IsSet(p, i + 2, Rest, c);
      SetRestMeans(s, p, i + 2, c);
    } else {
      SetRestMeans(s, p, i + 1, c);
    }
  }

  lemma {:induction false} SetRestMeans(s: string, p: string, i: nat, c: Cards)
    requires i <= |p| && IsSet(p, i, Rest, c)
    ensures MatchSet(s, p, i, NextIn, c) == if s != [] && s[0] in UntilClose(p, i, c) then In else Out
    ensures s != [] ==> MatchSet(s, p, i, NextOut, c) == if s[0] !in UntilClose(p, i, c) then In else Out
    ensures s == [] ==> MatchSet(s, p, i, NextOut, c) == if p[i] == c.setClose then In else Out
    decreases |p| - i
  {
    if p[i] != c.setClose {
      SetRestMeans(s, p, i + 1, c);
    }
  }

  /** The matcher on strings is the matcher on the parsed pattern; in particular, no scanner throws,
      whatever the pattern. */
  lemma {:induction false} MatchIsItems(s: string, p: string, i: nat, partial: bool, escape: bool, c: Cards)
    requires i <= |p|
    ensures Match(s, p, i, partial, escape, c) == MatchItems(Parse(p, i, escape, c), s, partial)
    decreases |p| - i, |s|
  {
    if i < |p| {
      if escape {
        if s != [] {
          MatchIsItems(s[1..], p, i + 1, partial, false, c);
        }
      } else if p[i] == c.anything {
        MatchIsItems(s, p, i + 1, partial, false, c);
        if s != [] {
          MatchIsItems(s[1..], p, i, partial, false, c);
        }
      } else if p[i] == c.escape && p[i] != c.single {
        MatchIsItems(s, p, i + 1, partial, true, c);
      } else if p[i] != c.single && AtSet(p, i, c) {
        SetMeans(s, p, i + 1, c);
        if s != [] {
          MatchIsItems(s[1..], p, PastSet(p, i, c), partial, false, c);
        }
      } else if p[i] != c.single && AtAlt(p, i, c) {
        var p2 := AltEnd(p, i + 1, Next, 1, c).value;
        AltInPrefix(p, p2, i + 1, Next, 1, c);
        AltIsBranches(s, p, i + 1, p2, partial, c);
      } else if s != [] {
        MatchIsItems(s[1..], p, i + 1, partial, false, c);
      }
    }
  }

  lemma {:induction false} AltIsBranches(s: string, p: string, p1: nat, p2: nat, partial: bool, c: Cards)
    requires p1 < p2 <= |p| && AltEnd(p[..p2], p1, Next, 1, c) == Some(p2)
    ensures MatchAlt(s, p, p1, p2, partial, c) ==
            MatchBranches(ParseBranches(p, p1, p2, c), Parse(p, p2, false, c), s, partial)
    decreases |p| - p1, |s|
  {
    SubEndsExist(p[..p2], p1, Next, 1, c);
    var end := AltSubEnd(p[..p2], p1, Next, 1, c).value;
    MatchIsItems(s, p[..end], p1, true, false, c);
    var r1 := Match(s, p[..end], p1, true, false, c);
    if r1.Matched? {
      MatchIsItems(s[r1.used..], p, p2, partial, false, c);
    }
    if end + 1 < p2 {
      AltIsBranches(s, p, end + 1, p2, partial, c);
    }
  }

  // ---------------------------------------------------------------- soundness

  /** What the matcher consumes is in the language of the pattern. */
  lemma {:induction false} ItemsSound(items: seq<Item>, s: string, partial: bool)
    ensures var r := MatchItems(items, s, partial);
            !r.Matched? || (Lang(items, s[..r.used]) && (!partial ==> r.used == |s|))
    decreases Size(items), |s|
  {
    var r := MatchItems(items, s, partial);
    if items != [] && r.Matched? {
      AltSize(items);
      match items[0]
      case Any =>
        var r0 := MatchItems(items[1..], s, partial);
        if r0.Matched? {
          ItemsSound(items[1..], s, partial);
          assert s[..r.used][0..] == s[..r.used];
        } else {
          ItemsSound(items, s[1..], partial);
          assert s[..r.used][1..] == s[1..][..r.used - 1];
          LangAnyExtends(items, s[..r.used]);
        }
      case Alt(bs) => BranchesSound(bs, items[1..], s, partial);
      case _ =>
        ItemsSound(items[1..], s[1..], partial);
        assert s[..r.used][1..] == s[1..][..r.used - 1];
    }
  }

  lemma LangAnyExtends(items: seq<Item>, s: string)
    requires items != [] && items[0].Any? && s != [] && Lang(items, s[1..])
    ensures Lang(items, s)
  {
    var k: nat :| k <= |s[1..]| && Lang(items[1..], s[1..][k..]);
    assert s[1..][k..] == s[k + 1..];
  }

  lemma {:induction false} BranchesSound(bs: Branches, rest: seq<Item>, s: string, partial: bool)
    ensures var r := MatchBranches(bs, rest, s, partial);
            r.Matched? ==> LangAlt(bs, rest, s[..r.used]) && (!partial ==> r.used == |s|)
    decreases BranchesSize(bs) + Size(rest), |s|
  {
    var r := MatchBranches(bs, rest, s, partial);
    if bs.Branch? && r.Matched? {
      var r1 := MatchItems(bs.body, s, true);
      if r1.Matched? && MatchItems(rest, s[r1.used..], partial).Matched? {
        ItemsSound(bs.body, s, true);
        ItemsSound(rest, s[r1.used..], partial);
        assert s[..r.used][..r1.used] == s[..r1.used];
        assert s[..r.used][r1.used..] == s[r1.used..][..r.used - r1.used];
      } else {
        BranchesSound(bs.others, rest, s, partial);
      }
    }
  }

  // ---------------------------------------------------------------- exactness

  predicate NoAlt(items: seq<Item>) {
    forall i | 0 <= i < |items| :: !items[i].Alt?
  }

  predicate NoStar(items: seq<Item>) {
    forall i | 0 <= i < |items| :: !items[i].Any?
  }

  /** No branch contains an alternative. */
  predicate FlatBranches(bs: Branches) {
    bs.Branch? ==> NoAlt(bs.body) && FlatBranches(bs.others)
  }

  predicate Flat(items: seq<Item>) {
    forall i | 0 <= i < |items| :: items[i].Alt? ==> FlatBranches(items[i].branches)
  }

  predicate StarFreeBranches(bs: Branches) {
    bs.Branch? ==> NoStar(bs.body) && StarFreeBranches(bs.others)
  }

  predicate StarFreeAlts(items: seq<Item>) {
    forall i | 0 <= i < |items| :: items[i].Alt? ==> StarFreeBranches(items[i].branches)
  }

  /** Of all beginnings of `s` that are in the language, the one of length `k` is the shortest. */
  ghost predicate Shortest(items: seq<Item>, s: string, k: nat) {
    k <= |s| && Lang(items, s[..k]) && forall j: nat | j < k :: !Lang(items, s[..j])
  }

  /** The language of committed choice: a branch takes the shortest beginning it can, and stays with it. */
  ghost predicate CommitLang(items: seq<Item>, s: string)
    decreases Size(items)
  {
    if items == [] then s == []
    else
      AltSize(items);
      match items[0]
      case Any => exists k: nat | k <= |s| :: CommitLang(items[1..], s[k..])
      case Alt(bs) => CommitAlt(bs, items[1..], s)
      case _ => s != [] && Allows(items[0], s[0]) && CommitLang(items[1..], s[1..])
  }

  ghost predicate CommitAlt(bs: Branches, rest: seq<Item>, s: string)
    decreases BranchesSize(bs) + Size(rest)
  {
    bs.Branch? &&
    ((exists k: nat :: Shortest(bs.body, s, k) && CommitLang(rest, s[k..])) || CommitAlt(bs.others, rest, s))
  }

  /** Starting earlier, a pattern without alternatives can end no later: if it fits at the beginning of
      `s` and also at `m`, where it ends after `j`, then it fits at the beginning so as to end by then. */
  lemma {:induction false} EarlierStart(items: seq<Item>, s: string, k: nat, m: nat, j: nat) returns (e: nat)
    requires NoAlt(items) && k <= |s| && m <= |s| && j <= |s| - m
    requires Lang(items, s[..k]) && Lang(items, s[m..][..j])
    ensures e <= m + j && Lang(items, s[..e])
    decreases |items|
  {
    if items == [] {
      return 0;
    }
    var rest := items[1..];
    if items[0].Any? {
      var d: nat :| d <= j && Lang(rest, s[m..][..j][d..]);
      e := m + j;
      assert s[..e][m + d..] == s[m..][..j][d..];
    } else {
      assert s[..k][1..] == s[1..][..k - 1];
      assert s[m..][..j][1..] == s[1..][m..][..j - 1];
      var e1 := EarlierStart(rest, s[1..], k - 1, m, j - 1);
      e := e1 + 1;
      assert s[..e][1..] == s[1..][..e1];
    }
  }

  /** Without alternatives, a partial match finds the shortest fitting beginning, or there is none. */
  lemma {:induction false} PartialIsShortest(items: seq<Item>, s: string)
    requires NoAlt(items)
    ensures var r := MatchItems(items, s, true);
            (r.Matched? && Shortest(items, s, r.used)) ||
            (!r.Matched? && forall j: nat | j <= |s| :: !Lang(items, s[..j]))
    decreases Size(items), |s|
  {
    ItemsSound(items, s, true);
    if items != [] {
      var rest := items[1..];
      if items[0].Any? {
        PartialIsShortest(rest, s);
        var r0 := MatchItems(rest, s, true);
        if s != [] && !r0.Matched? {
          PartialIsShortest(items, s[1..]);
        }
        forall j: nat | j <= |s| && Lang(items, s[..j])
          ensures MatchItems(items, s, true).Matched? && MatchItems(items, s, true).used <= j
        {
          AnyShortest(items, s, j);
        }
      } else {
        if s != [] {
          PartialIsShortest(rest, s[1..]);
        }
        forall j: nat | j <= |s| && Lang(items, s[..j])
          ensures MatchItems(items, s, true).Matched? && MatchItems(items, s, true).used <= j
        {
          assert s[..j][1..] == s[1..][..j - 1];
        }
      }
    }
  }

  lemma AnyUnfolds(items: seq<Item>, s: string)
    requires items != [] && items[0].Any?
    ensures var r0 := MatchItems(items[1..], s, true);
            MatchItems(items, s, true) ==
            if r0.Matched? then r0 else if s == [] then Failed else Further(MatchItems(items, s[1..], true), 1)
  {
  }

  lemma AnyShortest(items: seq<Item>, s: string, j: nat)
    requires NoAlt(items) && items != [] && items[0].Any? && j <= |s| && Lang(items, s[..j])
    requires var r := MatchItems(items[1..], s, true);
             if r.Matched? then Shortest(items[1..], s, r.used) else forall i: nat | i <= |s| ::
               !Lang(items[1..], s[..i])
    requires s != [] && !MatchItems(items[1..], s, true).Matched? ==>
             var r := MatchItems(items, s[1..], true);
             if r.Matched? then Shortest(items, s[1..], r.used) else forall i: nat | i <= |s[1..]| ::
               !Lang(items, s[1..][..i])
    ensures MatchItems(items, s, true).Matched? && MatchItems(items, s, true).used <= j
  {
    hide MatchItems;
    AnyUnfolds(items, s);
    var rest := items[1..];
    var m: nat :| m <= j && Lang(rest, s[..j][m..]);
    assert s[..j][m..] == s[m..][..j - m];
    var r0 := MatchItems(rest, s, true);
    if r0.Matched? {
      var e := EarlierStart(rest, s, r0.used, m, j - m);
    } else {
      if m == 0 {
        assert false;
      }
      assert s[1..][..j - 1][m - 1..] == s[..j][m..];
      assert Lang(items, s[1..][..j - 1]);
    }
  }

  lemma ShortestIsUnique(items: seq<Item>, s: string, j: nat, k: nat)
    requires Shortest(items, s, j) && Shortest(items, s, k)
    ensures j == k
  {
  }

  /** When no branch contains an alternative, the matcher accepts exactly the language of committed choice. */
  lemma {:induction false} ItemsExact(items: seq<Item>, s: string)
    requires Flat(items)
    ensures MatchItems(items, s, false).Matched? <==> CommitLang(items, s)
    decreases Size(items), |s|
  {
    if items != [] {
      AltSize(items);
      var rest := items[1..];
      match items[0]
      case Any =>
        ItemsExact(rest, s);
        if s != [] {
          ItemsExact(items, s[1..]);
        }
        CommitAny(items, s);
      case Alt(bs) => BranchesExact(bs, rest, s);
      case _ =>
        if s != [] {
          ItemsExact(rest, s[1..]);
        }
    }
  }

  lemma CommitAny(items: seq<Item>, s: string)
    requires items != [] && items[0].Any?
    ensures CommitLang(items, s) <==> CommitLang(items[1..], s) || (s != [] && CommitLang(items, s[1..]))
  {
    var rest := items[1..];
    assert s[0..] == s;
    if s != [] {
      if CommitLang(items, s[1..]) {
        var k: nat :| k <= |s[1..]| && CommitLang(rest, s[1..][k..]);
        assert s[1..][k..] == s[k + 1..];
      }
      if CommitLang(items, s) && !CommitLang(rest, s) {
        var k: nat :| k <= |s| && CommitLang(rest, s[k..]);
        assert k > 0 && s[1..][k - 1..] == s[k..];
      }
    }
  }

  lemma {:induction false} BranchesExact(bs: Branches, rest: seq<Item>, s: string)
    requires FlatBranches(bs) && Flat(rest)
    ensures MatchBranches(bs, rest, s, false).Matched? <==> CommitAlt(bs, rest, s)
    decreases BranchesSize(bs) + Size(rest), |s|
  {
    if bs.Branch? {
      PartialIsShortest(bs.body, s);
      var r1 := MatchItems(bs.body, s, true);
      if r1.Matched? {
        ItemsExact(rest, s[r1.used..]);
        forall k: nat | Shortest(bs.body, s, k) ensures k == r1.used {
          ShortestIsUnique(bs.body, s, k, r1.used);
        }
      }
      BranchesExact(bs.others, rest, s);
    }
  }

  /** A pattern of characters and sets fits beginnings of one length only. */
  lemma {:induction false} FixedLength(items: seq<Item>, s: string)
    requires NoAlt(items) && NoStar(items) && Lang(items, s)
    ensures |s| == |items|
    decreases |items|
  {
    if items != [] {
      FixedLength(items[1..], s[1..]);
    }
  }

  /** Without stars in branches, committing to a branch gives nothing away. */
  lemma {:induction false} CommitIsLang(items: seq<Item>, s: string)
    requires Flat(items) && StarFreeAlts(items)
    ensures CommitLang(items, s) <==> Lang(items, s)
    decreases Size(items), |s|
  {
    if items != [] {
      AltSize(items);
      var rest := items[1..];
      match items[0]
      case Any =>
        forall k: nat | k <= |s| ensures CommitLang(rest, s[k..]) <==> Lang(rest, s[k..]) {
          CommitIsLang(rest, s[k..]);
        }
      case Alt(bs) => CommitIsLangAlt(bs, rest, s);
      case _ =>
        if s != [] {
          CommitIsLang(rest, s[1..]);
        }
    }
  }

  lemma {:induction false} CommitIsLangAlt(bs: Branches, rest: seq<Item>, s: string)
    requires FlatBranches(bs) && StarFreeBranches(bs) && Flat(rest) && StarFreeAlts(rest)
    ensures CommitAlt(bs, rest, s) <==> LangAlt(bs, rest, s)
    decreases BranchesSize(bs) + Size(rest), |s|
  {
    if bs.Branch? {
      CommitIsLangAlt(bs.others, rest, s);
      forall k: nat | k <= |s|
        ensures Shortest(bs.body, s, k) <==> Lang(bs.body, s[..k])
        ensures CommitLang(rest, s[k..]) <==> Lang(rest, s[k..])
      {
        CommitIsLang(rest, s[k..]);
        if Lang(bs.body, s[..k]) {
          FixedLength(bs.body, s[..k]);
          forall j: nat | j < k ensures !Lang(bs.body, s[..j]) {
            if Lang(bs.body, s[..j]) {
              FixedLength(bs.body, s[..j]);
            }
          }
        }
      }
    }
  }

  // ---------------------------------------------------------------- branches of one length

  /** The length of all strings of a pattern, if it can be read off: there is no star, and the branches of
      an alternative are equally long. */
  function Width(items: seq<Item>): Option<nat>
    decreases Size(items)
  {
    if items == [] then Some(0)
    else
      AltSize(items);
      var first := if items[0].Any? then None else if items[0].Alt? then BranchesWidth(items[0].branches) else Some(1);
      var others := Width(items[1..]);
      if first.Some? && others.Some? then Some(first.value + others.value) else None
  }

  function BranchesWidth(bs: Branches): Option<nat>
    decreases BranchesSize(bs)
  {
    if bs.NoBranch? then None
    else if bs.others.NoBranch? || Width(bs.body) == BranchesWidth(bs.others) then Width(bs.body)
    else None
  }

  predicate RigidBranches(bs: Branches) {
    bs.Branch? ==> Width(bs.body).Some? && RigidBranches(bs.others)
  }

  /** Every branch has strings of one length only, whatever is nested in it. */
  predicate Rigid(items: seq<Item>) {
    forall i | 0 <= i < |items| && items[i].Alt? :: RigidBranches(items[i].branches)
  }

  lemma {:induction false} WidthIsRigid(items: seq<Item>)
    requires Width(items).Some?
    ensures Rigid(items)
    decreases Size(items)
  {
    if items != [] {
      AltSize(items);
      WidthIsRigid(items[1..]);
      if items[0].Alt? {
        BranchesWidthIsRigid(items[0].branches);
      }
      forall i | 0 <= i < |items| && items[i].Alt? ensures RigidBranches(items[i].branches) {
        assert i > 0 ==> items[i] == items[1..][i - 1];
      }
    }
  }

  lemma {:induction false} BranchesWidthIsRigid(bs: Branches)
    requires BranchesWidth(bs).Some?
    ensures RigidBranches(bs)
    decreases bs
  {
    if bs.others.Branch? {
      BranchesWidthIsRigid(bs.others);
    }
  }

  lemma {:induction false} WidthOfLang(items: seq<Item>, s: string)
    requires Width(items).Some? && Lang(items, s)
    ensures |s| == Width(items).value
    decreases Size(items), |s|
  {
    if items != [] {
      AltSize(items);
      if items[0].Alt? {
        WidthOfAlt(items[0].branches, items[1..], s);
      } else {
        WidthOfLang(items[1..], s[1..]);
      }
    }
  }

  lemma {:induction false} WidthOfAlt(bs: Branches, rest: seq<Item>, s: string)
    requires BranchesWidth(bs).Some? && Width(rest).Some? && LangAlt(bs, rest, s)
    ensures |s| == BranchesWidth(bs).value + Width(rest).value
    decreases BranchesSize(bs) + Size(rest), |s|
  {
    if exists k: nat :: k <= |s| && Lang(bs.body, s[..k]) && Lang(rest, s[k..]) {
      var k: nat :| k <= |s| && Lang(bs.body, s[..k]) && Lang(rest, s[k..]);
      WidthOfLang(bs.body, s[..k]);
      WidthOfLang(rest, s[k..]);
    } else {
      WidthOfAlt(bs.others, rest, s);
    }
  }

  /** What the matcher is to decide: membership of the whole string, or, for a partial match of strings of
      one length, of the beginning of that length. */
  ghost predicate Fits(items: seq<Item>, s: string, partial: bool)
    requires partial ==> Width(items).Some?
  {
    if partial then Width(items).value <= |s| && Lang(items, s[..Width(items).value]) else Lang(items, s)
  }

  /** If every branch has strings of one length only, nothing is lost by not coming back to it, however
      deep alternatives are nested. */
  lemma {:induction false} RigidExact(items: seq<Item>, s: string, partial: bool)
    requires Rigid(items) && (partial ==> Width(items).Some?)
    ensures MatchItems(items, s, partial).Matched? <==> Fits(items, s, partial)
    ensures partial && MatchItems(items, s, partial).Matched? ==>
            MatchItems(items, s, partial).used == Width(items).value
    decreases Size(items), |s|
  {
    if items != [] {
      AltSize(items);
      var rest := items[1..];
      match items[0]
      case Any =>
        RigidExact(rest, s, partial);
        if s != [] {
          RigidExact(items, s[1..], partial);
        }
        LangAny(items, s);
      case Alt(bs) => RigidBranchesExact(bs, rest, s, partial);
      case _ =>
        if s != [] {
          RigidExact(rest, s[1..], partial);
          if partial && Width(items).value <= |s| {
            assert s[..Width(items).value][1..] == s[1..][..Width(rest).value];
          }
        }
    } else {
      assert s[..0] == [];
    }
  }

  lemma LangAny(items: seq<Item>, s: string)
    requires items != [] && items[0].Any?
    ensures Lang(items, s) <==> Lang(items[1..], s) || (s != [] && Lang(items, s[1..]))
  {
    var rest := items[1..];
    assert s[0..] == s;
    if s != [] {
      if Lang(items, s[1..]) {
        LangAnyExtends(items, s);
      }
      if Lang(items, s) && !Lang(rest, s) {
        var k: nat :| k <= |s| && Lang(rest, s[k..]);
        assert k > 0 && s[1..][k - 1..] == s[k..];
      }
    }
  }

  lemma {:induction false} RigidBranchesExact(bs: Branches, rest: seq<Item>, s: string, partial: bool)
    requires RigidBranches(bs) && Rigid(rest)
    requires (partial ==> Width(rest).Some? && (bs.Branch? ==> BranchesWidth(bs).Some?))
    ensures var r := MatchBranches(bs, rest, s, partial);
            r.Matched? <==>
            if !partial then LangAlt(bs, rest, s)
            else bs.Branch? && BranchesWidth(bs).value + Width(rest).value <= |s| &&
                 LangAlt(bs, rest, s[..BranchesWidth(bs).value + Width(rest).value])
    ensures var r := MatchBranches(bs, rest, s, partial);
            partial && r.Matched? ==> r.used == BranchesWidth(bs).value + Width(rest).value
    decreases BranchesSize(bs) + Size(rest), |s|
  {
    hide MatchItems, Lang, Rigid;
    if bs.Branch? {
      var n := Width(bs.body).value;
      WidthIsRigid(bs.body);
      RigidExact(bs.body, s, true);
      RigidBranchesExact(bs.others, rest, s, partial);
      if n <= |s| {
        RigidExact(rest, s[n..], partial);
        if !partial {
          BranchFits(bs.body, rest, s);
        } else if n + Width(rest).value <= |s| {
          var t := s[..n + Width(rest).value];
          BranchFits(bs.body, rest, t);
          assert t[..n] == s[..n] && t[n..] == s[n..][..Width(rest).value];
        }
      }
      if !partial && n > |s| {
        BranchTooLong(bs.body, s);
      }
    }
  }

  /** A branch of one length can only end in one place. */
  lemma BranchFits(body: seq<Item>, rest: seq<Item>, s: string)
    requires Width(body).Some? && Width(body).value <= |s|
    ensures var n := Width(body).value;
            (exists k: nat | k <= |s| :: Lang(body, s[..k]) && Lang(rest, s[k..])) <==>
              Lang(body, s[..n]) && Lang(rest, s[n..])
  {
    forall k: nat | k <= |s| && Lang(body, s[..k]) ensures k == Width(body).value {
      WidthOfLang(body, s[..k]);
    }
  }

  lemma BranchTooLong(body: seq<Item>, s: string)
    requires Width(body).Some? && Width(body).value > |s|
    ensures forall k: nat | k <= |s| :: !Lang(body, s[..k])
  {
    forall k: nat | k <= |s| ensures !Lang(body, s[..k]) {
      if Lang(body, s[..k]) {
        WidthOfLang(body, s[..k]);
      }
    }
  }

  // ---------------------------------------------------------------- results

  /** `wildcards::match`. */
  function Matches(s: string, p: string, c: Cards): MatchResult {
    Match(s, p, 0, false, false, c)
  }

  function Pattern(p: string, c: Cards): seq<Item> {
    Parse(p, 0, false, c)
  }

  /** For every pattern and every string the matcher comes to an answer without throwing, and a positive
      answer is right. */
  lemma MatchSound(s: string, p: string, c: Cards)
    ensures var r := Matches(s, p, c);
            r.Failed? || (r.Matched? && Lang(Pattern(p, c), s))
  {
    MatchIsItems(s, p, 0, false, false, c);
    ItemsSound(Pattern(p, c), s, false);
    assert s[..|s|] == s;
  }

  /** For patterns without nested alternatives the answer is exactly membership in the language of
      committed choice; and in the full language, if moreover no branch contains a star. */
  lemma MatchExact(s: string, p: string, c: Cards)
    requires Flat(Pattern(p, c))
    ensures Matches(s, p, c).Matched? <==> CommitLang(Pattern(p, c), s)
    ensures StarFreeAlts(Pattern(p, c)) ==> (Matches(s, p, c).Matched? <==> Lang(Pattern(p, c), s))
  {
    MatchIsItems(s, p, 0, false, false, c);
    ItemsExact(Pattern(p, c), s);
    if StarFreeAlts(Pattern(p, c)) {
      CommitIsLang(Pattern(p, c), s);
    }
  }

  /** If every branch has strings of one length only, nested or not, the answer is membership in the
      language. */
  lemma MatchRigid(s: string, p: string, c: Cards)
    requires Rigid(Pattern(p, c))
    ensures Matches(s, p, c).Matched? <==> Lang(Pattern(p, c), s)
  {
    MatchIsItems(s, p, 0, false, false, c);
    RigidExact(Pattern(p, c), s, false);
  }

  /** A star inside a branch is taken as short as possible and never reconsidered: (a*)b stands for axb,
      and does not match it. */
  lemma StarInBranch()
    ensures var items := [Alt(Branch([Lit('a'), Any], NoBranch)), Lit('b')];
            Pattern("(a*)b", EXTENDED) == items && Lang(items, "axb") && Matches("axb", "(a*)b", EXTENDED).Failed?
  {
    var p := "(a*)b";
    var body := [Lit('a'), Any];
    var items := [Alt(Branch(body, NoBranch)), Lit('b')];
    StarInBranchParses();
    MatchIsItems("axb", p, 0, false, false, EXTENDED);
    // the language
    assert "axb"[..2] == "ax" && "axb"[2..] == "b";
    assert Lang([], "");
    assert "x"[1..] == "" && [Any][1..] == [];
    assert Lang([Any], "x");
    assert body[1..] == [Any] && "ax"[1..] == "x";
    assert Lang(body, "ax");
    assert [Lit('b')][1..] == [] && "b"[1..] == "";
    assert Lang([Lit('b')], "b");
    assert items[1..] == [Lit('b')];
    assert LangAlt(Branch(body, NoBranch), [Lit('b')], "axb");
    // the matcher
    assert MatchItems([Any], "xb", true) == Matched(0);
    assert "axb"[1..] == "xb";
    assert MatchItems(body, "axb", true) == Matched(1);
    assert MatchItems([Lit('b')], "xb", false) == Failed;
    assert MatchBranches(Branch(body, NoBranch), [Lit('b')], "axb", false) == Failed;
  }

  /** One alternative with one branch. */
  function OneBranch(body: seq<Item>): seq<Item> {
    [Alt(Branch(body, NoBranch))]
  }

  lemma OneBranchMeans(body: seq<Item>, s: string)
    requires NoAlt(body)
    ensures Lang(OneBranch(body), s) <==> Lang(body, s)
    ensures MatchItems(OneBranch(body), s, false).Matched? <==> Shortest(body, s, |s|)
  {
    hide LangAlt, CommitAlt;
    var items, bs := OneBranch(body), Branch(body, NoBranch);
    assert items[1..] == [];
    BranchesExact(bs, [], s);
    OneBranchAlone(body, s);
    assert MatchItems(items, s, false) == MatchBranches(bs, [], s, false);
    assert Lang(items, s) <==> LangAlt(bs, [], s);
  }

  lemma OneBranchAlone(body: seq<Item>, s: string)
    ensures LangAlt(Branch(body, NoBranch), [], s) <==> Lang(body, s)
    ensures CommitAlt(Branch(body, NoBranch), [], s) <==> Shortest(body, s, |s|)
  {
    hide Shortest, Lang, CommitLang;
    assert s[..|s|] == s;
    forall k: nat | k <= |s| ensures Lang([], s[k..]) <==> k == |s| {
      NothingLeft(s, k);
    }
    forall k: nat | Shortest(body, s, k) ensures k <= |s| && (CommitLang([], s[k..]) <==> k == |s|) {
      ShortestWithin(body, s, k);
      NothingLeft(s, k);
    }
    assert !LangAlt(NoBranch, [], s) && !CommitAlt(NoBranch, [], s);
  }

  lemma NothingLeft(s: string, k: nat)
    requires k <= |s|
    ensures Lang([], s[k..]) <==> k == |s|
    ensures CommitLang([], s[k..]) <==> k == |s|
  {
  }

  lemma ShortestWithin(items: seq<Item>, s: string, k: nat)
    requires Shortest(items, s, k)
    ensures k <= |s|
  {
  }

  /** Behind a string of a pattern with a star, the star can go on. */
  lemma {:induction false} StarGoesOn(items: seq<Item>, s: string) returns (t: string)
    requires NoAlt(items) && !NoStar(items) && Lang(items, s)
    ensures |t| > |s| && t[..|s|] == s && Lang(items, t)
    decreases |items|
  {
    var rest := items[1..];
    if items[0].Any? {
      var d: nat :| d <= |s| && Lang(rest, s[d..]);
      t := s + ['x'] + s[d..];
      assert t[|s| + 1..] == s[d..];
    } else {
      assert !NoStar(rest) by {
        var i :| 0 <= i < |items| && items[i].Any?;
        assert rest[i - 1].Any?;
      }
      var t1 := StarGoesOn(rest, s[1..]);
      t := [s[0]] + t1;
      assert t[1..] == t1;
    }
  }

  /** The matcher decides whether the string fits. */
  ghost predicate Decides(items: seq<Item>, s: string) {
    MatchItems(items, s, false).Matched? <==> Lang(items, s)
  }

  ghost predicate Empty(items: seq<Item>) {
    forall s :: !Lang(items, s)
  }

  lemma FitsIsNotEmpty(items: seq<Item>, s: string)
    requires Lang(items, s)
    ensures !Empty(items)
  {
  }

  /** Exactly which branches are decided wrongly for some string: those with a star, if any string fits. */
  lemma StarBranchExact(body: seq<Item>)
    requires NoAlt(body)
    ensures (forall s :: Decides(OneBranch(body), s)) <==> NoStar(body) || Empty(body)
  {
    if NoStar(body) || Empty(body) {
      forall s ensures Decides(OneBranch(body), s) {
        DecidesOne(body, s);
        if Lang(body, s) {
          FixedIsShortest(body, s);
        }
      }
    } else {
      var s :| Lang(body, s);
      var t := StarGoesOn(body, s);
      DecidesOne(body, t);
      assert !Shortest(body, t, |t|);
      assert !Decides(OneBranch(body), t);
    }
  }

  lemma DecidesOne(body: seq<Item>, s: string)
    requires NoAlt(body)
    ensures Decides(OneBranch(body), s) <==> (Lang(body, s) ==> Shortest(body, s, |s|))
  {
    hide Lang;
    OneBranchMeans(body, s);
    assert s[..|s|] == s;
  }

  lemma FixedIsShortest(items: seq<Item>, s: string)
    requires NoAlt(items) && NoStar(items) && Lang(items, s)
    ensures Shortest(items, s, |s|)
  {
    assert s[..|s|] == s;
    FixedLength(items, s);
    forall j: nat | j < |s| ensures !Lang(items, s[..j]) {
      if Lang(items, s[..j]) {
        FixedLength(items, s[..j]);
      }
    }
  }

  predicate AllowsNone(item: Item) {
    !item.Any? && forall ch :: !Allows(item, ch)
  }

  /** No string fits exactly when some item other than a star allows no character. */
  lemma {:induction false} NothingFits(items: seq<Item>)
    requires NoAlt(items)
    ensures Empty(items) <==> exists i | 0 <= i < |items| :: AllowsNone(items[i])
    decreases |items|
  {
    if items == [] {
      FitsIsNotEmpty(items, "");
      return;
    }
    var rest := items[1..];
    NothingFits(rest);
    assert (exists i | 0 <= i < |items| :: AllowsNone(items[i])) <==>
           AllowsNone(items[0]) || exists i | 0 <= i < |rest| :: AllowsNone(rest[i]) by {
      assert forall i | 0 <= i < |rest| :: items[i + 1] == rest[i];
    }
    if AllowsNone(items[0]) || Empty(rest) {
      forall s ensures !Lang(items, s) {
      }
    } else {
      var s :| Lang(rest, s);
      if items[0].Any? {
        assert s[0..] == s;
        FitsIsNotEmpty(items, s);
      } else {
        var ch :| Allows(items[0], ch);
        assert ([ch] + s)[1..] == s;
        FitsIsNotEmpty(items, [ch] + s);
      }
    }
  }

  lemma StarInBranchParses()
    ensures Pattern("(a*)b", EXTENDED) == [Alt(Branch([Lit('a'), Any], NoBranch)), Lit('b')]
  {
    var p := "(a*)b";
    var c := EXTENDED;
    assert AltEnd(p, 3, Next, 1, c) == Some(4);
    assert AltEnd(p, 2, Next, 1, c) == Some(4);
    assert AltEnd(p, 1, Next, 1, c) == Some(4);
    var q := p[..4];
    assert AltSubEnd(q, 3, Next, 1, c) == Some(3);
    assert AltSubEnd(q, 2, Next, 1, c) == Some(3);
    assert AltSubEnd(q, 1, Next, 1, c) == Some(3);
    var b := p[..3];
    assert Parse(b, 3, false, c) == [];
    assert Parse(b, 2, false, c) == [Any];
    assert Parse(b, 1, false, c) == [Lit('a')] + [Any] == [Lit('a'), Any];
    assert ParseBranches(p, 1, 4, c) == Branch([Lit('a'), Any], NoBranch);
    assert Parse(p, 5, false, c) == [];
    assert Parse(p, 4, false, c) == [Lit('b')];
  }

  /** ((a|ab))c */
  function Nested(): seq<Item> {
    var inner := Alt(Branch([Lit('a')], Branch([Lit('a'), Lit('b')], NoBranch)));
    [Alt(Branch([inner], NoBranch)), Lit('c')]
  }

  /** The first branch of a nested alternative that fits is kept: ((a|ab))c stands for abc, and does not
      match it. */
  lemma NestedBranch()
    ensures Pattern("((a|ab))c", EXTENDED) == Nested() && Lang(Nested(), "abc")
    ensures Matches("abc", "((a|ab))c", EXTENDED).Failed?
  {
    NestedBranchParses();
    MatchIsItems("abc", "((a|ab))c", 0, false, false, EXTENDED);
    NestedLang();
    NestedFails();
  }

  lemma NestedLang()
    ensures Lang(Nested(), "abc")
  {
    var ab, c := [Lit('a'), Lit('b')], [Lit('c')];
    var branches := Branch([Lit('a')], Branch(ab, NoBranch));
    var body := [Alt(branches)];
    assert ab[1..] == [Lit('b')] && [Lit('b')][1..] == [] && c[1..] == [] && body[1..] == [] && Nested()[1..] == c;
    assert "ab"[1..] == "b" && "b"[1..] == "" && "c"[1..] == "" && "ab"[..2] == "ab" && "ab"[2..] == "";
    assert Lang([], "") && Lang([Lit('b')], "b") && Lang(ab, "ab") && Lang(c, "c");
    assert LangAlt(Branch(ab, NoBranch), [], "ab");
    assert LangAlt(branches, [], "ab") && Lang(body, "ab");
    assert "abc"[..2] == "ab" && "abc"[2..] == "c";
    assert LangAlt(Branch(body, NoBranch), c, "abc");
  }

  lemma NestedFails()
    ensures MatchItems(Nested(), "abc", false).Failed?
  {
    var a, c := [Lit('a')], [Lit('c')];
    var branches := Branch(a, Branch([Lit('a'), Lit('b')], NoBranch));
    var body := [Alt(branches)];
    assert a[1..] == [] && body[1..] == [] && Nested()[1..] == c && "abc"[1..] == "bc";
    assert MatchItems(a, "abc", true) == Matched(1);
    assert MatchItems([], "bc", true) == Matched(0);
    assert MatchBranches(branches, [], "abc", true) == Matched(1);
    assert MatchItems(body, "abc", true) == Matched(1);
    assert MatchItems(c, "bc", false) == Failed;
    assert MatchBranches(Branch(body, NoBranch), c, "abc", false) == Failed;
  }

  lemma NestedBranchParses()
    ensures Pattern("((a|ab))c", EXTENDED) == Nested()
  {
    var p := "((a|ab))c";
    var c := EXTENDED;
    // the outer alternative ends behind the second closing character
    assert AltEnd(p, 7, Next, 1, c) == Some(8);
    assert AltEnd(p, 6, Next, 2, c) == Some(8);
    assert AltEnd(p, 5, Next, 2, c) == Some(8) && AltEnd(p, 4, Next, 2, c) == Some(8);
    assert AltEnd(p, 3, Next, 2, c) == Some(8) && AltEnd(p, 2, Next, 2, c) == Some(8);
    assert AltEnd(p, 1, Next, 1, c) == Some(8);
    OuterBranch();
    assert Parse(p, 9, false, c) == [];
    assert Parse(p, 8, false, c) == [Lit('c')];
  }

  lemma OuterBranch()
    ensures var inner := Alt(Branch([Lit('a')], Branch([Lit('a'), Lit('b')], NoBranch)));
            ParseBranches("((a|ab))c", 1, 8, EXTENDED) == Branch([inner], NoBranch)
  {
    var p := "((a|ab))c";
    var c := EXTENDED;
    var q := p[..8];
    assert AltSubEnd(q, 7, Next, 1, c) == Some(7);
    assert AltSubEnd(q, 6, Next, 2, c) == Some(7);
    assert AltSubEnd(q, 5, Next, 2, c) == Some(7) && AltSubEnd(q, 4, Next, 2, c) == Some(7);
    assert AltSubEnd(q, 3, Next, 2, c) == Some(7) && AltSubEnd(q, 2, Next, 2, c) == Some(7);
    assert AltSubEnd(q, 1, Next, 1, c) == Some(7);
    assert p[..7] == "((a|ab)";
    InnerBranches();
  }

  lemma InnerBranches()
    ensures var inner := Alt(Branch([Lit('a')], Branch([Lit('a'), Lit('b')], NoBranch)));
            Parse("((a|ab)", 1, false, EXTENDED) == [inner]
  {
    var p := "((a|ab)";
    var c := EXTENDED;
    assert AltEnd(p, 6, Next, 1, c) == Some(7);
    assert AltEnd(p, 5, Next, 1, c) == Some(7) && AltEnd(p, 4, Next, 1, c) == Some(7);
    assert AltEnd(p, 3, Next, 1, c) == Some(7) && AltEnd(p, 2, Next, 1, c) == Some(7);
    assert p[..7] == p;
    assert AltSubEnd(p, 6, Next, 1, c) == Some(6);
    assert AltSubEnd(p, 5, Next, 1, c) == Some(6) && AltSubEnd(p, 4, Next, 1, c) == Some(6);
    assert AltSubEnd(p, 3, Next, 1, c) == Some(3);
    assert AltSubEnd(p, 2, Next, 1, c) == Some(3);
    assert Parse(p[..6], 6, false, c) == [];
    assert Parse(p[..6], 5, false, c) == [Lit('b')];
    assert Parse(p[..6], 4, false, c) == [Lit('a')] + [Lit('b')] == [Lit('a'), Lit('b')];
    assert ParseBranches(p, 4, 7, c) == Branch([Lit('a'), Lit('b')], NoBranch);
    assert Parse(p[..3], 3, false, c) == [];
    assert Parse(p[..3], 2, false, c) == [Lit('a')];
    assert ParseBranches(p, 2, 7, c) == Branch([Lit('a')], Branch([Lit('a'), Lit('b')], NoBranch));
    assert Parse(p, 7, false, c) == [];
  }
}
