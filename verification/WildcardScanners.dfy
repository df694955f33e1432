/** Scanning the sets and alternatives of a wildcard pattern. The recursions of the library are functions
    here, and its loops are methods proved against them. */
module WildcardScanners {
  import opened Wrappers

  /** The characters with a meaning in patterns. Nothing is assumed about them, not even that they differ. */
  datatype Cards = Cards(anything: char, single: char, escape: char,
                         setEnabled: bool, setOpen: char, setClose: char, setNot: char,
                         altEnabled: bool, altOpen: char, altClose: char, altOr: char)

  const EXTENDED: Cards := Cards('*', '?', '\\', true, '[', ']', '!', true, '(', ')', '|')

  // ---------------------------------------------------------------- sets

  datatype SetState = SetOpen | NotOrFirst | First | Rest

  /** Where the scan of a set goes after `ch`, unless it stops there. */
  function After(ch: char, st: SetState, c: Cards): SetState {
    match st
    case SetOpen => NotOrFirst
    case NotOrFirst => if ch == c.setNot then First else Rest
    case First => Rest
    case Rest => Rest
  }

  predicate IsSet(p: string, i: nat, st: SetState, c: Cards)
    requires i <= |p|
    decreases |p| - i
  {
    c.setEnabled && i < |p| &&
    match st
    case SetOpen => p[i] == c.setOpen && IsSet(p, i + 1, NotOrFirst, c)
    case NotOrFirst => IsSet(p, i + 1, After(p[i], NotOrFirst, c), c)
    case First => IsSet(p, i + 1, Rest, c)
    case Rest => p[i] == c.setClose || IsSet(p, i + 1, Rest, c)
  }

  /** The position behind the set; None stands for the exception. */
  function SetEnd(p: string, i: nat, st: SetState, c: Cards): (r: Option<nat>)
    requires i <= |p|
    ensures r.Some? <==> IsSet(p, i, st, c)
    ensures r.Some? ==> i < r.value <= |p| && p[r.value - 1] == c.setClose
    decreases |p| - i
  {
    if !c.setEnabled || i == |p| then None
    else if st == SetOpen && p[i] != c.setOpen then None
    else if st == Rest && p[i] == c.setClose then Some(i + 1)
    else SetEnd(p, i + 1, After(p[i], st, c), c)
  }

  datatype SetAnswer = In | Out | SetThrew

  datatype MatchSetState = Opening | NotOrFirstIn | FirstOut | NextIn | NextOut

  /** Is the first character of `s` one the set allows? The end of the sequence never is. */
  function MatchSet(s: string, p: string, i: nat, st: MatchSetState, c: Cards): SetAnswer
    requires i <= |p|
    decreases |p| - i
  {
    if !c.setEnabled || i == |p| then SetThrew
    else
      match st
      case Opening => if p[i] != c.setOpen then SetThrew else MatchSet(s, p, i + 1, NotOrFirstIn, c)
      case NotOrFirstIn =>
        if p[i] == c.setNot then MatchSet(s, p, i + 1, FirstOut, c)
        else if s == [] then Out
        else if s[0] == p[i] then In
        else MatchSet(s, p, i + 1, NextIn, c)
      case FirstOut => if s == [] || s[0] == p[i] then Out else MatchSet(s, p, i + 1, NextOut, c)
      case NextIn =>
        if p[i] == c.setClose || s == [] then Out
        else if s[0] == p[i] then In
        else MatchSet(s, p, i + 1, NextIn, c)
      case NextOut =>
        if p[i] == c.setClose then In
        else if s == [] || s[0] == p[i] then Out
        else MatchSet(s, p, i + 1, NextOut, c)
  }

  method ScanIsSet(p: string, from: nat, st: SetState, c: Cards) returns (r: bool)
    requires from <= |p|
    ensures r == IsSet(p, from, st, c)
  {
    if !c.setEnabled {
      return false;
    }
    var i, state := from, st;
    while i < |p|
      invariant i <= |p| && IsSet(p, i, state, c) == IsSet(p, from, st, c)
    {
      match state {
        case SetOpen =>
          if p[i] != c.setOpen {
            return false;
          }
          state := NotOrFirst;
        case NotOrFirst => state := if p[i] == c.setNot then First else Rest;
        case First => state := Rest;
        case Rest =>
          if p[i] == c.setClose {
            return true;
          }
      }
      i := i + 1;
    }
    return false;
  }

  method ScanSetEnd(p: string, from: nat, st: SetState, c: Cards) returns (r: Option<nat>)
    requires from <= |p|
    ensures r == SetEnd(p, from, st, c)
  {
    if !c.setEnabled {
      return None;
    }
    var i, state := from, st;
    while i < |p|
      invariant i <= |p| && SetEnd(p, i, state, c) == SetEnd(p, from, st, c)
    {
      match state {
        case SetOpen =>
          if p[i] != c.setOpen {
            return None;
          }
          state := NotOrFirst;
        case NotOrFirst => state := if p[i] == c.setNot then First else Rest;
        case First => state := Rest;
        case Rest =>
          if p[i] == c.setClose {
            return Some(i + 1);
          }
      }
      i := i + 1;
    }
    return None;
  }

  method ScanMatchSet(s: string, p: string, from: nat, st: MatchSetState, c: Cards) returns (r: SetAnswer)
    requires from <= |p|
    ensures r == MatchSet(s, p, from, st, c)
  {
    if !c.setEnabled {
      return SetThrew;
    }
    var i, state := from, st;
    while i < |p|
      invariant i <= |p| && MatchSet(s, p, i, state, c) == MatchSet(s, p, from, st, c)
    {
      match state {
        case Opening =>
          if p[i] != c.setOpen {
            return SetThrew;
          }
          state := NotOrFirstIn;
        case NotOrFirstIn =>
          if p[i] == c.setNot {
            state := FirstOut;
          } else {
            if s == [] {
              return Out;
            }
            if s[0] == p[i] {
              return In;
            }
            state := NextIn;
          }
        case FirstOut =>
          if s == [] || s[0] == p[i] {
            return Out;
          }
          state := NextOut;
        case NextIn =>
          if p[i] == c.setClose || s == [] {
            return Out;
          }
          if s[0] == p[i] {
            return In;
          }
        case NextOut =>
          if p[i] == c.setClose {
            return In;
          }
          if s == [] || s[0] == p[i] {
            return Out;
          }
      }
      i := i + 1;
    }
    return SetThrew;
  }

  // ---------------------------------------------------------------- alternatives

  datatype AltState = AltOpen | Next | Escape

  /** At `i` begins a complete set, which the scanners of alternatives skip as a whole. */
  predicate AtSet(p: string, i: nat, c: Cards) {
    i < |p| && c.setEnabled && p[i] == c.setOpen && IsSet(p, i + 1, NotOrFirst, c)
  }

  function PastSet(p: string, i: nat, c: Cards): (r: nat)
    requires AtSet(p, i, c)
    ensures i + 1 < r <= |p|
  {
    SetEnd(p, i + 1, NotOrFirst, c).value
  }

  predicate IsAlt(p: string, i: nat, st: AltState, depth: int, c: Cards)
    requires i <= |p|
    decreases |p| - i
  {
    c.altEnabled && i < |p| &&
    match st
    case AltOpen => p[i] == c.altOpen && IsAlt(p, i + 1, Next, depth + 1, c)
    case Next =>
      if p[i] == c.escape then IsAlt(p, i + 1, Escape, depth, c)
      else if AtSet(p, i, c) then IsAlt(p, PastSet(p, i, c), Next, depth, c)
      else if p[i] == c.altOpen then IsAlt(p, i + 1, Next, depth + 1, c)
      else if p[i] == c.altClose then depth == 1 || IsAlt(p, i + 1, Next, depth - 1, c)
      else IsAlt(p, i + 1, Next, depth, c)
    case Escape => IsAlt(p, i + 1, Next, depth, c)
  }

  function AltEnd(p: string, i: nat, st: AltState, depth: int, c: Cards): (r: Option<nat>)
    requires i <= |p|
    ensures r.Some? <==> IsAlt(p, i, st, depth, c)
    ensures r.Some? ==> i < r.value <= |p|
    decreases |p| - i
  {
    if !c.altEnabled || i == |p| then None
    else
      match st
      case AltOpen => if p[i] == c.altOpen then AltEnd(p, i + 1, Next, depth + 1, c) else None
      case Next =>
        if p[i] == c.escape then AltEnd(p, i + 1, Escape, depth, c)
        else if AtSet(p, i, c) then AltEnd(p, PastSet(p, i, c), Next, depth, c)
        else if p[i] == c.altOpen then AltEnd(p, i + 1, Next, depth + 1, c)
        else if p[i] == c.altClose then
          if depth == 1 then Some(i + 1) else AltEnd(p, i + 1, Next, depth - 1, c)
        else AltEnd(p, i + 1, Next, depth, c)
      case Escape => AltEnd(p, i + 1, Next, depth, c)
  }

  /** The position of the next separator or closing character of the alternative that `i` is inside of. */
  function AltSubEnd(p: string, i: nat, st: AltState, depth: int, c: Cards): (r: Option<nat>)
    requires i <= |p| && st != AltOpen
    ensures r.Some? ==> i <= r.value < |p|
    decreases |p| - i
  {
    if !c.altEnabled || i == |p| then None
    else if st == Escape then AltSubEnd(p, i + 1, Next, depth, c)
    else if p[i] == c.escape then AltSubEnd(p, i + 1, Escape, depth, c)
    else if AtSet(p, i, c) then AltSubEnd(p, PastSet(p, i, c), Next, depth, c)
    else if p[i] == c.altOpen then AltSubEnd(p, i + 1, Next, depth + 1, c)
    else if p[i] == c.altClose then
      if depth == 1 then Some(i) else AltSubEnd(p, i + 1, Next, depth - 1, c)
    else if p[i] == c.altOr && depth == 1 then Some(i)
    else AltSubEnd(p, i + 1, Next, depth, c)
  }

  /** The last position of the set that begins at `i`; `i` itself if none does. */
  method SkipSet(p: string, i: nat, c: Cards) returns (last: nat)
    requires i < |p|
    ensures last == if AtSet(p, i, c) then PastSet(p, i, c) - 1 else i
  {
    last := i;
    if c.setEnabled && p[i] == c.setOpen {
      var isSet := ScanIsSet(p, i + 1, NotOrFirst, c);
      if isSet {
        var end := ScanSetEnd(p, i + 1, NotOrFirst, c);
        last := end.value - 1;
      }
    }
  }

  method ScanIsAlt(p: string, from: nat, st: AltState, depth0: int, c: Cards) returns (r: bool)
    requires from <= |p|
    ensures r == IsAlt(p, from, st, depth0, c)
  {
    if !c.altEnabled {
      return false;
    }
    var i, state, depth := from, st, depth0;
    while i < |p|
      invariant i <= |p| && IsAlt(p, i, state, depth, c) == IsAlt(p, from, st, depth0, c)
    {
      match state {
        case AltOpen =>
          if p[i] != c.altOpen {
            return false;
          }
          state := Next;
          depth := depth + 1;
        case Next =>
          if p[i] == c.escape {
            state := Escape;
          } else {
            var last := SkipSet(p, i, c);
            if last > i {
              i := last;
            } else if p[i] == c.altOpen {
              depth := depth + 1;
            } else if p[i] == c.altClose {
              depth := depth - 1;
              if depth == 0 {
                return true;
              }
            }
          }
        case Escape => state := Next;
      }
      i := i + 1;
    }
    return false;
  }

  method ScanAltEnd(p: string, from: nat, st: AltState, depth0: int, c: Cards) returns (r: Option<nat>)
    requires from <= |p|
    ensures r == AltEnd(p, from, st, depth0, c)
  {
    if !c.altEnabled {
      return None;
    }
    var i, state, depth := from, st, depth0;
    while i < |p|
      invariant i <= |p| && AltEnd(p, i, state, depth, c) == AltEnd(p, from, st, depth0, c)
    {
      match state {
        case AltOpen =>
          if p[i] != c.altOpen {
            return None;
          }
          state := Next;
          depth := depth + 1;
        case Next =>
          if p[i] == c.escape {
            state := Escape;
          } else {
            var last := SkipSet(p, i, c);
            if last > i {
              i := last;
            } else if p[i] == c.altOpen {
              depth := depth + 1;
            } else if p[i] == c.altClose {
              depth := depth - 1;
              if depth == 0 {
                return Some(i + 1);
              }
            }
          }
        case Escape => state := Next;
      }
      i := i + 1;
    }
    return None;
  }

  method ScanAltSubEnd(p: string, from: nat, st: AltState, depth0: int, c: Cards) returns (r: Option<nat>)
    requires from <= |p| && st != AltOpen
    ensures r == AltSubEnd(p, from, st, depth0, c)
  {
    if !c.altEnabled {
      return None;
    }
    var i, state, depth := from, st, depth0;
    while i < |p|
      invariant i <= |p| && state != AltOpen && AltSubEnd(p, i, state, depth, c) == AltSubEnd(p, from, st, depth0, c)
    {
      if state == Next {
        if p[i] == c.escape {
          state := Escape;
        } else {
          var last := SkipSet(p, i, c);
          if last > i {
            i := last;
          } else if p[i] == c.altOpen {
            depth := depth + 1;
          } else if p[i] == c.altClose {
            depth := depth - 1;
            if depth == 0 {
              return Some(i);
            }
          } else if p[i] == c.altOr {
            if depth == 1 {
              return Some(i);
            }
          }
        }
      } else {
        state := Next;
      }
      i := i + 1;
    }
    return None;
  }

  // ---------------------------------------------------------------- agreement

  /** Whenever `is_set` accepts, `match_set` does not throw, for any sequence, in any matching state. */
  lemma {:induction false} SetNeverThrows(s: string, p: string, i: nat, st: MatchSetState, c: Cards)
    requires i <= |p|
    requires IsSet(p, i, match st case Opening => SetOpen case NotOrFirstIn => NotOrFirst case FirstOut => First
                                  case NextIn => Rest case NextOut => Rest, c)
    ensures MatchSet(s, p, i, st, c) != SetThrew
    decreases |p| - i
  {
    match st
    case Opening => SetNeverThrows(s, p, i + 1, NotOrFirstIn, c);
    case NotOrFirstIn => SetNeverThrows(s, p, i + 1, if p[i] == c.setNot then FirstOut else NextIn, c);
    case FirstOut => SetNeverThrows(s, p, i + 1, NextOut, c);
    case NextIn =>
      if p[i] != c.setClose {
        SetNeverThrows(s, p, i + 1, NextIn, c);
      }
    case NextOut =>
      if p[i] != c.setClose {
        SetNeverThrows(s, p, i + 1, NextOut, c);
      }
  }

  /** A set found in a beginning of the pattern is found in the whole, and ends at the same place; and
      the other way round if the beginning is long enough. */
  lemma {:induction false} SetInPrefix(p: string, e: nat, i: nat, st: SetState, c: Cards)
    requires i <= e <= |p|
    ensures var whole, part := SetEnd(p, i, st, c), SetEnd(p[..e], i, st, c);
            (part.Some? ==> whole == part) && (whole.Some? && whole.value <= e ==> part == whole)
    decreases |p| - i
  {
    if i < e {
      SetInPrefix(p, e, i + 1, After(p[i], st, c), c);
    }
  }

  /** What `alt_end` has found as the end of an alternative is its end also for a scan that stops there. */
  lemma {:induction false} AltInPrefix(p: string, e: nat, i: nat, st: AltState, depth: int, c: Cards)
    requires i <= e <= |p| && AltEnd(p, i, st, depth, c) == Some(e)
    ensures AltEnd(p[..e], i, st, depth, c) == Some(e)
    decreases |p| - i
  {
    var q := p[..e];
    if st == Next && p[i] != c.escape {
      SetInPrefix(p, e, i + 1, NotOrFirst, c);
      if AtSet(p, i, c) {
        AltInPrefix(p, e, PastSet(p, i, c), Next, depth, c);
      } else if p[i] == c.altOpen {
        AltInPrefix(p, e, i + 1, Next, depth + 1, c);
      } else if p[i] == c.altClose {
        if depth != 1 {
          AltInPrefix(p, e, i + 1, Next, depth - 1, c);
        }
      } else {
        AltInPrefix(p, e, i + 1, Next, depth, c);
      }
    } else if st == AltOpen {
      AltInPrefix(p, e, i + 1, Next, depth + 1, c);
    } else {
      AltInPrefix(p, e, i + 1, if st == Next then Escape else Next, depth, c);
    }
  }

  /** Inside an alternative that ends with the pattern, the next branch end exists; behind it is the end
      of the pattern, or again a point inside the alternative. */
  lemma {:induction false} SubEndsExist(p: string, i: nat, st: AltState, depth: int, c: Cards)
    requires i <= |p| && st != AltOpen && depth >= 1 && AltEnd(p, i, st, depth, c) == Some(|p|)
    ensures var k := AltSubEnd(p, i, st, depth, c);
            k.Some? && (k.value + 1 < |p| ==> AltEnd(p, k.value + 1, Next, 1, c) == Some(|p|))
    decreases |p| - i
  {
    if st == Escape {
      SubEndsExist(p, i + 1, Next, depth, c);
    } else if p[i] == c.escape {
      SubEndsExist(p, i + 1, Escape, depth, c);
    } else if AtSet(p, i, c) {
      SubEndsExist(p, PastSet(p, i, c), Next, depth, c);
    } else if p[i] == c.altOpen {
      SubEndsExist(p, i + 1, Next, depth + 1, c);
    } else if p[i] == c.altClose {
      if depth > 1 {
        SubEndsExist(p, i + 1, Next, depth - 1, c);
      }
    } else if !(p[i] == c.altOr && depth == 1) {
      SubEndsExist(p, i + 1, Next, depth, c);
    }
  }
}
