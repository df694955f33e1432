/** Attribute values on their way out and back: escaping, decoding, and decoding in place. */
module XmlDecoding {
  import opened Wrappers
  import opened XmlText

  // ---------------------------------------------------------------- reading back what was escaped

  /** The newline rules of the reader: CR LF, CR alone, LF CR and LF alone all become LF. */
  function Normalize(v: Text): (r: Text)
    ensures CR !in r
    ensures CR !in v ==> r == v
    ensures r == v ==> CR !in v
  {
    if v == [] then []
    else if v[0] == CR then [LF] + Normalize(v[if At(v, 1) == LF then 2 else 1..])
    else if v[0] == LF then [LF] + Normalize(v[if At(v, 1) == CR then 2 else 1..])
    else [v[0]] + Normalize(v[1..])
  }

  /** No two entities can stand at the same place. */
  lemma EntitiesDiffer(t: Text, p: nat, i: nat, k: nat)
    requires i < |ENTITIES| && k < |ENTITIES|
    requires Has(t, p, ENTITIES[i].pattern + [SEMICOLON]) && Has(t, p, ENTITIES[k].pattern + [SEMICOLON])
    ensures i == k
  {
    var x, y := ENTITIES[i].pattern + [SEMICOLON], ENTITIES[k].pattern + [SEMICOLON];
    HasAt(t, p, x, 0);
    HasAt(t, p, y, 0);
    HasAt(t, p, x, 1);
    HasAt(t, p, y, 1);
  }

  lemma {:induction false} EntityFound(t: Text, p: nat, i: nat, k: nat)
    requires i <= k < |ENTITIES| && Has(t, p + 1, ENTITIES[k].pattern + [SEMICOLON])
    ensures EntityAt(t, p, i) == Some(k)
    decreases k - i
  {
    if Has(t, p + 1, ENTITIES[i].pattern + [SEMICOLON]) {
      EntitiesDiffer(t, p + 1, i, k);
    } else {
      EntityFound(t, p, i + 1, k);
    }
  }

  /** One escaped byte that is not part of a line end is read back as that byte. */
  lemma EscapedByteDecodes(t: Text, p: nat, b: Byte, out: Text)
    requires |out| <= p <= |t| && b != CR && b != LF && Has(t, p, EscapeByte(b))
    ensures 0 < |EscapeByte(b)| && p + |EscapeByte(b)| <= |t|
    ensures DecodeFrom(t, p, out) == DecodeFrom(t, p + |EscapeByte(b)|, out + [b])
  {
    HasAt(t, p, EscapeByte(b), 0);
    match EntityFor(b)
    case None =>
    case Some(k) =>
      var name := ENTITIES[k].pattern + [SEMICOLON];
      assert EscapeByte(b) == [AMP] + name;
      HasSplit(t, p, [AMP], name);
      EntityFound(t, p, 0, k);
      HasAt(t, p + 1, name, 0);
  }

  /** What the reader sees first of an escaped value: a line end exactly where the value has one. */
  lemma {:induction false} EscapeHead(t: Text, p: nat, v: Text)
    requires Has(t, p, EscapeText(v)) && p + |EscapeText(v)| == |t|
    ensures v == [] ==> p == |t|
    ensures v != [] ==> p < |t| && (t[p] == CR <==> v[0] == CR) && (t[p] == LF <==> v[0] == LF)
  {
    hide Has, EscapeByte;
    if v != [] {
      EscapedByteHead(v[0]);
      HasSplit(t, p, EscapeByte(v[0]), EscapeText(v[1..]));
      HasAt(t, p, EscapeByte(v[0]), 0);
    }
  }

  lemma EscapedByteHead(b: Byte)
    ensures EscapeByte(b) != [] && (EscapeByte(b)[0] == CR <==> b == CR) && (EscapeByte(b)[0] == LF <==> b == LF)
  {
  }

  lemma EscapeUnfold(v: Text)
    ensures v != [] ==> EscapeText(v) == EscapeByte(v[0]) + EscapeText(v[1..])
    ensures v != [] && (v[0] == CR || v[0] == LF) ==> EscapeByte(v[0]) == [v[0]]
  {
  }

  /** A line end of the value, and its partner if it is one of a pair, are read as one LF. */
  lemma LineEndDecodes(t: Text, p: nat, v: Text, out: Text) returns (n: nat)
    requires |out| <= p && v != [] && (v[0] == CR || v[0] == LF)
    requires Has(t, p, EscapeText(v)) && p + |EscapeText(v)| == |t|
    ensures n == (if (v[0] == CR && At(v, 1) == LF) || (v[0] == LF && At(v, 1) == CR) then 2 else 1) && n <= |v|
    ensures p + n <= |t| && DecodeFrom(t, p, out) == DecodeFrom(t, p + n, out + [LF])
    ensures Has(t, p + n, EscapeText(v[n..])) && p + n + |EscapeText(v[n..])| == |t|
  {
    hide GetCharacterRef, EntityAt, EscapeText, EscapeByte, Has;
    EscapeHead(t, p, v);
    EscapeUnfold(v);
    EscapeUnfold(v[1..]);
    HasSplit(t, p, [v[0]], EscapeText(v[1..]));
    EscapeHead(t, p + 1, v[1..]);
    n := if (v[0] == CR && At(v, 1) == LF) || (v[0] == LF && At(v, 1) == CR) then 2 else 1;
    if n == 2 {
      assert v[1..][1..] == v[2..];
      HasSplit(t, p + 1, [v[1]], EscapeText(v[2..]));
    }
  }

  /** Any other byte of the value is read back as itself. */
  lemma OtherByteDecodes(t: Text, p: nat, v: Text, out: Text) returns (w: nat)
    requires |out| <= p && v != [] && v[0] != CR && v[0] != LF
    requires Has(t, p, EscapeText(v)) && p + |EscapeText(v)| == |t|
    ensures p < w <= |t| && DecodeFrom(t, p, out) == DecodeFrom(t, w, out + [v[0]])
    ensures Has(t, w, EscapeText(v[1..])) && w + |EscapeText(v[1..])| == |t|
  {
    hide DecodeFrom, Has, EscapeByte;
    w := p + |EscapeByte(v[0])|;
    HasSplit(t, p, EscapeByte(v[0]), EscapeText(v[1..]));
    EscapedByteDecodes(t, p, v[0], out);
  }

  /** How many bytes the first byte of the normalized value stands for. */
  lemma NormalizeHead(v: Text) returns (n: nat, b: Byte)
    requires v != []
    ensures n == (if (v[0] == CR && At(v, 1) == LF) || (v[0] == LF && At(v, 1) == CR) then 2 else 1) && n <= |v|
    ensures b == (if v[0] == CR then LF else v[0]) && Normalize(v) == [b] + Normalize(v[n..])
  {
    n := if (v[0] == CR && At(v, 1) == LF) || (v[0] == LF && At(v, 1) == CR) then 2 else 1;
    b := if v[0] == CR then LF else v[0];
  }

  lemma NothingDecodes(t: Text, p: nat, out: Text)
    requires |out| <= p && Has(t, p, EscapeText([])) && p + |EscapeText([])| == |t|
    ensures DecodeFrom(t, p, out) == out + Normalize([])
  {
  }

  lemma {:induction false} EscapedDecodes(t: Text, p: nat, v: Text, out: Text)
    requires |out| <= p && Has(t, p, EscapeText(v)) && p + |EscapeText(v)| == |t|
    ensures DecodeFrom(t, p, out) == out + Normalize(v)
    decreases |v|
  {
    hide DecodeFrom, EscapeText, Normalize, Has, At;
    if v == [] {
      NothingDecodes(t, p, out);
    } else {
      var n, b := NormalizeHead(v);
      var w: nat;
      if v[0] == CR || v[0] == LF {
        var pair := LineEndDecodes(t, p, v, out);
        w := p + n;
      } else {
        w := OtherByteDecodes(t, p, v, out);
      }
      EscapedDecodes(t, w, v[n..], out + [b]);
      Regroup(out, [b], Normalize(v[n..]));
    }
  }

  /** Reading what was escaped changes the line ends and nothing else: the value comes back exactly when
      it has no CR. */
  lemma {:induction false} DecodeOfEscape(v: Text)
    ensures Decode(EscapeText(v)) == Normalize(v)
    ensures Decode(EscapeText(v)) == v <==> CR !in v
  {
    assert EscapeText(v)[0..|EscapeText(v)|] == EscapeText(v);
    EscapedDecodes(EscapeText(v), 0, v, []);
  }

  lemma EscapedByteHasNoQuote(b: Byte)
    ensures QUOTE !in EscapeByte(b) && (NUL in EscapeByte(b) <==> b == NUL)
  {
  }

  /** An escaped value holds no quote, so it ends where its closing quote is. */
  lemma {:induction false} EscapeHasNoQuote(v: Text)
    ensures QUOTE !in EscapeText(v)
    ensures NUL in EscapeText(v) <==> NUL in v
  {
    hide EscapeByte;
    if v != [] {
      EscapeHasNoQuote(v[1..]);
      EscapedByteHasNoQuote(v[0]);
      assert v == [v[0]] + v[1..];
    }
  }

  // ---------------------------------------------------------------- decoding in place

  /** From position `p` on the buffer, which ends with a NUL, still holds the raw text `t`. */
  ghost predicate Holds(buf: array<Byte>, start: nat, t: Text, p: nat)
    reads buf
  {
    && start + |t| < buf.Length && buf[start + |t|] == NUL
    && forall k | p <= k < |t| :: buf[start + k] == t[k]
  }

  method FindSemicolon(buf: array<Byte>, start: nat, ghost t: Text, from: nat) returns (found: bool, s: nat)
    requires from <= |t| && Holds(buf, start, t, from)
    ensures Find(t, from, SEMICOLON) == if found then Some(s) else None
  {
    s := from;
    found := false;
    while buf[start + s] != NUL
      invariant from <= s <= |t| && !found && Find(t, from, SEMICOLON) == Find(t, s, SEMICOLON)
      decreases |t| - s
    {
      if buf[start + s] == SEMICOLON {
        found := true;
        return;
      }
      s := s + 1;
    }
  }

  /** The loop that reads the digits backwards from the semicolon at `s`; `good` is false when it meets
      something that is no digit. */
  method ReadDigits(buf: array<Byte>, start: nat, ghost t: Text, ghost lo: nat, s: nat, stop: Byte, base: nat)
    returns (good: bool, ucs: nat)
    requires lo < s <= |t| && t[lo] == stop && (base == 10 || base == 16) && Holds(buf, start, t, lo)
    ensures Accumulate(t, s, stop, base, 0, 1) == if good then Some(ucs) else None
  {
    var q: nat, mult: nat := s - 1, 1;
    ucs := 0;
    good := true;
    while buf[start + q] != stop
      invariant lo <= q < s && good
      invariant Accumulate(t, s, stop, base, 0, 1) == Accumulate(t, q + 1, stop, base, ucs, mult)
      decreases q
    {
      var digit := DigitValue(buf[start + q], base);
      if digit.None? {
        good := false;
        return;
      }
      ucs := (ucs + mult * digit.value % 0x1_0000_0000) % 0x1_0000_0000_0000_0000;
      mult := mult * base % 0x1_0000_0000;
      q := q - 1;
    }
  }

  method ReadCharacterRef(buf: array<Byte>, start: nat, ghost t: Text, p: nat) returns (r: CharRef)
    requires p + 1 < |t| && t[p] == AMP && t[p + 1] == HASH && Holds(buf, start, t, p)
    ensures r == GetCharacterRef(t, p)
  {
    if buf[start + p + 2] == NUL {
      return Ref([], p + 1);
    }
    var hexadecimal := buf[start + p + 2] == LETTER_X;
    if hexadecimal && buf[start + p + 3] == NUL {
      return NotRef;
    }
    var first := if hexadecimal then p + 3 else p + 2;
    var found, s := FindSemicolon(buf, start, t, first);
    if !found {
      return NotRef;
    }
    var good, ucs;
    if hexadecimal {
      good, ucs := ReadDigits(buf, start, t, p + 2, s, LETTER_X, 16);
    } else {
      good, ucs := ReadDigits(buf, start, t, p + 1, s, HASH, 10);
    }
    r := if good then Ref(ConvertUTF32ToUTF8(ucs), s + 1) else NotRef;
  }

  /** `strncmp` against `pattern` and a look at the semicolon behind it. */
  method SeesEntity(buf: array<Byte>, start: nat, ghost t: Text, p: nat, pattern: Text) returns (sees: bool)
    requires p <= |t| && Holds(buf, start, t, p) && NUL !in pattern
    ensures sees <==> Has(t, p, pattern + [SEMICOLON])
  {
    ghost var whole := pattern + [SEMICOLON];
    var k := 0;
    while k < |pattern| && buf[start + p + k] == pattern[k]
      invariant k <= |pattern| && p + k <= |t| && Has(t, p, pattern[..k])
    {
      assert pattern[k] in pattern;
      assert pattern[..k + 1] == pattern[..k] + [pattern[k]];
      HasSplit(t, p, pattern[..k], [pattern[k]]);
      k := k + 1;
    }
    sees := k == |pattern| && buf[start + p + k] == SEMICOLON;
    if Has(t, p, whole) {
      HasAt(t, p, whole, k);
      assert buf[start + (p + k)] == t[p + k];
    }
    if sees {
      assert pattern[..k] == pattern;
      HasSplit(t, p, pattern, [SEMICOLON]);
    }
  }

  method FindEntity(buf: array<Byte>, start: nat, ghost t: Text, p: nat) returns (r: Option<nat>)
    requires p < |t| && t[p] == AMP && Holds(buf, start, t, p)
    ensures r == EntityAt(t, p, 0)
  {
    var i := 0;
    while i < |ENTITIES|
      invariant i <= |ENTITIES| && EntityAt(t, p, 0) == EntityAt(t, p, i)
    {
      assert NUL !in ENTITIES[i].pattern;
      var sees := SeesEntity(buf, start, t, p + 1, ENTITIES[i].pattern);
      if sees {
        return Some(i);
      }
      i := i + 1;
    }
    r := None;
  }

  /** Writes `bytes` at `q`. */
  method CopyTo(buf: array<Byte>, q: nat, bytes: Text)
    requires q + |bytes| <= buf.Length
    modifies buf
    ensures forall i | 0 <= i < buf.Length :: buf[i] == if q <= i < q + |bytes| then bytes[i - q] else old(buf[i])
  {
    var k := 0;
    while k < |bytes|
      invariant k <= |bytes|
      invariant forall i | 0 <= i < buf.Length :: buf[i] == if q <= i < q + k then bytes[i - q] else old(buf[i])
    {
      buf[q + k] := bytes[k];
      k := k + 1;
    }
  }

  /** The read position has reached `p` and `out` has been written; the rest of the raw text is as it was. */
  ghost predicate Progress(buf: array<Byte>, start: nat, t: Text, p: nat, out: Text)
    reads buf
  {
    && |out| <= p <= |t| && Holds(buf, start, t, |out|)
    && (forall k | 0 <= k < |out| :: buf[start + k] == out[k])
  }

  /** What stands at the read position: where to go on, and what to write unless the byte at the write
      position is to be passed over. */
  method ReadRound(buf: array<Byte>, start: nat, ghost t: Text, p: nat, ghost out: Text)
    returns (next: nat, bytes: Text, pass: bool)
    requires |out| <= p < |t| && Holds(buf, start, t, |out|)
    ensures Round(t, p, out) == (next, if pass then [t[|out|]] else bytes)
  {
    var c, d := buf[start + p], buf[start + p + 1];
    assert c == t[p] && d == At(t, p + 1);
    pass := false;
    if c == CR || c == LF {
      next := if (c == CR && d == LF) || (c == LF && d == CR) then p + 2 else p + 1;
      bytes := [LF];
    } else if c == AMP && d == HASH {
      var ref := ReadCharacterRef(buf, start, t, p);
      next, bytes := if ref.Ref? then ref.next else p + 1, if ref.Ref? then ref.bytes else [AMP];
    } else if c == AMP {
      var entity := FindEntity(buf, start, t, p);
      if entity.Some? {
        next, bytes := p + |ENTITIES[entity.value].pattern| + 2, [ENTITIES[entity.value].value];
      } else {
        next, bytes, pass := p + 1, [], true;
      }
    } else {
      next, bytes := p + 1, [c];
    }
  }

  method DecodeRound(
    buf: array<Byte>, start: nat, ghost t: Text, p: nat, q: nat, ghost out: Text)
    returns (next: nat, wrote: nat)
    requires p < |t| && |out| == q && Progress(buf, start, t, p, out)
    modifies buf
    ensures next == Round(t, p, out).0 && wrote == |Round(t, p, out).1|
    ensures Progress(buf, start, t, next, out + Round(t, p, out).1)
    ensures forall i | 0 <= i < start || start + |t| <= i < buf.Length :: buf[i] == old(buf[i])
  {
    hide Round;
    var bytes, pass;
    next, bytes, pass := ReadRound(buf, start, t, p, out);
    if pass {
      wrote := 1;
    } else {
      CopyTo(buf, start + q, bytes);
      wrote := |bytes|;
    }
  }

  /** `GetStr` on a value that still has to be decoded: the raw text between `start` and `end` is replaced
      by what it stands for, ending with a NUL. The write position never passes the read position, nor
      the end, and nothing outside is touched. */
  method GetStr(buf: array<Byte>, start: nat, end: nat) returns (q: nat)
    requires start <= end < buf.Length
    modifies buf
    ensures start <= q <= end && buf[start..q] == Decode(old(buf[start..end])) && buf[q] == NUL
    ensures forall i | 0 <= i < start || end < i < buf.Length :: buf[i] == old(buf[i])
  {
    ghost var t := buf[start..end];
    ghost var out: Text := [];
    buf[end] := NUL;
    var p, written := 0, 0;
    while p < end - start
      invariant Progress(buf, start, t, p, out) && |out| == written && DecodeFrom(t, p, out) == Decode(t)
      invariant forall i | 0 <= i < start || end < i < buf.Length :: buf[i] == old(buf[i])
      decreases |t| - p
    {
      ghost var round := Round(t, p, out);
      var next, wrote := DecodeRound(buf, start, t, p, written, out);
      p, written, out := next, written + wrote, out + round.1;
    }
    q := start + written;
    buf[q] := NUL;
    assert buf[start..q] == out;
  }
}
