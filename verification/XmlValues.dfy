/** Attribute values as a document may write them, and what the reader makes of them. */
module XmlValues {
  import opened Wrappers
  import opened XmlText
  import opened XmlDecoding

  // ---------------------------------------------------------------- the notation

  datatype Digit = Digit(value: nat, capital: bool)

  /** A value is written in pieces: bytes that stand for themselves, the five names for characters with a
      meaning, references by number, and the four ways to end a line. */
  datatype Piece =
    | Plain(b: Byte)
    | Named(b: Byte)
    | Numbered(hex: bool, digits: seq<Digit>)
    | LineEnd(bytes: Text)

  function Bytes(s: string): (t: Text)
    requires forall i | 0 <= i < |s| :: s[i] as int < 256
    ensures |t| == |s|
  {
    seq(|s|, i requires 0 <= i < |s| => s[i] as int)
  }

  function NameOf(b: Byte): Text {
    if b == '<' as int then Bytes("&lt;")
    else if b == '>' as int then Bytes("&gt;")
    else if b == '&' as int then Bytes("&amp;")
    else if b == '"' as int then Bytes("&quot;")
    else Bytes("&apos;")
  }

  function DigitText(d: Digit): Byte
    requires d.value < 16
  {
    if d.value < 10 then '0' as int + d.value
    else if d.capital then 'A' as int + d.value - 10
    else 'a' as int + d.value - 10
  }

  predicate DigitsBelow(digits: seq<Digit>, base: nat) {
    forall i | 0 <= i < |digits| :: digits[i].value < base
  }

  function DigitsText(digits: seq<Digit>): (t: Text)
    requires DigitsBelow(digits, 16)
    ensures |t| == |digits|
  {
    seq(|digits|, i requires 0 <= i < |digits| => DigitText(digits[i]))
  }

  /** The number that digits write, most significant first. */
  function NumberOf(digits: seq<Digit>, base: nat): nat {
    if digits == [] then 0 else NumberOf(digits[..|digits| - 1], base) * base + digits[|digits| - 1].value
  }

  predicate ValidPiece(p: Piece, quote: Byte) {
    match p
    case Plain(b) => b != NUL && b != CR && b != LF && b != AMP && b != quote
    case Named(b) => b == '<' as int || b == '>' as int || b == '&' as int || b == '"' as int || b == '\'' as int
    case Numbered(hex, digits) =>
      var base := if hex then 16 else 10;
      digits != [] && DigitsBelow(digits, base) && NumberOf(digits, base) < 0x110000
    case LineEnd(bytes) => bytes == [CR, LF] || bytes == [LF] || bytes == [CR] || bytes == [LF, CR]
  }

  /** Two line ends in a row must not read as one of the two-byte ones. */
  predicate ValidPieces(ps: seq<Piece>, quote: Byte) {
    ps == [] ||
    (ValidPiece(ps[0], quote) && ValidPieces(ps[1..], quote) &&
     (|ps| > 1 && ps[0].LineEnd? && ps[1].LineEnd? && |ps[0].bytes| == 1 ==> ps[1].bytes[0] == ps[0].bytes[0]))
  }

  function PieceText(p: Piece): Text
    requires p.Numbered? ==> DigitsBelow(p.digits, 16)
  {
    match p
    case Plain(b) => [b]
    case Named(b) => NameOf(b)
    case Numbered(hex, digits) => [AMP, HASH] + (if hex then [LETTER_X] else []) + DigitsText(digits) + [SEMICOLON]
    case LineEnd(bytes) => bytes
  }

  /** The bytes a piece stands for; those of a number are its encoding in UTF-8. */
  function PieceMeans(p: Piece): Text {
    match p
    case Plain(b) => [b]
    case Named(b) => [b]
    case Numbered(hex, digits) => ConvertUTF32ToUTF8(NumberOf(digits, if hex then 16 else 10))
    case LineEnd(_) => [LF]
  }

  function ValueText(ps: seq<Piece>, quote: Byte): Text
    requires ValidPieces(ps, quote)
  {
    if ps == [] then [] else PieceText(ps[0]) + ValueText(ps[1..], quote)
  }

  function ValueMeans(ps: seq<Piece>): Text {
    if ps == [] then [] else PieceMeans(ps[0]) + ValueMeans(ps[1..])
  }

  // ---------------------------------------------------------------- single pieces

  lemma NameBytes(b: Byte)
    ensures b == '<' as int ==> NameOf(b) == [AMP, 108, 116, SEMICOLON]
    ensures b == '>' as int ==> NameOf(b) == [AMP, 103, 116, SEMICOLON]
    ensures b == '&' as int ==> NameOf(b) == [AMP, 97, 109, 112, SEMICOLON]
    ensures b == '"' as int ==> NameOf(b) == [AMP, 113, 117, 111, 116, SEMICOLON]
    ensures b == '\'' as int ==> NameOf(b) == [AMP, 97, 112, 111, 115, SEMICOLON]
  {
  }

  lemma NamesAreEntities(b: Byte)
    requires ValidPiece(Named(b), QUOTE)
    ensures NameOf(b) == EscapeByte(b) && NameOf(b) != [] && NameOf(b)[0] == AMP && b != CR && b != LF
    ensures forall x | x in NameOf(b) :: x != NUL && x != QUOTE && x != APOS
  {
    hide NameOf, Bytes;
    NameBytes(b);
  }

  lemma DigitIsRead(d: Digit, base: nat)
    requires (base == 10 || base == 16) && d.value < base
    ensures DigitValue(DigitText(d), base) == Some(d.value)
  {
  }

  lemma {:induction false} DigitsAreRead(digits: seq<Digit>, base: nat)
    requires (base == 10 || base == 16) && DigitsBelow(digits, base)
    ensures AllDigits(DigitsText(digits), base) && Number(DigitsText(digits), base) == NumberOf(digits, base)
    decreases |digits|
  {
    forall i | 0 <= i < |digits| ensures DigitValue(DigitsText(digits)[i], base) == Some(digits[i].value) {
      DigitIsRead(digits[i], base);
    }
    if digits != [] {
      var n := |digits| - 1;
      assert DigitsText(digits)[..n] == DigitsText(digits[..n]);
      DigitsAreRead(digits[..n], base);
    }
  }

  /** A reference by number is read as the bytes of its number. */
  lemma NumberDecodes(t: Text, p: nat, piece: Piece, out: Text)
    requires piece.Numbered? && ValidPiece(piece, QUOTE) && |out| <= p && Has(t, p, PieceText(piece))
    ensures p + |PieceText(piece)| <= |t| && |out + PieceMeans(piece)| <= p + |PieceText(piece)|
    ensures DecodeFrom(t, p, out) == DecodeFrom(t, p + |PieceText(piece)|, out + PieceMeans(piece))
  {
    hide GetCharacterRef, ConvertUTF32ToUTF8, Number, AllDigits, Utf8Value, NumberOf, DigitsText, DecodeFrom;
    var base := if piece.hex then 16 else 10;
    var digits := DigitsText(piece.digits);
    DigitsAreRead(piece.digits, base);
    if piece.hex {
      HexReference(t, p, digits);
    } else {
      DecimalReference(t, p, digits);
    }
    ReferenceDecodes(t, p, out);
  }

  lemma ReferenceDecodes(t: Text, p: nat, out: Text)
    requires |out| <= p && p + 1 < |t| && t[p] == AMP && t[p + 1] == HASH && GetCharacterRef(t, p).Ref?
    ensures var r := GetCharacterRef(t, p);
            |out + r.bytes| <= r.next && DecodeFrom(t, p, out) == DecodeFrom(t, r.next, out + r.bytes)
  {
    hide GetCharacterRef;
    RefFits(t, p);
  }

  lemma PlainDecodes(t: Text, p: nat, b: Byte, out: Text)
    requires |out| <= p && b != CR && b != LF && b != AMP && Has(t, p, [b])
    ensures p < |t| && DecodeFrom(t, p, out) == DecodeFrom(t, p + 1, out + [b])
  {
    HasAt(t, p, [b], 0);
  }

  /** A line end of one byte is read as one if what follows does not make it a longer one. */
  lemma LineEndDecodes(t: Text, p: nat, bytes: Text, out: Text)
    requires |out| <= p && ValidPiece(LineEnd(bytes), QUOTE) && Has(t, p, bytes)
    requires bytes == [CR] ==> At(t, p + 1) != LF
    requires bytes == [LF] ==> At(t, p + 1) != CR
    ensures p + |bytes| <= |t| && DecodeFrom(t, p, out) == DecodeFrom(t, p + |bytes|, out + [LF])
  {
    HasAt(t, p, bytes, 0);
    if |bytes| == 2 {
      HasAt(t, p, bytes, 1);
    }
  }

  // ---------------------------------------------------------------- whole values

  /** Only line ends begin with a byte of a line end. */
  lemma FirstByte(p: Piece, quote: Byte)
    requires ValidPiece(p, quote)
    ensures PieceText(p) != [] && (p.LineEnd? ==> PieceText(p)[0] == p.bytes[0])
    ensures !p.LineEnd? ==> PieceText(p)[0] != CR && PieceText(p)[0] != LF
  {
    if p.Named? {
      NamesAreEntities(p.b);
    }
  }

  /** No piece holds the quote or ends the string. */
  lemma PieceIsInside(p: Piece, quote: Byte)
    requires ValidPiece(p, quote) && (quote == QUOTE || quote == APOS)
    ensures forall x | x in PieceText(p) :: x != quote && x != NUL
  {
    if p.Named? {
      NamesAreEntities(p.b);
    }
  }

  lemma {:induction false} ValueIsInside(ps: seq<Piece>, quote: Byte)
    requires ValidPieces(ps, quote) && (quote == QUOTE || quote == APOS)
    ensures forall x | x in ValueText(ps, quote) :: x != quote && x != NUL
  {
    hide ValidPiece, PieceText;
    if ps != [] {
      PieceIsInside(ps[0], quote);
      ValueIsInside(ps[1..], quote);
    }
  }

  lemma PieceDecodes(t: Text, p: nat, piece: Piece, out: Text, quote: Byte)
    requires |out| <= p && ValidPiece(piece, quote) && Has(t, p, PieceText(piece))
    requires piece == LineEnd([CR]) ==> At(t, p + 1) != LF
    requires piece == LineEnd([LF]) ==> At(t, p + 1) != CR
    ensures p + |PieceText(piece)| <= |t| && |out + PieceMeans(piece)| <= p + |PieceText(piece)|
    ensures DecodeFrom(t, p, out) == DecodeFrom(t, p + |PieceText(piece)|, out + PieceMeans(piece))
  {
    hide DecodeFrom, ConvertUTF32ToUTF8, NumberOf, DigitsText, NameOf, EscapeByte;
    match piece
    case Plain(b) => PlainDecodes(t, p, b, out);
    case Named(b) =>
      NamesAreEntities(b);
      EscapedByteDecodes(t, p, b, out);
    case Numbered(_, _) => NumberDecodes(t, p, piece, out);
    case LineEnd(bytes) => LineEndDecodes(t, p, bytes, out);
  }

  lemma {:induction false} PiecesDecode(t: Text, p: nat, ps: seq<Piece>, out: Text, quote: Byte)
    requires |out| <= p && ValidPieces(ps, quote) && Has(t, p, ValueText(ps, quote))
    requires p + |ValueText(ps, quote)| == |t|
    ensures DecodeFrom(t, p, out) == out + ValueMeans(ps)
    decreases |ps|
  {
    hide Has, PieceText, PieceMeans, DecodeFrom, Round;
    if ps == [] {
      DecodeEnds(t, p, out);
    } else {
      var piece, rest := ps[0], ps[1..];
      var q := p + |PieceText(piece)|;
      HasSplit(t, p, PieceText(piece), ValueText(rest, quote));
      if rest != [] {
        FirstByte(rest[0], quote);
        HasAt(t, q, ValueText(rest, quote), 0);
      }
      SinglesEnd(piece);
      PieceDecodes(t, p, piece, out, quote);
      PiecesDecode(t, q, rest, out + PieceMeans(piece), quote);
      Regroup(out, PieceMeans(piece), ValueMeans(rest));
    }
  }

  lemma DecodeEnds(t: Text, p: nat, out: Text)
    requires |out| <= p == |t|
    ensures DecodeFrom(t, p, out) == out + []
  {
  }

  lemma SinglesEnd(p: Piece)
    ensures p.LineEnd? ==> PieceText(p) == p.bytes
  {
  }

  /** A value written in pieces is read as what these stand for. */
  lemma {:induction false} ValueIsRead(ps: seq<Piece>, quote: Byte)
    requires ValidPieces(ps, quote)
    ensures Decode(ValueText(ps, quote)) == ValueMeans(ps)
  {
    hide ValueText, ValueMeans, DecodeFrom;
    var t := ValueText(ps, quote);
    assert t[0..|t|] == t;
    PiecesDecode(t, 0, ps, [], quote);
  }
}
