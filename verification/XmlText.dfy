/** The text of XML documents as the vendored parser and printer see it: bytes, names, entities,
    character references. */
module XmlText {
  import opened Wrappers

  type Byte = b: int | 0 <= b < 256
  type Text = seq<Byte>

  const NUL: Byte := 0
  const LF: Byte := 10
  const CR: Byte := 13
  const SPACE: Byte := 32
  const QUOTE: Byte := 34
  const HASH: Byte := 35
  const AMP: Byte := 38
  const APOS: Byte := 39
  const SLASH: Byte := 47
  const SEMICOLON: Byte := 59
  const LESS: Byte := 60
  const EQUALS: Byte := 61
  const GREATER: Byte := 62
  const LETTER_X: Byte := 120

  /** The character at position `i` of a string that ends with a NUL. */
  function At(t: Text, i: nat): Byte {
    if i < |t| then t[i] else NUL
  }

  predicate Has(t: Text, i: nat, x: Text) {
    i + |x| <= |t| && t[i..i + |x|] == x
  }

  lemma HasSplit(t: Text, i: nat, x: Text, y: Text)
    ensures Has(t, i, x + y) <==> Has(t, i, x) && Has(t, i + |x|, y)
  {
    if i + |x| + |y| <= |t| {
      var both := t[i..i + |x + y|];
      assert both == t[i..i + |x|] + t[i + |x|..i + |x| + |y|];
      assert both[..|x|] == t[i..i + |x|] && both[|x|..] == t[i + |x|..i + |x| + |y|];
      assert (x + y)[..|x|] == x && (x + y)[|x|..] == y;
    }
  }

  lemma HasSplit3(t: Text, i: nat, x: Text, y: Text, z: Text)
    ensures Has(t, i, x + y + z) <==> Has(t, i, x) && Has(t, i + |x|, y) && Has(t, i + |x| + |y|, z)
  {
    HasSplit(t, i, x + y, z);
    HasSplit(t, i, x, y);
  }

  lemma HasSplit4(t: Text, i: nat, x: Text, y: Text, z: Text, w: Text)
    ensures Has(t, i, x + y + z + w) <==>
            Has(t, i, x) && Has(t, i + |x|, y) && Has(t, i + |x| + |y|, z) && Has(t, i + |x| + |y| + |z|, w)
  {
    HasSplit(t, i, x + y + z, w);
    HasSplit3(t, i, x, y, z);
  }

  lemma HasAt(t: Text, i: nat, x: Text, k: nat)
    requires Has(t, i, x) && k < |x|
    ensures At(t, i + k) == t[i + k] == x[k]
  {
    assert t[i..i + |x|][k] == t[i + k];
  }

  // ---------------------------------------------------------------- character classes

  predicate IsWhiteSpace(b: Byte) {
    b == SPACE || 9 <= b <= 13
  }

  predicate IsNameStartChar(b: Byte) {
    b >= 128 || 65 <= b <= 90 || 97 <= b <= 122 || b == 58 || b == 95
  }

  predicate IsNameChar(b: Byte) {
    IsNameStartChar(b) || 48 <= b <= 57 || b == 46 || b == 45
  }

  /** The alphabets of names and of white space, spelled out; what the parser tests must be the same. */
  predicate StartsName(b: Byte) {
    'A' as int <= b <= 'Z' as int || 'a' as int <= b <= 'z' as int || b == '_' as int || b == ':' as int || b >= 0x80
  }

  predicate ContinuesName(b: Byte) {
    StartsName(b) || '0' as int <= b <= '9' as int || b == '-' as int || b == '.' as int
  }

  predicate Blank(b: Byte) {
    b == ' ' as int || b == '\t' as int || b == '\n' as int || b == '\r' as int || b == 11 || b == 12
  }

  lemma AlphabetsAreTested(b: Byte)
    ensures IsNameStartChar(b) <==> StartsName(b)
    ensures IsNameChar(b) <==> ContinuesName(b)
    ensures IsWhiteSpace(b) <==> Blank(b)
  {
  }

  predicate ValidName(name: Text) {
    name != [] && StartsName(name[0]) && forall i | 0 <= i < |name| :: ContinuesName(name[i])
  }

  // ---------------------------------------------------------------- entities

  datatype Entity = Entity(pattern: Text, value: Byte)

  const ENTITIES: seq<Entity> := [
    Entity([113, 117, 111, 116], QUOTE),
    Entity([97, 109, 112], AMP),
    Entity([97, 112, 111, 115], APOS),
    Entity([108, 116], LESS),
    Entity([103, 116], GREATER)
  ]

  /** The first entity, from number `i` on, that stands at `p`, where there is an ampersand. */
  function EntityAt(t: Text, p: nat, i: nat): (r: Option<nat>)
    requires i <= |ENTITIES|
    ensures r.Some? ==> r.value < |ENTITIES| && Has(t, p + 1, ENTITIES[r.value].pattern + [SEMICOLON])
    decreases |ENTITIES| - i
  {
    if i == |ENTITIES| then None
    else if Has(t, p + 1, ENTITIES[i].pattern + [SEMICOLON]) then Some(i)
    else EntityAt(t, p, i + 1)
  }

  /** The number of the entity that stands for a byte. */
  function EntityFor(b: Byte): (r: Option<nat>)
    ensures r.Some? ==> r.value < |ENTITIES| && ENTITIES[r.value].value == b
    ensures r.None? ==> b != QUOTE && b != AMP && b != APOS && b != LESS && b != GREATER
  {
    if b == QUOTE then Some(0)
    else if b == AMP then Some(1)
    else if b == APOS then Some(2)
    else if b == LESS then Some(3)
    else if b == GREATER then Some(4)
    else None
  }

  function EscapeByte(b: Byte): Text {
    match EntityFor(b)
    case Some(k) => [AMP] + ENTITIES[k].pattern + [SEMICOLON]
    case None => [b]
  }

  /** What `PrintString` writes for an attribute value. */
  function EscapeText(v: Text): Text {
    if v == [] then [] else EscapeByte(v[0]) + EscapeText(v[1..])
  }

  // ---------------------------------------------------------------- character references

  /** `ConvertUTF32ToUTF8`. Each `(x | 0x80) & 0xBF` keeps the low six bits below a leading one, and the
      marks of the first byte fall on bits that the shifted input leaves zero. */
  function ConvertUTF32ToUTF8(u: nat): (r: Text)
    ensures |r| <= 4
  {
    if u < 0x80 then [u]
    else if u < 0x800 then [0xC0 + u / 0x40, Tail(u)]
    else if u < 0x10000 then [0xE0 + u / 0x1000, Tail(u / 0x40), Tail(u)]
    else if u < 0x200000 then [0xF0 + u / 0x40000, Tail(u / 0x1000), Tail(u / 0x40), Tail(u)]
    else []
  }

  function Tail(u: nat): Byte {
    0x80 + u % 0x40
  }

  /** `strchr`: the first `b` at or after `i`, before the end of the string. */
  function Find(t: Text, i: nat, b: Byte): (r: Option<nat>)
    requires i <= |t| && b != NUL
    ensures r.Some? ==> i <= r.value < |t| && t[r.value] == b && forall k | i <= k < r.value :: t[k] != b
    decreases |t| - i
  {
    if At(t, i) == NUL then None else if t[i] == b then Some(i) else Find(t, i + 1, b)
  }

  function DigitValue(b: Byte, base: nat): (r: Option<nat>)
    requires base == 10 || base == 16
    ensures r.Some? ==> r.value < base
  {
    if 48 <= b <= 57 then Some(b - 48)
    else if base == 16 && 97 <= b <= 102 then Some(b - 87)
    else if base == 16 && 65 <= b <= 70 then Some(b - 55)
    else None
  }

  /** The digits in front of `q` read backwards to the character `stop`, weights and products held in
      32 bits and the sum in 64. */
  function Accumulate(t: Text, q: nat, stop: Byte, base: nat, ucs: nat, mult: nat): Option<nat>
    requires q <= |t| && (base == 10 || base == 16)
    requires exists k :: 0 <= k < q && t[k] == stop
    decreases q
  {
    var b := t[q - 1];
    if b == stop then Some(ucs)
    else
      match DigitValue(b, base)
      case None => None
      case Some(digit) =>
        Accumulate(t, q - 1, stop, base, (ucs + mult * digit % 0x1_0000_0000) % 0x1_0000_0000_0000_0000,
                   mult * base % 0x1_0000_0000)
  }

  /** NotRef stands for the null result; otherwise the bytes to write and the position to go on from. */
  datatype CharRef = NotRef | Ref(bytes: Text, next: nat)

  function GetCharacterRef(t: Text, p: nat): (r: CharRef)
    requires p + 1 < |t| && t[p] == AMP && t[p + 1] == HASH
    ensures r.Ref? ==> p < r.next <= |t|
  {
    if At(t, p + 2) == NUL then Ref([], p + 1)
    else if t[p + 2] == LETTER_X then
      if At(t, p + 3) == NUL then NotRef
      else
        match Find(t, p + 3, SEMICOLON)
        case None => NotRef
        case Some(s) =>
          match Accumulate(t, s, LETTER_X, 16, 0, 1)
          case None => NotRef
          case Some(u) => Ref(ConvertUTF32ToUTF8(u), s + 1)
    else
      match Find(t, p + 2, SEMICOLON)
      case None => NotRef
      case Some(s) =>
        match Accumulate(t, s, HASH, 10, 0, 1)
        case None => NotRef
        case Some(u) => Ref(ConvertUTF32ToUTF8(u), s + 1)
  }

  // ---------------------------------------------------------------- decoding

  /** One round of the decoding loop over the raw text `t` of an attribute value, with the read position
      at `p` and `out` written so far: the next read position and what is added to the output. For an
      unknown entity both positions advance and nothing is written, so what is found there is the byte
      of the raw text at the write position. */
  function Round(t: Text, p: nat, out: Text): (r: (nat, Text))
    requires |out| <= p < |t|
    ensures p < r.0 <= |t| && |out + r.1| <= r.0
  {
    if t[p] == CR then (if At(t, p + 1) == LF then p + 2 else p + 1, [LF])
    else if t[p] == LF then (if At(t, p + 1) == CR then p + 2 else p + 1, [LF])
    else if t[p] == AMP then
      if At(t, p + 1) == HASH then
        match GetCharacterRef(t, p)
        case NotRef => (p + 1, [AMP])
        case Ref(bytes, next) => RefFits(t, p); (next, bytes)
      else
        match EntityAt(t, p, 0)
        case Some(k) => (p + |ENTITIES[k].pattern| + 2, [ENTITIES[k].value])
        case None => (p + 1, [t[|out|]])
    else (p + 1, [t[p]])
  }

  /** What `GetStr` makes of the rest of the raw text. */
  function DecodeFrom(t: Text, p: nat, out: Text): (r: Text)
    requires |out| <= p <= |t|
    decreases |t| - p
  {
    if p == |t| then out
    else
      var round := Round(t, p, out);
      DecodeFrom(t, round.0, out + round.1)
  }

  function Decode(t: Text): Text {
    DecodeFrom(t, 0, [])
  }

  /** A character reference is never shorter than its encoding: the write position stays behind. */
  lemma RefFits(t: Text, p: nat)
    requires p + 1 < |t| && t[p] == AMP && t[p + 1] == HASH
    ensures var r := GetCharacterRef(t, p); r.Ref? ==> p + |r.bytes| <= r.next
  {
    if At(t, p + 2) != NUL {
      if t[p + 2] == LETTER_X {
        if At(t, p + 3) != NUL && Find(t, p + 3, SEMICOLON).Some? && Find(t, p + 3, SEMICOLON).value <= p + 4 {
          FewDigits(t, Find(t, p + 3, SEMICOLON).value, LETTER_X, 16, p + 2);
        }
      } else if Find(t, p + 2, SEMICOLON).Some? && Find(t, p + 2, SEMICOLON).value <= p + 3 {
        FewDigits(t, Find(t, p + 2, SEMICOLON).value, HASH, 10, p + 1);
      }
    }
  }

  /** Without or with only one digit the value is below 16. */
  lemma FewDigits(t: Text, q: nat, stop: Byte, base: nat, lo: nat)
    requires lo < q <= |t| && (base == 10 || base == 16) && t[lo] == stop && q - lo <= 2
    ensures var r := Accumulate(t, q, stop, base, 0, 1); r.Some? ==> r.value < 16
  {
  }

  // ---------------------------------------------------------------- results

  /** In section 3 of RFC 3629 the value of an encoded character is put together from the free bits of
      its bytes; None stands for bytes that are no encoding. */
  function Utf8Value(r: Text): Option<nat> {
    if |r| == 1 && r[0] < 0x80 then Some(r[0])
    else if |r| == 2 && 0xC0 <= r[0] < 0xE0 && Continues(r[1]) then Some(Join(Free(r[0], 0xC0), r[1]))
    else if |r| == 3 && 0xE0 <= r[0] < 0xF0 && Continues(r[1]) && Continues(r[2]) then
      Some(Join(Join(Free(r[0], 0xE0), r[1]), r[2]))
    else if |r| == 4 && 0xF0 <= r[0] < 0xF8 && Continues(r[1]) && Continues(r[2]) && Continues(r[3]) then
      Some(Join(Join(Join(Free(r[0], 0xF0), r[1]), r[2]), r[3]))
    else None
  }

  /** The bits of a first byte below its mark. */
  function Free(b: Byte, mark: nat): nat
    requires mark <= b
  {
    b - mark
  }

  function Join(u: nat, b: Byte): nat
    requires Continues(b)
  {
    u * 0x40 + Free(b, 0x80)
  }

  predicate Continues(b: Byte) {
    0x80 <= b < 0xC0
  }

  /** The fewest bytes the table of section 3 of RFC 3629 allows for a character number. */
  function Utf8Length(u: nat): nat {
    if u <= 0x7F then 1 else if u <= 0x7FF then 2 else if u <= 0xFFFF then 3 else 4
  }

  lemma ConvertIsUtf8(u: nat)
    requires u < 0x110000
    ensures var r := ConvertUTF32ToUTF8(u); Utf8Value(r) == Some(u) && |r| == Utf8Length(u)
  {
    assert u / 0x40 / 0x40 == u / 0x1000 && u / 0x1000 / 0x40 == u / 0x40000;
  }

  /** The number written by digits, most significant first. */
  function Number(digits: Text, base: nat): nat
    requires base == 10 || base == 16
    requires AllDigits(digits, base)
  {
    if digits == [] then 0
    else Number(digits[..|digits| - 1], base) * base + DigitValue(digits[|digits| - 1], base).value
  }

  predicate AllDigits(digits: Text, base: nat)
    requires base == 10 || base == 16
  {
    forall i | 0 <= i < |digits| :: DigitValue(digits[i], base).Some?
  }

  function Power(base: nat, k: nat): (r: nat)
    ensures base > 0 ==> r > 0
  {
    if k == 0 then 1 else base * Power(base, k - 1)
  }

  lemma MulMono(a: nat, b: nat, c: nat)
    requires a <= b
    ensures a * c <= b * c
  {
  }

  /** The wrapped weight is the true weight as long as that fits. */
  lemma {:induction false} WrappedPower(base: nat, k: nat, mult: nat)
    requires (base == 10 || base == 16) && mult == Power(base, k) % 0x1_0000_0000
    ensures mult * base % 0x1_0000_0000 == Power(base, k + 1) % 0x1_0000_0000
  {
    var pw := Power(base, k);
    assert Power(base, k + 1) == base * pw;
    WrappedProduct(pw, base);
  }

  /** Wrapping a factor does not change the wrapped product. */
  lemma WrappedProduct(x: nat, base: nat)
    requires base == 10 || base == 16
    ensures x % 0x1_0000_0000 * base % 0x1_0000_0000 == base * x % 0x1_0000_0000
  {
    hide *;
    var q, r := x / 0x1_0000_0000, x % 0x1_0000_0000;
    if base == 10 {
      WrapsAway(10 * q, 10 * r);
      assert 10 * x == (10 * q) * 0x1_0000_0000 + 10 * r;
    } else {
      WrapsAway(16 * q, 16 * r);
      assert 16 * x == (16 * q) * 0x1_0000_0000 + 16 * r;
    }
  }

  lemma WrapsAway(q: nat, r: nat)
    ensures (q * 0x1_0000_0000 + r) % 0x1_0000_0000 == r % 0x1_0000_0000
  {
    hide *;
  }

  /** Accumulating digits from the right computes the number they write: nothing wraps as long as the
      number itself, however many leading zeros it has, stays below 2^32. */
  lemma {:induction false} AccumulateIsNumber(t: Text, lo: nat, q: nat, stop: Byte, base: nat, done: Text, mult: nat)
    requires lo < q <= |t| && (base == 10 || base == 16) && t[lo] == stop && DigitValue(stop, base).None?
    requires AllDigits(t[lo + 1..q], base) && AllDigits(done, base) && AllDigits(t[lo + 1..q] + done, base)
    requires mult == Power(base, |done|) % 0x1_0000_0000
    requires Number(t[lo + 1..q] + done, base) < 0x1_0000_0000
    ensures Accumulate(t, q, stop, base, Number(done, base), mult) == Some(Number(t[lo + 1..q] + done, base))
    decreases q
  {
    var digits := t[lo + 1..q];
    if q - 1 == lo {
      assert digits + done == done;
    } else {
      var d, front := t[q - 1], t[lo + 1..q - 1];
      assert digits == front + [d] && digits[|digits| - 1] == d;
      assert digits + done == front + ([d] + done);
      assert AllDigits(front, base) by {
        assert forall i | 0 <= i < |front| :: front[i] == digits[i];
      }
      DigitCounted(front, d, done, base, mult);
      AccumulateIsNumber(t, lo, q - 1, stop, base, [d] + done, mult * base % 0x1_0000_0000);
    }
  }

  /** One round of the loop puts a digit in front of those already read. */
  lemma DigitCounted(front: Text, d: Byte, done: Text, base: nat, mult: nat)
    requires (base == 10 || base == 16) && DigitValue(d, base).Some?
    requires AllDigits(front, base) && AllDigits(done, base) && AllDigits(front + ([d] + done), base)
    requires mult == Power(base, |done|) % 0x1_0000_0000
    requires Number(front + ([d] + done), base) < 0x1_0000_0000
    ensures AllDigits([d] + done, base)
    ensures (Number(done, base) + mult * DigitValue(d, base).value % 0x1_0000_0000) % 0x1_0000_0000_0000_0000 ==
            Number([d] + done, base)
    ensures mult * base % 0x1_0000_0000 == Power(base, |[d] + done|) % 0x1_0000_0000
  {
    NumberFront(d, done, base);
    NumberBound(front, [d] + done, base);
    DigitFits(DigitValue(d, base).value, Power(base, |done|), mult, Number(done, base));
    WrappedPower(base, |done|, mult);
  }

  /** A digit whose contribution fits in 32 bits is counted with its true weight. */
  lemma DigitFits(digit: nat, weight: nat, mult: nat, sum: nat)
    requires weight > 0 && mult == weight % 0x1_0000_0000 && digit * weight + sum < 0x1_0000_0000
    ensures (sum + mult * digit % 0x1_0000_0000) % 0x1_0000_0000_0000_0000 == digit * weight + sum
  {
    hide *;
    var product := digit * weight;
    if digit == 0 {
      assert product == 0 && mult * digit == 0;
    } else {
      MulMono(1, digit, weight);
      SmallRemainder(weight, 0x1_0000_0000);
      assert mult * digit == product;
    }
    SmallRemainder(product, 0x1_0000_0000);
    SmallRemainder(sum + product, 0x1_0000_0000_0000_0000);
  }

  lemma SmallRemainder(x: nat, m: nat)
    requires x < m
    ensures x % m == x
  {
  }

  /** A digit in front counts with the weight of what follows it. */
  lemma {:induction false} NumberFront(d: Byte, digits: Text, base: nat)
    requires (base == 10 || base == 16) && AllDigits(digits, base) && DigitValue(d, base).Some?
    ensures AllDigits([d] + digits, base)
    ensures Number([d] + digits, base) == DigitValue(d, base).value * Power(base, |digits|) + Number(digits, base)
    decreases |digits|
  {
    var v := DigitValue(d, base).value;
    if digits == [] {
      assert ([d] + digits)[..0] == [];
    } else {
      var front := digits[..|digits| - 1];
      NumberFront(d, front, base);
      assert ([d] + digits)[..|digits|] == [d] + front;
      var pw, m, last := Power(base, |front|), Number(front, base), DigitValue(digits[|digits| - 1], base).value;
      assert Number([d] + digits, base) == (v * pw + m) * base + last;
      assert Power(base, |digits|) == base * pw;
      Distribute(v, pw, m, base);
    }
  }

  lemma Distribute(v: nat, pw: nat, m: nat, base: nat)
    ensures (v * pw + m) * base == v * (base * pw) + m * base
  {
    assert v * (base * pw) == v * pw * base;
  }

  /** More digits in front do not make a number smaller. */
  lemma {:induction false} NumberBound(front: Text, digits: Text, base: nat)
    requires (base == 10 || base == 16) && AllDigits(front, base) && AllDigits(digits, base)
    requires AllDigits(front + digits, base)
    ensures Number(digits, base) <= Number(front + digits, base)
    decreases |digits|
  {
    if digits != [] {
      NumberBound(front, digits[..|digits| - 1], base);
      assert (front + digits)[..|front + digits| - 1] == front + digits[..|digits| - 1];
      MulMono(Number(digits[..|digits| - 1], base), Number(front + digits[..|digits| - 1], base), base);
    }
  }

  lemma {:induction false} FindFirst(t: Text, i: nat, s: nat, b: Byte)
    requires i <= s < |t| && t[s] == b && b != NUL && forall k | i <= k < s :: t[k] != b && t[k] != NUL
    ensures Find(t, i, b) == Some(s)
    decreases s - i
  {
    if i < s {
      FindFirst(t, i + 1, s, b);
    }
  }

  /** A numeric reference of section 4.1 of XML 1.0 to a number below 0x110000, with any number of leading
      zeros, becomes the bytes of the table in section 3 of RFC 3629 whose free bits are the number. That
      section prohibits the numbers from 0xD800 to 0xDFFF; they get their three bytes too. */
  lemma DecimalReference(t: Text, p: nat, digits: Text)
    requires digits != [] && AllDigits(digits, 10) && Number(digits, 10) < 0x110000
    requires Has(t, p, [AMP, HASH] + [] + digits + [SEMICOLON])
    ensures p + 1 < |t| && t[p] == AMP && t[p + 1] == HASH
    ensures var u := Number(digits, 10);
            GetCharacterRef(t, p) == Ref(ConvertUTF32ToUTF8(u), p + 3 + |digits|) &&
            Utf8Value(ConvertUTF32ToUTF8(u)) == Some(u)
  {
    hide Has, Number, AllDigits, Accumulate, Find, ConvertUTF32ToUTF8, Utf8Value;
    ReferenceLayout(t, p, [], digits);
    ReadsNumber(t, p + 1, p + 2 + |digits|, HASH, 10, digits);
    ConvertIsUtf8(Number(digits, 10));
  }

  lemma HexReference(t: Text, p: nat, digits: Text)
    requires digits != [] && AllDigits(digits, 16) && Number(digits, 16) < 0x110000
    requires Has(t, p, [AMP, HASH] + [LETTER_X] + digits + [SEMICOLON])
    ensures p + 1 < |t| && t[p] == AMP && t[p + 1] == HASH
    ensures var u := Number(digits, 16);
            GetCharacterRef(t, p) == Ref(ConvertUTF32ToUTF8(u), p + 4 + |digits|) &&
            Utf8Value(ConvertUTF32ToUTF8(u)) == Some(u)
  {
    hide Has, Number, AllDigits, Accumulate, Find, ConvertUTF32ToUTF8, Utf8Value;
    ReferenceLayout(t, p, [LETTER_X], digits);
    ReadsNumber(t, p + 2, p + 3 + |digits|, LETTER_X, 16, digits);
    ConvertIsUtf8(Number(digits, 16));
  }

  /** Between the mark and the semicolon, the loop of the reference reads the number of the digits. */
  lemma ReadsNumber(t: Text, lo: nat, s: nat, stop: Byte, base: nat, digits: Text)
    requires (base == 10 || base == 16) && digits != [] && AllDigits(digits, base) && Number(digits, base) < 0x110000
    requires lo < s < |t| && t[lo + 1..s] == digits && t[s] == SEMICOLON && t[lo] == stop
    requires DigitValue(stop, base).None?
    ensures Find(t, lo + 1, SEMICOLON) == Some(s) && t[lo + 1] != NUL && t[lo + 1] != LETTER_X
    ensures Accumulate(t, s, stop, base, 0, 1) == Some(Number(digits, base))
  {
    DigitsBetween(t, lo, s, digits, base);
    AccumulateIsNumber(t, lo, s, stop, base, [], 1);
  }

  lemma DigitsBetween(t: Text, lo: nat, s: nat, digits: Text, base: nat)
    requires (base == 10 || base == 16) && digits != [] && AllDigits(digits, base)
    requires lo < s < |t| && t[lo + 1..s] == digits && t[s] == SEMICOLON
    ensures Find(t, lo + 1, SEMICOLON) == Some(s) && t[lo + 1] != NUL && t[lo + 1] != LETTER_X && digits + [] == digits
  {
    forall k | lo + 1 <= k < s ensures t[k] != SEMICOLON && t[k] != NUL && t[k] != LETTER_X {
      assert t[k] == digits[k - lo - 1] && DigitValue(digits[k - lo - 1], base).Some?;
    }
    FindFirst(t, lo + 1, s, SEMICOLON);
  }

  lemma ReferenceLayout(t: Text, p: nat, mark: Text, digits: Text)
    requires Has(t, p, [AMP, HASH] + mark + digits + [SEMICOLON])
    ensures var lo, s := p + 1 + |mark|, p + 2 + |mark| + |digits|;
            s < |t| && t[p] == AMP && t[p + 1] == HASH && t[s] == SEMICOLON && t[lo + 1..s] == digits &&
            (forall k | lo + 1 <= k < s :: t[k] == digits[k - lo - 1]) && (mark != [] ==> t[p + 2] == mark[0])
  {
    var whole := [AMP, HASH] + mark + digits + [SEMICOLON];
    forall k | 0 <= k < |whole| ensures t[p + k] == whole[k] {
      HasAt(t, p, whole, k);
    }
    HasSplit(t, p, [AMP, HASH] + mark + digits, [SEMICOLON]);
    HasSplit(t, p, [AMP, HASH] + mark, digits);
  }

  lemma Regroup(a: Text, b: Text, c: Text)
    ensures a + (b + c) == (a + b) + c
  {
  }
}
