/**
  * The strings of RFC 8259 section 7 as sequences of elements, with their meaning as Unicode scalars. Nothing here is
  * taken from the decoder or the encoder: it is what both are held against.
  */
module JsonStrings {
  import opened Prelude
  import opened Utf8

  /** The characters after a backslash, other than u, and what they stand for. */
  const ESCAPES: map<byte, int> :=
    map[0x22 := 0x22, 0x5C := 0x5C, 0x2F := 0x2F, 0x62 := 0x08, 0x66 := 0x0C, 0x6E := 0x0A, 0x72 := 0x0D, 0x74 := 0x09]

  const LOWER_DIGITS := "0123456789abcdef"
  const UPPER_DIGITS := "0123456789ABCDEF"

  /** The byte is the hexadecimal digit for v, in either case. */
  predicate IsDigit(b: byte, v: int) {
    0 <= v < 16 && (b as int == LOWER_DIGITS[v] as int || b as int == UPPER_DIGITS[v] as int)
  }

  ghost predicate IsHex(b: byte) { exists v :: IsDigit(b, v) }

  ghost predicate IsUnit(h: Bytes) {
    |h| == 4 && IsHex(h[0]) && IsHex(h[1]) && IsHex(h[2]) && IsHex(h[3])
  }

  ghost function DigitValue(b: byte): (v: int)
    requires IsHex(b)
    ensures IsDigit(b, v)
  {
    var v :| IsDigit(b, v);
    v
  }

  /** The number that four hexadecimal digits write, the most significant first. */
  ghost function UnitValue(h: Bytes): (v: int)
    requires IsUnit(h)
    ensures 0 <= v < 0x10000
  {
    DigitValue(h[0]) * 0x1000 + DigitValue(h[1]) * 0x100 + DigitValue(h[2]) * 0x10 + DigitValue(h[3])
  }

  /** The surrogate pair of a scalar beyond the first 0x10000, as UTF-16 defines it. */
  function HighSurrogate(r: int): int { 0xD800 + (r - 0x10000) / 0x400 }

  function LowSurrogate(r: int): int { 0xDC00 + (r - 0x10000) % 0x400 }

  ghost predicate IsPair(high: int, low: int) { 0xD800 <= high <= 0xDBFF && 0xDC00 <= low <= 0xDFFF }

  ghost function PairRune(high: int, low: int): (r: int)
    requires IsPair(high, low)
    ensures 0x10000 <= r <= 0x10FFFF && HighSurrogate(r) == high && LowSurrogate(r) == low
  {
    0x10000 + 0x400 * (high - 0xD800) + (low - 0xDC00)
  }

  lemma PairRuneIsUnique(r: int)
    requires 0x10000 <= r <= 0x10FFFF
    ensures IsPair(HighSurrogate(r), LowSurrogate(r)) && PairRune(HighSurrogate(r), LowSurrogate(r)) == r
  {
  }

  /** An unescaped character, a two-character escape, or a \u escape with its four hexadecimal digits. */
  datatype Elem = Plain(rune: int) | Short(letter: byte) | Unit(digits: Bytes) {
    ghost predicate WellFormed() {
      match this
      case Plain(r) => Scalar(r) && r >= 0x20 && r != 0x22 && r != 0x5C
      case Short(c) => c in ESCAPES
      case Unit(h) => IsUnit(h)
    }

    ghost function Text(): (t: Bytes)
      requires WellFormed()
      ensures t != []
    {
      match this
      case Plain(r) => Encode(r)
      case Short(c) => [0x5C, c]
      case Unit(h) => [0x5C, 0x75] + h
    }
  }

  ghost predicate AllWellFormed(es: seq<Elem>) {
    forall i :: 0 <= i < |es| ==> es[i].WellFormed()
  }

  ghost function Render(es: seq<Elem>): Bytes
    requires AllWellFormed(es)
  {
    if es == [] then [] else es[0].Text() + Render(es[1..])
  }

  /** es begins with a high and a low surrogate escape. */
  ghost predicate BeginsWithPair(es: seq<Elem>)
    requires AllWellFormed(es)
  {
    |es| >= 2 && es[0].Unit? && es[1].Unit? && IsPair(UnitValue(es[0].digits), UnitValue(es[1].digits))
  }

  /** What a \u escape that is not part of a pair stands for: an unpaired surrogate is U+FFFD. */
  ghost function Lone(h: Bytes): (r: int)
    requires IsUnit(h)
    ensures Scalar(r)
  {
    if 0xD800 <= UnitValue(h) <= 0xDFFF then 0xFFFD else UnitValue(h)
  }

  lemma EscapesAreScalars()
    ensures forall c :: c in ESCAPES ==> Scalar(ESCAPES[c])
  {
  }

  /** The characters that a string means, one after the other; a surrogate pair is one of them. */
  ghost function Meaning(es: seq<Elem>): (rs: seq<int>)
    requires AllWellFormed(es)
    ensures AllScalar(rs)
  {
    EscapesAreScalars();
    if es == [] then []
    else if BeginsWithPair(es) then [PairRune(UnitValue(es[0].digits), UnitValue(es[1].digits))] + Meaning(es[2..])
    else
      match es[0]
      case Plain(r) => [r] + Meaning(es[1..])
      case Short(c) => [ESCAPES[c]] + Meaning(es[1..])
      case Unit(h) => [Lone(h)] + Meaning(es[1..])
  }
}
