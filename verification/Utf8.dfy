/** UTF-8 as Go's unicode/utf8 package reads and writes it (RFC 3629, sections 3 and 4). */
module Utf8 {
  import opened Prelude

  type Bytes = seq<byte>

  const RUNE_ERROR := 0xFFFD

  /** Unicode scalar values: every code point except the surrogates. */
  predicate Scalar(r: int) {
    0 <= r < 0xD800 || 0xE000 <= r <= 0x10FFFF
  }

  predicate AllScalar(rs: seq<int>) {
    forall i :: 0 <= i < |rs| ==> Scalar(rs[i])
  }

  function Encode(r: int): (s: Bytes)
    requires Scalar(r)
    ensures 1 <= |s| <= 4
  {
    if r < 0x80 then [r as byte]
    else if r < 0x800 then [(0xC0 + r / 0x40) as byte, (0x80 + r % 0x40) as byte]
    else if r < 0x10000 then
      [(0xE0 + r / 0x1000) as byte, (0x80 + r / 0x40 % 0x40) as byte, (0x80 + r % 0x40) as byte]
    else
      [(0xF0 + r / 0x40000) as byte, (0x80 + r / 0x1000 % 0x40) as byte,
       (0x80 + r / 0x40 % 0x40) as byte, (0x80 + r % 0x40) as byte]
  }

  /** utf8.AppendRune: anything but a scalar value is written as U+FFFD. */
  function AppendRune(r: int): Bytes {
    Encode(if Scalar(r) then r else RUNE_ERROR)
  }

  predicate Tail(b: byte) { 0x80 <= b <= 0xBF }

  predicate TwoByte(s: Bytes) {
    |s| >= 2 && 0xC2 <= s[0] <= 0xDF && Tail(s[1])
  }

  predicate ThreeByte(s: Bytes) {
    && |s| >= 3 && 0xE0 <= s[0] <= 0xEF && Tail(s[1]) && Tail(s[2])
    && (s[0] == 0xE0 ==> s[1] >= 0xA0) && (s[0] == 0xED ==> s[1] <= 0x9F)
  }

  predicate FourByte(s: Bytes) {
    && |s| >= 4 && 0xF0 <= s[0] <= 0xF4 && Tail(s[1]) && Tail(s[2]) && Tail(s[3])
    && (s[0] == 0xF0 ==> s[1] >= 0x90) && (s[0] == 0xF4 ==> s[1] <= 0x8F)
  }

  /** The length of the well-formed sequence that s begins with, by the grammar of RFC 3629 section 4; 0 if none. */
  function HeadLength(s: Bytes): (n: nat)
    ensures n <= |s|
  {
    if |s| >= 1 && s[0] < 0x80 then 1
    else if TwoByte(s) then 2
    else if ThreeByte(s) then 3
    else if FourByte(s) then 4
    else 0
  }

  function HeadRune(s: Bytes): int
    requires HeadLength(s) > 0
  {
    match HeadLength(s)
    case 1 => s[0] as int
    case 2 => (s[0] as int - 0xC0) * 0x40 + (s[1] as int - 0x80)
    case 3 => (s[0] as int - 0xE0) * 0x1000 + (s[1] as int - 0x80) * 0x40 + (s[2] as int - 0x80)
    case _ =>
      (s[0] as int - 0xF0) * 0x40000 + (s[1] as int - 0x80) * 0x1000 + (s[2] as int - 0x80) * 0x40
        + (s[3] as int - 0x80)
  }

  /** utf8.DecodeRune on a nonempty input: an ill-formed head is U+FFFD of width one. */
  function DecodeRune(s: Bytes): (int, nat)
    requires s != []
  {
    if HeadLength(s) == 0 then (RUNE_ERROR, 1) else (HeadRune(s), HeadLength(s))
  }

  predicate Valid(s: Bytes)
    decreases |s|
  {
    s == [] || (HeadLength(s) > 0 && Valid(s[HeadLength(s)..]))
  }

  function EncodeAll(rs: seq<int>): Bytes
    requires AllScalar(rs)
  {
    if rs == [] then [] else Encode(rs[0]) + EncodeAll(rs[1..])
  }

  lemma HeadOfThree(r: int, s: Bytes)
    requires 0x800 <= r < 0x10000 && Scalar(r) && |s| >= 3 && s[..3] == Encode(r)
    ensures HeadLength(s) == 3 && HeadRune(s) == r
  {
    var e := Encode(r);
    assert s[0] == e[0] && s[1] == e[1] && s[2] == e[2];
    assert r == r / 0x1000 * 0x1000 + r / 0x40 % 0x40 * 0x40 + r % 0x40;
  }

  lemma FourParts(r: int)
    requires 0x10000 <= r <= 0x10FFFF
    ensures r == r / 0x40000 * 0x40000 + r / 0x1000 % 0x40 * 0x1000 + r / 0x40 % 0x40 * 0x40 + r % 0x40
    ensures 0 <= r / 0x40000 <= 4
    ensures r / 0x40000 == 0 ==> r / 0x1000 % 0x40 >= 0x10
    ensures r / 0x40000 == 4 ==> r / 0x1000 % 0x40 <= 0xF
  {
    assert r / 0x1000 == r / 0x40 / 0x40 && r / 0x40000 == r / 0x1000 / 0x40;
  }

  lemma HeadOfFour(r: int, s: Bytes)
    requires 0x10000 <= r <= 0x10FFFF && |s| >= 4 && s[..4] == Encode(r)
    ensures HeadLength(s) == 4 && HeadRune(s) == r
  {
    var e := Encode(r);
    assert s[0] == e[0] && s[1] == e[1] && s[2] == e[2] && s[3] == e[3];
    FourParts(r);
  }

  /** Reading what was written gives the same scalar back, whatever follows. */
  lemma {:induction false} HeadOfEncode(r: int, rest: Bytes)
    requires Scalar(r)
    ensures HeadLength(Encode(r) + rest) == |Encode(r)| && HeadRune(Encode(r) + rest) == r
  {
    var e, s := Encode(r), Encode(r) + rest;
    assert s[..|e|] == e;
    if r < 0x800 {
      assert s[0] == e[0] && (r >= 0x80 ==> s[1] == e[1]);
    } else if r < 0x10000 {
      HeadOfThree(r, s);
    } else {
      HeadOfFour(r, s);
    }
  }

  /** Writing what was read gives the same bytes back. */
  lemma {:induction false} EncodeOfHead(s: Bytes)
    requires HeadLength(s) > 0
    ensures Scalar(HeadRune(s)) && Encode(HeadRune(s)) == s[..HeadLength(s)]
  {
    var r, n := HeadRune(s), HeadLength(s);
    if n == 2 {
      TwoDigits(s[0] as int - 0xC0, s[1] as int - 0x80);
    } else if n == 3 {
      ThreeDigits(s[0] as int - 0xE0, s[1] as int - 0x80, s[2] as int - 0x80);
    } else if n == 4 {
      FourDigits(s[0] as int - 0xF0, s[1] as int - 0x80, s[2] as int - 0x80, s[3] as int - 0x80);
    }
  }

  lemma TwoDigits(a: int, b: int)
    requires 0 <= b < 0x40
    ensures var r := a * 0x40 + b; r / 0x40 == a && r % 0x40 == b
  {
  }

  lemma ThreeDigits(a: int, b: int, c: int)
    requires 0 <= b < 0x40 && 0 <= c < 0x40
    ensures var r := a * 0x1000 + b * 0x40 + c; r / 0x1000 == a && r / 0x40 % 0x40 == b && r % 0x40 == c
  {
    TwoDigits(a * 0x40 + b, c);
  }

  lemma FourDigits(a: int, b: int, c: int, d: int)
    requires 0 <= b < 0x40 && 0 <= c < 0x40 && 0 <= d < 0x40
    ensures var r := a * 0x40000 + b * 0x1000 + c * 0x40 + d;
            r / 0x40000 == a && r / 0x1000 % 0x40 == b && r / 0x40 % 0x40 == c && r % 0x40 == d
  {
    TwoDigits(a * 0x1000 + b * 0x40 + c, d);
    ThreeDigits(a * 0x40 + b, c, d);
    TwoDigits(a, b);
  }

  lemma ValidPrepend(r: int, rest: Bytes)
    requires Scalar(r) && Valid(rest)
    ensures Valid(Encode(r) + rest)
  {
    HeadOfEncode(r, rest);
    assert (Encode(r) + rest)[|Encode(r)|..] == rest;
  }

  /** The scalars that valid UTF-8 stands for. */
  lemma {:induction false} Scalars(s: Bytes) returns (rs: seq<int>)
    requires Valid(s)
    ensures AllScalar(rs) && EncodeAll(rs) == s
    decreases |s|
  {
    if s == [] {
      rs := [];
    } else {
      EncodeOfHead(s);
      var tail := Scalars(s[HeadLength(s)..]);
      rs := [HeadRune(s)] + tail;
      assert s == s[..HeadLength(s)] + s[HeadLength(s)..];
    }
  }

  lemma {:induction false} EncodeAllValid(rs: seq<int>)
    requires AllScalar(rs)
    ensures Valid(EncodeAll(rs))
  {
    if rs != [] {
      EncodeAllValid(rs[1..]);
      ValidPrepend(rs[0], EncodeAll(rs[1..]));
    }
  }

  /** The RFC 3629 grammar accepts exactly the encodings of scalar sequences. */
  lemma {:induction false} ValidMeansEncoded(s: Bytes)
    ensures Valid(s) <==> exists rs :: AllScalar(rs) && EncodeAll(rs) == s
  {
    if Valid(s) {
      var rs := Scalars(s);
    }
    if rs :| AllScalar(rs) && EncodeAll(rs) == s {
      EncodeAllValid(rs);
    }
  }

  // ---------------------------------------------------------------------------
  // Ill-formed input
  // ---------------------------------------------------------------------------

  lemma DecodesScalar(s: Bytes)
    requires s != []
    ensures var (r, size) := DecodeRune(s);
            Scalar(r) && 1 <= size <= |s| && (s[0] < 0x80 <==> r < 0x80)
              && (s[0] < 0x80 ==> Encode(r) == [s[0]] && size == 1)
  {
    if HeadLength(s) > 0 {
      EncodeOfHead(s);
    }
  }

  /** The input with every byte that begins no well-formed sequence replaced by U+FFFD. */
  function Sanitize(s: Bytes): Bytes
    decreases |s|
  {
    if s == [] then []
    else
      DecodesScalar(s);
      var (r, size) := DecodeRune(s);
      Encode(r) + Sanitize(s[size..])
  }

  lemma {:induction false} SanitizeIsValid(s: Bytes)
    ensures Valid(Sanitize(s))
    decreases |s|
  {
    hide DecodeRune, Encode, Valid;
    if s == [] {
      EncodeAllValid([]);
    } else {
      DecodesScalar(s);
      var (r, size) := DecodeRune(s);
      SanitizeIsValid(s[size..]);
      ValidPrepend(r, Sanitize(s[size..]));
    }
  }

  /** Valid UTF-8 stays as it is. */
  lemma {:induction false} SanitizeKeepsValid(s: Bytes)
    requires Valid(s)
    ensures Sanitize(s) == s
    decreases |s|
  {
    if s != [] {
      EncodeOfHead(s);
      SanitizeKeepsValid(s[HeadLength(s)..]);
      assert s == s[..HeadLength(s)] + s[HeadLength(s)..];
    }
  }

  predicate AllAscii(s: Bytes) { forall i :: 0 <= i < |s| ==> s[i] < 0x80 }

  lemma SanitizeAscii(s: Bytes)
    requires s != [] && s[0] < 0x80
    ensures Sanitize(s) == [s[0]] + Sanitize(s[1..])
  {
    hide Encode, DecodeRune;
    DecodesScalar(s);
  }

  /** An ASCII prefix stays in place. */
  lemma {:induction false} SanitizeKeepsAscii(s: Bytes, k: nat)
    requires k <= |s| && AllAscii(s[..k])
    ensures Sanitize(s) == s[..k] + Sanitize(s[k..])
  {
    hide Sanitize;
    if k == 0 {
      assert s[0..] == s;
    } else {
      assert s[0] == s[..k][0];
      SanitizeAscii(s);
      assert s[1..][..k - 1] == s[..k][1..];
      SanitizeKeepsAscii(s[1..], k - 1);
      assert s[1..][k - 1..] == s[k..] && s[..k] == [s[0]] + s[1..][..k - 1];
      ConcatAssoc([s[0]], s[1..][..k - 1], Sanitize(s[k..]));
    }
  }

  /** The bytes of a character beyond ASCII are all beyond ASCII. */
  lemma {:induction false} EncodeHigh(r: int)
    requires Scalar(r) && r >= 0x80
    ensures forall i :: 0 <= i < |Encode(r)| ==> Encode(r)[i] >= 0x80
  {
  }

  lemma SanitizeHigh(s: Bytes)
    requires s != [] && s[0] >= 0x80
    ensures Sanitize(s) != [] && Sanitize(s)[0] >= 0x80
  {
    hide DecodeRune;
    DecodesScalar(s);
    EncodeHigh(DecodeRune(s).0);
  }

  /** An ASCII prefix of the result was there before. */
  lemma {:induction false} SanitizeAddsNoAscii(s: Bytes, k: nat)
    requires k <= |Sanitize(s)| && AllAscii(Sanitize(s)[..k])
    ensures k <= |s| && s[..k] == Sanitize(s)[..k]
  {
    hide Sanitize;
    if k > 0 {
      var t := Sanitize(s);
      assert t[0] == t[..k][0];
      NothingFromNothing();
      if s[0] >= 0x80 {
        SanitizeHigh(s);
      } else {
        SanitizeAscii(s);
        var tail := Sanitize(s[1..]);
        assert t[1..] == tail && tail[..k - 1] == t[..k][1..];
        SanitizeAddsNoAscii(s[1..], k - 1);
        assert s[..k] == [s[0]] + s[1..][..k - 1] && t[..k] == [s[0]] + tail[..k - 1];
      }
    }
  }

  lemma NothingFromNothing()
    ensures Sanitize([]) == []
  {
  }

  /** Byte-wise order. */
  predicate BytesLess(a: Bytes, b: Bytes) {
    b != [] && (a == [] || a[0] < b[0] || (a[0] == b[0] && BytesLess(a[1..], b[1..])))
  }

  lemma FirstDiffers(a: Bytes, b: Bytes, k: nat)
    requires k < |a| && k < |b| && a[..k] == b[..k] && a[k] < b[k]
    ensures BytesLess(a, b)
  {
    if k > 0 {
      assert a[0] == a[..k][0] && b[0] == b[..k][0];
      assert a[1..][..k - 1] == a[..k][1..] && b[1..][..k - 1] == b[..k][1..];
      FirstDiffers(a[1..], b[1..], k - 1);
    }
  }

  lemma LeadOrder(a: Bytes, b: Bytes)
    requires HeadLength(a) == |a| > 0 && HeadLength(b) == |b| > 0 && HeadRune(a) < HeadRune(b)
    ensures |a| <= |b| && (|a| < |b| ==> a[0] < b[0])
  {
  }

  lemma HeadOrder(a: Bytes, b: Bytes) returns (k: nat)
    requires |a| == |b| && HeadLength(a) == |a| > 0 && HeadLength(b) == |b| > 0 && HeadRune(a) < HeadRune(b)
    ensures k < |a| && a[k] < b[k] && forall i :: 0 <= i < k ==> a[i] == b[i]
  {
    k := if a[0] != b[0] then 0 else if a[1] != b[1] then 1 else if a[2] != b[2] then 2 else 3;
  }

  /** Characters are in code point order exactly if their encodings are in byte order (RFC 3629, section 1). */
  lemma {:induction false} EncodeOrder(r: int, q: int)
    requires Scalar(r) && Scalar(q)
    ensures BytesLess(Encode(r), Encode(q)) <==> r < q
  {
    hide BytesLess, Encode, HeadLength, HeadRune;
    if r < q {
      EncodeRises(r, q);
    } else if q < r {
      EncodeRises(q, r);
    }
    BytesOrder(Encode(r), Encode(q));
  }

  lemma EncodeRises(r: int, q: int)
    requires Scalar(r) && Scalar(q) && r < q
    ensures BytesLess(Encode(r), Encode(q))
  {
    hide BytesLess, Encode, HeadLength, HeadRune;
    var (a, b) := (Encode(r), Encode(q));
    HeadOfEncode(r, []);
    HeadOfEncode(q, []);
    assert a + [] == a && b + [] == b;
    LeadOrder(a, b);
    var k := 0;
    if |a| == |b| {
      k := HeadOrder(a, b);
    }
    assert a[..k] == b[..k];
    FirstDiffers(a, b, k);
  }

  lemma {:induction false} BytesOrder(a: Bytes, b: Bytes)
    ensures !(BytesLess(a, b) && BytesLess(b, a)) && !BytesLess(a, a)
  {
    if a != [] {
      BytesOrder(a[1..], if b == [] then [] else b[1..]);
    }
  }
}
