/** The hook's decoder against the strings of RFC 8259 section 7. */
module JsonGrammar {
  import opened Prelude
  import opened Utf8
  import opened JsonDecode
  import opened JsonStrings

  // ---------------------------------------------------------------------------
  // The decoder's tables
  // ---------------------------------------------------------------------------

  lemma {:induction false} DigitsAgree(b: byte)
    ensures forall v :: IsDigit(b, v) <==> HexValue(b) == Some(v)
    ensures IsHex(b) <==> HexValue(b).Some?
    ensures IsHex(b) ==> HexValue(b) == Some(DigitValue(b))
  {
    forall v | 0 <= v < 16 ensures IsDigit(b, v) <==> HexValue(b) == Some(v) {
      DigitChars(v);
    }
    if HexValue(b).Some? {
      assert IsDigit(b, HexValue(b).value);
    }
  }

  lemma DigitChars(v: int)
    requires 0 <= v < 16
    ensures LOWER_DIGITS[v] as int == if v < 10 then 0x30 + v else 0x61 + v - 10
    ensures UPPER_DIGITS[v] as int == if v < 10 then 0x30 + v else 0x41 + v - 10
  {
  }

  /** Four digits are hexadecimal to the decoder exactly if they are, and it reads the number they write. */
  lemma {:induction false} UnitsAgree(h: Bytes)
    requires |h| == 4
    ensures IsUnit(h) <==> AllHex(h)
    ensures IsUnit(h) ==> UnitValue(h) == HexNumber(h)
  {
    hide IsDigit, HexValue, IsHex;
    DigitsAgree(h[0]);
    DigitsAgree(h[1]);
    DigitsAgree(h[2]);
    DigitsAgree(h[3]);
    if AllHex(h) {
      assert h[..3][..2] == h[..2] && h[..2][..1] == h[..1] && h[..1][..0] == [];
      assert HexNumber(h[..1]) == HexValue(h[0]).value;
      assert HexNumber(h[..2]) == 16 * HexNumber(h[..1]) + HexValue(h[1]).value;
      assert HexNumber(h[..3]) == 16 * HexNumber(h[..2]) + HexValue(h[2]).value;
    }
  }

  lemma {:induction false} EscapesAgree(c: byte)
    ensures c in ESCAPES <==> ShortEscape(c).Some?
    ensures c in ESCAPES ==> ShortEscape(c).value as int == ESCAPES[c]
  {
  }

  // ---------------------------------------------------------------------------
  // Every string of the grammar decodes to its meaning
  // ---------------------------------------------------------------------------

  /** The first character of es, how many elements make it up, and how many bytes they take. */
  ghost predicate FirstTurn(es: seq<Elem>, rune: int, elems: nat)
    requires AllWellFormed(es)
  {
    && Scalar(rune) && 1 <= elems <= |es|
    && Meaning(es) == [rune] + Meaning(es[elems..])
    && Render(es) != [] && Next(Render(es)).Emit? && Next(Render(es)).out == Encode(rune)
    && Next(Render(es)).consumed <= |Render(es)|
    && Render(es)[Next(Render(es)).consumed..] == Render(es[elems..])
  }

  lemma PlainTurn(es: seq<Elem>)
    requires AllWellFormed(es) && es != [] && es[0].Plain?
    ensures FirstTurn(es, es[0].rune, 1)
  {
    var r, rest := es[0].rune, Render(es[1..]);
    HeadOfEncode(r, rest);
    if r >= 0x80 {
      EncodeHigh(r);
      assert (Encode(r) + rest)[0] == Encode(r)[0];
    }
    assert Next(Encode(r) + rest) == Emit(Encode(r), |Encode(r)|);
    assert (Encode(r) + rest)[|Encode(r)|..] == rest;
  }

  lemma ShortTurn(es: seq<Elem>)
    requires AllWellFormed(es) && es != [] && es[0].Short?
    ensures FirstTurn(es, ESCAPES[es[0].letter], 1)
  {
    hide ESCAPES, IsUnit, UnitValue, PairRune;
    EscapesAgree(es[0].letter);
    EscapesAreScalars();
    DropConcat([BACKSLASH, es[0].letter], Render(es[1..]));
  }

  /** What follows begins with a \u escape exactly when the next element is one. */
  lemma NextElement(es: seq<Elem>)
    requires AllWellFormed(es)
    ensures var s := Render(es);
            (es != [] && es[0].Unit?) <==> |s| >= 2 && s[0] == BACKSLASH && s[1] == LOWER_U
    ensures var s := Render(es);
            es != [] && es[0].Unit? ==> |s| >= 6 && s[2..6] == es[0].digits
  {
    if es != [] && es[0].Plain? && es[0].rune >= 0x80 {
      EncodeHigh(es[0].rune);
    }
  }

  lemma UnitLength(h: Bytes)
    requires IsUnit(h)
    ensures |h| == 4
  {
  }

  /** What the decoder makes of four digits after \u and the bytes that follow them. */
  lemma {:induction false} EscapeOfDigits(h: Bytes, t: Bytes)
    requires IsUnit(h)
    ensures DecodeUnicodeEscape(h + t) ==
            if && |t| >= 6 && t[0] == BACKSLASH && t[1] == LOWER_U && IsUnit(t[2..6])
               && IsPair(UnitValue(h), UnitValue(t[2..6])) then Some((PairRune(UnitValue(h), UnitValue(t[2..6])), 10))
            else Some((Lone(h), 4))
  {
    hide HexNumber, IsUnit, UnitValue, AllHex;
    UnitLength(h);
    UnitsAgree(h);
    var s := h + t;
    assert s[..4] == h;
    if |t| >= 6 {
      assert s[4] == t[0] && s[5] == t[1] && s[6..10] == t[2..6];
      UnitsAgree(t[2..6]);
    }
  }

  /** The escape that follows \u, given the elements after it. */
  lemma EscapeOfUnit(h: Bytes, rest: seq<Elem>)
    requires Unit(h).WellFormed() && AllWellFormed(rest)
    ensures DecodeUnicodeEscape(h + Render(rest)) ==
            if BeginsWithPair([Unit(h)] + rest) then Some((PairRune(UnitValue(h), UnitValue(rest[0].digits)), 10))
            else Some((Lone(h), 4))
  {
    hide DecodeUnicodeEscape, IsUnit, UnitValue, Render, ESCAPES, Lone, PairRune;
    EscapeOfDigits(h, Render(rest));
    NextElement(rest);
    var es := [Unit(h)] + rest;
    assert es[0] == Unit(h) && (rest != [] ==> es[1] == rest[0]);
  }

  lemma UnitTurn(es: seq<Elem>) returns (rune: int, elems: nat)
    requires AllWellFormed(es) && es != [] && es[0].Unit?
    ensures FirstTurn(es, rune, elems)
  {
    hide DecodeUnicodeEscape, UnitValue, IsUnit, ESCAPES, PairRune, Lone, Encode;
    var h, rest := es[0].digits, es[1..];
    assert es == [Unit(h)] + rest;
    UnitLength(h);
    EscapeOfUnit(h, rest);
    var s := Render(es);
    ConcatAssoc([BACKSLASH, LOWER_U], h, Render(rest));
    DropConcat([BACKSLASH, LOWER_U], h + Render(rest));
    DropConcat([BACKSLASH, LOWER_U] + h, Render(rest));
    if BeginsWithPair(es) {
      UnitLength(rest[0].digits);
      rune, elems := PairRune(UnitValue(h), UnitValue(rest[0].digits)), 2;
      assert rest[1..] == es[2..];
      DropConcat([BACKSLASH, LOWER_U] + rest[0].digits, Render(es[2..]));
      DropDrop(s, 6, 6);
    } else {
      rune, elems := Lone(h), 1;
    }
  }

  lemma FirstTurnOf(es: seq<Elem>) returns (rune: int, elems: nat)
    requires AllWellFormed(es) && es != []
    ensures FirstTurn(es, rune, elems)
  {
    hide FirstTurn;
    match es[0]
    case Plain(r) =>
      PlainTurn(es);
      return r, 1;
    case Short(c) =>
      ShortTurn(es);
      return ESCAPES[c], 1;
    case Unit(h) =>
      rune, elems := UnitTurn(es);
  }

  /** Decoding the text of any well-formed string gives the UTF-8 form of its meaning. */
  lemma {:induction false} DecodesToMeaning(es: seq<Elem>)
    requires AllWellFormed(es)
    ensures Unescape(Render(es)) == Ok(EncodeAll(Meaning(es)))
    decreases |es|
  {
    hide Next, Encode, Render, Meaning;
    if es == [] {
      EmptyString();
    } else {
      var rune, elems := FirstTurnOf(es);
      DecodesToMeaning(es[elems..]);
      assert ([rune] + Meaning(es[elems..]))[1..] == Meaning(es[elems..]);
    }
  }

  lemma EmptyString()
    ensures Render([]) == [] && Meaning([]) == []
  {
  }

  // ---------------------------------------------------------------------------
  // Nothing else decodes
  // ---------------------------------------------------------------------------

  lemma {:induction false} DropAscii(s: Bytes, k: nat)
    requires Valid(s) && k <= |s| && forall i :: 0 <= i < k ==> s[i] < 0x80
    ensures Valid(s[k..])
  {
    if k == 0 {
      assert s[0..] == s;
    } else {
      assert Valid(s[1..]);
      DropAscii(s[1..], k - 1);
      assert s[1..][k - 1..] == s[k..];
    }
  }

  /** The bytes of a \u escape, or of two that make a pair, that a turn has consumed. */
  lemma EscapeBytes(s: Bytes)
    requires |s| >= 2 && s[0] == BACKSLASH && s[1] == LOWER_U && Next(s).Emit?
    ensures var n := Next(s).consumed;
            && (n == 6 || n == 12) && n <= |s| && AllHex(s[2..6])
            && (n == 12 ==> s[6] == BACKSLASH && s[7] == LOWER_U && AllHex(s[8..12]))
  {
    hide HexNumber, AllHex, AppendRune;
    var t := s[2..];
    if |t| >= 4 {
      DropSlice(s, 2, 0, 4);
    }
    if |t| >= 10 {
      DropSlice(s, 2, 6, 10);
    }
  }

  lemma UnitsOf(s: Bytes) returns (es: seq<Elem>)
    requires |s| >= 2 && s[0] == BACKSLASH && s[1] == LOWER_U && Next(s).Emit?
    ensures AllWellFormed(es) && Next(s).consumed <= |s| && Render(es) == s[..Next(s).consumed]
    ensures forall i :: 0 <= i < Next(s).consumed ==> s[i] < 0x80
  {
    hide Next, HexNumber, IsUnit, AllHex;
    EscapeBytes(s);
    var n, first := Next(s).consumed, Unit(s[2..6]);
    UnitsAgree(s[2..6]);
    HexIsAscii(s[2..6]);
    RenderOne(first);
    assert s[..6] == first.Text();
    forall i | 0 <= i < 6 ensures s[i] < 0x80 {
      assert 2 <= i ==> s[i] == s[2..6][i - 2];
    }
    if n == 6 {
      es := [first];
    } else {
      var second := Unit(s[8..12]);
      UnitsAgree(s[8..12]);
      HexIsAscii(s[8..12]);
      RenderOne(second);
      es := [first, second];
      assert es[1..] == [second] && s[6..12] == second.Text();
      assert s[..12] == s[..6] + s[6..12];
      forall i | 6 <= i < 12 ensures s[i] < 0x80 {
        assert 8 <= i ==> s[i] == s[8..12][i - 8];
      }
    }
  }

  lemma RenderOne(e: Elem)
    requires e.WellFormed()
    ensures Render([e]) == e.Text()
  {
    assert Render([e][1..]) == [];
  }

  lemma {:induction false} RenderConcat(a: seq<Elem>, b: seq<Elem>)
    requires AllWellFormed(a) && AllWellFormed(b)
    ensures AllWellFormed(a + b) && Render(a + b) == Render(a) + Render(b)
  {
    hide Elem.WellFormed, Elem.Text;
    if a == [] {
      assert a + b == b;
    } else {
      RenderConcat(a[1..], b);
      assert (a + b)[1..] == a[1..] + b;
      ConcatAssoc(a[0].Text(), Render(a[1..]), Render(b));
    }
  }

  lemma FirstElements(s: Bytes) returns (es: seq<Elem>)
    requires Valid(s) && s != [] && Next(s).Emit?
    ensures AllWellFormed(es) && Next(s).consumed <= |s| && Render(es) == s[..Next(s).consumed]
    ensures Valid(s[Next(s).consumed..])
  {
    var n := Next(s).consumed;
    if s[0] != BACKSLASH {
      EncodeOfHead(s);
      es := [Plain(HeadRune(s))];
      RenderOne(es[0]);
    } else if s[1] == LOWER_U {
      es := UnitsOf(s);
      DropAscii(s, n);
    } else {
      EscapesAgree(s[1]);
      es := [Short(s[1])];
      RenderOne(es[0]);
      DropAscii(s, 2);
    }
  }

  lemma {:induction false} Elements(s: Bytes) returns (es: seq<Elem>)
    requires Valid(s) && Unescape(s).Ok?
    ensures AllWellFormed(es) && Render(es) == s
    decreases |s|
  {
    hide Next, HeadLength, Render, Valid;
    if s == [] {
      es := [];
      EmptyString();
    } else {
      TurnBound(s);
      var n := Next(s).consumed;
      var first := FirstElements(s);
      var rest := Elements(s[n..]);
      es := first + rest;
      RenderConcat(first, rest);
      assert s == s[..n] + s[n..];
    }
  }

  // ---------------------------------------------------------------------------
  // Ill-formed UTF-8
  // ---------------------------------------------------------------------------

  lemma HexIsAscii(s: Bytes)
    requires AllHex(s)
    ensures AllAscii(s)
  {
  }

  /** The bytes of a surrogate pair after the first \u. */
  predicate PairFollows(s: Bytes) {
    |s| >= 10 && AllHex(s[..4]) && s[4] == BACKSLASH && s[5] == LOWER_U && AllHex(s[6..10])
  }

  lemma PairIsAscii(s: Bytes)
    requires PairFollows(s)
    ensures AllAscii(s[..10])
  {
    forall i | 0 <= i < 10 ensures s[i] < 0x80 {
      assert i < 4 ==> s[i] == s[..4][i];
      assert i >= 6 ==> s[i] == s[6..10][i - 6];
    }
  }

  /** Both forms begin with four hexadecimal digits, or neither does; the same for the bytes of a pair. */
  lemma {:induction false} SanitizedEscape(s: Bytes)
    ensures var t := Sanitize(s);
            && (|s| >= 4 && AllHex(s[..4]) <==> |t| >= 4 && AllHex(t[..4]))
            && (|s| >= 4 && AllHex(s[..4]) ==> t == s[..4] + Sanitize(s[4..]))
            && (PairFollows(s) <==> PairFollows(t))
            && (PairFollows(s) ==> t == s[..10] + Sanitize(s[10..]))
  {
    hide Sanitize, HexValue;
    var t := Sanitize(s);
    if |s| >= 4 && AllHex(s[..4]) {
      HexIsAscii(s[..4]);
      SanitizeKeepsAscii(s, 4);
      assert t[..4] == s[..4];
    }
    if |t| >= 4 && AllHex(t[..4]) {
      HexIsAscii(t[..4]);
      SanitizeAddsNoAscii(s, 4);
    }
    if PairFollows(s) {
      PairIsAscii(s);
      SanitizeKeepsAscii(s, 10);
      assert t[..10] == s[..10];
      SamePair(s, t);
    }
    if PairFollows(t) {
      PairIsAscii(t);
      SanitizeAddsNoAscii(s, 10);
      SamePair(t, s);
    }
  }

  lemma SamePair(s: Bytes, t: Bytes)
    requires PairFollows(s) && |t| >= 10 && t[..10] == s[..10]
    ensures PairFollows(t) && t[6..10] == s[6..10]
  {
    assert forall i :: 0 <= i < 10 ==> t[i] == t[..10][i] == s[..10][i] == s[i];
    assert t[..4] == s[..4] && t[6..10] == s[6..10];
  }

  lemma {:induction false} EscapeKept(s: Bytes)
    ensures DecodeUnicodeEscape(Sanitize(s)) == DecodeUnicodeEscape(s)
    ensures DecodeUnicodeEscape(s).Some? ==>
              var n := DecodeUnicodeEscape(s).value.1;
              n <= |s| && n <= |Sanitize(s)| && Sanitize(s)[n..] == Sanitize(s[n..])
  {
    hide Sanitize, HexValue, HexNumber;
    SanitizedEscape(s);
    var t := Sanitize(s);
    if |s| >= 4 && AllHex(s[..4]) {
      assert t[..4] == s[..4] && t[4..] == Sanitize(s[4..]);
    }
    if PairFollows(s) {
      assert t[..10] == s[..10] && t[10..] == Sanitize(s[10..]);
      SamePair(s, t);
    }
  }

  /** One turn of the decoding loop does the same on both forms and leaves both forms of the rest. */
  lemma {:induction false} TurnKept(s: Bytes)
    requires s != []
    ensures var t := Sanitize(s);
            && t != [] && (Next(t).Reject? <==> Next(s).Reject?)
            && (Next(s).Emit? ==> && Next(s).consumed <= |s| && Next(t).consumed <= |t| && Next(t).out == Next(s).out
                                  && t[Next(t).consumed..] == Sanitize(s[Next(s).consumed..]))
  {
    hide Sanitize, DecodeUnicodeEscape, HeadLength, HeadRune, Encode;
    var t := Sanitize(s);
    if s[0] >= 0x80 {
      HighTurn(s);
    } else {
      SanitizeAscii(s);
      NothingFromNothing();
      if s[0] == BACKSLASH && |s| >= 2 {
        if s[1] >= 0x80 {
          SanitizeHigh(s[1..]);
          assert t[1] == Sanitize(s[1..])[0];
        } else {
          SanitizeAscii(s[1..]);
          assert t[2..] == Sanitize(s[1..][1..]) && s[1..][1..] == s[2..];
          EscapeKept(s[2..]);
          RestAfterEscape(s, t);
        }
      } else {
        assert t[1..] == Sanitize(s[1..]);
      }
    }
  }

  lemma RestAfterEscape(s: Bytes, t: Bytes)
    requires |s| >= 2 && |t| >= 2
    ensures forall n :: 0 <= n <= |s| - 2 ==> s[2..][n..] == s[2 + n..]
    ensures forall n :: 0 <= n <= |t| - 2 ==> t[2..][n..] == t[2 + n..]
  {
  }

  lemma {:induction false} HighTurn(s: Bytes)
    requires s != [] && s[0] >= 0x80
    ensures var t := Sanitize(s);
            && t != [] && Next(s).Emit? && Next(t).Emit? && Next(t).out == Next(s).out
            && Next(s).consumed <= |s| && Next(t).consumed <= |t|
            && t[Next(t).consumed..] == Sanitize(s[Next(s).consumed..])
  {
    hide Encode, HeadRune, HeadLength;
    DecodesScalar(s);
    var (r, size) := DecodeRune(s);
    var rest := Sanitize(s[size..]);
    assert Sanitize(s) == Encode(r) + rest;
    HeadOfEncode(r, rest);
    EncodeHigh(r);
    assert (Encode(r) + rest)[|Encode(r)|..] == rest;
  }

  /** For every input, decoding it is decoding its well-formed version, with U+FFFD for each ill-formed byte. */
  lemma {:induction false} DecodesAsSanitized(s: Bytes)
    ensures Unescape(s) == Unescape(Sanitize(s))
    decreases |s|
  {
    hide Next, Sanitize;
    if s == [] {
      NothingFromNothing();
    } else {
      TurnKept(s);
      if Next(s).Emit? {
        TurnBound(s);
        DecodesAsSanitized(s[Next(s).consumed..]);
      }
    }
  }

  /**
    * For every input the decoder accepts exactly if its well-formed version is a string body of the grammar, and then
    * yields the UTF-8 of what that means.
    */
  lemma {:induction false} AcceptsExactlyTheGrammar(s: Bytes)
    ensures Unescape(s).Ok? <==> exists es :: AllWellFormed(es) && Render(es) == Sanitize(s)
    ensures forall es :: AllWellFormed(es) && Render(es) == Sanitize(s) ==> Unescape(s) == Ok(EncodeAll(Meaning(es)))
    ensures Valid(s) ==> Sanitize(s) == s
  {
    hide Unescape, Sanitize, Render, Meaning;
    DecodesAsSanitized(s);
    SanitizeIsValid(s);
    if Valid(s) {
      SanitizeKeepsValid(s);
    }
    if Unescape(s).Ok? {
      var es := Elements(Sanitize(s));
    }
    forall es | AllWellFormed(es) && Render(es) == Sanitize(s) ensures Unescape(s) == Ok(EncodeAll(Meaning(es))) {
      DecodesToMeaning(es);
    }
  }

  // ---------------------------------------------------------------------------
  // Surrogate pairs
  // ---------------------------------------------------------------------------

  function DigitByte(v: int, upper: bool): byte
    requires 0 <= v < 16
  {
    (if v < 10 then 0x30 + v else if upper then 0x41 + v - 10 else 0x61 + v - 10) as byte
  }

  /** A number below 0x10000 in four hexadecimal digits. */
  function UnitText(n: int, upper: bool): Bytes
    requires 0 <= n < 0x10000
  {
    [DigitByte(n / 0x1000, upper), DigitByte(n / 0x100 % 16, upper), DigitByte(n / 0x10 % 16, upper),
      DigitByte(n % 16, upper)]
  }

  lemma DigitByteIs(v: int, upper: bool)
    requires 0 <= v < 16
    ensures IsHex(DigitByte(v, upper)) && DigitValue(DigitByte(v, upper)) == v
  {
    DigitsAgree(DigitByte(v, upper));
  }

  lemma {:induction false} UnitTextIs(n: int, upper: bool)
    requires 0 <= n < 0x10000
    ensures IsUnit(UnitText(n, upper)) && UnitValue(UnitText(n, upper)) == n
  {
    hide DigitByte, IsHex;
    DigitByteIs(n / 0x1000, upper);
    DigitByteIs(n / 0x100 % 16, upper);
    DigitByteIs(n / 0x10 % 16, upper);
    DigitByteIs(n % 16, upper);
    assert n / 0x100 == n / 0x10 / 16 && n / 0x1000 == n / 0x100 / 16;
  }

  /**
    * The escaped surrogate pair of any scalar beyond the first 0x10000, in digits of either case, decodes to that
    * scalar.
    */
  lemma {:induction false} EscapedPairDecodes(r: int, upper: bool, upper': bool)
    requires 0x10000 <= r <= 0x10FFFF
    ensures Unescape([BACKSLASH, LOWER_U] + UnitText(HighSurrogate(r), upper)
                     + ([BACKSLASH, LOWER_U] + UnitText(LowSurrogate(r), upper'))) == Ok(Encode(r))
  {
    hide UnitText, Encode, Unescape, IsUnit, UnitValue;
    PairRuneIsUnique(r);
    UnitTextIs(HighSurrogate(r), upper);
    UnitTextIs(LowSurrogate(r), upper');
    var (high, low) := (Unit(UnitText(HighSurrogate(r), upper)), Unit(UnitText(LowSurrogate(r), upper')));
    RenderOne(low);
    assert [high, low][1..] == [low] && [high, low][2..] == [];
    DecodesToMeaning([high, low]);
    assert [r][1..] == [] && Meaning([high, low]) == [r] + Meaning([]) == [r];
    assert EncodeAll([r]) == Encode(r) + EncodeAll([]) == Encode(r);
  }
}
