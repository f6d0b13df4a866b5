/** The Graph client's JSON string encoder and request bodies (internal/graphclient/client.go). */
module JsonEncode {
  import opened Prelude
  import opened Utf8
  import opened JsonDecode
  import opened JsonStrings
  import opened JsonGrammar

  function HexDigit(n: int): byte
    requires 0 <= n < 16
  {
    (if n < 10 then 0x30 + n else 0x61 + n - 10) as byte
  }

  /** Hexadecimal digits are written in lower case. */
  lemma HexDigitIs(n: int)
    requires 0 <= n < 16
    ensures HexDigit(n) as int == LOWER_DIGITS[n] as int
  {
    DigitChars(n);
  }

  function EscapeByte(b: byte): Bytes {
    if b == BACKSLASH || b == QUOTE then [BACKSLASH, b]
    else if b == 0x0A then [BACKSLASH, 0x6E]
    else if b == 0x0D then [BACKSLASH, 0x72]
    else if b == 0x09 then [BACKSLASH, 0x74]
    else if b < 0x20 then [BACKSLASH, LOWER_U, 0x30, 0x30, HexDigit(b as int / 16), HexDigit(b as int % 16)]
    else [b]
  }

  function EscapeAll(v: Bytes): Bytes {
    if v == [] then [] else EscapeByte(v[0]) + EscapeAll(v[1..])
  }

  function EncodeString(v: Bytes): Bytes {
    [QUOTE] + EscapeAll(v) + [QUOTE]
  }

  lemma {:induction false} EscapeAllConcat(a: Bytes, b: Bytes)
    ensures EscapeAll(a + b) == EscapeAll(a) + EscapeAll(b)
  {
    hide EscapeByte;
    if a == [] {
      assert a + b == b;
    } else {
      EscapeAllConcat(a[1..], b);
      assert (a + b)[1..] == a[1..] + b;
      ConcatAssoc(EscapeByte(a[0]), EscapeAll(a[1..]), EscapeAll(b));
    }
  }

  lemma EscapeOne(b: byte)
    ensures EscapeAll([b]) == EscapeByte(b)
  {
    assert EscapeAll([b][1..]) == [];
  }

  method AppendJsonString(dst: Bytes, value: Bytes) returns (r: Bytes)
    ensures r == dst + EncodeString(value)
  {
    hide EscapeAll;
    r := dst + [QUOTE];
    assert EscapeAll(value[..0]) == [] by { EscapeNone(); }
    for i := 0 to |value|
      invariant r == dst + [QUOTE] + EscapeAll(value[..i])
    {
      var b := value[i];
      assert value[..i + 1] == value[..i] + [b];
      EscapeAllConcat(value[..i], [b]);
      EscapeOne(b);
      if b == BACKSLASH || b == QUOTE {
        r := r + [BACKSLASH, b];
      } else if b == 0x0A {
        r := r + [BACKSLASH, 0x6E];
      } else if b == 0x0D {
        r := r + [BACKSLASH, 0x72];
      } else if b == 0x09 {
        r := r + [BACKSLASH, 0x74];
      } else if b < 0x20 {
        r := r + [BACKSLASH, LOWER_U, 0x30, 0x30, HexDigit(b as int / 16), HexDigit(b as int % 16)];
      } else {
        r := r + [b];
      }
    }
    assert value[..|value|] == value;
    r := r + [QUOTE];
  }

  lemma EscapeNone()
    ensures EscapeAll([]) == []
  {
  }

  // ---------------------------------------------------------------------------
  // Round trip
  // ---------------------------------------------------------------------------

  /** The JSON element the encoder writes for a character. */
  function ElemOf(r: int): Elem {
    if r == BACKSLASH as int then Short(BACKSLASH)
    else if r == QUOTE as int then Short(QUOTE)
    else if r == 0x0A then Short(0x6E)
    else if r == 0x0D then Short(0x72)
    else if r == 0x09 then Short(0x74)
    else if 0 <= r < 0x20 then Unit([0x30, 0x30, HexDigit(r / 16), HexDigit(r % 16)])
    else Plain(r)
  }

  lemma {:induction false} EscapeHigh(v: Bytes)
    requires forall i :: 0 <= i < |v| ==> v[i] >= 0x80
    ensures EscapeAll(v) == v
  {
    if v != [] {
      EscapeHigh(v[1..]);
    }
  }

  lemma ControlDigits(r: int)
    requires 0 <= r < 0x20
    ensures var h := [0x30, 0x30, HexDigit(r / 16), HexDigit(r % 16)]; IsUnit(h) && UnitValue(h) == r
  {
    hide IsHex;
    DigitsAgree(0x30);
    DigitsAgree(HexDigit(r / 16));
    DigitsAgree(HexDigit(r % 16));
  }

  /** The encoder writes each character as one element that means that character and starts no surrogate pair. */
  lemma {:induction false} EscapeOfRune(r: int)
    requires Scalar(r)
    ensures ElemOf(r).WellFormed() && EscapeAll(Encode(r)) == ElemOf(r).Text()
    ensures ElemOf(r).Unit? ==> UnitValue(ElemOf(r).digits) == r < 0x20
    ensures ElemOf(r).Short? ==> ESCAPES[ElemOf(r).letter] == r
    ensures ElemOf(r).Plain? ==> ElemOf(r).rune == r
  {
    if r < 0x80 {
      EscapeOne(r as byte);
      if r < 0x20 {
        ControlDigits(r);
      }
    } else {
      EncodeHigh(r);
      EscapeHigh(Encode(r));
    }
  }

  function ElemsOf(rs: seq<int>): seq<Elem> {
    if rs == [] then [] else [ElemOf(rs[0])] + ElemsOf(rs[1..])
  }

  lemma {:induction false} EncodesElements(rs: seq<int>)
    requires AllScalar(rs)
    ensures AllWellFormed(ElemsOf(rs)) && Render(ElemsOf(rs)) == EscapeAll(EncodeAll(rs))
    ensures Meaning(ElemsOf(rs)) == rs
  {
    hide ElemOf, Encode, EscapeAll, UnitValue, IsUnit, ESCAPES;
    if rs != [] {
      EncodesElements(rs[1..]);
      EscapeOfRune(rs[0]);
      EscapeAllConcat(Encode(rs[0]), EncodeAll(rs[1..]));
      var es := ElemsOf(rs);
      assert es[0] == ElemOf(rs[0]) && es[1..] == ElemsOf(rs[1..]);
      assert rs == [rs[0]] + rs[1..];
      assert !BeginsWithPair(es);
    } else {
      EscapeNone();
    }
  }

  /** Decoding undoes encoding exactly on valid UTF-8. */
  lemma {:induction false} RoundTrip(v: Bytes)
    ensures Decode(EncodeString(v)) == Ok(v) <==> Valid(v)
  {
    hide Unescape, EscapeAll, Valid;
    assert EncodeString(v)[1..|EncodeString(v)| - 1] == EscapeAll(v);
    if Valid(v) {
      var rs := Scalars(v);
      EncodesElements(rs);
      DecodesToMeaning(ElemsOf(rs));
    }
    if Unescape(EscapeAll(v)) == Ok(v) {
      UnescapeIsValid(EscapeAll(v));
    }
  }

  predicate AllHigh(s: Bytes) { forall i :: 0 <= i < |s| ==> s[i] >= 0x80 }

  /** Bytes beyond ASCII at the start of the escaped form stand at the start of the value. */
  lemma {:induction false} HighPrefix(v: Bytes, k: nat)
    requires k <= |EscapeAll(v)| && AllHigh(EscapeAll(v)[..k])
    ensures k <= |v| && v[..k] == EscapeAll(v)[..k]
  {
    if k > 0 {
      var t := EscapeAll(v);
      assert t[0] == t[..k][0];
      assert EscapeByte(v[0]) == [v[0]];
      assert t[1..] == EscapeAll(v[1..]) && t[1..][..k - 1] == t[..k][1..];
      HighPrefix(v[1..], k - 1);
      assert v[..k] == [v[0]] + v[1..][..k - 1] && t[..k] == [t[0]] + t[1..][..k - 1];
    }
  }

  lemma HeadIsHigh(s: Bytes)
    requires s != [] && s[0] >= 0x80 && HeadLength(s) > 0
    ensures AllHigh(s[..HeadLength(s)])
  {
  }

  lemma HeadIsPrefix(s: Bytes, t: Bytes)
    requires HeadLength(s) > 0 && HeadLength(s) <= |t| && t[..HeadLength(s)] == s[..HeadLength(s)]
    ensures HeadLength(t) > 0
  {
    var n := HeadLength(s);
    assert forall i :: 0 <= i < n ==> t[i] == t[..n][i] == s[..n][i] == s[i];
  }

  /** Escaping neither completes nor breaks a well-formed sequence. */
  lemma {:induction false} EscapedRune(v: Bytes)
    requires v != [] && v[0] >= 0x80
    ensures var (r, size) := DecodeRune(v);
            && 1 <= size <= |v| && EscapeAll(v) == v[..size] + EscapeAll(v[size..])
            && EscapeAll(v) != [] && DecodeRune(EscapeAll(v)) == (r, size)
  {
    hide Encode, HeadRune, EscapeByte;
    var t := EscapeAll(v);
    var (r, size) := DecodeRune(v);
    assert EscapeByte(v[0]) == [v[0]] by { HighStays(v[0]); }
    if HeadLength(v) > 0 {
      HeadIsHigh(v);
      EscapeHigh(v[..size]);
      assert v == v[..size] + v[size..];
      EscapeAllConcat(v[..size], v[size..]);
      EncodeOfHead(v);
      HeadOfEncode(r, EscapeAll(v[size..]));
    } else if HeadLength(t) > 0 {
      HeadIsHigh(t);
      HighPrefix(v, HeadLength(t));
      HeadIsPrefix(t, v);
    }
  }

  lemma HighStays(b: byte)
    requires b >= 0x80
    ensures EscapeByte(b) == [b]
  {
  }

  /** Replacing ill-formed bytes and escaping can be done in either order. */
  lemma {:induction false} EscapeSanitized(v: Bytes)
    ensures Sanitize(EscapeAll(v)) == EscapeAll(Sanitize(v))
    decreases |v|
  {
    hide EscapeByte, Sanitize, Encode, HeadLength, HeadRune;
    if v == [] {
      NothingFromNothing();
    } else if v[0] < 0x80 {
      var e := EscapeByte(v[0]);
      EscapeSanitized(v[1..]);
      assert AllAscii(e) by { EscapeIsAscii(v[0]); }
      var t := EscapeAll(v);
      assert t[..|e|] == e && t[|e|..] == EscapeAll(v[1..]);
      SanitizeKeepsAscii(t, |e|);
      SanitizeAscii(v);
      var kept := Sanitize(v);
      assert kept[1..] == Sanitize(v[1..]);
    } else {
      var (r, size) := DecodeRune(v);
      EscapedRune(v);
      EscapeSanitized(v[size..]);
      var t := EscapeAll(v);
      assert t[size..] == EscapeAll(v[size..]);
      SanitizeStep(t);
      SanitizeStep(v);
      DecodesScalar(v);
      EncodeHigh(r);
      EscapeHigh(Encode(r));
      EscapeAllConcat(Encode(r), Sanitize(v[size..]));
    }
  }

  lemma SanitizeStep(s: Bytes)
    requires s != []
    ensures var (r, size) := DecodeRune(s);
            Scalar(r) && 1 <= size <= |s| && Sanitize(s) == Encode(r) + Sanitize(s[size..])
  {
    DecodesScalar(s);
  }

  lemma EscapeIsAscii(b: byte)
    requires b < 0x80
    ensures AllAscii(EscapeByte(b))
  {
  }

  /** For every value, decoding its encoding gives the value with U+FFFD for each ill-formed byte. */
  lemma {:induction false} RoundTripSanitizes(v: Bytes)
    ensures Decode(EncodeString(v)) == Ok(Sanitize(v))
  {
    hide Unescape, EscapeAll, Sanitize;
    var clean := Sanitize(v);
    SanitizeIsValid(v);
    RoundTrip(clean);
    assert EncodeString(clean)[1..|EncodeString(clean)| - 1] == EscapeAll(clean);
    assert EncodeString(v)[1..|EncodeString(v)| - 1] == EscapeAll(v);
    DecodesAsSanitized(EscapeAll(v));
    EscapeSanitized(v);
  }

  // ---------------------------------------------------------------------------
  // Strings inside a larger body
  // ---------------------------------------------------------------------------

  function Shift(n: nat, p: Option<nat>): Option<nat> {
    if p.None? then None else Some(n + p.value)
  }

  /** The position of the first quotation mark that no backslash escapes. */
  function Terminator(s: Bytes): (p: Option<nat>)
    ensures p.Some? ==> p.value < |s| && s[p.value] == QUOTE
  {
    if s == [] then None
    else if s[0] == QUOTE then Some(0)
    else if s[0] != BACKSLASH then Shift(1, Terminator(s[1..]))
    else if |s| == 1 then None
    else Shift(2, Terminator(s[2..]))
  }

  lemma SkipByte(b: byte, rest: Bytes)
    ensures Terminator(EscapeByte(b) + rest) == Shift(|EscapeByte(b)|, Terminator(rest))
  {
    var e := EscapeByte(b);
    var s := e + rest;
    if |e| == 1 {
      assert s[1..] == rest;
    } else if |e| == 2 {
      assert s[2..] == rest;
    } else {
      assert s[2..][1..] == s[3..] && s[3..][1..] == s[4..] && s[4..][1..] == s[5..] && s[5..][1..] == rest;
      assert Terminator(s[2..]) == Shift(1, Terminator(s[3..]));
      assert Terminator(s[3..]) == Shift(1, Terminator(s[4..]));
      assert Terminator(s[4..]) == Shift(1, Terminator(s[5..]));
      assert Terminator(s[5..]) == Shift(1, Terminator(rest));
    }
  }

  lemma {:induction false} SkipEscaped(v: Bytes, rest: Bytes)
    ensures Terminator(EscapeAll(v) + rest) == Shift(|EscapeAll(v)|, Terminator(rest))
  {
    hide EscapeByte, Terminator;
    if v == [] {
      assert EscapeAll(v) + rest == rest;
    } else {
      var e, tail := EscapeByte(v[0]), EscapeAll(v[1..]);
      ConcatAssoc(e, tail, rest);
      SkipByte(v[0], tail + rest);
      SkipEscaped(v[1..], rest);
    }
  }

  /** Whatever the value and whatever follows, no unescaped quotation mark occurs before the terminator. */
  lemma {:induction false} TerminatorIsFirst(v: Bytes, after: Bytes)
    ensures Terminator((EncodeString(v) + after)[1..]) == Some(|EscapeAll(v)|)
  {
    hide EscapeAll, EscapeByte;
    assert (EncodeString(v) + after)[1..] == EscapeAll(v) + ([QUOTE] + after);
    SkipEscaped(v, [QUOTE] + after);
  }

  /** A JSON text is string literals and the signs between them. */
  datatype Token = Literal(value: Result<Bytes>) | Sign(sign: byte)

  /** The tokens of a JSON text, in order, with the string literals decoded. */
  function Tokens(s: Bytes): seq<Token>
    decreases |s|
  {
    if s == [] then []
    else if s[0] != QUOTE then [Sign(s[0])] + Tokens(s[1..])
    else
      match Terminator(s[1..])
      case None => [Literal(Err)]
      case Some(e) => [Literal(Decode(s[..e + 2]))] + Tokens(s[e + 2..])
  }

  function SignsOf(a: Bytes): seq<Token> {
    seq(|a|, i requires 0 <= i < |a| => Sign(a[i]))
  }

  lemma {:induction false} TokensSkip(a: Bytes, b: Bytes)
    requires QUOTE !in a
    ensures Tokens(a + b) == SignsOf(a) + Tokens(b)
  {
    if a == [] {
      assert a + b == b && SignsOf(a) == [];
    } else {
      assert (a + b)[1..] == a[1..] + b;
      TokensSkip(a[1..], b);
      assert SignsOf(a) == [Sign(a[0])] + SignsOf(a[1..]);
      ConcatAssoc([Sign(a[0])], SignsOf(a[1..]), Tokens(b));
    }
  }

  lemma TokensTake(v: Bytes, b: Bytes)
    requires Valid(v)
    ensures Tokens(EncodeString(v) + b) == [Literal(Ok(v))] + Tokens(b)
  {
    hide Decode, EscapeAll;
    var s := EncodeString(v) + b;
    TerminatorIsFirst(v, b);
    RoundTrip(v);
    assert s[..|EncodeString(v)|] == EncodeString(v) && s[|EncodeString(v)|..] == b;
  }

  // ---------------------------------------------------------------------------
  // The request bodies
  // ---------------------------------------------------------------------------

  predicate IsAscii(s: string) {
    forall i :: 0 <= i < |s| ==> s[i] < '\U{0080}'
  }

  function Ascii(s: string): (b: Bytes)
    requires IsAscii(s)
    ensures |b| == |s| && forall i :: 0 <= i < |s| ==> b[i] as int == s[i] as int
  {
    seq(|s|, i requires 0 <= i < |s| => s[i] as byte)
  }

  /** A name that needs no escaping. */
  predicate IsName(s: string) {
    forall i :: 0 <= i < |s| ==> 'A' <= s[i] <= 'z' && s[i] != '\\'
  }

  lemma {:induction false} NamesStay(s: string)
    requires IsName(s)
    ensures EscapeAll(Ascii(s)) == Ascii(s) && Valid(Ascii(s))
  {
    if s != [] {
      NamesStay(s[1..]);
      var b := Ascii(s);
      assert b[1..] == Ascii(s[1..]);
      assert EscapeByte(b[0]) == [b[0]];
    }
  }

  /** A separator, a quoted member name and its colon. */
  function Key(separator: string, name: string): Bytes
    requires IsAscii(separator) && IsName(name)
  {
    Ascii(separator + "\"" + name + "\":")
  }

  function Name(name: string): Token
    requires IsName(name)
  {
    Literal(Ok(Ascii(name)))
  }

  function Signs(text: string): seq<Token>
    requires IsAscii(text)
  {
    SignsOf(Ascii(text))
  }

  lemma TokensPunctuation(text: string, rest: Bytes)
    requires IsAscii(text) && '"' !in text
    ensures Tokens(Ascii(text) + rest) == Signs(text) + Tokens(rest)
  {
    TokensSkip(Ascii(text), rest);
  }

  /** A member name contributes that name between its separator and its colon. */
  lemma TokensKey(separator: string, name: string, rest: Bytes)
    requires IsAscii(separator) && '"' !in separator && IsName(name)
    ensures Tokens(Key(separator, name) + rest) == Signs(separator) + ([Name(name)] + (Signs(":") + Tokens(rest)))
  {
    hide Tokens, EscapeAll, Valid, SignsOf;
    NamesStay(name);
    var colon := Ascii(":");
    assert Key(separator, name) + rest == Ascii(separator) + (EncodeString(Ascii(name)) + (colon + rest));
    TokensPunctuation(separator, EncodeString(Ascii(name)) + (colon + rest));
    TokensTake(Ascii(name), colon + rest);
    TokensPunctuation(":", rest);
  }

  /** The tokens of a member with a string value, and of what follows it. */
  function Member(separator: string, name: string, value: Bytes, rest: seq<Token>): seq<Token>
    requires IsAscii(separator) && IsName(name)
  {
    Signs(separator) + ([Name(name)] + (Signs(":") + ([Literal(Ok(value))] + rest)))
  }

  lemma TokensMember(separator: string, name: string, value: Bytes, rest: Bytes)
    requires IsAscii(separator) && '"' !in separator && IsName(name) && Valid(value)
    ensures Tokens(Key(separator, name) + EncodeString(value) + rest) == Member(separator, name, value, Tokens(rest))
  {
    hide Tokens, EncodeString, Valid, Key, Signs, Name;
    TokensKey(separator, name, EncodeString(value) + rest);
    TokensTake(value, rest);
    ConcatAssoc(Key(separator, name), EncodeString(value), rest);
  }

  /** The password profile that closes both request bodies. */
  function ProfileText(separator: string, password: Bytes): Bytes
    requires IsAscii(separator)
  {
    Key(separator, "passwordProfile") + (Key("{", "password") + EncodeString(password)
                                         + (Key(",", "forceChangePasswordNextSignIn") + Ascii("false}}")))
  }

  /** An object with the password, unchanged, that need not be changed at the next sign-in; then the body ends. */
  function ProfileTokens(separator: string, password: Bytes): seq<Token>
    requires IsAscii(separator)
  {
    Signs(separator) + ([Name("passwordProfile")] + (Signs(":")
      + Member("{", "password", password,
               Signs(",") + ([Name("forceChangePasswordNextSignIn")] + (Signs(":") + Signs("false}}"))))))
  }

  lemma TokensProfile(separator: string, password: Bytes)
    requires IsAscii(separator) && '"' !in separator && Valid(password)
    ensures Tokens(ProfileText(separator, password)) == ProfileTokens(separator, password)
  {
    hide Tokens, EncodeString, Valid, Key, Ascii, Member, Signs, Name;
    var end := Ascii("false}}");
    OnlySigns("false}}");
    TokensKey(",", "forceChangePasswordNextSignIn", end);
    var tail := Key(",", "forceChangePasswordNextSignIn") + end;
    TokensMember("{", "password", password, tail);
    TokensKey(separator, "passwordProfile", Key("{", "password") + EncodeString(password) + tail);
  }

  lemma OnlySigns(s: string)
    requires IsAscii(s) && '"' !in s
    ensures Tokens(Ascii(s)) == Signs(s)
  {
    TokensSkip(Ascii(s), []);
    assert Ascii(s) + [] == Ascii(s) && Signs(s) + [] == Signs(s);
  }

  /** The PATCH body is the password profile, with any password the hook decodes, unchanged. */
  method BuildPatchBody(password: Bytes) returns (body: Bytes)
    ensures body == ProfileText("{", password)
    ensures Valid(password) ==> Tokens(body) == ProfileTokens("{", password)
  {
    hide Tokens, EncodeString, Valid, Key, Ascii, ProfileTokens;
    body := Key("{", "passwordProfile") + Key("{", "password");
    body := AppendJsonString(body, password);
    body := body + Key(",", "forceChangePasswordNextSignIn") + Ascii("false}}");
    assert body == ProfileText("{", password);
    if Valid(password) {
      TokensProfile("{", password);
    }
  }

  // The create body, written from the back so that each text is a member followed by the rest.

  function MailText(mail: Bytes, rest: Bytes): Bytes {
    if mail == [] then rest
    else Key(",", "mail") + EncodeString(mail)
         + (Key(",", "otherMails") + (Ascii("[") + (EncodeString(mail) + (Ascii("]") + rest))))
  }

  function CreateText(displayName: Bytes, nickname: Bytes, upn: Bytes, mail: Bytes, password: Bytes): Bytes {
    Key("{", "accountEnabled")
    + (Ascii("true")
       + (Key(",", "displayName") + EncodeString(displayName)
          + (Key(",", "mailNickname") + EncodeString(nickname)
             + (Key(",", "userPrincipalName") + EncodeString(upn)
                + MailText(mail, ProfileText(",", password))))))
  }

  function MailTokens(mail: Bytes, rest: seq<Token>): seq<Token> {
    if mail == [] then rest
    else Member(",", "mail", mail,
                Signs(",") + ([Name("otherMails")] + (Signs(":")
                  + (Signs("[") + ([Literal(Ok(mail))] + (Signs("]") + rest))))))
  }

  function CreateTokens(displayName: Bytes, nickname: Bytes, upn: Bytes, mail: Bytes, password: Bytes): seq<Token> {
    Signs("{") + ([Name("accountEnabled")] + (Signs(":") + (Signs("true")
      + Member(",", "displayName", displayName,
               Member(",", "mailNickname", nickname,
                      Member(",", "userPrincipalName", upn,
                             MailTokens(mail, ProfileTokens(",", password))))))))
  }

  lemma TokensMail(mail: Bytes, rest: Bytes)
    requires Valid(mail)
    ensures Tokens(MailText(mail, rest)) == MailTokens(mail, Tokens(rest))
  {
    hide Tokens, EncodeString, Valid, Key, Ascii, Member, Signs, Name;
    if mail != [] {
      var list := Ascii("[") + (EncodeString(mail) + (Ascii("]") + rest));
      TokensPunctuation("]", rest);
      TokensTake(mail, Ascii("]") + rest);
      TokensPunctuation("[", EncodeString(mail) + (Ascii("]") + rest));
      TokensKey(",", "otherMails", list);
      TokensMember(",", "mail", mail, Key(",", "otherMails") + list);
    }
  }

  lemma TokensCreate(displayName: Bytes, nickname: Bytes, upn: Bytes, mail: Bytes, password: Bytes)
    requires Valid(displayName) && Valid(nickname) && Valid(upn) && Valid(mail) && Valid(password)
    ensures Tokens(CreateText(displayName, nickname, upn, mail, password))
            == CreateTokens(displayName, nickname, upn, mail, password)
  {
    hide Tokens, EncodeString, Valid, Key, Ascii, ProfileText, ProfileTokens, MailText, MailTokens, Member, Signs, Name;
    TokensProfile(",", password);
    TokensMail(mail, ProfileText(",", password));
    var t4 := Key(",", "userPrincipalName") + EncodeString(upn) + MailText(mail, ProfileText(",", password));
    TokensMember(",", "userPrincipalName", upn, MailText(mail, ProfileText(",", password)));
    var t3 := Key(",", "mailNickname") + EncodeString(nickname) + t4;
    TokensMember(",", "mailNickname", nickname, t4);
    var t2 := Key(",", "displayName") + EncodeString(displayName) + t3;
    TokensMember(",", "displayName", displayName, t3);
    TokensPunctuation("true", t2);
    TokensKey("{", "accountEnabled", Ascii("true") + t2);
  }

  /** The tokens of the create body are exactly the members and the values given, in order. */
  method BuildCreateBody(displayName: Bytes, nickname: Bytes, upn: Bytes, mail: Bytes, password: Bytes)
    returns (body: Bytes)
    ensures body == CreateText(displayName, nickname, upn, mail, password)
    ensures Valid(displayName) && Valid(nickname) && Valid(upn) && Valid(mail) && Valid(password) ==>
              Tokens(body) == CreateTokens(displayName, nickname, upn, mail, password)
  {
    hide Tokens, EncodeString, Valid, Key, Ascii, CreateTokens, ProfileText;
    ghost var end := ProfileText(",", password);
    ghost var t5 := MailText(mail, end);
    ghost var t4 := Key(",", "userPrincipalName") + EncodeString(upn) + t5;
    ghost var t3 := Key(",", "mailNickname") + EncodeString(nickname) + t4;
    ghost var t2 := Key(",", "displayName") + EncodeString(displayName) + t3;
    body := Key("{", "accountEnabled") + Ascii("true");
    ConcatAssoc(Key("{", "accountEnabled"), Ascii("true"), t2);
    body := AppendMember(body, ",", "displayName", displayName, t3);
    body := AppendMember(body, ",", "mailNickname", nickname, t4);
    body := AppendMember(body, ",", "userPrincipalName", upn, t5);
    if mail != [] {
      body := AppendMail(body, mail, end);
    }
    body := AppendProfile(body, password);
    if Valid(displayName) && Valid(nickname) && Valid(upn) && Valid(mail) && Valid(password) {
      TokensCreate(displayName, nickname, upn, mail, password);
    }
  }

  method AppendMember(body: Bytes, separator: string, name: string, value: Bytes, ghost rest: Bytes) returns (r: Bytes)
    requires IsAscii(separator) && IsName(name)
    ensures r == body + (Key(separator, name) + EncodeString(value))
    ensures r + rest == body + (Key(separator, name) + EncodeString(value) + rest)
  {
    hide EncodeString, Key;
    r := body + Key(separator, name);
    r := AppendJsonString(r, value);
    ConcatAssoc(body, Key(separator, name), EncodeString(value));
    ConcatAssoc(body, Key(separator, name) + EncodeString(value), rest);
  }

  method AppendMail(body: Bytes, mail: Bytes, ghost rest: Bytes) returns (r: Bytes)
    requires mail != []
    ensures r + rest == body + MailText(mail, rest)
  {
    hide EncodeString, Key, Ascii;
    ghost var last := Ascii("]") + rest;
    ghost var list := Ascii("[") + (EncodeString(mail) + last);
    r := AppendMember(body, ",", "mail", mail, Key(",", "otherMails") + list);
    ConcatAssoc(r, Key(",", "otherMails"), list);
    r := r + Key(",", "otherMails");
    ConcatAssoc(r, Ascii("["), EncodeString(mail) + last);
    r := r + Ascii("[");
    ConcatAssoc(r, EncodeString(mail), last);
    r := AppendJsonString(r, mail);
    ConcatAssoc(r, Ascii("]"), rest);
    r := r + Ascii("]");
  }

  method AppendProfile(body: Bytes, password: Bytes) returns (r: Bytes)
    ensures r == body + ProfileText(",", password)
  {
    hide EncodeString, Key, Ascii;
    ghost var tail := Key(",", "forceChangePasswordNextSignIn") + Ascii("false}}");
    ConcatAssoc(body, Key(",", "passwordProfile"), Key("{", "password") + EncodeString(password) + tail);
    r := body + Key(",", "passwordProfile");
    r := AppendMember(r, "{", "password", password, tail);
    ConcatAssoc(r, Key(",", "forceChangePasswordNextSignIn"), Ascii("false}}"));
    r := r + Key(",", "forceChangePasswordNextSignIn") + Ascii("false}}");
  }

  /** Any password the hook decodes is carried unchanged by both request bodies. */
  lemma {:induction false} DecodedPasswordReachesGraph(data: Bytes, displayName: Bytes, nickname: Bytes, upn: Bytes,
                                                       mail: Bytes)
    requires Decode(data).Ok? && Valid(displayName) && Valid(nickname) && Valid(upn) && Valid(mail)
    ensures var password := Decode(data).value;
            && Tokens(ProfileText("{", password)) == ProfileTokens("{", password)
            && Tokens(CreateText(displayName, nickname, upn, mail, password))
               == CreateTokens(displayName, nickname, upn, mail, password)
  {
    hide Tokens, ProfileText, CreateText, ProfileTokens, CreateTokens, Valid;
    UnescapeIsValid(data[1..|data| - 1]);
    TokensProfile("{", Decode(data).value);
    TokensCreate(displayName, nickname, upn, mail, Decode(data).value);
  }
}
