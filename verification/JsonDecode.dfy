/** The hook's JSON string decoder (internal/handler/hook.go), which follows RFC 8259 section 7. */
module JsonDecode {
  import opened Prelude
  import opened Utf8

  const QUOTE: byte := 0x22
  const BACKSLASH: byte := 0x5C
  const LOWER_U: byte := 0x75

  function HexValue(b: byte): Option<int> {
    if 0x30 <= b <= 0x39 then Some(b as int - 0x30)
    else if 0x61 <= b <= 0x66 then Some(b as int - 0x61 + 10)
    else if 0x41 <= b <= 0x46 then Some(b as int - 0x41 + 10)
    else None
  }

  predicate AllHex(s: Bytes) {
    forall i :: 0 <= i < |s| ==> HexValue(s[i]).Some?
  }

  /** The number written in hexadecimal, most significant digit first. */
  function HexNumber(s: Bytes): (v: nat)
    requires AllHex(s)
    ensures |s| == 0 ==> v == 0
    ensures |s| == 1 ==> v < 0x10
    ensures |s| == 2 ==> v < 0x100
    ensures |s| == 3 ==> v < 0x1000
    ensures |s| == 4 ==> v < 0x10000
  {
    if s == [] then 0 else 16 * HexNumber(s[..|s| - 1]) + HexValue(s[|s| - 1]).value
  }

  method Hex4(data: Bytes) returns (r: Option<int>)
    ensures r == if AllHex(data) then Some(HexNumber(data)) else None
  {
    var acc := 0;
    for i := 0 to |data|
      invariant AllHex(data[..i]) && acc == HexNumber(data[..i])
    {
      var digit := HexValue(data[i]);
      if digit.None? {
        return None;
      }
      assert data[..i + 1][..i] == data[..i];
      acc := acc * 16 + digit.value;
    }
    assert data[..|data|] == data;
    return Some(acc);
  }

  predicate IsHighSurrogate(r: int) { 0xD800 <= r <= 0xDBFF }

  predicate IsLowSurrogate(r: int) { 0xDC00 <= r <= 0xDFFF }

  function Combine(high: int, low: int): int {
    (high - 0xD800) * 0x400 + (low - 0xDC00) + 0x10000
  }

  /** The rune and the number of bytes that follow \u; an unpaired surrogate is U+FFFD and consumes four digits. */
  function DecodeUnicodeEscape(s: Bytes): Option<(int, nat)> {
    if |s| < 4 || !AllHex(s[..4]) then None
    else
      var r := HexNumber(s[..4]);
      if !IsHighSurrogate(r) && !IsLowSurrogate(r) then Some((r, 4))
      else if !IsHighSurrogate(r) then Some((RUNE_ERROR, 4))
      else if |s| < 10 || s[4] != BACKSLASH || s[5] != LOWER_U || !AllHex(s[6..10]) then Some((RUNE_ERROR, 4))
      else
        var low := HexNumber(s[6..10]);
        if IsLowSurrogate(low) then Some((Combine(r, low), 10)) else Some((RUNE_ERROR, 4))
  }

  /** The byte a two-character escape stands for. */
  function ShortEscape(c: byte): Option<byte> {
    if c == QUOTE || c == BACKSLASH || c == 0x2F then Some(c)
    else if c == 0x62 then Some(0x08)
    else if c == 0x66 then Some(0x0C)
    else if c == 0x6E then Some(0x0A)
    else if c == 0x72 then Some(0x0D)
    else if c == 0x74 then Some(0x09)
    else None
  }

  /** What one turn of the decoding loop appends and how many bytes it consumes. */
  datatype Turn = Reject | Emit(out: Bytes, consumed: nat)

  function Next(s: Bytes): Turn
    requires s != []
  {
    var b := s[0];
    if b != BACKSLASH then
      if b == QUOTE || b < 0x20 then Reject
      else if b < 0x80 then Emit([b], 1)
      else
        var (r, size) := DecodeRune(s);
        Emit(AppendRune(r), size)
    else if |s| < 2 then Reject
    else if s[1] == LOWER_U then
      var e := DecodeUnicodeEscape(s[2..]);
      if e.None? then Reject else Emit(AppendRune(e.value.0), 2 + e.value.1)
    else
      var short := ShortEscape(s[1]);
      if short.None? then Reject else Emit([short.value], 2)
  }

  /** A turn consumes input, appends one scalar in UTF-8, and appends at most three bytes per byte consumed. */
  lemma {:induction false} TurnBound(s: Bytes)
    requires s != [] && Next(s).Emit?
    ensures 1 <= Next(s).consumed <= |s|
    ensures 1 <= |Next(s).out| <= 3 * Next(s).consumed
    ensures exists r :: Scalar(r) && Next(s).out == Encode(r)
  {
    var b := s[0];
    if b != BACKSLASH {
      if b < 0x80 {
        assert Encode(b as int) == [b];
      }
    } else if s[1] != LOWER_U {
      assert Encode(ShortEscape(s[1]).value as int) == [ShortEscape(s[1]).value];
    }
  }

  function Prepend(prefix: Bytes, r: Result<Bytes>): Result<Bytes> {
    if r.Err? then Err else Ok(prefix + r.value)
  }

  /** The body of a JSON string, between the quotes. */
  function Unescape(s: Bytes): Result<Bytes>
    decreases |s|
  {
    if s == [] then Ok([])
    else
      var turn := Next(s);
      if turn.Reject? then Err
      else
        TurnBound(s);
        Prepend(turn.out, Unescape(s[turn.consumed..]))
  }

  predicate Quoted(data: Bytes) {
    |data| >= 2 && data[0] == QUOTE && data[|data| - 1] == QUOTE
  }

  function Decode(data: Bytes): Result<Bytes> {
    if !Quoted(data) then Err else Unescape(data[1..|data| - 1])
  }

  /** decodeJSONStringBytes: the buffer is allocated once, and on any error every decoded byte in it is cleared. */
  method DecodeJsonStringBytes(data: Bytes) returns (ok: bool, out: array<byte>, n: nat)
    ensures ok <==> Decode(data).Ok?
    ensures ok ==> n <= out.Length && Decode(data) == Ok(out[..n])
    ensures !ok ==> AllZero(out[..])
    ensures out.Length == if Quoted(data) then 3 * (|data| - 2) else 0
  {
    hide Next, Encode;
    n := 0;
    if !Quoted(data) {
      return false, new byte[0], 0;
    }
    out := new byte[3 * (|data| - 2)](i => 0);
    ghost var body := data[1..|data| - 1];
    var i := 1;
    assert body[0..] == body && out[..n] == [];
    PrependTwice([], [], Unescape(body));
    while i < |data| - 1
      invariant 1 <= i <= |data| - 1
      invariant n <= 3 * (i - 1)
      invariant forall k :: n <= k < out.Length ==> out[k] == 0
      invariant Unescape(body) == Prepend(out[..n], Unescape(body[i - 1..]))
    {
      ghost var rest := body[i - 1..];
      assert rest == data[i..|data| - 1];
      var turn := Next(data[i..|data| - 1]);
      if turn.Reject? {
        ZeroBytes(out, n);
        return false, out, 0;
      }
      TurnBound(rest);
      ghost var before := out[..n];
      Append(out, n, turn.out);
      PrependTwice(before, turn.out, Unescape(rest[turn.consumed..]));
      n := n + |turn.out|;
      i := i + turn.consumed;
      assert body[i - 1..] == rest[turn.consumed..];
    }
    assert body[i - 1..] == [] && out[..n] + [] == out[..n];
    ok := true;
  }

  /** append within the capacity: the bytes already there and the bytes after the new ones stay. */
  method Append(out: array<byte>, n: nat, bs: Bytes)
    requires n + |bs| <= out.Length
    modifies out
    ensures out[..n + |bs|] == old(out[..n]) + bs
    ensures forall k :: n + |bs| <= k < out.Length ==> out[k] == old(out[k])
  {
    for j := 0 to |bs|
      invariant out[..n + j] == old(out[..n]) + bs[..j]
      invariant forall k :: n + j <= k < out.Length ==> out[k] == old(out[k])
    {
      out[n + j] := bs[j];
    }
  }

  lemma PrependTwice(a: Bytes, b: Bytes, r: Result<Bytes>)
    ensures Prepend(a, Prepend(b, r)) == Prepend(a + b, r)
    ensures Prepend([], r) == r
  {
    if r.Ok? {
      assert a + (b + r.value) == a + b + r.value;
      assert [] + r.value == r.value;
    }
  }

  /** passwordBytes.UnmarshalJSON: the previous value is cleared first; null leaves no password. */
  method UnmarshalPassword(previous: array<byte>, data: Bytes) returns (ok: bool, out: array<byte>, n: nat)
    modifies previous
    ensures AllZero(previous[..])
    ensures ok <==> data == NULL || Decode(data).Ok?
    ensures ok ==> n <= out.Length && out[..n] == if data == NULL then [] else Decode(data).value
    ensures !ok ==> AllZero(out[..])
  {
    ZeroBytes(previous, previous.Length);
    if data == NULL {
      return true, new byte[0], 0;
    }
    ok, out, n := DecodeJsonStringBytes(data);
  }

  const NULL: Bytes := [0x6E, 0x75, 0x6C, 0x6C]

  /** Whatever the input, a successful decode is valid UTF-8 and at most three times as long as the body. */
  lemma {:induction false} UnescapeIsValid(s: Bytes)
    requires Unescape(s).Ok?
    ensures Valid(Unescape(s).value) && |Unescape(s).value| <= 3 * |s|
    decreases |s|
  {
    if s != [] {
      TurnBound(s);
      var turn := Next(s);
      var rest := s[turn.consumed..];
      UnescapeIsValid(rest);
      var r :| Scalar(r) && turn.out == Encode(r);
      ValidPrepend(r, Unescape(rest).value);
    }
  }
}
