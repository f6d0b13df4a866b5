/** Definitions shared by every component: bytes, options, Go string trimming and buffer zeroing. */
module Prelude {

  /** Instants are nanoseconds since Go's zero time, 0001-01-01T00:00:00Z; durations are nanoseconds. */
  type Instant = int

  newtype byte = x: int | 0 <= x < 256

  datatype Option<+T> = None | Some(value: T)

  datatype Result<+T> = Ok(value: T) | Err

  /** The code points with the Unicode White_Space property. */
  predicate IsSpace(c: char) {
    || '\t' <= c <= '\r' || c == ' ' || c == '\U{0085}' || c == '\U{00A0}' || c == '\U{1680}'
    || '\U{2000}' <= c <= '\U{200A}' || c == '\U{2028}' || c == '\U{2029}' || c == '\U{202F}'
    || c == '\U{205F}' || c == '\U{3000}'
  }

  /** They are 25: the ASCII ones, next line, and the spaces and separators of Unicode. */
  lemma SpacesAre(c: char)
    ensures IsSpace(c) <==>
            c as int in {0x09, 0x0A, 0x0B, 0x0C, 0x0D, 0x20, 0x85, 0xA0, 0x1680, 0x2000, 0x2001, 0x2002, 0x2003, 0x2004,
                         0x2005, 0x2006, 0x2007, 0x2008, 0x2009, 0x200A, 0x2028, 0x2029, 0x202F, 0x205F, 0x3000}
  {
  }

  function TrimLeft(s: string): (r: string)
    ensures |r| <= |s| && r == s[|s| - |r|..]
    ensures forall i :: 0 <= i < |s| - |r| ==> IsSpace(s[i])
    ensures r != [] ==> !IsSpace(r[0])
  {
    if s == [] || !IsSpace(s[0]) then s else TrimLeft(s[1..])
  }

  function TrimRight(s: string): (r: string)
    ensures |r| <= |s| && r == s[..|r|]
    ensures forall i :: |r| <= i < |s| ==> IsSpace(s[i])
    ensures r != [] ==> !IsSpace(r[|r| - 1])
  {
    if s == [] || !IsSpace(s[|s| - 1]) then s else TrimRight(s[..|s| - 1])
  }

  /** strings.TrimSpace: the result neither begins nor ends with white space. */
  function TrimSpace(s: string): (r: string)
    ensures r != [] ==> !IsSpace(r[0]) && !IsSpace(r[|r| - 1])
    ensures forall c :: c in r ==> c in s
  {
    TrimRight(TrimLeft(s))
  }

  ghost predicate AllSpace(s: string) {
    forall i :: 0 <= i < |s| ==> IsSpace(s[i])
  }

  lemma {:induction false} TrimLeftSkips(p: string, s: string)
    requires AllSpace(p)
    ensures TrimLeft(p + s) == TrimLeft(s)
  {
    if p == [] {
      assert p + s == s;
    } else {
      assert (p + s)[1..] == p[1..] + s;
      TrimLeftSkips(p[1..], s);
    }
  }

  lemma {:induction false} TrimRightSkips(s: string, q: string)
    requires AllSpace(q)
    ensures TrimRight(s + q) == TrimRight(s)
  {
    if q == [] {
      assert s + q == s;
    } else {
      assert (s + q)[..|s + q| - 1] == s + q[..|q| - 1];
      TrimRightSkips(s, q[..|q| - 1]);
    }
  }

  lemma TrimStays(s: string, t: string)
    ensures s != [] && !IsSpace(s[0]) ==> TrimLeft(s) == s
    ensures t != [] && !IsSpace(t[|t| - 1]) ==> TrimRight(t) == t
  {
  }

  /** What is left of a string between white space is the string, unless it has white space at an end itself. */
  lemma {:induction false} TrimSpaceIs(p: string, s: string, q: string)
    requires AllSpace(p) && AllSpace(q)
    requires s != [] ==> !IsSpace(s[0]) && !IsSpace(s[|s| - 1])
    ensures TrimSpace(p + s + q) == s
  {
    hide IsSpace, AllSpace, TrimLeft, TrimRight;
    ConcatAssoc(p, s, q);
    TrimLeftSkips(p, s + q);
    if s == [] {
      assert s + q == q == q + [];
      TrimLeftSkips(q, []);
    } else {
      TrimStays(s + q, s);
      TrimRightSkips(s, q);
    }
  }

  lemma TrimLeftParts(s: string) returns (p: string)
    ensures AllSpace(p) && s == p + TrimLeft(s)
  {
    hide IsSpace, TrimLeft;
    p := s[..|s| - |TrimLeft(s)|];
  }

  lemma TrimRightParts(s: string) returns (q: string)
    ensures AllSpace(q) && s == TrimRight(s) + q
  {
    hide IsSpace, TrimRight;
    q := s[|TrimRight(s)|..];
  }

  lemma {:induction false} TrimSpaceParts(s: string) returns (p: string, q: string)
    ensures AllSpace(p) && AllSpace(q) && s == p + TrimSpace(s) + q
  {
    hide AllSpace, TrimLeft, TrimRight;
    p := TrimLeftParts(s);
    q := TrimRightParts(TrimLeft(s));
    ConcatAssoc(p, TrimSpace(s), q);
  }

  /** Byte-wise string order, as in Go's sort.Strings and Lua's < on strings. */
  predicate StrLess(a: string, b: string) {
    b != [] && (a == [] || a[0] < b[0] || (a[0] == b[0] && StrLess(a[1..], b[1..])))
  }

  lemma {:induction false} StrOrder(a: string, b: string)
    ensures StrLess(a, b) || StrLess(b, a) || a == b
    ensures !(StrLess(a, b) && StrLess(b, a)) && (a == b ==> !StrLess(a, b))
  {
    if a != [] && b != [] {
      StrOrder(a[1..], b[1..]);
      assert a == [a[0]] + a[1..] && b == [b[0]] + b[1..];
    }
  }

  lemma {:induction false} StrLessTransitive(a: string, b: string, c: string)
    requires StrLess(a, b) && StrLess(b, c)
    ensures StrLess(a, c)
  {
    if a != [] && a[0] == b[0] && b[0] == c[0] {
      StrLessTransitive(a[1..], b[1..], c[1..]);
    }
  }

  lemma ConcatAssoc<T>(a: seq<T>, b: seq<T>, c: seq<T>)
    ensures a + b + c == a + (b + c)
  {
  }

  lemma DropConcat<T>(a: seq<T>, b: seq<T>)
    ensures (a + b)[|a|..] == b
  {
  }

  lemma DropSlice<T>(s: seq<T>, i: nat, j: nat, k: nat)
    requires j <= k && i + k <= |s|
    ensures s[i..][j..k] == s[i + j..i + k]
  {
  }

  lemma DropDrop<T>(s: seq<T>, i: nat, j: nat)
    requires i + j <= |s|
    ensures s[i..][j..] == s[i + j..]
  {
  }

  ghost predicate AllZero(s: seq<byte>) {
    forall i :: 0 <= i < |s| ==> s[i] == 0
  }

  /** passwordcrypto.ZeroBytes over the first n bytes of a buffer. */
  method ZeroBytes(buf: array<byte>, n: nat)
    requires n <= buf.Length
    modifies buf
    ensures AllZero(buf[..n])
    ensures forall k :: n <= k < buf.Length ==> buf[k] == old(buf[k])
  {
    for i := 0 to n
      invariant forall k :: 0 <= k < i ==> buf[k] == 0
      invariant forall k :: i <= k < buf.Length ==> buf[k] == old(buf[k])
    {
      buf[i] := 0;
    }
  }
}
