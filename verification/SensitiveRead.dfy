/** Reading a request body into buffers that are zeroed when outgrown (internal/sensitiveio/read.go). */
module SensitiveRead {
  import opened Prelude

  datatype Status = NoError | EOF | Failure

  /**
    * One answer of a reader: the bytes it has, the byte it leaves in unused space, and the error that comes with the
    * last of them.
    */
  datatype Answer = Answer(bytes: seq<byte>, scratch: byte, status: Status)

  /** The bytes a script of answers delivers until its first error. */
  function Delivered(script: seq<Answer>): seq<byte> {
    if script == [] then []
    else script[0].bytes + if script[0].status == NoError then Delivered(script[1..]) else []
  }

  predicate Fails(script: seq<Answer>) {
    script != [] && (script[0].status == Failure || (script[0].status == NoError && Fails(script[1..])))
  }

  function Remaining(script: seq<Answer>): nat {
    if script == [] then 0 else |script[0].bytes| + 1 + Remaining(script[1..])
  }

  lemma Unfold(script: seq<Answer>)
    ensures script == [] ==> Delivered(script) == [] && !Fails(script)
    ensures script != [] ==>
              && Delivered(script) == script[0].bytes
                 + (if script[0].status == NoError then Delivered(script[1..]) else [])
              && (Fails(script) <==> script[0].status == Failure || (script[0].status == NoError && Fails(script[1..])))
              && Remaining(script) > Remaining(script[1..])
  {
  }

  /** Taking a part of the first answer leaves the rest of it to come. */
  lemma TakePart(script: seq<Answer>, n: nat)
    requires script != [] && 0 < n < |script[0].bytes|
    ensures var rest := [script[0].(bytes := script[0].bytes[n..])] + script[1..];
            && Delivered(script) == script[0].bytes[..n] + Delivered(rest)
            && (Fails(rest) <==> Fails(script)) && Remaining(rest) < Remaining(script)
  {
    var bytes, rest := script[0].bytes, [script[0].(bytes := script[0].bytes[n..])] + script[1..];
    assert rest[1..] == script[1..];
    assert bytes == bytes[..n] + bytes[n..];
    ConcatAssoc(bytes[..n], bytes[n..], if script[0].status == NoError then Delivered(script[1..]) else []);
  }

  /**
    * Any io.Reader, as the script of what it will answer. A window smaller than the next answer gets a part of it;
    * an exhausted script is at end of file. The reader may use the rest of the window as scratch space.
    */
  class Reader {
    var script: seq<Answer>

    constructor (script: seq<Answer>)
      ensures this.script == script
    {
      this.script := script;
    }

    method Read(buf: array<byte>, from: nat) returns (n: nat, status: Status)
      requires from < buf.Length
      modifies this, buf
      ensures n <= buf.Length - from && buf[..from] == old(buf[..from])
      ensures Delivered(old(script)) == buf[from..from + n] + if status == NoError then Delivered(script) else []
      ensures Fails(old(script)) <==> if status == NoError then Fails(script) else status == Failure
      ensures status == NoError ==> Remaining(script) < Remaining(old(script))
    {
      hide Delivered, Fails, Remaining;
      Unfold(script);
      if script == [] {
        return 0, EOF;
      }
      var next := script[0];
      n := if |next.bytes| <= buf.Length - from then |next.bytes| else buf.Length - from;
      Fill(buf, from, next.bytes[..n], next.scratch);
      if n == |next.bytes| {
        script := script[1..];
        return n, next.status;
      }
      TakePart(script, n);
      script := [next.(bytes := next.bytes[n..])] + script[1..];
      return n, NoError;
    }
  }

  /** The bytes at the start of the window, scratch in the rest of it. */
  method Fill(buf: array<byte>, from: nat, bytes: seq<byte>, scratch: byte)
    requires from + |bytes| <= buf.Length
    modifies buf
    ensures buf[..from] == old(buf[..from]) && buf[from..from + |bytes|] == bytes
  {
    for i := 0 to |bytes|
      invariant buf[..from] == old(buf[..from]) && buf[from..from + i] == bytes[..i]
    {
      buf[from + i] := bytes[i];
    }
    for i := from + |bytes| to buf.Length
      invariant buf[..from] == old(buf[..from]) && buf[from..from + |bytes|] == bytes
    {
      buf[i] := scratch;
    }
  }

  method GrowZeroing(buf: array<byte>, n: nat, minCapacity: nat) returns (next: array<byte>)
    requires n <= buf.Length
    modifies buf
    ensures fresh(next) && AllZero(buf[..])
    ensures next.Length >= n ==> next[..n] == old(buf[..n])
    ensures next.Length == var c := if buf.Length + buf.Length / 2 < minCapacity then minCapacity
            else buf.Length + buf.Length / 2;
                           if c == 0 then 512 else c
  {
    var newCapacity := buf.Length + buf.Length / 2;
    if newCapacity < minCapacity {
      newCapacity := minCapacity;
    }
    if newCapacity == 0 {
      newCapacity := 512;
    }
    next := new byte[newCapacity];
    for i := 0 to n
      invariant next[..i] == buf[..i] && buf[..] == old(buf[..])
    {
      next[i] := buf[i];
    }
    ZeroBytes(buf, buf.Length);
  }

  /** Every buffer given up holds only zeros. */
  ghost predicate AllAbandonedZero(abandoned: set<array<byte>>)
    reads abandoned
  {
    forall b :: b in abandoned ==> AllZero(b[..])
  }

  /** The capacity after k growth steps: each adds half. */
  function Capacity(k: nat): nat {
    if k == 0 then 512 else Capacity(k - 1) + Capacity(k - 1) / 2
  }

  /** k growth steps have led to this capacity for n bytes, copying so many. */
  ghost predicate Ledger(capacity: nat, n: nat, k: nat, copied: nat) {
    && n <= capacity == Capacity(k) && capacity >= 512
    && (k == 0 || 5 * capacity <= 8 * n) && copied <= 3 * capacity
  }

  lemma NoneAbandoned()
    ensures AllAbandonedZero({}) && Ledger(512, 0, 0, 0)
  {
  }

  lemma LedgerAfterRead(capacity: nat, n: nat, n': nat, k: nat, copied: nat)
    requires Ledger(capacity, n, k, copied) && n <= n' <= capacity
    ensures Ledger(capacity, n', k, copied)
  {
  }

  /**
    * The result is exactly what the reader delivered, also when it ended in an error. One buffer is given up per
    * growth step and none of them still holds data; capacity stays within 8/5 of the data once grown; and all growth
    * together copies at most three times the capacity.
    */
  method ReadAll(r: Reader)
    returns (buf: array<byte>, n: nat, failed: bool, ghost abandoned: set<array<byte>>, ghost copied: nat)
    modifies r
    ensures n <= buf.Length && buf[..n] == Delivered(old(r.script))
    ensures failed <==> Fails(old(r.script))
    ensures buf !in abandoned && AllAbandonedZero(abandoned)
    ensures Ledger(buf.Length, n, |abandoned|, copied)
  {
    hide Delivered, Fails, Remaining, AllAbandonedZero, Ledger;
    buf := new byte[512];
    n, failed, abandoned, copied := 0, false, {}, 0;
    NoneAbandoned();
    ghost var data: seq<byte> := [];
    while true
      invariant fresh(buf) && n <= buf.Length && Ledger(buf.Length, n, |abandoned|, copied)
      invariant buf !in abandoned && AllAbandonedZero(abandoned)
      invariant buf[..n] == data && Delivered(old(r.script)) == data + Delivered(r.script)
      invariant Fails(old(r.script)) == Fails(r.script)
      decreases Remaining(r.script)
    {
      if n == buf.Length {
        buf, abandoned, copied := Grow(buf, n, abandoned, copied);
      }
      assert n < buf.Length;
      var more, status := ReadMore(r, buf, n);
      LedgerAfterRead(buf.Length, n, more, |abandoned|, copied);
      n, data := more, buf[..more];
      if status != NoError {
        failed := status == Failure;
        return;
      }
      if buf.Length - n < buf.Length / 16 {
        buf, abandoned, copied := Grow(buf, n, abandoned, copied);
      }
    }
  }

  /** One read into the spare capacity: the bytes read so far and the bytes still to come stay the same together. */
  method ReadMore(r: Reader, buf: array<byte>, n: nat) returns (more: nat, status: Status)
    requires n < buf.Length
    modifies r, buf
    ensures n <= more <= buf.Length
    ensures old(buf[..n] + Delivered(r.script)) == buf[..more] + if status == NoError then Delivered(r.script) else []
    ensures Fails(old(r.script)) <==> if status == NoError then Fails(r.script) else status == Failure
    ensures status == NoError ==> Remaining(r.script) < Remaining(old(r.script))
  {
    hide Delivered, Fails, Remaining;
    var count;
    count, status := r.Read(buf, n);
    more := n + count;
    assert buf[..more] == buf[..n] + buf[n..more];
    ConcatAssoc(buf[..n], buf[n..more], if status == NoError then Delivered(r.script) else []);
  }

  /** One growth step of the reading loop, entered in the ledger. */
  method Grow(buf: array<byte>, n: nat, ghost abandoned: set<array<byte>>, ghost copied: nat)
    returns (next: array<byte>, ghost abandoned': set<array<byte>>, ghost copied': nat)
    requires n <= buf.Length && buf.Length - n <= buf.Length / 16
    requires buf !in abandoned && AllAbandonedZero(abandoned) && Ledger(buf.Length, n, |abandoned|, copied)
    modifies buf
    ensures fresh(next) && next.Length > buf.Length && next[..n] == old(buf[..n])
    ensures abandoned' == abandoned + {buf} && next !in abandoned' && AllAbandonedZero(abandoned')
    ensures copied' == copied + n && Ledger(next.Length, n, |abandoned'|, copied')
  {
    next := GrowZeroing(buf, n, n + 1);
    abandoned', copied' := abandoned + {buf}, copied + n;
  }
}
