/** The Service Bus receiver and its map from worker messages to native ones (internal/servicebusqueue/queue.go). */
module Receiver {
  import opened Prelude

  /** A message as the worker sees it: a private copy of the body, and its kind. */
  class Message {
    const body: array<byte>
    const kind: string

    constructor (body: array<byte>, kind: string)
      ensures this.body == body && this.kind == kind
    {
      this.body := body;
      this.kind := kind;
    }
  }

  /** A message as the service delivered it. */
  class Native {
    const body: array<byte>
    const kind: string

    constructor (body: array<byte>, kind: string)
      ensures this.body == body && this.kind == kind
    {
      this.body := body;
      this.kind := kind;
    }
  }

  class ServiceBusReceiver {
    var native: map<Message, Native>
    ghost var received: set<Message>
    ghost var settled: set<Message>
    /** The settled messages that the service removed, as opposed to those it will deliver again. */
    ghost var completed: set<Message>

    /** The map holds exactly the messages received and not yet settled. */
    ghost predicate Valid()
      reads this
    {
      completed <= settled <= received && native.Keys == received - settled
    }

    constructor ()
      ensures Valid() && received == {} && settled == {} && completed == {}
    {
      native := map[];
      received, settled, completed := {}, {}, {};
    }

    /** Every delivered message gets a new worker message with its own copy of the body. */
    method ReceiveMessages(delivered: Option<seq<Native>>) returns (out: Option<seq<Message>>)
      requires Valid()
      modifies this
      ensures Valid() && settled == old(settled) && completed == old(completed)
      ensures delivered.None? ==> out == None && native == old(native) && received == old(received)
      ensures delivered.Some? ==>
                && out.Some? && |out.value| == |delivered.value|
                && received == old(received) + set m | m in out.value
      ensures delivered.Some? ==>
                forall i :: 0 <= i < |out.value| ==>
                              && fresh(out.value[i]) && fresh(out.value[i].body)
                                 && out.value[i].kind == delivered.value[i].kind
                              && out.value[i].body[..] == delivered.value[i].body[..]
                              && out.value[i] in native && native[out.value[i]] == delivered.value[i]
      ensures delivered.Some? ==> forall i, j :: 0 <= i < j < |out.value| ==> out.value[i] != out.value[j]
      ensures forall m :: m in old(native) ==> m in native && native[m] == old(native)[m]
    {
      if delivered.None? {
        return None;
      }
      var messages: seq<Message> := [];
      for i := 0 to |delivered.value|
        invariant Valid() && settled == old(settled) && completed == old(completed) && |messages| == i
        invariant received == old(received) + set m | m in messages
        invariant forall k :: 0 <= k < i ==>
                                && fresh(messages[k]) && fresh(messages[k].body)
                                   && messages[k].kind == delivered.value[k].kind
                                && messages[k].body[..] == delivered.value[k].body[..]
                                && messages[k] in native && native[messages[k]] == delivered.value[k]
        invariant forall j, k :: 0 <= j < k < i ==> messages[j] != messages[k]
        invariant forall m :: m in old(native) ==> m in native && native[m] == old(native)[m]
      {
        var d := delivered.value[i];
        var body := CopyBytes(d.body);
        var m := new Message(body, d.kind);
        native := native[m := d];
        received := received + {m};
        messages := messages + [m];
      }
      return Some(messages);
    }

    method CompleteMessage(msg: Message?) returns (ok: bool)
      requires Valid()
      modifies this, Bodies(msg)
      ensures Valid() && received == old(received)
      ensures ok ==> msg != null && msg in old(native)
      ensures ok ==> settled == old(settled) + {msg} && native == old(native) - {msg}
      ensures !ok ==> settled == old(settled) && native == old(native)
      ensures msg != null && msg in old(native) ==> AllZero(msg.body[..]) && AllZero(old(native)[msg].body[..])
      ensures ok ==> completed == old(completed) + {msg}
      ensures !ok ==> completed == old(completed)
    {
      ok := Settle(msg);
      if ok {
        completed := completed + {msg};
      }
    }

    method AbandonMessage(msg: Message?) returns (ok: bool)
      requires Valid()
      modifies this, Bodies(msg)
      ensures Valid() && received == old(received)
      ensures ok ==> msg != null && msg in old(native)
      ensures ok ==> settled == old(settled) + {msg} && native == old(native) - {msg}
      ensures !ok ==> settled == old(settled) && native == old(native)
      ensures msg != null && msg in old(native) ==> AllZero(msg.body[..]) && AllZero(old(native)[msg].body[..])
      ensures completed == old(completed)
    {
      ok := Settle(msg);
    }

    /** The two buffers that settling a known message clears. */
    ghost function Bodies(msg: Message?): set<array<byte>>
      reads this
    {
      if msg != null && msg in native then {msg.body, native[msg].body} else {}
    }

    /** A message leaves the map exactly when it is settled, and only a message in the map can be. */
    method Settle(msg: Message?) returns (ok: bool)
      requires Valid()
      modifies this, Bodies(msg)
      ensures Valid() && received == old(received) && completed == old(completed)
      ensures ok ==> msg != null && msg in old(native)
      ensures ok ==> settled == old(settled) + {msg} && native == old(native) - {msg}
      ensures !ok ==> settled == old(settled) && native == old(native)
      ensures msg != null && msg in old(native) ==> AllZero(msg.body[..]) && AllZero(old(native)[msg].body[..])
    {
      if msg == null || msg !in native {
        return false;
      }
      var n := native[msg];
      ZeroBytes(msg.body, msg.body.Length);
      ZeroBytes(n.body, n.body.Length);
      var accepted: bool := *;
      if !accepted {
        return false;
      }
      native := native - {msg};
      settled := settled + {msg};
      return true;
    }
  }

  method CopyBytes(a: array<byte>) returns (b: array<byte>)
    ensures fresh(b) && b[..] == a[..]
  {
    b := new byte[a.Length];
    for i := 0 to a.Length
      invariant b[..i] == a[..i]
    {
      b[i] := a[i];
    }
  }
}
