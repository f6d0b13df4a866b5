/** The per-UPN sync status store and its ordering guard (internal/syncstatus/status.go). */
module SyncStatus {
  import opened Prelude

  datatype Status = Unsynced | Pending | Synced | Failed

  datatype Record = Record(status: Status, updatedAt: Instant, source: Instant)

  const NO_RECORD := Record(Unsynced, 0, 0)

  type Records = map<string, Record>

  function LowerAscii(c: char): char {
    if 'A' <= c <= 'Z' then c - 'A' + 'a' else c
  }

  function NormalizeUPN(upn: string): string {
    var t := TrimSpace(upn);
    seq(|t|, i requires 0 <= i < |t| => LowerAscii(t[i]))
  }

  /** The characters are equal but for the case of an ASCII letter. */
  predicate SameLetter(c: char, d: char) {
    || c == d
    || ('A' <= c <= 'Z' && d as int == c as int + 32)
    || ('A' <= d <= 'Z' && c as int == d as int + 32)
  }

  ghost predicate SameText(a: string, b: string) {
    |a| == |b| && forall i :: 0 <= i < |a| ==> SameLetter(a[i], b[i])
  }

  /** The strings are equal but for the case of ASCII letters and the white space around them. */
  ghost predicate SameUPN(a: string, b: string) {
    exists p, s, q, p', s', q' :: Around(a, p, s, q) && Around(b, p', s', q') && SameText(s, s')
  }

  ghost predicate Around(a: string, p: string, s: string, q: string) {
    && a == p + s + q && AllSpace(p) && AllSpace(q)
    && (s != [] ==> !IsSpace(s[0]) && !IsSpace(s[|s| - 1]))
  }

  lemma LowerIsSame(a: string, b: string)
    requires |a| == |b|
    ensures SameText(a, b) <==> forall i :: 0 <= i < |a| ==> LowerAscii(a[i]) == LowerAscii(b[i])
  {
  }

  /** Two UPNs share a record exactly if they are equal but for ASCII case and the white space around them. */
  lemma {:induction false} SameKeyExactly(a: string, b: string)
    ensures NormalizeUPN(a) == NormalizeUPN(b) <==> SameUPN(a, b)
  {
    hide TrimSpace, LowerAscii, SameText;
    if NormalizeUPN(a) == NormalizeUPN(b) {
      var p, q := TrimSpaceParts(a);
      var p', q' := TrimSpaceParts(b);
      var (s, s') := (TrimSpace(a), TrimSpace(b));
      assert forall i :: 0 <= i < |s| ==> NormalizeUPN(a)[i] == LowerAscii(s[i]);
      assert forall i :: 0 <= i < |s| ==> NormalizeUPN(b)[i] == LowerAscii(s'[i]);
      LowerIsSame(s, s');
      assert Around(a, p, s, q) && Around(b, p', s', q');
    }
    if SameUPN(a, b) {
      var p, s, q, p', s', q' :| Around(a, p, s, q) && Around(b, p', s', q') && SameText(s, s');
      TrimSpaceIs(p, s, q);
      TrimSpaceIs(p', s', q');
      assert |s| == |s'| by {
        TextLength(s, s');
      }
      LowerIsSame(s, s');
    }
  }

  lemma TextLength(a: string, b: string)
    requires SameText(a, b)
    ensures |a| == |b|
  {
  }

  lemma LowerIsLower(c: char)
    ensures LowerAscii(LowerAscii(c)) == LowerAscii(c) && (IsSpace(LowerAscii(c)) <==> IsSpace(c))
  {
  }

  /** A key is its own key. */
  lemma {:induction false} NormalizeOnce(upn: string)
    ensures NormalizeUPN(NormalizeUPN(upn)) == NormalizeUPN(upn)
  {
    hide TrimSpace, IsSpace;
    var t, s := TrimSpace(upn), NormalizeUPN(upn);
    forall i | 0 <= i < |s| ensures LowerAscii(s[i]) == s[i] && (IsSpace(s[i]) <==> IsSpace(t[i])) {
      LowerIsLower(t[i]);
    }
    assert [] + s + [] == s;
    TrimSpaceIs([], s, []);
  }

  function Precedence(s: Status): (p: nat)
    ensures p <= 3
  {
    match s
    case Pending => 1
    case Failed => 2
    case Synced => 3
    case Unsynced => 0
  }

  /** One Mark call: the normalized UPN, what was marked, for which message time, and the clock reading of the store. */
  datatype Write = Write(key: string, status: Status, source: Instant, now: Instant)

  /** Lexicographic order on (source time, precedence). */
  predicate Below(source0: Instant, status0: Status, source1: Instant, status1: Status) {
    source0 < source1 || (source0 == source1 && Precedence(status0) < Precedence(status1))
  }

  /** The guarded write, on values. */
  function Apply(rs: Records, w: Write): Records {
    if w.key in rs && !Below(rs[w.key].source, rs[w.key].status, w.source, w.status) then rs
    else rs[w.key := Record(w.status, w.now, w.source)]
  }

  function ApplyAll(rs: Records, ws: seq<Write>): Records {
    if ws == [] then rs else Apply(ApplyAll(rs, ws[..|ws| - 1]), ws[|ws| - 1])
  }

  class MemoryStore {
    var records: Records

    constructor ()
      ensures records == map[]
    {
      records := map[];
    }

    method Get(cancelled: bool, upn: string) returns (r: Result<Record>)
      ensures cancelled <==> r.Err?
      ensures !cancelled && NormalizeUPN(upn) in records ==> r == Ok(records[NormalizeUPN(upn)])
      ensures !cancelled && NormalizeUPN(upn) !in records ==> r == Ok(NO_RECORD)
    {
      if cancelled {
        return Err;
      }
      var key := NormalizeUPN(upn);
      if key in records {
        return Ok(records[key]);
      }
      return Ok(NO_RECORD);
    }

    method Set(cancelled: bool, upn: string, status: Status, source: Instant, now: Instant) returns (ok: bool)
      modifies this
      ensures ok <==> !cancelled
      ensures records == if cancelled then old(records)
              else Apply(old(records), Write(NormalizeUPN(upn), status, source, now))
    {
      if cancelled {
        return false;
      }
      var key := NormalizeUPN(upn);
      if key in records {
        var existing := records[key];
        if source < existing.source {
          return true;
        } else if source == existing.source && Precedence(status) <= Precedence(existing.status) {
          return true;
        }
      }
      records := records[key := Record(status, now, source)];
      return true;
    }
  }

  /** Write i is the earliest write for the key whose (source, precedence) no other write for the key exceeds. */
  ghost predicate FirstMaximum(ws: seq<Write>, key: string, i: int) {
    && 0 <= i < |ws| && ws[i].key == key
    && (forall j :: 0 <= j < |ws| && ws[j].key == key ==>
        !Below(ws[i].source, ws[i].status, ws[j].source, ws[j].status))
    && (forall j :: 0 <= j < i && ws[j].key == key ==> Below(ws[j].source, ws[j].status, ws[i].source, ws[i].status))
  }

  /** The final record of a key is exactly the earliest write that attains the lexicographic maximum. */
  lemma {:induction false} StoredIsFirstMaximum(ws: seq<Write>, key: string)
    ensures key in ApplyAll(map[], ws) <==> exists i :: 0 <= i < |ws| && ws[i].key == key
    ensures key in ApplyAll(map[], ws) ==>
              exists i :: FirstMaximum(ws, key, i)
                && ApplyAll(map[], ws)[key] == Record(ws[i].status, ws[i].now, ws[i].source)
  {
    if ws != [] {
      var init, last := ws[..|ws| - 1], ws[|ws| - 1];
      StoredIsFirstMaximum(init, key);
      var before, after := ApplyAll(map[], init), ApplyAll(map[], ws);
      if last.key == key {
        if key in before && before[key] == after[key]
          && !Below(before[key].source, before[key].status, last.source, last.status) {
          var i :| FirstMaximum(init, key, i) && before[key] == Record(init[i].status, init[i].now, init[i].source);
          assert FirstMaximum(ws, key, i);
        } else {
          assert after[key] == Record(last.status, last.now, last.source);
          if key in before {
            var i :| FirstMaximum(init, key, i) && before[key] == Record(init[i].status, init[i].now, init[i].source);
            assert forall j :: 0 <= j < |init| && init[j].key == key ==> ws[j] == init[j];
          }
          assert FirstMaximum(ws, key, |ws| - 1);
        }
      } else if key in before {
        var i :| FirstMaximum(init, key, i) && before[key] == Record(init[i].status, init[i].now, init[i].source);
        assert FirstMaximum(ws, key, i);
      }
    }
  }

  /** Of writes of one source time, a synced one is kept over any other, and a failed one over a pending one. */
  lemma SameTimeReplaces(rs: Records, w: Write)
    requires w.key in rs && w.source == rs[w.key].source
    requires w.status != Unsynced && rs[w.key].status != Unsynced
    ensures Apply(rs, w) ==
            if (rs[w.key].status, w.status) in {(Pending, Failed), (Pending, Synced), (Failed, Synced)}
            then rs[w.key := Record(w.status, w.now, w.source)]
            else rs
  {
  }

  ghost predicate Written(ws: seq<Write>, key: string, status: Status, source: Instant) {
    exists i :: 0 <= i < |ws| && ws[i].key == key && ws[i].status == status && ws[i].source == source
  }

  ghost predicate Unsurpassed(ws: seq<Write>, key: string, status: Status, source: Instant) {
    forall j :: 0 <= j < |ws| && ws[j].key == key ==> !Below(source, status, ws[j].source, ws[j].status)
  }

  /** An outcome is the final one exactly if it was written and no write for the key exceeds it. */
  lemma {:induction false} OutcomeExactly(ws: seq<Write>, key: string, status: Status, source: Instant)
    ensures var rs := ApplyAll(map[], ws);
            (key in rs && rs[key].status == status && rs[key].source == source) <==>
            (Written(ws, key, status, source) && Unsurpassed(ws, key, status, source))
  {
    hide ApplyAll;
    StoredIsFirstMaximum(ws, key);
  }

  ghost predicate LatestTime(ws: seq<Write>, key: string, source: Instant) {
    && (exists i :: 0 <= i < |ws| && ws[i].key == key && ws[i].source == source)
    && (forall i :: 0 <= i < |ws| && ws[i].key == key ==> ws[i].source <= source)
  }

  /**
    * The message time decides first: the record is of the latest one. Within it a synced write is kept whenever there
    * was one, a failed one whenever there was no synced one, and a pending one only if there was nothing else.
    */
  lemma {:induction false} LatestMessageDecides(ws: seq<Write>, key: string, source: Instant)
    requires LatestTime(ws, key, source)
    requires forall i :: 0 <= i < |ws| ==> ws[i].status != Unsynced
    ensures key in ApplyAll(map[], ws) && ApplyAll(map[], ws)[key].source == source
    ensures ApplyAll(map[], ws)[key].status ==
            if Written(ws, key, Synced, source) then Synced
            else if Written(ws, key, Failed, source) then Failed
            else Pending
  {
    hide ApplyAll;
    StoredIsFirstMaximum(ws, key);
    var i :| FirstMaximum(ws, key, i) && ApplyAll(map[], ws)[key] == Record(ws[i].status, ws[i].now, ws[i].source);
    assert Written(ws, key, ws[i].status, source);
  }

  /** Two writes that each bound all writes for the key carry the same outcome. */
  lemma MaximaAgree(ws: seq<Write>, key: string, i: int, vs: seq<Write>, j: int)
    requires FirstMaximum(ws, key, i) && FirstMaximum(vs, key, j)
    requires ws[i] in vs && vs[j] in ws
    ensures ws[i].source == vs[j].source && ws[i].status == vs[j].status
  {
    var i' :| 0 <= i' < |vs| && vs[i'] == ws[i];
    var j' :| 0 <= j' < |ws| && ws[j'] == vs[j];
  }

  /** Any reordering of the same writes converges to the same source time and status for every UPN. */
  lemma {:induction false} OrderIsIrrelevant(ws: seq<Write>, vs: seq<Write>, key: string)
    requires multiset(ws) == multiset(vs)
    ensures key in ApplyAll(map[], ws) <==> key in ApplyAll(map[], vs)
    ensures key in ApplyAll(map[], ws) ==>
              && ApplyAll(map[], ws)[key].source == ApplyAll(map[], vs)[key].source
              && ApplyAll(map[], ws)[key].status == ApplyAll(map[], vs)[key].status
  {
    StoredIsFirstMaximum(ws, key);
    StoredIsFirstMaximum(vs, key);
    assert forall w :: w in ws <==> w in multiset(ws);
    assert forall w :: w in vs <==> w in multiset(vs);
    if k: int :| 0 <= k < |ws| && ws[k].key == key {
      assert ws[k] in vs;
    }
    if k: int :| 0 <= k < |vs| && vs[k].key == key {
      assert vs[k] in ws;
    }
    if key in ApplyAll(map[], ws) {
      var i :| FirstMaximum(ws, key, i) && ApplyAll(map[], ws)[key] == Record(ws[i].status, ws[i].now, ws[i].source);
      var j :| FirstMaximum(vs, key, j) && ApplyAll(map[], vs)[key] == Record(vs[j].status, vs[j].now, vs[j].source);
      assert ws[i] in vs && vs[j] in ws;
      MaximaAgree(ws, key, i, vs, j);
    }
  }

  function ForKey(ws: seq<Write>, key: string): seq<Write> {
    if ws == [] then []
    else ForKey(ws[..|ws| - 1], key) + if ws[|ws| - 1].key == key then [ws[|ws| - 1]] else []
  }

  /** What is stored for a UPN depends only on the writes for that UPN. */
  lemma {:induction false} OtherUPNsUntouched(rs: Records, ws: seq<Write>, key: string)
    ensures key in ApplyAll(rs, ws) <==> key in ApplyAll(rs, ForKey(ws, key))
    ensures key in ApplyAll(rs, ws) ==> ApplyAll(rs, ws)[key] == ApplyAll(rs, ForKey(ws, key))[key]
  {
    if ws != [] {
      var init, last := ws[..|ws| - 1], ws[|ws| - 1];
      OtherUPNsUntouched(rs, init, key);
      if last.key == key {
        var f := ForKey(ws, key);
        assert f[..|f| - 1] == ForKey(init, key) && f[|f| - 1] == last;
      } else {
        assert ForKey(ws, key) == ForKey(init, key);
      }
    }
  }

  /** A stored outcome never moves down: later writes leave it or replace it by a strictly higher one. */
  lemma {:induction false} NeverLowered(rs: Records, ws: seq<Write>, key: string)
    requires key in rs
    ensures key in ApplyAll(rs, ws)
    ensures var r := ApplyAll(rs, ws)[key]; r == rs[key] || Below(rs[key].source, rs[key].status, r.source, r.status)
  {
    if ws != [] {
      NeverLowered(rs, ws[..|ws| - 1], key);
    }
  }
}
