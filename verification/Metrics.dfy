/** Metric aggregation between flushes and the payloads of a flush (internal/azuremonitor/metrics.go). */
module Metrics {
  import opened Prelude

  type Labels = map<string, string>

  const NUL := "\0"

  const ALLOWED: set<string> :=
    {"attempts", "eventType", "identityType", "kind", "middleware", "outcome", "queue", "reason", "status"}

  // ---------------------------------------------------------------------------
  // Labels
  // ---------------------------------------------------------------------------

  predicate Kept(labels: Labels, names: set<string>, k: string) {
    k in labels && k in names && TrimSpace(labels[k]) != ""
  }

  /** The labels with one of the names and a value, trimmed. */
  function Restrict(labels: Labels, names: set<string>): (out: Labels)
    ensures out.Keys <= names
  {
    map k | k in labels && Kept(labels, names, k) :: TrimSpace(labels[k])
  }

  function Allowed(labels: Labels): Labels { Restrict(labels, ALLOWED) }

  lemma FullSubset<T>(a: set<T>, b: set<T>)
    requires a <= b && |a| == |b|
    ensures a == b
  {
    assert |b - a| == |b| - |a|;
  }

  lemma NineAllowed()
    ensures |ALLOWED| == 9
  {
  }

  /**
    * Stopping once there are as many labels as names drops none, so the order in which the map is walked does not
    * matter.
    */
  method Collect(labels: Labels, names: set<string>, cutoff: nat) returns (out: Labels)
    requires |names| == cutoff
    ensures out == Restrict(labels, names)
  {
    hide TrimSpace;
    out := map[];
    var keys := labels.Keys;
    while keys != {}
      invariant keys <= labels.Keys
      invariant forall k :: k in out <==> k in labels.Keys - keys && Kept(labels, names, k)
      invariant forall k :: k in out ==> out[k] == TrimSpace(labels[k])
      decreases keys
    {
      var key :| key in keys;
      keys := keys - {key};
      if key !in names {
        continue;
      }
      var value := TrimSpace(labels[key]);
      if value == "" {
        continue;
      }
      out := out[key := value];
      if |out| == cutoff {
        assert |out.Keys| == |out|;
        FullSubset(out.Keys, names);
        break;
      }
    }
    assert out.Keys == Restrict(labels, names).Keys;
  }

  method AllowedLabels(labels: Labels) returns (out: Labels)
    ensures out == Allowed(labels)
  {
    NineAllowed();
    out := Collect(labels, ALLOWED, 9);
  }

  // ---------------------------------------------------------------------------
  // Sorting
  // ---------------------------------------------------------------------------

  predicate IsLeast(s: set<string>, m: string) {
    m in s && forall x :: x in s ==> x == m || StrLess(m, x)
  }

  lemma {:induction false} LeastExists(s: set<string>)
    requires s != {}
    ensures exists m :: IsLeast(s, m)
    decreases s
  {
    var x :| x in s;
    if s == {x} {
      assert IsLeast(s, x);
    } else {
      var rest := s - {x};
      assert s == rest + {x};
      LeastExists(rest);
      var m :| IsLeast(rest, m);
      StrOrder(x, m);
      if StrLess(m, x) {
        assert IsLeast(s, m);
      } else {
        forall y | y in s ensures y == x || StrLess(x, y) {
          if y != x && y != m {
            StrLessTransitive(x, m, y);
          }
        }
        assert IsLeast(s, x);
      }
    }
  }

  lemma LeastIsUnique(s: set<string>, m: string, n: string)
    requires IsLeast(s, m) && IsLeast(s, n)
    ensures m == n
  {
    StrOrder(m, n);
  }

  function Least(s: set<string>): (m: string)
    requires s != {}
    ensures IsLeast(s, m)
  {
    LeastExists(s);
    assert forall m, n :: IsLeast(s, m) && IsLeast(s, n) ==> m == n by {
      forall m, n | IsLeast(s, m) && IsLeast(s, n) ensures m == n {
        LeastIsUnique(s, m, n);
      }
    }
    var m :| m in s && IsLeast(s, m);
    m
  }

  /** The members in ascending order: the one result that sorting them in any order can give. */
  function Sorted(s: set<string>): (r: seq<string>)
    ensures |r| == |s|
    ensures forall x :: x in r <==> x in s
    ensures forall i, j :: 0 <= i < j < |r| ==> StrLess(r[i], r[j])
  {
    if s == {} then []
    else
      var m := Least(s);
      [m] + Sorted(s - {m})
  }

  // ---------------------------------------------------------------------------
  // Keys
  // ---------------------------------------------------------------------------

  /** strings.Join with the NUL separator. */
  function Join(parts: seq<string>): string {
    if parts == [] then "" else if |parts| == 1 then parts[0] else parts[0] + NUL + Join(parts[1..])
  }

  function Pairs(names: seq<string>, labels: Labels): (ps: seq<string>)
    requires forall i :: 0 <= i < |names| ==> names[i] in labels
    ensures |ps| == 2 * |names|
  {
    if names == [] then [] else [names[0], labels[names[0]]] + Pairs(names[1..], labels)
  }

  function LabelNames(labels: Labels): (names: seq<string>)
    ensures forall k :: k in names <==> k in labels
    ensures forall i :: 0 <= i < |names| ==> names[i] in labels
  {
    Sorted(labels.Keys)
  }

  function KeyParts(name: string, labels: Labels): (parts: seq<string>)
    ensures parts != []
  {
    [name] + Pairs(LabelNames(labels), labels)
  }

  function MetricKey(name: string, labels: Labels): string {
    Join(KeyParts(name, labels))
  }

  predicate NulFree(s: string) { '\0' !in s }

  predicate AllNulFree(parts: seq<string>) { forall i :: 0 <= i < |parts| ==> NulFree(parts[i]) }

  predicate CleanSeries(name: string, labels: Labels) {
    NulFree(name) && forall k :: k in labels ==> k != "" && NulFree(k) && NulFree(labels[k])
  }

  /** After filtering, only the name and the values can bring in a NUL character. */
  lemma AllowedSeriesIsClean(name: string, labels: Labels)
    requires labels.Keys <= ALLOWED && NulFree(name) && forall k :: k in labels ==> NulFree(labels[k])
    ensures CleanSeries(name, labels)
  {
    assert forall k :: k in ALLOWED ==> k != "" && NulFree(k);
  }

  lemma SplitAtNul(p: string, q: string, x: string, y: string)
    requires NulFree(p) && NulFree(q) && p + x == q + y
    requires (x == [] || x[0] == '\0') && (y == [] || y[0] == '\0')
    ensures p == q && x == y
  {
    var s := p + x;
    assert forall i :: 0 <= i < |p| ==> s[i] == p[i] != '\0';
    assert forall i :: 0 <= i < |q| ==> s[i] == q[i] != '\0';
    assert x != [] ==> s[|p|] == '\0';
    assert y != [] ==> s[|q|] == '\0';
    assert |p| == |q|;
    assert p == s[..|p|] && q == s[..|q|] && x == s[|p|..] && y == s[|q|..];
  }

  /** What Join adds after the first part. */
  function JoinRest(parts: seq<string>): string
    requires parts != []
  {
    if |parts| == 1 then "" else NUL + Join(parts[1..])
  }

  lemma JoinUnfolds(parts: seq<string>)
    requires parts != []
    ensures Join(parts) == parts[0] + JoinRest(parts) && (JoinRest(parts) == [] || JoinRest(parts)[0] == '\0')
    ensures |parts| == 1 <==> JoinRest(parts) == []
    ensures |parts| > 1 ==> JoinRest(parts)[1..] == Join(parts[1..])
  {
    if |parts| > 1 {
      ConcatAssoc(parts[0], NUL, Join(parts[1..]));
    }
  }

  /** Joining NUL-free parts loses nothing. */
  lemma {:induction false} JoinInjective(a: seq<string>, b: seq<string>)
    requires a != [] && b != [] && AllNulFree(a) && AllNulFree(b) && Join(a) == Join(b)
    ensures a == b
  {
    hide Join, JoinRest;
    JoinUnfolds(a);
    JoinUnfolds(b);
    SplitAtNul(a[0], b[0], JoinRest(a), JoinRest(b));
    if |a| > 1 {
      JoinInjective(a[1..], b[1..]);
    }
    assert a == [a[0]] + a[1..] && b == [b[0]] + b[1..];
  }

  lemma {:induction false} PairsInjective(names: seq<string>, labels: Labels, names': seq<string>, labels': Labels)
    requires forall i :: 0 <= i < |names| ==> names[i] in labels
    requires forall i :: 0 <= i < |names'| ==> names'[i] in labels'
    requires Pairs(names, labels) == Pairs(names', labels')
    ensures names == names' && forall i :: 0 <= i < |names| ==> labels[names[i]] == labels'[names[i]]
  {
    if names != [] && names' != [] {
      var (ps, ps') := (Pairs(names, labels), Pairs(names', labels'));
      assert ps[0] == names[0] && ps'[0] == names'[0] && ps[1] == labels[names[0]] && ps'[1] == labels'[names'[0]];
      assert ps[2..] == Pairs(names[1..], labels) && ps'[2..] == Pairs(names'[1..], labels');
      PairsInjective(names[1..], labels, names'[1..], labels');
      assert names == [names[0]] + names[1..] && names' == [names'[0]] + names'[1..];
    }
  }

  lemma {:induction false} PairsClean(names: seq<string>, labels: Labels)
    requires forall i :: 0 <= i < |names| ==> names[i] in labels
    requires forall k :: k in labels ==> NulFree(k) && NulFree(labels[k])
    ensures AllNulFree(Pairs(names, labels))
  {
    if names != [] {
      PairsClean(names[1..], labels);
    }
  }

  lemma KeyPartsClean(name: string, labels: Labels)
    requires CleanSeries(name, labels)
    ensures AllNulFree(KeyParts(name, labels))
  {
    hide Pairs, Sorted;
    PairsClean(LabelNames(labels), labels);
  }

  lemma KeyPartsInjective(name: string, labels: Labels, name': string, labels': Labels)
    requires KeyParts(name, labels) == KeyParts(name', labels')
    ensures name == name' && labels == labels'
  {
    hide Pairs, LabelNames;
    var (ns, ns') := (LabelNames(labels), LabelNames(labels'));
    var (a, b) := (KeyParts(name, labels), KeyParts(name', labels'));
    assert a[0] == name && b[0] == name' && a[1..] == Pairs(ns, labels) && b[1..] == Pairs(ns', labels');
    PairsInjective(ns, labels, ns', labels');
    SameLabels(ns, labels, labels');
  }

  lemma SameLabels(ns: seq<string>, labels: Labels, labels': Labels)
    requires forall k :: k in ns <==> k in labels
    requires forall k :: k in ns <==> k in labels'
    requires forall i :: 0 <= i < |ns| ==> labels[ns[i]] == labels'[ns[i]]
    ensures labels == labels'
  {
  }

  /** Without NUL characters two series share a key only if they are the same series. */
  lemma {:induction false} KeyIdentifiesSeries(name: string, labels: Labels, name': string, labels': Labels)
    requires CleanSeries(name, labels) && CleanSeries(name', labels')
    ensures MetricKey(name, labels) == MetricKey(name', labels') <==> name == name' && labels == labels'
  {
    hide Join, KeyParts;
    if MetricKey(name, labels) == MetricKey(name', labels') {
      KeyPartsClean(name, labels);
      KeyPartsClean(name', labels');
      JoinInjective(KeyParts(name, labels), KeyParts(name', labels'));
      KeyPartsInjective(name, labels, name', labels');
    }
  }

  // ---------------------------------------------------------------------------
  // Keys that several series share
  // ---------------------------------------------------------------------------

  lemma NoLabels(name: string)
    ensures MetricKey(name, map[]) == name
  {
    assert KeyParts(name, map[]) == [name];
  }

  lemma OneLabel(name: string, k: string, v: string)
    ensures MetricKey(name, map[k := v]) == name + NUL + (k + NUL + v)
  {
    var labels := map[k := v];
    assert labels.Keys == {k};
    assert LabelNames(labels) == [k];
    assert Pairs([k], labels) == [k, v];
    assert KeyParts(name, labels) == [name, k, v];
    assert Join([k, v]) == k + NUL + v;
  }

  /** The key of a labelled series begins with its name, its first label name and, up to the next one, its value. */
  lemma FirstLabel(name: string, labels: Labels) returns (k: string, rest: seq<string>)
    requires labels != map[]
    ensures LabelNames(labels) != [] && k == LabelNames(labels)[0] && rest == Pairs(LabelNames(labels)[1..], labels)
    ensures MetricKey(name, labels) == name + NUL + (k + NUL + Join([labels[k]] + rest))
  {
    hide Join, Sorted;
    var some :| some in labels;
    var ns := LabelNames(labels);
    assert some in ns;
    k, rest := ns[0], Pairs(ns[1..], labels);
    var parts := [k, labels[k]] + rest;
    assert KeyParts(name, labels) == [name] + parts;
    JoinUnfolds([name] + parts);
    JoinUnfolds(parts);
    assert ([name] + parts)[1..] == parts && parts[1..] == [labels[k]] + rest;
    JoinMore([name] + parts);
    JoinMore(parts);
  }

  lemma JoinMore(parts: seq<string>)
    requires |parts| > 1
    ensures Join(parts) == parts[0] + NUL + Join(parts[1..])
  {
  }

  lemma JoinOne(part: string)
    ensures Join([part]) == part
  {
  }

  predicate TwoNuls(s: string) { exists i, j :: 0 <= i < j < |s| && s[i] == s[j] == '\0' }

  lemma LabelsBringTwoNuls(name: string, labels: Labels)
    requires labels != map[]
    ensures TwoNuls(MetricKey(name, labels))
  {
    hide MetricKey, Join, Pairs;
    var k, rest := FirstLabel(name, labels);
    var key := MetricKey(name, labels);
    assert key[|name|] == '\0' && key[|name| + 1 + |k|] == '\0';
  }

  /** Over all names and labels, a series shares its key with another one exactly if the key contains two NULs. */
  lemma {:induction false} SharedExactly(name: string, labels: Labels)
    ensures TwoNuls(MetricKey(name, labels)) <==>
            exists name', labels': Labels ::
              (name', labels') != (name, labels) && MetricKey(name', labels') == MetricKey(name, labels)
  {
    hide MetricKey;
    var key := MetricKey(name, labels);
    NoLabels(name);
    NoLabels(key);
    if labels != map[] {
      LabelsBringTwoNuls(name, labels);
      assert (key, map[]) != (name, labels);
    } else if TwoNuls(key) {
      var i, j :| 0 <= i < j < |key| && key[i] == key[j] == '\0';
      OneLabel(key[..i], key[i + 1..j], key[j + 1..]);
      assert key == key[..i] + NUL + (key[i + 1..j] + NUL + key[j + 1..]);
      assert (key[..i], map[key[i + 1..j] := key[j + 1..]]) != (name, labels);
    } else if name', labels': Labels :| (name', labels') != (name, labels) && MetricKey(name', labels') == key {
      NoLabels(name');
      if labels' != map[] {
        LabelsBringTwoNuls(name', labels');
      }
    }
  }

  /** A value as allowedLabels leaves it: not empty and without white space at its ends. */
  predicate Proper(v: string) { v != "" && !IsSpace(v[0]) && !IsSpace(v[|v| - 1]) }

  /** A series as the recorder can hold it. Metric names are constants without NUL; label values come from requests. */
  predicate Recordable(name: string, labels: Labels) {
    NulFree(name) && labels.Keys <= ALLOWED && forall k :: k in labels ==> Proper(labels[k])
  }

  lemma AllowedIsRecordable(name: string, labels: Labels)
    requires NulFree(name)
    ensures Recordable(name, Allowed(labels))
  {
    hide TrimSpace, IsSpace;
  }

  lemma AllowedNames()
    ensures forall k :: k in ALLOWED ==> NulFree(k)
  {
  }

  lemma SortedPair(k: string, l: string)
    requires StrLess(k, l)
    ensures Sorted({k, l}) == [k, l]
  {
    StrOrder(k, l);
    var r := Sorted({k, l});
    assert k != l && |{k, l}| == 2;
    assert r[0] in {k, l} && r[1] in {k, l} && StrLess(r[0], r[1]);
    StrOrder(r[0], r[1]);
  }

  /** A value that spells out the next label takes the place of that label. */
  lemma {:induction false} ValueSpellsLabel(name: string, k: string, a: string, l: string, b: string)
    requires StrLess(k, l)
    ensures MetricKey(name, map[k := a, l := b]) == MetricKey(name, map[k := a + NUL + (l + NUL + b)])
  {
    hide Sorted;
    var labels := map[k := a, l := b];
    StrOrder(k, l);
    SortedPair(k, l);
    assert labels.Keys == {k, l};
    var key, rest := FirstLabel(name, labels);
    assert [key, l] == LabelNames(labels) && LabelNames(labels)[1..] == [l];
    assert Pairs([l], labels) == [l, b];
    JoinMore([a, l, b]);
    JoinMore([l, b]);
    assert [a, l, b][1..] == [l, b] && [l, b][1..] == [b] && Join([b]) == b;
    assert [a] + rest == [a, l, b];
    OneLabel(name, k, a + NUL + (l + NUL + b));
  }

  /** Both series are recordable, and they differ. */
  lemma SpelledIsRecordable(name: string, k: string, a: string, l: string, b: string)
    requires NulFree(name) && StrLess(k, l) && k in ALLOWED && l in ALLOWED && Proper(a) && Proper(b)
    ensures Recordable(name, map[k := a, l := b]) && Recordable(name, map[k := a + NUL + (l + NUL + b)])
    ensures map[k := a, l := b] != map[k := a + NUL + (l + NUL + b)]
  {
    hide IsSpace, ALLOWED;
    StrOrder(k, l);
    var (one, two) := (map[k := a + NUL + (l + NUL + b)], map[k := a, l := b]);
    var v := one[k];
    assert v[0] == a[0] && v[|v| - 1] == b[|b| - 1];
    assert one.Keys == {k} && two.Keys == {k, l};
  }

  /** For example, the event type of a request can spell out an identity type. */
  lemma {:induction false} EventTypeCollides(name: string)
    requires NulFree(name)
    ensures var one := map["eventType" := "a" + NUL + ("identityType" + NUL + "b")];
            var two := map["eventType" := "a", "identityType" := "b"];
            one != two && Recordable(name, one) && Recordable(name, two) && MetricKey(name, one) == MetricKey(name, two)
  {
    hide MetricKey, Recordable;
    var (k, l) := ("eventType", "identityType");
    assert k[0] < l[0];
    ValueSpellsLabel(name, k, "a", l, "b");
    SpelledIsRecordable(name, k, "a", l, "b");
  }

  /** The value of the only label spells out a later label. */
  predicate SpelledBy(k: string, a: string, l: string, b: string, labels: Labels) {
    && StrLess(k, l) && k in ALLOWED && l in ALLOWED && Proper(a) && Proper(b)
    && labels == map[k := a + NUL + (l + NUL + b)]
  }

  ghost predicate Ambiguous(labels: Labels) {
    |labels| >= 2 || exists k, a, l, b :: SpelledBy(k, a, l, b, labels)
  }

  /** A series with several labels shares its key with one whose only value spells out all labels after the first. */
  lemma {:induction false} SpellOut(name: string, labels: Labels) returns (k: string, a: string, l: string, b: string)
    requires Recordable(name, labels) && |labels| >= 2
    ensures var spelled := map[k := a + NUL + (l + NUL + b)];
            && SpelledBy(k, a, l, b, spelled) && Recordable(name, spelled) && |spelled| == 1
            && MetricKey(name, spelled) == MetricKey(name, labels)
  {
    hide IsSpace, Sorted, MetricKey, ALLOWED, Join, Proper;
    var rest;
    k, rest := FirstLabel(name, labels);
    var ns := LabelNames(labels);
    assert |ns| == |labels.Keys| == |labels|;
    l := ns[1];
    var tail := Pairs(ns[2..], labels);
    assert ns[1..][0] == l && ns[1..][1..] == ns[2..];
    assert rest == [l, labels[l]] + tail;
    var all := [labels[k]] + rest;
    JoinMore(all);
    JoinMore(rest);
    assert all[1..] == rest && rest[1..] == [labels[l]] + tail;
    a, b := labels[k], Join([labels[l]] + tail);
    PairsEndProper(ns[2..], labels, labels[l]);
    OneLabel(name, k, a + NUL + (l + NUL + b));
    SpelledIsRecordable(name, k, a, l, b);
  }

  /** A proper value followed by more names and proper values is again a proper value. */
  lemma {:induction false} PairsEndProper(names: seq<string>, labels: Labels, v: string)
    requires forall i :: 0 <= i < |names| ==> names[i] in labels
    requires Proper(v) && forall k :: k in labels ==> Proper(labels[k])
    ensures Proper(Join([v] + Pairs(names, labels)))
  {
    hide IsSpace, Proper, Join;
    if names == [] {
      JoinOne(v);
      assert [v] + Pairs(names, labels) == [v];
    } else {
      var w, tail := labels[names[0]], Pairs(names[1..], labels);
      PairsEndProper(names[1..], labels, w);
      var all := [v] + Pairs(names, labels);
      assert Pairs(names, labels) == [names[0]] + ([w] + tail);
      JoinMore(all);
      assert all[1..] == [names[0]] + ([w] + tail);
      JoinMore([names[0]] + ([w] + tail));
      assert ([names[0]] + ([w] + tail))[1..] == [w] + tail;
      ProperConcat(v, NUL + (names[0] + NUL), Join([w] + tail));
      ConcatAssoc(v, NUL, Join(all[1..]));
      ConcatAssoc(NUL, names[0] + NUL, Join([w] + tail));
    }
  }

  lemma ProperConcat(v: string, middle: string, w: string)
    requires Proper(v) && Proper(w)
    ensures Proper(v + (middle + w))
  {
    hide IsSpace;
    var s := v + (middle + w);
    assert s[0] == v[0] && s[|s| - 1] == w[|w| - 1];
  }

  lemma OnlyLabel(name: string, labels: Labels) returns (k: string, v: string)
    requires Recordable(name, labels) && |labels| == 1
    ensures k in ALLOWED && labels == map[k := v] && MetricKey(name, labels) == name + NUL + (k + NUL + v)
  {
    hide MetricKey, ALLOWED, Proper;
    k :| k in labels;
    v := labels[k];
    assert |labels.Keys - {k}| == |labels.Keys| - 1 == 0;
    assert labels.Keys == {k};
    assert labels == map[k := v];
    OneLabel(name, k, v);
  }

  /** Recordable series with at most one label each share a key only if they are the same. */
  lemma {:induction false} FewLabelsAreTold(name: string, labels: Labels, labels': Labels)
    requires Recordable(name, labels) && Recordable(name, labels') && |labels| <= 1 && |labels'| <= 1
    requires MetricKey(name, labels) == MetricKey(name, labels')
    ensures labels == labels'
  {
    hide MetricKey, ALLOWED, Recordable;
    NoLabels(name);
    var k, v, k', v';
    if |labels| == 1 {
      k, v := OnlyLabel(name, labels);
    }
    if |labels'| == 1 {
      k', v' := OnlyLabel(name, labels');
    }
    if |labels| == 1 && |labels'| == 1 {
      var n := |name| + 1;
      assert (name + NUL + (k + NUL + v))[n..] == k + NUL + v && (name + NUL + (k' + NUL + v'))[n..] == k' + NUL + v';
      SameLabel(k, v, k', v');
    }
  }

  lemma SameLabel(k: string, v: string, k': string, v': string)
    requires k in ALLOWED && k' in ALLOWED && k + NUL + v == k' + NUL + v'
    ensures k == k' && v == v'
  {
    hide ALLOWED;
    AllowedNames();
    ConcatAssoc(k, NUL, v);
    ConcatAssoc(k', NUL, v');
    SplitAtNul(k, k', NUL + v, NUL + v');
    assert (NUL + v)[1..] == v && (NUL + v')[1..] == v';
  }

  /**
    * Over the series the recorder can hold, one shares its key with another exactly if it has two labels or more, or
    * the value of its only label spells out a later label between NULs.
    */
  lemma {:induction false} SharedRecordablyExactly(name: string, labels: Labels)
    requires Recordable(name, labels)
    ensures Ambiguous(labels) <==>
            exists name', labels': Labels ::
              && (name', labels') != (name, labels) && Recordable(name', labels')
              && MetricKey(name', labels') == MetricKey(name, labels)
  {
    hide MetricKey, Recordable, SpelledBy;
    if |labels| >= 2 {
      var k, a, l, b := SpellOut(name, labels);
      var spelled := map[k := a + NUL + (l + NUL + b)];
      assert (name, spelled) != (name, labels);
    } else if k, a, l, b :| SpelledBy(k, a, l, b, labels) {
      SpelledIsShared(name, labels, k, a, l, b);
      var two := map[k := a, l := b];
      assert (name, two) != (name, labels);
    } else if name', labels': Labels :| (name', labels') != (name, labels) && Recordable(name', labels')
                                        && MetricKey(name', labels') == MetricKey(name, labels) {
      SameName(name, labels, name', labels');
      SharedIsSpelled(name, labels, labels');
    }
  }

  lemma SpelledIsShared(name: string, labels: Labels, k: string, a: string, l: string, b: string)
    requires Recordable(name, labels) && SpelledBy(k, a, l, b, labels)
    ensures var two := map[k := a, l := b];
            two != labels && Recordable(name, two) && MetricKey(name, two) == MetricKey(name, labels)
  {
    hide MetricKey, ALLOWED, Proper;
    SpelledIsRecordable(name, k, a, l, b);
    ValueSpellsLabel(name, k, a, l, b);
  }

  /** Of two different series with the same key, one that has at most one label spells out the other. */
  lemma SharedIsSpelled(name: string, labels: Labels, labels': Labels)
    requires Recordable(name, labels) && Recordable(name, labels') && labels != labels' && |labels| <= 1
    requires MetricKey(name, labels) == MetricKey(name, labels')
    ensures exists k, a, l, b :: SpelledBy(k, a, l, b, labels)
  {
    hide MetricKey, Recordable, SpelledBy;
    if |labels'| >= 2 {
      var k, a, l, b := SpellOut(name, labels');
      FewLabelsAreTold(name, labels, map[k := a + NUL + (l + NUL + b)]);
    } else {
      FewLabelsAreTold(name, labels, labels');
    }
  }

  lemma SameName(name: string, labels: Labels, name': string, labels': Labels)
    requires Recordable(name, labels) && Recordable(name', labels')
             && MetricKey(name, labels) == MetricKey(name', labels')
    ensures name == name'
  {
    hide MetricKey, ALLOWED, Proper, Join;
    JoinUnfolds(KeyParts(name, labels));
    JoinUnfolds(KeyParts(name', labels'));
    KeyIsJoin(name, labels);
    KeyIsJoin(name', labels');
    SplitAtNul(name, name', JoinRest(KeyParts(name, labels)), JoinRest(KeyParts(name', labels')));
  }

  lemma KeyIsJoin(name: string, labels: Labels)
    ensures MetricKey(name, labels) == Join(KeyParts(name, labels)) && KeyParts(name, labels)[0] == name
  {
  }
}
