/** The metric recorder: what add accumulates and what a flush sends (internal/azuremonitor/metrics.go). */
module MetricFlush {
  import opened Prelude
  import opened Metrics

  datatype Point = Point(name: string, labels: Labels, min: real, max: real, sum: real, count: nat) {
    function Key(): string { MetricKey(name, labels) }
  }

  type Points = map<string, Point>

  /** One accepted observation: a trimmed nonempty name, the allowed labels, a value. */
  datatype Sample = Sample(name: string, labels: Labels, value: real) {
    function Key(): string { MetricKey(name, labels) }
  }

  function Observe(points: Points, s: Sample): Points {
    var p := if s.Key() in points then points[s.Key()] else Point(s.name, s.labels, s.value, s.value, 0.0, 0);
    points[s.Key() := Point(p.name, p.labels, if s.value < p.min then s.value else p.min,
                            if s.value > p.max then s.value else p.max, p.sum + s.value, p.count + 1)]
  }

  /** Every point is stored under the key of its own series. */
  ghost predicate WellKeyed(points: Points) {
    forall k :: k in points ==> k == points[k].Key()
  }

  class MetricRecorder {
    var points: Points

    constructor ()
      ensures points == map[]
    {
      points := map[];
    }

    method Add(name: string, labels: Labels, value: real)
      modifies this
      ensures TrimSpace(name) == "" ==> points == old(points)
      ensures TrimSpace(name) != "" ==> points == Observe(old(points), Sample(TrimSpace(name), Allowed(labels), value))
    {
      hide TrimSpace, Allowed, MetricKey;
      var trimmed := TrimSpace(name);
      if trimmed == "" {
        return;
      }
      var kept := AllowedLabels(labels);
      var key := MetricKey(trimmed, kept);
      var point := Point(trimmed, kept, value, value, 0.0, 0);
      if key in points {
        point := points[key];
      }
      if value < point.min {
        point := point.(min := value);
      }
      if value > point.max {
        point := point.(max := value);
      }
      point := point.(sum := point.sum + value, count := point.count + 1);
      points := points[key := point];
    }

    /** The part of Flush under the lock: the points leave in whatever order the map is walked, and none stays. */
    method Drain() returns (drained: seq<Point>)
      requires WellKeyed(points)
      modifies this
      ensures points == map[] && Distinct(drained) && ByKey(drained) == old(points)
    {
      hide MetricKey;
      drained := [];
      ghost var all := points;
      var keys := points.Keys;
      while keys != {}
        invariant points == all && keys <= all.Keys
        invariant Distinct(drained) && ByKey(drained) == map k | k in all && k !in keys :: all[k]
        decreases keys
      {
        var key :| key in keys;
        ByKeyAppend(drained, points[key]);
        drained := drained + [points[key]];
        keys := keys - {key};
      }
      points := map[];
    }
  }

  predicate Distinct(ps: seq<Point>) {
    forall i, j :: 0 <= i < j < |ps| ==> ps[i].Key() != ps[j].Key()
  }

  function ByKey(ps: seq<Point>): Points {
    if ps == [] then map[] else ByKey(ps[..|ps| - 1])[ps[|ps| - 1].Key() := ps[|ps| - 1]]
  }

  lemma {:induction false} ByKeyFinds(ps: seq<Point>)
    ensures forall i :: 0 <= i < |ps| ==> ps[i].Key() in ByKey(ps)
    ensures forall k :: k in ByKey(ps) ==> ByKey(ps)[k] in ps && ByKey(ps)[k].Key() == k
  {
    hide MetricKey;
    if ps != [] {
      ByKeyFinds(ps[..|ps| - 1]);
    }
  }

  lemma ByKeyAppend(ps: seq<Point>, p: Point)
    requires Distinct(ps) && p.Key() !in ByKey(ps)
    ensures Distinct(ps + [p]) && ByKey(ps + [p]) == ByKey(ps)[p.Key() := p]
  {
    hide Point.Key;
    ByKeyFinds(ps);
    var all := ps + [p];
    assert all[..|ps|] == ps && all[|ps|] == p;
    forall i, j | 0 <= i < j < |all| ensures all[i].Key() != all[j].Key() {
      assert all[i] == ps[i];
    }
  }

  lemma ByKeyHolds(ps: seq<Point>, i: nat)
    requires Distinct(ps) && i < |ps|
    ensures ps[i].Key() in ByKey(ps) && ByKey(ps)[ps[i].Key()] == ps[i]
  {
    hide MetricKey;
    ByKeyFinds(ps);
    var p := ByKey(ps)[ps[i].Key()];
    var j :| 0 <= j < |ps| && ps[j] == p;
  }

  // ---------------------------------------------------------------------------
  // Conservation
  // ---------------------------------------------------------------------------

  function Accumulated(samples: seq<Sample>): Points {
    if samples == [] then map[] else Observe(Accumulated(samples[..|samples| - 1]), samples[|samples| - 1])
  }

  /** The values observed for one series, in order. */
  function Values(samples: seq<Sample>, name: string, labels: Labels): seq<real> {
    if samples == [] then []
    else
      var last := samples[|samples| - 1];
      Values(samples[..|samples| - 1], name, labels)
      + if last.name == name && last.labels == labels then [last.value] else []
  }

  function Sum(vs: seq<real>): real {
    if vs == [] then 0.0 else Sum(vs[..|vs| - 1]) + vs[|vs| - 1]
  }

  /** The statistics are exactly those of the values. */
  ghost predicate Exact(count: nat, sum: real, min: real, max: real, vs: seq<real>) {
    count == |vs| > 0 && sum == Sum(vs) && min in vs && max in vs && forall i :: 0 <= i < |vs| ==> min <= vs[i] <= max
  }

  ghost predicate Summarizes(p: Point, vs: seq<real>) { Exact(p.count, p.sum, p.min, p.max, vs) }

  /** The values observed under one key, whatever the series, in order. */
  function KeyValues(samples: seq<Sample>, key: string): seq<real> {
    if samples == [] then []
    else
      var last := samples[|samples| - 1];
      KeyValues(samples[..|samples| - 1], key) + if last.Key() == key then [last.value] else []
  }

  /** Another observed series has the key of this one. */
  ghost predicate Shared(samples: seq<Sample>, name: string, labels: Labels) {
    exists i :: && 0 <= i < |samples| && samples[i].Key() == MetricKey(name, labels)
                && (samples[i].name != name || samples[i].labels != labels)
  }

  ghost predicate AllClean(samples: seq<Sample>) {
    forall i :: 0 <= i < |samples| ==> CleanSeries(samples[i].name, samples[i].labels)
  }

  ghost predicate AllRecordable(samples: seq<Sample>) {
    forall i :: 0 <= i < |samples| ==> Recordable(samples[i].name, samples[i].labels)
  }

  lemma SummaryGrows(p: Point, vs: seq<real>, v: real)
    requires Summarizes(p, vs)
    ensures Summarizes(p.(min := if v < p.min then v else p.min, max := if v > p.max then v else p.max,
                          sum := p.sum + v, count := p.count + 1), vs + [v])
  {
    var all := vs + [v];
    assert all[..|vs|] == vs && all[|vs|] == v;
    assert forall x :: x in all <==> x in vs || x == v;
  }

  lemma SummaryStarts(p: Point, v: real)
    requires p.min == p.max == p.sum == v && p.count == 1
    ensures Summarizes(p, [] + [v])
  {
    assert Sum([v][..0]) == 0.0;
    assert [] + [v] == [v];
  }

  /**
    * For any samples, there is a point for exactly the observed keys. It summarizes exactly the values observed under
    * its key, and it is stored under the key of the series it names, which is one of those observed.
    */
  lemma {:induction false} KeyConserved(samples: seq<Sample>, key: string)
    ensures key in Accumulated(samples) <==> KeyValues(samples, key) != []
    ensures key in Accumulated(samples) ==> Summarizes(Accumulated(samples)[key], KeyValues(samples, key))
    ensures key in Accumulated(samples) ==>
              exists i :: && 0 <= i < |samples| && samples[i].Key() == key
                          && samples[i].name == Accumulated(samples)[key].name
                          && samples[i].labels == Accumulated(samples)[key].labels
  {
    hide MetricKey, Summarizes;
    if samples != [] {
      var init, last := samples[..|samples| - 1], samples[|samples| - 1];
      KeyConserved(init, key);
      var before := Accumulated(init);
      if key in before {
        var i :| && 0 <= i < |init| && init[i].Key() == key
                 && init[i].name == before[key].name && init[i].labels == before[key].labels;
        assert samples[i] == init[i];
        SummaryGrows(before[key], KeyValues(init, key), last.value);
      } else if last.Key() == key {
        assert samples[|samples| - 1] == last;
        SummaryStarts(Accumulated(samples)[key], last.value);
      }
      if last.Key() != key {
        assert KeyValues(samples, key) == KeyValues(init, key);
      }
    }
  }

  /** The values of a series are among those of its key, and are all of them exactly if no other series shares it. */
  lemma {:induction false} ValuesOfKey(samples: seq<Sample>, name: string, labels: Labels)
    ensures var (vs, all) := (Values(samples, name, labels), KeyValues(samples, MetricKey(name, labels)));
            && |vs| <= |all| && (|vs| == |all| <==> !Shared(samples, name, labels)) && (|vs| == |all| ==> vs == all)
  {
    hide MetricKey;
    if samples != [] {
      var init, last := samples[..|samples| - 1], samples[|samples| - 1];
      ValuesOfKey(init, name, labels);
      SharedGrows(samples, name, labels);
    }
  }

  lemma SharedGrows(samples: seq<Sample>, name: string, labels: Labels)
    requires samples != []
    ensures var (init, last) := (samples[..|samples| - 1], samples[|samples| - 1]);
            Shared(samples, name, labels) <==>
            Shared(init, name, labels) || (last.Key() == MetricKey(name, labels)
              && (last.name != name || last.labels != labels))
  {
    hide MetricKey;
    var (init, last) := (samples[..|samples| - 1], samples[|samples| - 1]);
    if Shared(init, name, labels) {
      var i :| && 0 <= i < |init| && init[i].Key() == MetricKey(name, labels)
               && (init[i].name != name || init[i].labels != labels);
      assert samples[i] == init[i];
    }
    if Shared(samples, name, labels) {
      var i :| && 0 <= i < |samples| && samples[i].Key() == MetricKey(name, labels)
               && (samples[i].name != name || samples[i].labels != labels);
      assert i < |init| ==> init[i] == samples[i];
    }
  }

  /**
    * For any samples, every observed series has a point at its key. The point is the exact summary of the values of the
    * series if and only if no other observed series shares the key, and then it also names the series.
    */
  lemma {:induction false} SeriesConserved(samples: seq<Sample>, name: string, labels: Labels)
    ensures var (m, k, vs) := (Accumulated(samples), MetricKey(name, labels), Values(samples, name, labels));
            && (vs != [] ==> k in m)
            && (vs != [] ==> (Summarizes(m[k], vs) <==> !Shared(samples, name, labels)))
            && (k in m && !Shared(samples, name, labels) ==> vs != [] && m[k].name == name && m[k].labels == labels)
  {
    hide MetricKey, Values, KeyValues, Accumulated;
    KeyConserved(samples, MetricKey(name, labels));
    ValuesOfKey(samples, name, labels);
  }

  /** Series without NUL characters share their keys with no other such series. */
  lemma {:induction false} CleanIsUnshared(samples: seq<Sample>, name: string, labels: Labels)
    requires AllClean(samples) && CleanSeries(name, labels)
    ensures !Shared(samples, name, labels)
  {
    hide MetricKey, CleanSeries;
    forall i | 0 <= i < |samples| && samples[i].Key() == MetricKey(name, labels)
      ensures samples[i].name == name && samples[i].labels == labels
    {
      KeyIdentifiesSeries(samples[i].name, samples[i].labels, name, labels);
    }
  }

  lemma {:induction false} AccumulatedIsWellKeyed(samples: seq<Sample>)
    ensures WellKeyed(Accumulated(samples))
    ensures AllRecordable(samples) ==>
              forall k :: k in Accumulated(samples) ==>
                            Recordable(Accumulated(samples)[k].name, Accumulated(samples)[k].labels)
  {
    hide MetricKey, Recordable;
    if samples != [] {
      AccumulatedIsWellKeyed(samples[..|samples| - 1]);
    }
  }

  /** What Add accepts is recordable whenever its metric name has no NUL, whatever the label values. */
  lemma {:induction false} AddedIsRecordable(name: string, labels: Labels)
    requires NulFree(name)
    ensures Recordable(TrimSpace(name), Allowed(labels))
  {
    hide Allowed, Recordable, IsSpace;
    assert forall c :: c in TrimSpace(name) ==> c in name;
    AllowedIsRecordable(TrimSpace(name), labels);
  }

  // ---------------------------------------------------------------------------
  // Payloads
  // ---------------------------------------------------------------------------

  datatype Series = Series(dimValues: seq<string>, min: real, max: real, sum: real, count: nat)

  datatype Payload = Payload(metric: string, dimNames: seq<string>, series: seq<Series>)

  function GroupKey(p: Point): string { p.name + NUL + Join(LabelNames(p.labels)) }

  /** A missing label reads as the empty string. */
  function DimValues(names: seq<string>, labels: Labels): (vs: seq<string>)
    ensures |vs| == |names|
    ensures forall i :: 0 <= i < |vs| ==> vs[i] == if names[i] in labels then labels[names[i]] else ""
  {
    seq(|names|, i requires 0 <= i < |names| => if names[i] in labels then labels[names[i]] else "")
  }

  function SeriesOf(names: seq<string>, p: Point): Series {
    Series(DimValues(names, p.labels), p.min, p.max, p.sum, p.count)
  }

  function PayloadOf(group: seq<Point>): Payload
    requires group != []
  {
    var names := LabelNames(group[0].labels);
    Payload(group[0].name, names, seq(|group|, i requires 0 <= i < |group| => SeriesOf(names, group[i])))
  }

  function MemberKeys(m: Points, g: string): (ks: set<string>)
    ensures ks <= m.Keys
  {
    set k | k in m && GroupKey(m[k]) == g
  }

  function At(m: Points, ks: seq<string>): (ps: seq<Point>)
    requires forall i :: 0 <= i < |ks| ==> ks[i] in m
    ensures |ps| == |ks| && forall i :: 0 <= i < |ks| ==> ps[i] == m[ks[i]]
  {
    seq(|ks|, i requires 0 <= i < |ks| => m[ks[i]])
  }

  /** The points of one group in the order of their keys. */
  function Members(m: Points, g: string): seq<Point> {
    SortedKeys(m, MemberKeys(m, g));
    At(m, Sorted(MemberKeys(m, g)))
  }

  lemma SortedKeys(m: Points, ks: set<string>)
    requires ks <= m.Keys
    ensures forall i :: 0 <= i < |Sorted(ks)| ==> Sorted(ks)[i] in m
  {
    hide Sorted;
    assert forall i :: 0 <= i < |Sorted(ks)| ==> Sorted(ks)[i] in Sorted(ks);
  }

  function GroupKeys(m: Points): seq<string> {
    Sorted(set k | k in m :: GroupKey(m[k]))
  }

  lemma GroupHasMember(m: Points, i: nat)
    requires i < |GroupKeys(m)|
    ensures Members(m, GroupKeys(m)[i]) != []
  {
    hide GroupKey;
    var g := GroupKeys(m)[i];
    assert g in GroupKeys(m);
    var k :| k in m && GroupKey(m[k]) == g;
    assert k in MemberKeys(m, g);
    assert k in Sorted(MemberKeys(m, g));
  }

  /** The payloads of a set of points: a value of the points alone, whatever order they arrived in. */
  function PayloadsOf(m: Points): seq<Payload> {
    var gs := GroupKeys(m);
    seq(|gs|, i requires 0 <= i < |gs| => GroupHasMember(m, i); PayloadOf(Members(m, gs[i])))
  }

  // The builder

  function InGroup(ps: seq<Point>, g: string): seq<Point> {
    if ps == [] then []
    else InGroup(ps[..|ps| - 1], g) + if GroupKey(ps[|ps| - 1]) == g then [ps[|ps| - 1]] else []
  }

  /** sort.Slice by metric key: the points have distinct keys, so the result is determined. */
  function SortGroup(group: seq<Point>): seq<Point> {
    var m := ByKey(group);
    At(m, Sorted(m.Keys))
  }

  method BuildDimValues(dimNames: seq<string>, labels: Labels) returns (dimValues: seq<string>)
    ensures dimValues == DimValues(dimNames, labels)
  {
    dimValues := [];
    for j := 0 to |dimNames|
      invariant |dimValues| == j && forall k :: 0 <= k < j ==> dimValues[k] == DimValues(dimNames, labels)[k]
    {
      dimValues := dimValues + [if dimNames[j] in labels then labels[dimNames[j]] else ""];
    }
  }

  method BuildPayload(points: seq<Point>) returns (p: Payload)
    requires points != []
    ensures p == PayloadOf(points)
  {
    hide LabelNames, DimValues;
    var dimNames := LabelNames(points[0].labels);
    var series: seq<Series> := [];
    for i := 0 to |points|
      invariant |series| == i && forall k :: 0 <= k < i ==> series[k] == SeriesOf(dimNames, points[k])
    {
      var dimValues := BuildDimValues(dimNames, points[i].labels);
      series := series + [Series(dimValues, points[i].min, points[i].max, points[i].sum, points[i].count)];
    }
    p := Payload(points[0].name, dimNames, series);
  }

  lemma {:induction false} GroupPoints(ps: seq<Point>, g: string)
    requires Distinct(ps)
    ensures ByKey(InGroup(ps, g)).Keys == MemberKeys(ByKey(ps), g)
    ensures forall k :: k in ByKey(InGroup(ps, g)) ==> ByKey(InGroup(ps, g))[k] == ByKey(ps)[k]
  {
    hide MetricKey, GroupKey;
    if ps != [] {
      var init, last := ps[..|ps| - 1], ps[|ps| - 1];
      GroupPoints(init, g);
      ByKeyFinds(init);
      if GroupKey(last) == g {
        var group := InGroup(ps, g);
        assert group[..|group| - 1] == InGroup(init, g) && group[|group| - 1] == last;
      } else {
        assert InGroup(ps, g) == InGroup(init, g);
      }
    }
  }

  lemma SortedGroupIsMembers(ps: seq<Point>, g: string)
    requires Distinct(ps)
    ensures SortGroup(InGroup(ps, g)) == Members(ByKey(ps), g)
  {
    hide Sorted, ByKey, MemberKeys;
    GroupPoints(ps, g);
  }

  lemma {:induction false} GroupNonempty(ps: seq<Point>, g: string)
    ensures InGroup(ps, g) != [] <==> exists i :: 0 <= i < |ps| && GroupKey(ps[i]) == g
  {
    hide GroupKey;
    if ps != [] {
      GroupNonempty(ps[..|ps| - 1], g);
      if i: int :| 0 <= i < |ps| && GroupKey(ps[i]) == g {
        assert i < |ps| - 1 ==> ps[..|ps| - 1][i] == ps[i];
      }
    }
  }

  /** Grouping of the drained points, as the first loop of azureMonitorPayloads builds it. */
  method GroupAll(points: seq<Point>) returns (groups: map<string, seq<Point>>)
    ensures forall g :: g in groups <==> InGroup(points, g) != []
    ensures forall g :: g in groups ==> groups[g] == InGroup(points, g)
  {
    hide GroupKey;
    groups := map[];
    for i := 0 to |points|
      invariant forall g :: g in groups <==> InGroup(points[..i], g) != []
      invariant forall g :: g in groups ==> groups[g] == InGroup(points[..i], g)
    {
      var key := GroupKey(points[i]);
      assert points[..i + 1][..i] == points[..i];
      var group := if key in groups then groups[key] else [];
      groups := groups[key := group + [points[i]]];
    }
    assert points[..|points|] == points;
  }

  /** Any order of the drained points gives the same payloads. */
  method AzureMonitorPayloads(points: seq<Point>) returns (payloads: seq<Payload>)
    requires Distinct(points)
    ensures payloads == PayloadsOf(ByKey(points))
  {
    hide GroupKey, MetricKey, Sorted, SortGroup, Members, InGroup, PayloadOf;
    var groups := GroupAll(points);
    GroupKeysAgree(points, groups);
    var keys := Sorted(groups.Keys);
    payloads := [];
    for i := 0 to |keys|
      invariant |payloads| == i && forall k :: 0 <= k < i ==> payloads[k] == PayloadsOf(ByKey(points))[k]
    {
      assert keys[i] in keys;
      var group := SortGroup(groups[keys[i]]);
      SortedGroupIsMembers(points, keys[i]);
      GroupHasMember(ByKey(points), i);
      var payload := BuildPayload(group);
      payloads := payloads + [payload];
    }
  }

  lemma GroupKeysAgree(points: seq<Point>, groups: map<string, seq<Point>>)
    requires Distinct(points) && forall g :: g in groups <==> InGroup(points, g) != []
    ensures Sorted(groups.Keys) == GroupKeys(ByKey(points))
  {
    hide GroupKey, MetricKey, Sorted, InGroup;
    var m := ByKey(points);
    ByKeyFinds(points);
    forall g ensures g in groups <==> exists k :: k in m && GroupKey(m[k]) == g {
      GroupNonempty(points, g);
      if i: int :| 0 <= i < |points| && GroupKey(points[i]) == g {
        ByKeyHolds(points, i);
      }
      if k :| k in m && GroupKey(m[k]) == g {
        var i :| 0 <= i < |points| && points[i] == m[k];
      }
    }
    assert groups.Keys == set k | k in m :: GroupKey(m[k]);
  }

  // ---------------------------------------------------------------------------
  // Every series is sent once, with its values under its own dimension names
  // ---------------------------------------------------------------------------

  /** The metric name and the label names, but not the values, are free of NUL. */
  predicate CleanNames(p: Point) {
    NulFree(p.name) && forall k :: k in p.labels ==> k != "" && NulFree(k)
  }

  ghost predicate AllNamesClean(m: Points) {
    forall k :: k in m ==> CleanNames(m[k])
  }

  lemma RecordableNames(p: Point)
    requires Recordable(p.name, p.labels)
    ensures CleanNames(p)
  {
    hide Proper;
    assert forall k :: k in ALLOWED ==> k != "" && NulFree(k);
  }

  /** Point k of the map is series j of payload i. */
  ghost predicate SentAt(m: Points, k: string, i: nat, j: nat)
    requires k in m
  {
    i < |GroupKeys(m)| && j < |Members(m, GroupKeys(m)[i])| && Members(m, GroupKeys(m)[i])[j] == m[k]
  }

  lemma SentSomewhere(m: Points, k: string) returns (i: nat, j: nat)
    requires k in m
    ensures SentAt(m, k, i, j)
  {
    hide GroupKey, Sorted;
    var (gs, g) := (GroupKeys(m), GroupKey(m[k]));
    assert g in set x | x in m :: GroupKey(m[x]);
    assert g in gs;
    i :| 0 <= i < |gs| && gs[i] == g;
    assert k in MemberKeys(m, g);
    var ks := Sorted(MemberKeys(m, g));
    assert k in ks;
    j :| 0 <= j < |ks| && ks[j] == k;
  }

  lemma SentAtKey(m: Points, k: string, i: nat, j: nat)
    requires k in m && WellKeyed(m) && SentAt(m, k, i, j)
    ensures GroupKeys(m)[i] == GroupKey(m[k])
    ensures var ks := Sorted(MemberKeys(m, GroupKeys(m)[i])); j < |ks| && ks[j] == k
  {
    hide GroupKey, Sorted, MetricKey;
    var g := GroupKeys(m)[i];
    var ks := Sorted(MemberKeys(m, g));
    SortedKeys(m, MemberKeys(m, g));
    assert ks[j] in ks;
    assert ks[j] in MemberKeys(m, g) && m[ks[j]] == m[k];
  }

  lemma DistinctPositions(s: set<string>, i: nat, j: nat)
    requires i < |Sorted(s)| && j < |Sorted(s)| && Sorted(s)[i] == Sorted(s)[j]
    ensures i == j
  {
    var r := Sorted(s);
    if i < j {
      StrOrder(r[i], r[j]);
    } else if j < i {
      StrOrder(r[j], r[i]);
    }
  }

  lemma {:induction false} SentOnce(m: Points, k: string, i: nat, j: nat, i': nat, j': nat)
    requires k in m && WellKeyed(m) && SentAt(m, k, i, j) && SentAt(m, k, i', j')
    ensures i == i' && j == j'
  {
    hide GroupKey, Sorted, MetricKey, MemberKeys;
    SentAtKey(m, k, i, j);
    SentAtKey(m, k, i', j');
    DistinctPositions(set x | x in m :: GroupKey(m[x]), i, i');
    DistinctPositions(MemberKeys(m, GroupKeys(m)[i]), j, j');
  }

  lemma NamesAreClean(p: Point)
    requires CleanNames(p)
    ensures AllNulFree(LabelNames(p.labels)) && "" !in LabelNames(p.labels)
  {
    hide Sorted;
  }

  lemma JoinOfNamesNonempty(a: seq<string>)
    requires a != [] && "" !in a
    ensures Join(a) != ""
  {
    JoinUnfolds(a);
    assert a[0] in a;
  }

  lemma JoinOfNamesInjective(a: seq<string>, b: seq<string>)
    requires AllNulFree(a) && AllNulFree(b) && "" !in a && "" !in b && Join(a) == Join(b)
    ensures a == b
  {
    assert Join([]) == "";
    if a != [] {
      JoinOfNamesNonempty(a);
    }
    if b != [] {
      JoinOfNamesNonempty(b);
    }
    if a != [] && b != [] {
      JoinInjective(a, b);
    }
  }

  /** Points of one group have the same metric name and the same dimension names. */
  lemma GroupKeyIdentifies(p: Point, q: Point)
    requires CleanNames(p) && CleanNames(q) && GroupKey(p) == GroupKey(q)
    ensures p.name == q.name && LabelNames(p.labels) == LabelNames(q.labels)
  {
    hide Join, LabelNames;
    var (ns, ns') := (LabelNames(p.labels), LabelNames(q.labels));
    NamesAreClean(p);
    NamesAreClean(q);
    ConcatAssoc(p.name, NUL, Join(ns));
    ConcatAssoc(q.name, NUL, Join(ns'));
    SplitAtNul(p.name, q.name, NUL + Join(ns), NUL + Join(ns'));
    assert Join(ns) == (NUL + Join(ns))[1..] && Join(ns') == (NUL + Join(ns'))[1..];
    JoinOfNamesInjective(ns, ns');
  }

  /** The series carries the point's own statistics, and each dimension value is the label of its dimension name. */
  ghost predicate Carries(pl: Payload, s: Series, p: Point) {
    && pl.metric == p.name && pl.dimNames == LabelNames(p.labels) && |s.dimValues| == |pl.dimNames|
    && (forall d :: 0 <= d < |pl.dimNames| ==> s.dimValues[d] == p.labels[pl.dimNames[d]])
    && s.min == p.min && s.max == p.max && s.sum == p.sum && s.count == p.count
  }

  lemma {:induction false} SentAligned(m: Points, k: string, i: nat, j: nat)
    requires k in m && WellKeyed(m) && AllNamesClean(m) && SentAt(m, k, i, j)
    ensures i < |PayloadsOf(m)| && j < |PayloadsOf(m)[i].series|
    ensures Carries(PayloadsOf(m)[i], PayloadsOf(m)[i].series[j], m[k])
  {
    hide GroupKey, Sorted, MetricKey, CleanNames, LabelNames;
    var g := GroupKeys(m)[i];
    GroupHasMember(m, i);
    SentAtKey(m, k, i, j);
    var group := Members(m, g);
    var ks := Sorted(MemberKeys(m, g));
    SortedKeys(m, MemberKeys(m, g));
    assert ks[0] in ks && ks[0] in MemberKeys(m, g) && group[0] == m[ks[0]];
    GroupKeyIdentifies(group[0], m[k]);
    assert PayloadsOf(m)[i] == PayloadOf(group);
  }

  /**
    * A flush of recordable samples, in whatever order the points are drained, sends the point of each observed key
    * exactly once, under its own names and labels, with the exact count, sum, minimum and maximum of the values under
    * the key.
    */
  lemma {:induction false} FlushConserves(samples: seq<Sample>, drained: seq<Point>, key: string)
    returns (i: nat, j: nat)
    requires AllRecordable(samples) && KeyValues(samples, key) != []
    requires Distinct(drained) && ByKey(drained) == Accumulated(samples)
    ensures var (m, pls) := (Accumulated(samples), PayloadsOf(ByKey(drained)));
            && key in m && Summarizes(m[key], KeyValues(samples, key))
            && i < |pls| && j < |pls[i].series| && Carries(pls[i], pls[i].series[j], m[key])
            && forall i', j' :: SentAt(m, key, i', j') <==> i' == i && j' == j
  {
    hide MetricKey, Carries, Recordable, CleanNames, SentAt, PayloadsOf, KeyValues, Accumulated, Summarizes;
    var m := Accumulated(samples);
    KeyConserved(samples, key);
    AccumulatedIsWellKeyed(samples);
    forall k | k in m ensures CleanNames(m[k]) {
      RecordableNames(m[k]);
    }
    i, j := SentSomewhere(m, key);
    SentAligned(m, key, i, j);
    forall i', j' | SentAt(m, key, i', j') ensures i' == i && j' == j {
      SentOnce(m, key, i, j, i', j');
    }
  }

  ghost predicate Reports(s: Series, vs: seq<real>) { Exact(s.count, s.sum, s.min, s.max, vs) }

  lemma SameNames(p: Point, q: Point)
    ensures LabelNames(p.labels) == LabelNames(q.labels) <==> p.labels.Keys == q.labels.Keys
  {
    hide Sorted;
    if LabelNames(p.labels) == LabelNames(q.labels) {
      assert forall k :: k in p.labels.Keys <==> k in LabelNames(p.labels);
      assert forall k :: k in q.labels.Keys <==> k in LabelNames(q.labels);
    }
  }

  /** Two points are sent in one payload exactly if they have the same metric name and the same label names. */
  lemma {:induction false} SamePayloadExactly(m: Points, k: string, i: nat, j: nat, k': string, i': nat, j': nat)
    requires k in m && k' in m && WellKeyed(m) && AllNamesClean(m) && SentAt(m, k, i, j) && SentAt(m, k', i', j')
    ensures i == i' <==> m[k].name == m[k'].name && m[k].labels.Keys == m[k'].labels.Keys
  {
    hide Sorted, MetricKey, CleanNames, LabelNames, MemberKeys;
    SentAtKey(m, k, i, j);
    SentAtKey(m, k', i', j');
    SameNames(m[k], m[k']);
    if GroupKey(m[k]) == GroupKey(m[k']) {
      GroupKeyIdentifies(m[k], m[k']);
      DistinctPositions(set x | x in m :: GroupKey(m[x]), i, i');
    }
  }

  /** Whatever is sent is one of the points. */
  lemma {:induction false} OnlyPointsSent(m: Points, i: nat, j: nat) returns (k: string)
    requires i < |PayloadsOf(m)| && j < |PayloadsOf(m)[i].series|
    ensures k in m && SentAt(m, k, i, j)
  {
    hide GroupKey, MemberKeys, LabelNames;
    GroupHasMember(m, i);
    var g := GroupKeys(m)[i];
    SortedKeys(m, MemberKeys(m, g));
    assert |PayloadsOf(m)[i].series| == |Members(m, g)|;
    k := Sorted(MemberKeys(m, g))[j];
  }

  /**
    * For every observed series, a flush of recordable samples sends one series at its key. What that reports is exact
    * for the observed series if and only if no other observed series shares the key.
    */
  lemma {:induction false} FlushExactly(samples: seq<Sample>, drained: seq<Point>, name: string, labels: Labels)
    returns (i: nat, j: nat)
    requires AllRecordable(samples) && Values(samples, name, labels) != []
    requires Distinct(drained) && ByKey(drained) == Accumulated(samples)
    ensures var (m, k, pls) := (Accumulated(samples), MetricKey(name, labels), PayloadsOf(ByKey(drained)));
            && k in m && (forall i', j' :: SentAt(m, k, i', j') <==> i' == i && j' == j)
            && i < |pls| && j < |pls[i].series|
            && (Reports(pls[i].series[j], Values(samples, name, labels)) <==> !Shared(samples, name, labels))
            && (!Shared(samples, name, labels) ==> pls[i].metric == name && pls[i].dimNames == LabelNames(labels))
  {
    hide MetricKey, Recordable, SentAt, PayloadsOf, KeyValues, Values, Accumulated, Shared, LabelNames;
    SeriesConserved(samples, name, labels);
    KeyConserved(samples, MetricKey(name, labels));
    i, j := FlushConserves(samples, drained, MetricKey(name, labels));
  }
}
