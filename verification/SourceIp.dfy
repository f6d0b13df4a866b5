/**
  * The proxy trust boundary: validation of the configured networks (internal/config/config.go) and resolution
  * of the caller's address (internal/middleware/ratelimit.go).
  */
module SourceIp {
  import opened Prelude
  import opened Cidr

  // ---------------------------------------------------------------------------
  // Configuration
  // ---------------------------------------------------------------------------

  /** A configured value once trimmed: blank, not a CIDR, or an address with a prefix length. */
  datatype Entry = Blank | Malformed | Prefix(ip: Addr, ones: nat) {
    predicate Valid() { Prefix? ==> ip.Valid() && ones <= ip.width }

    /** net.ParseCIDR. */
    function Parse(): Option<Net>
      requires Valid()
    {
      if Prefix? then Some(ParseCidr(ip, ones)) else None
    }

    /** The value names the addresses that begin with the same bits as its own. */
    predicate Names(a: Addr) { Prefix? && SamePrefix(ip, ones, a) }
  }

  predicate AllValid(es: seq<Entry>) { forall i :: 0 <= i < |es| ==> es[i].Valid() }

  predicate HasNonBlank(es: seq<Entry>) { exists i :: 0 <= i < |es| && !es[i].Blank? }

  predicate AllParse(es: seq<Entry>) { forall i :: 0 <= i < |es| ==> !es[i].Malformed? }

  predicate NoneUnrestricted(es: seq<Entry>) { forall i :: 0 <= i < |es| ==> es[i].Prefix? ==> es[i].ones > 0 }

  /** A value of a zero-length prefix is one that names every address of its family. */
  lemma {:induction false} UnrestrictedExactly(e: Entry)
    requires e.Valid() && e.Prefix?
    ensures e.ones == 0 <==> forall a: Addr :: a.Valid() && a.width == e.ip.width ==> e.Names(a)
  {
    if e.ones > 0 {
      var half := Pow2(e.ip.width - 1);
      var a := Addr(e.ip.width, if e.ip.value < half then half else 0);
      assert Pow2(e.ip.width) == 2 * half;
      assert a.Valid();
      FirstBit(e.ip);
      FirstBit(a);
      assert !e.Names(a);
    }
  }

  /** No address belongs both to the trusted entry and to the portal entry. */
  ghost predicate Disjoint(t: Entry, p: Entry)
    requires t.Valid() && p.Valid()
  {
    forall a: Addr :: a.Valid() ==> !(t.Names(a) && p.Names(a))
  }

  ghost predicate AllDisjoint(trusted: seq<Entry>, portal: seq<Entry>)
    requires AllValid(trusted) && AllValid(portal)
  {
    forall i, j :: 0 <= i < |trusted| && 0 <= j < |portal| ==> Disjoint(trusted[i], portal[j])
  }

  method ValidateCidrs(values: seq<Entry>) returns (ok: bool)
    ensures ok <==> AllParse(values)
  {
    for i := 0 to |values|
      invariant AllParse(values[..i])
    {
      if values[i].Blank? {
        continue;
      }
      if values[i].Malformed? {
        return false;
      }
    }
    return true;
  }

  method RejectUnrestricted(values: seq<Entry>) returns (ok: bool)
    requires AllValid(values)
    ensures ok <==> AllParse(values) && NoneUnrestricted(values)
  {
    for i := 0 to |values|
      invariant AllParse(values[..i]) && NoneUnrestricted(values[..i])
    {
      if values[i].Blank? {
        continue;
      }
      var network := values[i].Parse();
      if network.None? {
        return false;
      }
      if network.value.ones == 0 {
        return false;
      }
    }
    return true;
  }

  /** The containment test finds out whether two values name a common address. */
  lemma {:induction false} OverlapIsShared(t: Entry, p: Entry)
    requires t.Valid() && p.Valid() && t.Prefix? && p.Prefix?
    ensures var (n, m) := (ParseCidr(t.ip, t.ones), ParseCidr(p.ip, p.ones));
            n.Contains(m.ip) || m.Contains(n.ip) <==> !Disjoint(t, p)
  {
    hide ParseCidr, SamePrefix, Net.Contains;
    var (n, m) := (ParseCidr(t.ip, t.ones), ParseCidr(p.ip, p.ones));
    forall a: Addr | a.Valid() ensures Shared(n, m, a) <==> t.Names(a) && p.Names(a) {
      ContainsSamePrefix(t.ip, t.ones, a);
      ContainsSamePrefix(p.ip, p.ones, a);
    }
    OverlapIffShared(n, m);
    if a :| Shared(n, m, a) {
      SharedIsValid(n, m, a);
    }
  }

  lemma SharedIsValid(n: Net, m: Net, a: Addr)
    requires n.Valid() && m.Valid() && Shared(n, m, a)
    ensures a.Valid()
  {
  }

  /** The inner loop of rejectOverlappingCIDRs, for one trusted network. */
  method DisjointFromPortal(trusted: Entry, portal: seq<Entry>) returns (ok: bool)
    requires trusted.Valid() && trusted.Prefix? && AllValid(portal)
    ensures ok <==> AllParse(portal) && forall j :: 0 <= j < |portal| ==> Disjoint(trusted, portal[j])
  {
    hide ParseCidr, SamePrefix, Overlap;
    var t := ParseCidr(trusted.ip, trusted.ones);
    for j := 0 to |portal|
      invariant AllParse(portal[..j])
      invariant forall k :: 0 <= k < j ==> Disjoint(trusted, portal[k])
    {
      if portal[j].Blank? {
        continue;
      }
      var p := portal[j].Parse();
      if p.None? {
        return false;
      }
      OverlapIsShared(trusted, portal[j]);
      if t.Contains(p.value.ip) || p.value.Contains(t.ip) {
        return false;
      }
    }
    return true;
  }

  /** A malformed portal entry is only noticed when there is a trusted entry to compare it with. */
  method RejectOverlapping(trusted: seq<Entry>, portal: seq<Entry>) returns (ok: bool)
    requires AllValid(trusted) && AllValid(portal)
    ensures ok <==> AllParse(trusted) && (HasNonBlank(trusted) ==> AllParse(portal)) && AllDisjoint(trusted, portal)
  {
    hide ParseCidr, Disjoint;
    for i := 0 to |trusted|
      invariant AllParse(trusted[..i]) && AllDisjoint(trusted[..i], portal)
      invariant HasNonBlank(trusted[..i]) ==> AllParse(portal)
    {
      if trusted[i].Blank? {
        BlankIsDisjoint(trusted[i], portal);
        continue;
      }
      if trusted[i].Malformed? {
        return false;
      }
      var clear := DisjointFromPortal(trusted[i], portal);
      if !clear {
        return false;
      }
    }
    return true;
  }

  lemma BlankIsDisjoint(t: Entry, portal: seq<Entry>)
    requires t.Blank? && AllValid(portal)
    ensures forall j :: 0 <= j < |portal| ==> Disjoint(t, portal[j])
  {
  }

  /** The network part of ValidateHTTP: presence rules, then the four checks in order. */
  ghost predicate ValidNetworks(direct: bool, portal: seq<Entry>, trusted: seq<Entry>)
    requires AllValid(trusted) && AllValid(portal)
  {
    && HasNonBlank(portal) && (direct <==> !HasNonBlank(trusted))
    && AllParse(portal) && AllParse(trusted) && NoneUnrestricted(trusted) && AllDisjoint(trusted, portal)
  }

  method ValidateNetworks(direct: bool, portal: seq<Entry>, trusted: seq<Entry>) returns (ok: bool)
    requires AllValid(trusted) && AllValid(portal)
    ensures ok <==> ValidNetworks(direct, portal, trusted)
  {
    if !HasNonBlank(portal) || (direct && HasNonBlank(trusted)) || (!direct && !HasNonBlank(trusted)) {
      return false;
    }
    ok := ValidateCidrs(portal);
    if !ok {
      return;
    }
    ok := ValidateCidrs(trusted);
    if !ok {
      return;
    }
    ok := RejectUnrestricted(trusted);
    if !ok {
      return;
    }
    ok := RejectOverlapping(trusted, portal);
  }

  // ---------------------------------------------------------------------------
  // Source resolution
  // ---------------------------------------------------------------------------

  /** parseCIDRs: blank and malformed values are dropped. */
  function ParseCidrs(es: seq<Entry>): (ns: seq<Net>)
    requires AllValid(es)
    ensures forall i :: 0 <= i < |ns| ==> ns[i].Valid()
    ensures forall i :: 0 <= i < |ns| ==> exists j ::
            0 <= j < |es| && es[j].Prefix? && ns[i] == ParseCidr(es[j].ip, es[j].ones)
  {
    if es == [] then []
    else
      var init, last := ParseCidrs(es[..|es| - 1]), es[|es| - 1];
      if last.Prefix? then init + [ParseCidr(last.ip, last.ones)] else init
  }

  /** Nothing well formed is dropped. */
  lemma {:induction false} ParseKeeps(es: seq<Entry>, j: nat)
    requires AllValid(es) && j < |es| && es[j].Prefix?
    ensures ParseCidr(es[j].ip, es[j].ones) in ParseCidrs(es)
  {
    var init, last := es[..|es| - 1], es[|es| - 1];
    if j < |init| {
      ParseKeeps(init, j);
    } else {
      assert es[j] == last;
    }
  }

  method CollectCidrs(es: seq<Entry>) returns (ns: seq<Net>)
    requires AllValid(es)
    ensures ns == ParseCidrs(es)
  {
    ns := [];
    for i := 0 to |es|
      invariant ns == ParseCidrs(es[..i])
    {
      assert es[..i + 1][..i] == es[..i];
      var parsed := es[i].Parse();
      if parsed.Some? {
        ns := ns + [parsed.value];
      }
    }
    assert es[..|es|] == es;
  }

  predicate ValidNets(nets: seq<Net>) { forall i :: 0 <= i < |nets| ==> nets[i].Valid() }

  predicate Covered(nets: seq<Net>, a: Addr)
    requires ValidNets(nets)
  {
    exists i :: 0 <= i < |nets| && nets[i].Contains(a)
  }

  method ContainsIP(nets: seq<Net>, a: Addr) returns (found: bool)
    requires ValidNets(nets)
    ensures found <==> Covered(nets, a)
  {
    for i := 0 to |nets|
      invariant forall k :: 0 <= k < i ==> !nets[k].Contains(a)
    {
      if nets[i].Contains(a) {
        return true;
      }
    }
    return false;
  }

  /** One X-Forwarded-For value: blank, or its comma-separated parts, each an address or not. */
  datatype Header = BlankHeader | Chain(parts: seq<Option<Addr>>)

  datatype Outcome = InvalidPeer | DirectPeer | TrustedForwarded | InvalidForwardedChain

  datatype Resolution = Resolution(peer: Option<Addr>, client: Option<Addr>, peerTrusted: bool,
                                   headerCount: nat, hopCount: nat, outcome: Outcome)

  predicate WellFormedChain(parts: seq<Option<Addr>>) { forall i :: 0 <= i < |parts| ==> parts[i].Some? }

  /** Hop k is the last one outside the trusted networks. */
  predicate RightmostUntrusted(nets: seq<Net>, parts: seq<Option<Addr>>, k: int)
    requires ValidNets(nets) && WellFormedChain(parts)
  {
    && 0 <= k < |parts| && !Covered(nets, parts[k].value)
    && forall i :: k < i < |parts| ==> Covered(nets, parts[i].value)
  }

  /** The header is a single well-formed chain with a hop outside the trusted networks. */
  ghost predicate Usable(nets: seq<Net>, headers: seq<Header>)
    requires ValidNets(nets)
  {
    && |headers| == 1 && headers[0].Chain? && WellFormedChain(headers[0].parts)
    && exists k :: RightmostUntrusted(nets, headers[0].parts, k)
  }

  /** What resolveSourceIP promises about the client it names. */
  ghost predicate Resolves(nets: seq<Net>, peer: Option<Addr>, headers: seq<Header>, r: Resolution)
    requires ValidNets(nets)
  {
    && r.peer == peer
    && r.peerTrusted == (peer.Some? && Covered(nets, peer.value))
    && (peer.None? ==> r.outcome == InvalidPeer && r.client == None && r.headerCount == 0 && r.hopCount == 0)
    && (peer.Some? ==> r.headerCount == |headers|)
    && (peer.Some? ==> r.hopCount == if |headers| == 1 && headers[0].Chain? then |headers[0].parts| else 0)
    && (peer.Some? && !r.peerTrusted ==> r.outcome == DirectPeer && r.client == peer)
    && (r.peerTrusted && !Usable(nets, headers) ==> r.outcome == InvalidForwardedChain && r.client == None)
    && (r.peerTrusted && Usable(nets, headers) ==>
          && r.outcome == TrustedForwarded
          && exists k :: RightmostUntrusted(nets, headers[0].parts, k) && r.client == headers[0].parts[k])
  }

  method ResolveSourceIP(nets: seq<Net>, peer: Option<Addr>, headers: seq<Header>) returns (r: Resolution)
    requires ValidNets(nets)
    ensures Resolves(nets, peer, headers, r)
  {
    r := Resolution(None, None, false, 0, 0, InvalidPeer);
    if peer.None? {
      return;
    }
    r := r.(peer := peer, headerCount := |headers|);
    if |headers| == 1 && headers[0].Chain? {
      r := r.(hopCount := |headers[0].parts|);
    }
    var trusted := ContainsIP(nets, peer.value);
    if |nets| == 0 || !trusted {
      r := r.(outcome := DirectPeer, client := peer);
      return;
    }
    r := r.(peerTrusted := true, outcome := TrustedForwarded);
    if |headers| != 1 || headers[0].BlankHeader? {
      r := r.(outcome := InvalidForwardedChain);
      return;
    }
    var parts := headers[0].parts;
    var hops: seq<Addr> := [];
    for i := 0 to |parts|
      invariant |hops| == i && forall k :: 0 <= k < i ==> parts[k] == Some(hops[k])
    {
      if parts[i].None? {
        r := r.(outcome := InvalidForwardedChain);
        return;
      }
      hops := hops + [parts[i].value];
    }
    for i := |hops| downto 0
      invariant forall k :: i <= k < |hops| ==> Covered(nets, parts[k].value)
    {
      var inside := ContainsIP(nets, hops[i]);
      if !inside {
        assert RightmostUntrusted(nets, parts, i);
        r := r.(client := Some(hops[i]));
        return;
      }
    }
    r := r.(outcome := InvalidForwardedChain);
  }

  method SourceAllowed(allowed: seq<Net>, client: Option<Addr>) returns (ok: bool)
    requires ValidNets(allowed)
    ensures ok <==> client.Some? && Covered(allowed, client.value)
  {
    if |allowed| == 0 || client.None? {
      return false;
    }
    ok := ContainsIP(allowed, client.value);
  }

  // ---------------------------------------------------------------------------
  // The boundary
  // ---------------------------------------------------------------------------

  /** The promise determines the client: two resolutions of the same request agree. */
  lemma {:induction false} ClientIsDetermined(nets: seq<Net>, peer: Option<Addr>, headers: seq<Header>, r: Resolution,
                                              s: Resolution)
    requires ValidNets(nets) && Resolves(nets, peer, headers, r) && Resolves(nets, peer, headers, s)
    ensures r == s
  {
    if r.peerTrusted && Usable(nets, headers) {
      var parts := headers[0].parts;
      var j :| RightmostUntrusted(nets, parts, j) && r.client == parts[j];
      var k :| RightmostUntrusted(nets, parts, k) && s.client == parts[k];
      assert j == k;
    }
  }

  /** Some configured value names the address. */
  predicate Listed(es: seq<Entry>, a: Addr) { exists i :: 0 <= i < |es| && es[i].Names(a) }

  /** The parsed networks cover exactly the addresses that the configured values name. */
  lemma {:induction false} CoveredIsListed(es: seq<Entry>, a: Addr)
    requires AllValid(es) && a.Valid()
    ensures Covered(ParseCidrs(es), a) <==> Listed(es, a)
  {
    hide ParseCidr, SamePrefix, Net.Contains;
    var ns := ParseCidrs(es);
    if i :| 0 <= i < |ns| && ns[i].Contains(a) {
      var j :| 0 <= j < |es| && es[j].Prefix? && ns[i] == ParseCidr(es[j].ip, es[j].ones);
      ContainsSamePrefix(es[j].ip, es[j].ones, a);
      assert es[j].Names(a);
    }
    if j :| 0 <= j < |es| && es[j].Names(a) {
      ParseKeeps(es, j);
      ContainsSamePrefix(es[j].ip, es[j].ones, a);
      var i :| 0 <= i < |ns| && ns[i] == ParseCidr(es[j].ip, es[j].ones);
    }
  }

  /** A portal address is outside every trusted network of a valid configuration. */
  lemma {:induction false} PortalIsUntrusted(direct: bool, portal: seq<Entry>, trusted: seq<Entry>, a: Addr)
    requires AllValid(portal) && AllValid(trusted) && ValidNetworks(direct, portal, trusted) && a.Valid()
    requires Listed(portal, a)
    ensures !Listed(trusted, a)
  {
    hide SamePrefix;
    var n :| 0 <= n < |portal| && portal[n].Names(a);
    forall m | 0 <= m < |trusted| ensures !trusted[m].Names(a) {
      assert Disjoint(trusted[m], portal[n]);
    }
  }

  /** In every valid configuration a portal peer is resolved to itself, whatever its forwarded header says. */
  lemma {:induction false} PortalPeerIsItself(direct: bool, portal: seq<Entry>, trusted: seq<Entry>, peer: Addr,
                                              headers: seq<Header>, r: Resolution)
    requires AllValid(portal) && AllValid(trusted) && ValidNetworks(direct, portal, trusted) && peer.Valid()
    requires Listed(portal, peer)
    requires Resolves(ParseCidrs(trusted), Some(peer), headers, r)
    ensures r.outcome == DirectPeer && r.client == Some(peer)
  {
    hide Listed, ParseCidrs, Covered;
    PortalIsUntrusted(direct, portal, trusted, peer);
    CoveredIsListed(trusted, peer);
  }

  /** Behind a trusted proxy, hops added on the left of a usable chain change neither the client nor the outcome. */
  lemma {:induction false} LeftHopsAreIgnored(nets: seq<Net>, peer: Addr, parts: seq<Option<Addr>>,
                                              forged: seq<Option<Addr>>, r: Resolution, s: Resolution)
    requires ValidNets(nets) && WellFormedChain(forged) && Covered(nets, peer) && Usable(nets, [Chain(parts)])
    requires Resolves(nets, Some(peer), [Chain(parts)], r)
    requires Resolves(nets, Some(peer), [Chain(forged + parts)], s)
    ensures s.client == r.client && s.client.Some? && s.outcome == r.outcome == TrustedForwarded
  {
    var k :| RightmostUntrusted(nets, parts, k) && r.client == parts[k];
    var longer := forged + parts;
    assert forall i :: 0 <= i < |parts| ==> longer[|forged| + i] == parts[i];
    assert forall i :: |forged| <= i < |longer| ==> longer[i] == parts[i - |forged|];
    assert RightmostUntrusted(nets, longer, |forged| + k);
    assert [Chain(longer)][0].parts == longer;
    assert Usable(nets, [Chain(longer)]);
    var m :| RightmostUntrusted(nets, longer, m) && s.client == longer[m];
    assert m == |forged| + k;
  }

  /** Every address of a chain is a valid one. */
  predicate ValidChain(headers: seq<Header>) {
    forall i, k :: 0 <= i < |headers| && headers[i].Chain? && 0 <= k < |headers[i].parts| ==>
                     headers[i].parts[k].Some? ==> headers[i].parts[k].value.Valid()
  }

  /** Hop k of a well-formed chain is a portal address, and every later one is trusted. */
  predicate NamesPortal(trusted: seq<Entry>, portal: seq<Entry>, parts: seq<Option<Addr>>, k: int) {
    && WellFormedChain(parts) && 0 <= k < |parts| && Listed(portal, parts[k].value)
    && forall i :: k < i < |parts| ==> Listed(trusted, parts[i].value)
  }

  /**
    * In every valid configuration a request is admitted exactly when its peer is a portal address, or its peer is
    * a trusted proxy whose chain names a portal address followed only by trusted ones. Networks here are what the
    * configured values say: the addresses with the same leading bits.
    */
  lemma {:induction false} AdmittedExactly(direct: bool, portal: seq<Entry>, trusted: seq<Entry>, peer: Addr,
                                           headers: seq<Header>, r: Resolution)
    requires AllValid(portal) && AllValid(trusted) && ValidNetworks(direct, portal, trusted)
    requires peer.Valid() && ValidChain(headers)
    requires Resolves(ParseCidrs(trusted), Some(peer), headers, r)
    ensures r.client.Some? && Covered(ParseCidrs(portal), r.client.value) <==>
            || Listed(portal, peer)
            || (Listed(trusted, peer) && |headers| == 1 && headers[0].Chain?
                && exists k :: NamesPortal(trusted, portal, headers[0].parts, k))
  {
    hide ParseCidrs, Covered, Listed, ValidNetworks;
    CoveredIsListed(portal, peer);
    CoveredIsListed(trusted, peer);
    if Listed(portal, peer) {
      PortalIsUntrusted(direct, portal, trusted, peer);
    } else if Listed(trusted, peer) && |headers| == 1 && headers[0].Chain? && WellFormedChain(headers[0].parts) {
      AdmittedBehindProxy(direct, portal, trusted, peer, headers, r);
    }
  }

  lemma {:induction false} AdmittedBehindProxy(direct: bool, portal: seq<Entry>, trusted: seq<Entry>, peer: Addr,
                                               headers: seq<Header>, r: Resolution)
    requires AllValid(portal) && AllValid(trusted) && ValidNetworks(direct, portal, trusted)
    requires peer.Valid() && ValidChain(headers) && Covered(ParseCidrs(trusted), peer)
    requires |headers| == 1 && headers[0].Chain? && WellFormedChain(headers[0].parts)
    requires Resolves(ParseCidrs(trusted), Some(peer), headers, r)
    ensures r.client.Some? && Covered(ParseCidrs(portal), r.client.value) <==>
            exists k :: NamesPortal(trusted, portal, headers[0].parts, k)
  {
    hide ParseCidrs, Covered, Listed, ValidNetworks;
    var (ps, ts, parts) := (ParseCidrs(portal), ParseCidrs(trusted), headers[0].parts);
    forall i | 0 <= i < |parts|
      ensures Covered(ts, parts[i].value) <==> Listed(trusted, parts[i].value)
      ensures Covered(ps, parts[i].value) <==> Listed(portal, parts[i].value)
      ensures Listed(portal, parts[i].value) ==> !Listed(trusted, parts[i].value)
    {
      CoveredIsListed(trusted, parts[i].value);
      CoveredIsListed(portal, parts[i].value);
      if Listed(portal, parts[i].value) {
        PortalIsUntrusted(direct, portal, trusted, parts[i].value);
      }
    }
    if k :| NamesPortal(trusted, portal, parts, k) {
      assert RightmostUntrusted(ts, parts, k);
      var j :| RightmostUntrusted(ts, parts, j) && r.client == parts[j];
      assert j == k;
    }
    if r.client.Some? && Covered(ps, r.client.value) {
      var j :| RightmostUntrusted(ts, parts, j) && r.client == parts[j];
      assert NamesPortal(trusted, portal, parts, j);
    }
  }
}
