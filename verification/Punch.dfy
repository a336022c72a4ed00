/**
 Hole-punching candidates: the peer's compatible addresses, plus, for an IPv4 host whose ports look predictable, the
 lowest missing ports in and just above their range. The hosts are visited in hash order, that is, in any order.
 */
module Punch {
  import opened Bytes
  import opened Sets

  const SYMMETRIC_PORT_GAP: nat := 4
  const SYMMETRIC_EXTRA_PORTS: nat := 4
  const SYMMETRIC_MAX_PORTS_PER_HOST: nat := 32
  const MAX_PORT: nat := 0xffff

  datatype Address =
    | V4(ip: nat, port: U16)
    | V6(ip6: nat, port: U16, flow: nat, scope: nat)

  datatype Family = Any | Ipv4 | Ipv6

  /** Which address families to try. */
  datatype Families = Families(ipv4: bool, ipv6: bool) {
    predicate Allows(a: Address) {
      if a.V4? then ipv4 else ipv6
    }
  }

  /** The order of a sorted set of addresses: IPv4 first, then by address, port, flow and scope. */
  predicate Less(a: Address, b: Address) {
    match (a, b)
    case (V4(x, p), V4(y, q)) => x < y || (x == y && p < q)
    case (V4(_, _), V6(_, _, _, _)) => true
    case (V6(_, _, _, _), V4(_, _)) => false
    case (V6(x, p, f, c), V6(y, q, g, d)) =>
      x < y || (x == y && (p < q || (p == q && (f < g || (f == g && c < d)))))
  }

  /** By number: IPv4 addresses by address and port together, before every IPv6 address, those by each field in turn. */
  lemma {:induction false} LessIsByNumber(a: Address, b: Address)
    ensures a.V4? && b.V4? ==> (Less(a, b) <==> a.ip * 0x1_0000 + a.port < b.ip * 0x1_0000 + b.port)
    ensures a.V4? && b.V6? ==> Less(a, b) && !Less(b, a)
    ensures a.V6? && b.V6? && a.ip6 < b.ip6 ==> Less(a, b)
    ensures a.V6? && b.V6? && a.ip6 == b.ip6 && a.port < b.port ==> Less(a, b)
    ensures a.V6? && b.V6? && a.ip6 == b.ip6 && a.port == b.port && a.flow < b.flow ==> Less(a, b)
    ensures a.V6? && b.V6? && a.ip6 == b.ip6 && a.port == b.port && a.flow == b.flow && a.scope < b.scope ==> Less(a, b)
    ensures !(Less(a, b) && Less(b, a)) && !Less(a, a)
  {
  }

  predicate Ascending(r: seq<Address>) {
    forall i, j :: 0 <= i < j < |r| ==> Less(r[i], r[j])
  }

  function Members<T>(r: seq<T>): (s: set<T>) {
    set x | x in r
  }

  // ----- families -----

  /** With no preference, the families of the local addresses, or both if there are none. */
  method ChooseFamilies(local: seq<Address>, family: Family) returns (r: Families)
    ensures r == ChosenFamilies(local, family)
    ensures family == Ipv4 ==> r.ipv4 && !r.ipv6
    ensures family == Ipv6 ==> r.ipv6 && !r.ipv4
    ensures family == Any && local == [] ==> r.ipv4 && r.ipv6
    ensures family == Any && local != [] ==>
              && (r.ipv4 <==> exists k :: 0 <= k < |local| && local[k].V4?)
              && (r.ipv6 <==> exists k :: 0 <= k < |local| && local[k].V6?)
  {
    match family
    case Ipv4 => return Families(true, false);
    case Ipv6 => return Families(false, true);
    case Any =>
      r := Families(false, false);
      for i := 0 to |local|
        invariant r.ipv4 <==> exists k :: 0 <= k < i && local[k].V4?
        invariant r.ipv6 <==> exists k :: 0 <= k < i && local[k].V6?
      {
        r := Families(r.ipv4 || local[i].V4?, r.ipv6 || local[i].V6?);
      }
      assert local != [] ==> local[0].V4? || local[0].V6?;
      if !r.ipv4 && !r.ipv6 { r := Families(true, true); }
  }

  function ChosenFamilies(local: seq<Address>, family: Family): (r: Families) {
    match family
    case Ipv4 => Families(true, false)
    case Ipv6 => Families(false, true)
    case Any =>
      if local == [] then Families(true, true)
      else Families(exists k :: 0 <= k < |local| && local[k].V4?, exists k :: 0 <= k < |local| && local[k].V6?)
  }

  // ----- what the candidates should be -----

  /** The peer's own usable addresses. */
  function Base(families: Families, peers: seq<Address>): (r: set<Address>) {
    set a | a in peers && a.port != 0 && families.Allows(a)
  }

  function PortsOf(base: set<Address>, ip: nat): (r: set<nat>) {
    set a | a in base && a.V4? && a.ip == ip :: a.port as nat
  }

  /** At least two ports, and no gap above 4 between one and the next. */
  ghost predicate Predictable(ports: set<nat>) {
    && |ports| >= 2
    && forall p :: p in ports ==> LargestOrFollowed(p, ports)
  }

  predicate LargestOrFollowed(p: nat, ports: set<nat>) {
    IsGreatest(p, ports) || exists q :: q in ports && p < q <= p + SYMMETRIC_PORT_GAP
  }

  /** Between the smallest port and four above the largest, and a port at all. */
  ghost predicate InRange(ports: set<nat>, q: nat) {
    && q <= MAX_PORT
    && (exists p :: p in ports && p <= q)
    && (exists p :: p in ports && q <= p + SYMMETRIC_EXTRA_PORTS)
  }

  /** The ports of the range the peer did not name. */
  ghost function Missing(ports: set<nat>): (r: set<nat>)
    ensures forall q :: q in r <==> InRange(ports, q) && q !in ports
  {
    set q: nat | q <= MAX_PORT && InRange(ports, q) && q !in ports
  }

  function Below(ports: set<nat>, q: nat): (r: set<nat>) {
    set p | p in ports && p < q
  }

  /** The lowest 32 missing ports. */
  ghost function Extra(ports: set<nat>): (r: set<nat>) {
    set q | q in Missing(ports) && |Below(Missing(ports), q)| < SYMMETRIC_MAX_PORTS_PER_HOST
  }

  ghost predicate IsCandidate(base: set<Address>, a: Address) {
    || a in base
    || (a.V4? && Predictable(PortsOf(base, a.ip)) && a.port in Extra(PortsOf(base, a.ip)))
  }

  // ----- facts about the extra ports -----

  /** At most 32 ports are added for a host, and they are the lowest missing ones: fewer only if all are taken. */
  lemma {:induction false} ExtraIsLowest(ports: set<nat>)
    ensures |Extra(ports)| <= 32
    ensures Extra(ports) != Missing(ports) ==> |Extra(ports)| == 32
    ensures forall q, r :: q in Extra(ports) && r in Missing(ports) && r < q ==> r in Extra(ports)
  {
    var missing, extra := Missing(ports), Extra(ports);
    hide Missing, InRange;
    if extra != {} {
      GreatestExists(extra);
      var m :| IsGreatest(m, extra);
      SubsetSize(extra, Below(missing, m) + {m});
    }
    if extra != missing {
      LeastExists(missing - extra);
      var m :| IsLeast(m, missing - extra);
      forall r | r in Below(missing, m) ensures r in extra {
        assert r !in extra ==> r in missing - extra;
      }
      SubsetSize(Below(missing, m), extra);
    }
    forall q, r | q in extra && r in missing && r < q ensures r in extra {
      SubsetSize(Below(missing, r), Below(missing, q));
    }
  }

  /** A port is missing exactly when the peer did not name it and it lies between two named ones or up to four above. */
  lemma {:induction false} MissingByRange(ports: set<nat>, q: nat)
    ensures q in Missing(ports) <==>
            q <= 65535 && q !in ports && exists low, high :: low in ports && high in ports && low <= q <= high + 4
  {
    if InRange(ports, q) {
      var low, high :| low in ports && high in ports && low <= q && q <= high + SYMMETRIC_EXTRA_PORTS;
      assert low <= q <= high + 4;
    }
  }

  /** Port zero is never a candidate, and an added address lies within four ports of the host's own. */
  lemma {:induction false} CandidatesAreUsable(families: Families, peers: seq<Address>, a: Address)
    requires IsCandidate(Base(families, peers), a)
    ensures a.port != 0 && (a.V4? ==> families.ipv4) && (a.V6? ==> families.ipv6)
    ensures a in peers || (a.V4? && InRange(PortsOf(Base(families, peers), a.ip), a.port))
    ensures a !in peers ==> a.V4? && exists low, high ::
              low in peers && high in peers && low.V4? && high.V4? && low.ip == high.ip == a.ip
              && low.port <= a.port <= high.port + 4
  {
    var base := Base(families, peers);
    if a !in base {
      var ports := PortsOf(base, a.ip);
      assert InRange(ports, a.port);
      var p :| p in ports && p <= a.port;
      var b :| b in base && b.V4? && b.ip == a.ip && b.port == p;
      assert families.Allows(b);
      var q :| q in ports && a.port <= q + SYMMETRIC_EXTRA_PORTS;
      var c :| c in base && c.V4? && c.ip == a.ip && c.port == q;
      assert b in peers && c in peers && b.port <= a.port <= c.port + 4;
    }
  }

  /** Every usable peer address is a candidate. */
  lemma {:induction false} PeersAreCandidates(families: Families, peers: seq<Address>, a: Address)
    requires a in peers && a.port != 0 && (if a.V4? then families.ipv4 else families.ipv6)
    ensures IsCandidate(Base(families, peers), a)
  {
  }

  /** A sorted list is determined by its members: so nothing depends on the order hosts are visited in. */
  lemma {:induction false} AscendingIsUnique(r: seq<Address>, s: seq<Address>)
    requires Ascending(r) && Ascending(s) && Members(r) == Members(s)
    ensures r == s
    decreases |r|
  {
    NoMembers(r);
    NoMembers(s);
    if r != [] {
      var n, m := |r| - 1, |s| - 1;
      assert r[n] in Members(s) && s[m] in Members(r);
      assert r[n] == s[m];
      assert Members(r[..n]) == Members(r) - {r[n]} by { DropLast(r); }
      assert Members(s[..m]) == Members(s) - {s[m]} by { DropLast(s); }
      AscendingIsUnique(r[..n], s[..m]);
      assert r == r[..n] + [r[n]] && s == s[..m] + [s[m]];
    }
  }

  lemma {:induction false} NoMembers<T>(r: seq<T>)
    ensures Members(r) == {} <==> r == []
  {
    if r != [] { assert r[0] in Members(r); }
  }

  lemma {:induction false} DropLast(r: seq<Address>)
    requires Ascending(r) && r != []
    ensures Members(r[..|r| - 1]) == Members(r) - {r[|r| - 1]}
  {
    var n := |r| - 1;
    assert r == r[..n] + [r[n]];
    assert r[n] !in r[..n];
  }

  // ----- the computation -----

  predicate IsFirst(a: Address, s: set<Address>) {
    a in s && forall b :: b in s && b != a ==> Less(a, b)
  }

  lemma {:induction false} FirstExists(s: set<Address>)
    requires s != {}
    ensures exists a :: IsFirst(a, s)
    decreases |s|
  {
    var a :| a in s;
    var rest := s - {a};
    assert s == rest + {a};
    if rest == {} {
      assert IsFirst(a, s);
    } else {
      FirstExists(rest);
      var b :| IsFirst(b, rest);
      if Less(b, a) { assert IsFirst(b, s); } else { assert IsFirst(a, s); }
    }
  }

  /** A sorted set read out in order. */
  method InOrder(s: set<Address>) returns (r: seq<Address>)
    ensures Ascending(r) && Members(r) == s
  {
    r := [];
    var left := s;
    while left != {}
      invariant left <= s && Members(r) == s - left
      invariant Ascending(r) && forall a, b :: a in r && b in left ==> Less(a, b)
      decreases |left|
    {
      FirstExists(left);
      var a :| IsFirst(a, left);
      left := left - {a};
      assert Members(r + [a]) == Members(r) + {a};
      r := r + [a];
    }
  }

  predicate AscendingPorts(ports: seq<nat>) {
    forall i, j :: 0 <= i < j < |ports| ==> ports[i] < ports[j]
  }

  lemma {:induction false} NoPorts()
    ensures AscendingPorts([]) && Members<nat>([]) == {}
  {
  }

  lemma {:induction false} AppendPort(r: seq<nat>, a: nat)
    requires AscendingPorts(r) && forall p :: p in r ==> p < a
    ensures AscendingPorts(r + [a]) && Members(r + [a]) == Members(r) + {a}
  {
    assert forall i :: 0 <= i < |r| ==> r[i] in r;
  }

  /** A port list sorted and without repeats. */
  method SortedPorts(s: set<nat>) returns (r: seq<nat>)
    ensures AscendingPorts(r) && Members(r) == s
  {
    hide AscendingPorts, Members;
    r := [];
    NoPorts();
    var left := s;
    while left != {}
      invariant left <= s && Members(r) == s - left
      invariant AscendingPorts(r) && forall a, b :: a in r && b in left ==> a < b
      decreases |left|
    {
      LeastExists(left);
      var a :| IsLeast(a, left);
      AppendPort(r, a);
      left := left - {a};
      r := r + [a];
    }
  }

  predicate PredictablePorts(ports: seq<nat>) {
    |ports| >= 2 && forall i :: 0 <= i < |ports| - 1 ==> ports[i + 1] - ports[i] <= SYMMETRIC_PORT_GAP
  }

  lemma {:induction false} SortedSize(ports: seq<nat>)
    requires AscendingPorts(ports)
    ensures |Members(ports)| == |ports|
    decreases |ports|
  {
    if ports != [] {
      var n := |ports| - 1;
      SortedSize(ports[..n]);
      assert ports == ports[..n] + [ports[n]];
      assert Members(ports) == Members(ports[..n]) + {ports[n]};
      assert ports[n] !in Members(ports[..n]);
    }
  }

  /** Looking at neighbours in the sorted list decides the property of the set. */
  lemma {:induction false} PredictableIsNeighbourly(ports: seq<nat>)
    requires AscendingPorts(ports)
    ensures PredictablePorts(ports) <==> Predictable(Members(ports))
    ensures PredictablePorts(ports) <==>
            |ports| >= 2 && forall i :: 0 <= i < |ports| - 1 ==> ports[i + 1] - ports[i] <= 4
  {
    hide LargestOrFollowed;
    SortedSize(ports);
    if PredictablePorts(ports) {
      forall p | p in Members(ports) ensures LargestOrFollowed(p, Members(ports)) { NextIsClose(ports, p); }
    }
    if Predictable(Members(ports)) {
      forall i | 0 <= i < |ports| - 1 ensures ports[i + 1] - ports[i] <= SYMMETRIC_PORT_GAP {
        assert ports[i] in Members(ports);
        CloseIsNext(ports, i);
      }
    }
  }

  lemma {:induction false} NextIsClose(ports: seq<nat>, p: nat)
    requires AscendingPorts(ports) && PredictablePorts(ports) && p in Members(ports)
    ensures LargestOrFollowed(p, Members(ports))
  {
    LastIsGreatest(ports);
    var i :| 0 <= i < |ports| && ports[i] == p;
    if i < |ports| - 1 {
      assert ports[i + 1] in Members(ports);
    }
  }

  lemma {:induction false} CloseIsNext(ports: seq<nat>, i: nat)
    requires AscendingPorts(ports) && i < |ports| - 1 && LargestOrFollowed(ports[i], Members(ports))
    ensures ports[i + 1] - ports[i] <= SYMMETRIC_PORT_GAP
  {
    var s := Members(ports);
    assert ports[i + 1] in s && ports[i] < ports[i + 1];
    var q :| q in s && ports[i] < q <= ports[i] + SYMMETRIC_PORT_GAP;
    var j :| 0 <= j < |ports| && ports[j] == q;
    assert ports[i + 1] <= ports[j];
  }

  lemma {:induction false} LastIsGreatest(ports: seq<nat>)
    requires AscendingPorts(ports) && ports != []
    ensures IsGreatest(ports[|ports| - 1], Members(ports)) && IsLeast(ports[0], Members(ports))
  {
    var s, n := Members(ports), |ports| - 1;
    forall q | q in s ensures ports[0] <= q <= ports[n] {
      var j :| 0 <= j < |ports| && ports[j] == q;
    }
  }

  /** The range the expansion loop runs over is the one the specification names. */
  lemma {:induction false} RangeIs(ports: seq<nat>, q: nat)
    requires AscendingPorts(ports) && ports != []
    ensures InRange(Members(ports), q) <==>
            ports[0] <= q <= ports[|ports| - 1] + SYMMETRIC_EXTRA_PORTS && q <= MAX_PORT
  {
    LastIsGreatest(ports);
  }

  /** The missing ports that come before `q` in the expansion loop. */
  ghost function MissingBelow(ports: set<nat>, q: nat): (r: set<nat>) {
    Below(Missing(ports), q)
  }

  lemma {:induction false} MissingStep(ports: set<nat>, q: nat)
    ensures MissingBelow(ports, q + 1) ==
            if q in Missing(ports) then MissingBelow(ports, q) + {q} else MissingBelow(ports, q)
    ensures q in Missing(ports) ==> |MissingBelow(ports, q + 1)| == |MissingBelow(ports, q)| + 1
  {
    hide Missing;
  }

  /** Stopping after the 32nd insertion, or at the end of the range, leaves exactly the extra ports inserted. */
  lemma {:induction false} StopsAtExtra(ports: set<nat>, q: nat, full: bool)
    requires full ==> |MissingBelow(ports, q)| == SYMMETRIC_MAX_PORTS_PER_HOST
    requires full ==> q > 0 && q - 1 in Missing(ports)
    requires !full ==> Missing(ports) == MissingBelow(ports, q) && |Missing(ports)| < SYMMETRIC_MAX_PORTS_PER_HOST
    ensures MissingBelow(ports, q) == Extra(ports)
  {
    hide InRange;
    var missing := Missing(ports);
    forall p | p in missing
      ensures p < q <==> |Below(missing, p)| < SYMMETRIC_MAX_PORTS_PER_HOST
    {
      if p < q {
        if full {
          assert Below(missing, p) <= MissingBelow(ports, q) - {q - 1};
          SubsetSize(Below(missing, p), MissingBelow(ports, q) - {q - 1});
        } else {
          SubsetSize(Below(missing, p), missing);
        }
      } else {
        SubsetSize(MissingBelow(ports, q), Below(missing, p));
      }
    }
  }

  /** The candidates with these ports of one host added. */
  ghost predicate Expanded(r: set<Address>, candidates: set<Address>, ip: nat, ports: set<nat>) {
    forall a :: a in r <==> a in candidates || (a.V4? && a.ip == ip && a.port in ports)
  }

  /** One turn of the expansion loop: the port is inserted exactly when it is missing. */
  lemma {:induction false} ExpandStep(r: set<Address>, candidates: set<Address>, ip: nat, ports: set<nat>, port: U16)
    requires ports == PortsOf(candidates, ip) && InRange(ports, port)
    requires Expanded(r, candidates, ip, MissingBelow(ports, port))
    ensures V4(ip, port) in r <==> port !in Missing(ports)
    ensures if port in Missing(ports)
            then Expanded(r + {V4(ip, port)}, candidates, ip, MissingBelow(ports, port + 1)) &&
                 |MissingBelow(ports, port + 1)| == |MissingBelow(ports, port)| + 1
            else Expanded(r, candidates, ip, MissingBelow(ports, port + 1)) &&
                 |MissingBelow(ports, port + 1)| == |MissingBelow(ports, port)|
  {
    hide InRange;
    MissingStep(ports, port);
    assert V4(ip, port) in candidates <==> port in ports;
  }

  /** Adds one predictable host's extra ports to the candidates, lowest first. */
  method ExpandHost(candidates: set<Address>, ip: nat, ports: seq<nat>) returns (r: set<Address>)
    requires AscendingPorts(ports) && ports != [] && Members(ports) == PortsOf(candidates, ip)
    ensures Expanded(r, candidates, ip, Extra(Members(ports)))
  {
    hide Expanded, Missing, MissingBelow, InRange, Extra;
    ghost var s := Members(ports);
    var last := ports[|ports| - 1];
    var end := if last + SYMMETRIC_EXTRA_PORTS <= MAX_PORT then last + SYMMETRIC_EXTRA_PORTS else MAX_PORT;
    var added, port := 0, ports[0];
    r := candidates;
    BeforeRange(candidates, ip, ports);
    while port <= end
      invariant ports[0] <= port <= end + 1
      invariant added == |MissingBelow(s, port)| < SYMMETRIC_MAX_PORTS_PER_HOST
      invariant Expanded(r, candidates, ip, MissingBelow(s, port))
      decreases end + 1 - port
    {
      RangeIs(ports, port);
      ExpandStep(r, candidates, ip, s, port);
      if V4(ip, port) !in r {
        r := r + {V4(ip, port)};
        added := added + 1;
        if added == SYMMETRIC_MAX_PORTS_PER_HOST {
          StopsAtExtra(s, port + 1, true);
          return;
        }
      }
      port := port + 1;
    }
    AfterRange(ports, port);
    StopsAtExtra(s, port, false);
  }

  lemma {:induction false} BeforeRange(candidates: set<Address>, ip: nat, ports: seq<nat>)
    requires AscendingPorts(ports) && ports != [] && Members(ports) == PortsOf(candidates, ip)
    ensures ports[0] <= MAX_PORT && ports[|ports| - 1] <= MAX_PORT && ports[0] <= ports[|ports| - 1]
    ensures MissingBelow(Members(ports), ports[0]) == {}
    ensures Expanded(candidates, candidates, ip, MissingBelow(Members(ports), ports[0]))
  {
    var s := Members(ports);
    LastIsGreatest(ports);
    assert ports[0] in s && ports[|ports| - 1] in s;
    forall q | q in MissingBelow(s, ports[0]) ensures false {
      RangeIs(ports, q);
    }
  }

  lemma {:induction false} AfterRange(ports: seq<nat>, q: nat)
    requires AscendingPorts(ports) && ports != []
    requires q > ports[|ports| - 1] + SYMMETRIC_EXTRA_PORTS || q > MAX_PORT
    ensures Missing(Members(ports)) == MissingBelow(Members(ports), q)
  {
    forall p | p in Missing(Members(ports)) ensures p < q {
      RangeIs(ports, p);
    }
  }

  /** Candidates once the hosts in `done` have been expanded. */
  ghost predicate PartlyExpanded(r: set<Address>, base: set<Address>, done: set<nat>) {
    forall a :: a in r <==>
      || a in base
      || (a.V4? && a.ip in done && Predictable(PortsOf(base, a.ip)) && a.port in Extra(PortsOf(base, a.ip)))
  }

  /** An unvisited host's ports are still the peer's own. */
  lemma {:induction false} UnvisitedPorts(r: set<Address>, base: set<Address>, done: set<nat>, ip: nat)
    requires PartlyExpanded(r, base, done) && ip !in done
    ensures PortsOf(r, ip) == PortsOf(base, ip)
  {
    hide Predictable, Extra;
    forall p ensures p in PortsOf(r, ip) <==> p in PortsOf(base, ip) {
      if p in PortsOf(r, ip) {
        var a :| a in r && a.V4? && a.ip == ip && a.port == p;
        assert a in base;
      }
      if p in PortsOf(base, ip) {
        var a :| a in base && a.V4? && a.ip == ip && a.port == p;
        assert a in r;
      }
    }
  }

  lemma {:induction false} HostDone(r: set<Address>, after: set<Address>, base: set<Address>, done: set<nat>, ip: nat)
    requires PartlyExpanded(r, base, done) && ip !in done
    requires if Predictable(PortsOf(base, ip)) then Expanded(after, r, ip, Extra(PortsOf(base, ip))) else after == r
    ensures PartlyExpanded(after, base, done + {ip})
  {
    hide Predictable, Extra, PortsOf;
  }

  /**
   The candidate list: strictly sorted, and exactly the specified addresses, in whatever order the hosts come out
   of the hash map.
   */
  method CandidatePunchAddresses(local: seq<Address>, peers: seq<Address>, family: Family) returns (r: seq<Address>)
    ensures Ascending(r)
    ensures forall a :: a in r <==> IsCandidate(Base(ChosenFamilies(local, family), peers), a)
  {
    hide Predictable, Extra, PortsOf, Ascending;
    var families := ChooseFamilies(local, family);
    var base := Base(families, peers);
    var candidates := base;
    var hosts := set a | a in base && a.V4? :: a.ip;
    ghost var all, done: set<nat> := hosts, {};
    while hosts != {}
      invariant hosts !! done && hosts + done == all
      invariant PartlyExpanded(candidates, base, done)
      decreases |hosts|
    {
      var ip :| ip in hosts;
      var ports := SortedPorts(PortsOf(base, ip));
      UnvisitedPorts(candidates, base, done, ip);
      PredictableIsNeighbourly(ports);
      var before := candidates;
      if PredictablePorts(ports) {
        candidates := ExpandHost(candidates, ip, ports);
      }
      HostDone(before, candidates, base, done, ip);
      hosts, done := hosts - {ip}, done + {ip};
    }
    AllHostsDone(candidates, base, done);
    r := InOrder(candidates);
  }

  lemma {:induction false} AllHostsDone(r: set<Address>, base: set<Address>, done: set<nat>)
    requires PartlyExpanded(r, base, done) && done == (set a | a in base && a.V4? :: a.ip)
    ensures forall a :: a in r <==> IsCandidate(base, a)
  {
    hide Extra;
    forall a ensures a in r <==> IsCandidate(base, a) {
      if a.V4? && a.ip !in done {
        assert PortsOf(base, a.ip) == {} by {
          assert forall b :: b in base && b.V4? ==> b.ip in done;
        }
      }
    }
  }
}
