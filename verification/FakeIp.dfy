/** The FakeIP address pool: a ring of addresses per family, a forward map from domains to
    addresses and one reverse map shared by both families. */
module FakeIp {
  import opened Bytes

  datatype Family = Four | Six

  /** An address of a family as a number. */
  datatype IpAddr = IpAddr(family: Family, n: nat)

  type Domain = Data

  /** Network and broadcast address of a configured range. */
  datatype Net = Net(first: nat, last: nat)

  datatype Pool = Pool(net: Option<Net>, current: Option<nat>, byDomain: map<Domain, nat>)

  datatype Store = Store(four: Pool, six: Pool, domains: map<IpAddr, Domain>) {
    function Of(f: Family): Pool { if f == Four then four else six }

    function With(f: Family, p: Pool): Store { if f == Four then this.(four := p) else this.(six := p) }
  }

  // ----- ranges -----

  function Width(f: Family): nat { if f == Four then 32 else 128 }

  /** The wrapping successor of an address. */
  function Succ(f: Family, a: nat): nat { if a + 1 == Pow2(Width(f)) then 0 else a + 1 }

  /** `parse_ipv4_cidr`/`parse_ipv6_cidr` after the text is parsed: clear the host bits, then set them. */
  function Cidr(f: Family, addr: nat, prefix: nat): Net
    requires prefix <= Width(f)
  {
    var size := Pow2(Width(f) - prefix);
    RemainderIsSmaller(addr, size);
    var net := addr - addr % size;
    Net(net, net + size - 1)
  }

  lemma RemainderIsSmaller(a: nat, size: nat)
    requires size > 0
    ensures 0 <= a % size <= a
  {
  }

  lemma FloorBound(a: nat, size: nat, k: nat)
    requires size > 0 && a < size * k
    ensures a - a % size + size <= size * k
  {
    var q, r := a / size, a % size;
    assert a == size * q + r;
    assert q < k;
    assert size * (q + 1) <= size * k;
  }

  lemma {:induction false} CidrInWidth(f: Family, addr: nat, prefix: nat)
    requires prefix <= Width(f) && addr < Pow2(Width(f))
    ensures var net := Cidr(f, addr, prefix);
      && net.last < Pow2(Width(f)) && net.last - net.first + 1 == Pow2(Width(f) - prefix)
      && net.first <= addr <= net.last
  {
    Pow2Sum(Width(f) - prefix, prefix);
    FloorBound(addr, Pow2(Width(f) - prefix), Pow2(prefix));
  }

  /** Its first address is a multiple of its size, so it is the only such range around the address. */
  lemma {:induction false} CidrIsAligned(f: Family, addr: nat, prefix: nat, k: nat)
    requires prefix <= Width(f)
    requires var size := Pow2(Width(f) - prefix); size * k <= addr < size * k + size
    ensures Cidr(f, addr, prefix).first == Pow2(Width(f) - prefix) * k
  {
    OnlyMultiple(addr, Pow2(Width(f) - prefix), k);
  }

  /** An address is in the range exactly when it agrees with the configured one in all but the host bits. */
  lemma {:induction false} InRangeExactlyWhenSamePrefix(f: Family, addr: nat, prefix: nat, n: nat)
    requires prefix <= Width(f)
    ensures var size := Pow2(Width(f) - prefix);
      InRange(Some(Cidr(f, addr, prefix)), n) <==> n / size == addr / size
  {
    SameQuotient(addr, Pow2(Width(f) - prefix), n);
  }

  lemma SameQuotient(a: nat, size: nat, n: nat)
    requires size > 0
    ensures a - a % size <= n <= a - a % size + size - 1 <==> n / size == a / size
  {
    var k := a / size;
    assert a == size * k + a % size;
    QuotientIs(n, size, k, size * k);
  }

  lemma QuotientIs(a: nat, size: nat, k: nat, low: nat)
    requires size > 0 && low == size * k
    ensures a / size == k <==> low <= a < low + size
  {
    var q, r := a / size, a % size;
    assert a == size * q + r;
    assert q < k ==> size * (q + 1) <= size * k;
    assert k < q ==> size * (k + 1) <= size * q;
  }

  lemma OnlyMultiple(a: nat, size: nat, k: nat)
    requires size > 0 && size * k <= a < size * k + size
    ensures a - a % size == size * k
  {
    var q, r := a / size, a % size;
    assert a == size * q + r;
    assert q < k ==> size * (q + 1) <= size * k;
    assert k < q ==> size * (k + 1) <= size * q;
  }

  // ----- the ring -----

  /** A range with at least one address strictly between its ends. */
  predicate Usable(f: Family, net: Net) { net.first + 2 <= net.last < Pow2(Width(f)) }

  predicate UsableOrAbsent(f: Family, net: Option<Net>) { net.Some? ==> Usable(f, net.value) }

  /** A parsed range is usable exactly when the prefix leaves two host bits: at most /30, or /126 for IPv6. */
  lemma CidrIsUsable(f: Family, addr: nat, prefix: nat)
    requires prefix <= Width(f) && addr < Pow2(Width(f))
    ensures Usable(f, Cidr(f, addr, prefix)) <==> prefix <= if f == Four then 30 else 126
  {
    CidrInWidth(f, addr, prefix);
    var bits := Width(f) - prefix;
    assert Pow2(0) == 1 && Pow2(1) == 2 && Pow2(2) == 4;
    if bits >= 2 {
      Pow2Sum(2, bits - 2);
    }
  }

  /** The number of addresses handed out before the ring starts over. */
  function RingSize(net: Net): int { net.last - net.first - 1 }

  function NextInRing(f: Family, net: Net, current: nat): nat {
    if Succ(f, current) >= net.last then Succ(f, net.first) else Succ(f, current)
  }

  predicate Fresh(s: Store, f: Family, d: Domain) {
    d !in s.Of(f).byDomain && s.Of(f).net.Some? && s.Of(f).current.Some?
  }

  /** The store after `allocate_v4`/`allocate_v6`. */
  function Allocate(s: Store, f: Family, d: Domain): Store {
    if !Fresh(s, f, d) then s else
      var p := s.Of(f);
      var next := NextInRing(f, p.net.value, p.current.value);
      var at := IpAddr(f, next);
      var kept := if at in s.domains then p.byDomain - {s.domains[at]} else p.byDomain;
      Store(s.four, s.six, s.domains[at := d]).With(f, Pool(p.net, Some(next), kept[d := next]))
  }

  function AddressOf(s: Store, f: Family, d: Domain): Option<nat> {
    if d in s.Of(f).byDomain then Some(s.Of(f).byDomain[d]) else None
  }

  predicate InRange(net: Option<Net>, n: nat) { net.Some? && net.value.first <= n <= net.value.last }

  predicate StrictlyInside(net: Option<Net>, n: nat) { net.Some? && net.value.first < n < net.value.last }

  /** In range, and not the one address without a successor. */
  predicate Holdable(f: Family, net: Option<Net>, n: nat) { InRange(net, n) && n + 1 < Pow2(Width(f)) }

  predicate CursorInside(f: Family, p: Pool) {
    if p.net.None? then p.current.None? else
      Usable(f, p.net.value) && p.current.Some? && StrictlyInside(p.net, p.current.value)
  }

  /** Within one family the forward and the reverse map are inverse to each other. */
  ghost predicate Mirrored(s: Store, f: Family) {
    && (forall d :: d in s.Of(f).byDomain ==>
          var a := IpAddr(f, s.Of(f).byDomain[d]); a in s.domains && s.domains[a] == d)
    && (forall a :: a in s.domains && a.family == f ==>
          s.domains[a] in s.Of(f).byDomain && s.Of(f).byDomain[s.domains[a]] == a.n)
  }

  /** They are, and stay inside the range. */
  ghost predicate OneToOne(s: Store, f: Family) {
    && Mirrored(s, f)
    && (forall a :: a in s.domains && a.family == f ==> Holdable(f, s.Of(f).net, a.n))
  }

  ghost predicate Inv(s: Store) {
    forall f :: CursorInside(f, s.Of(f)) && OneToOne(s, f)
  }

  lemma NextInRingInside(f: Family, net: Net, current: nat)
    requires Usable(f, net) && net.first < current < net.last
    ensures NextInRing(f, net, current) == if current + 1 >= net.last then net.first + 1 else current + 1
    ensures net.first < NextInRing(f, net, current) < net.last
  {
  }

  /** Whatever the ranges, even those too small to have an address inside, the maps stay inverse. */
  lemma AllocateKeepsMirrored(s: Store, f: Family, d: Domain)
    requires forall g :: Mirrored(s, g)
    ensures forall g :: Mirrored(Allocate(s, f, d), g)
  {
    var s' := Allocate(s, f, d);
    forall g ensures Mirrored(s', g) {
      assert Mirrored(s, g) && Mirrored(s, f);
      if g != f {
        AllocateLeavesOtherFamily(s, f, g, d);
      }
    }
  }

  lemma AllocateKeepsInv(s: Store, f: Family, d: Domain)
    requires Inv(s)
    ensures Inv(Allocate(s, f, d))
    ensures s.Of(f).net.Some? <==> AddressOf(Allocate(s, f, d), f, d).Some?
  {
    if Fresh(s, f, d) {
      var s' := Allocate(s, f, d);
      assert CursorInside(f, s.Of(f)) && forall g :: OneToOne(s, g) ==> Mirrored(s, g);
      NextInRingInside(f, s.Of(f).net.value, s.Of(f).current.value);
      AllocateKeepsMirrored(s, f, d);
      forall g ensures CursorInside(g, s'.Of(g)) && OneToOne(s', g) {
        assert CursorInside(g, s.Of(g)) && OneToOne(s, g) && Mirrored(s', g);
      }
    }
  }

  /** A fresh address is neither the network nor the broadcast address. */
  lemma FreshIsStrictlyInside(s: Store, f: Family, d: Domain)
    requires Inv(s) && Fresh(s, f, d)
    ensures var a := AddressOf(Allocate(s, f, d), f, d);
      a.Some? && StrictlyInside(s.Of(f).net, a.value) && Allocate(s, f, d).domains[IpAddr(f, a.value)] == d
  {
  }

  /** The two families never disturb each other. */
  lemma AllocateLeavesOtherFamily(s: Store, f: Family, g: Family, d: Domain)
    requires f != g
    ensures Allocate(s, f, d).Of(g) == s.Of(g)
    ensures forall a: IpAddr :: a.family == g ==>
              (a in Allocate(s, f, d).domains <==> a in s.domains)
              && (a in s.domains ==> Allocate(s, f, d).domains[a] == s.domains[a])
  {
  }

  /** Live domains of a family never share an address. */
  lemma LiveDomainsNeverShare(s: Store, f: Family, d: Domain, e: Domain)
    requires Mirrored(s, f) && d != e && AddressOf(s, f, d).Some? && AddressOf(s, f, e).Some?
    ensures AddressOf(s, f, d) != AddressOf(s, f, e)
  {
  }

  /** A store that has allocated nothing yet: the cursor sits on the first host address. */
  function Initial(four: Option<Net>, six: Option<Net>): Store {
    Store(EmptyPool(Four, four), EmptyPool(Six, six), map[])
  }

  function EmptyPool(f: Family, net: Option<Net>): Pool {
    Pool(net, if net.Some? then Some(Succ(f, net.value.first)) else None, map[])
  }

  /** A new store satisfies the invariant. */
  lemma InitialHasInv(four: Option<Net>, six: Option<Net>)
    requires UsableOrAbsent(Four, four) && UsableOrAbsent(Six, six)
    ensures Inv(Initial(four, six))
  {
  }

  /** From a new store the first address handed out lies strictly inside its range exactly when the
      prefix leaves at least two host bits. */
  lemma StrictlyInsideNeedsTwoHostBits(f: Family, addr: nat, prefix: nat, d: Domain)
    requires prefix <= Width(f) && addr < Pow2(Width(f))
    ensures
      var net := Some(Cidr(f, addr, prefix));
      var s := if f == Four then Initial(net, None) else Initial(None, net);
      var a := AddressOf(Allocate(s, f, d), f, d);
      a.Some? && (StrictlyInside(net, a.value) <==> prefix <= if f == Four then 30 else 126)
  {
    CidrInWidth(f, addr, prefix);
    CidrIsUsable(f, addr, prefix);
    assert Pow2(0) == 1 && Pow2(1) == 2;
    if prefix + 2 <= Width(f) {
      NextInRingInside(f, Cidr(f, addr, prefix), Cidr(f, addr, prefix).first + 1);
    }
  }

  /** In a range with at most one host bit a fresh allocation takes the address behind the first, and so does
      every later one, exactly when that address is not the all-ones address or beyond; at the top of the address
      space the cursor wraps to zero and wanders off. */
  lemma TinyRangeHasOneAddress(s: Store, f: Family, d: Domain)
    requires Fresh(s, f, d) && s.Of(f).current == Some(Succ(f, s.Of(f).net.value.first))
    requires var net := s.Of(f).net.value; net.first <= net.last <= net.first + 1 && net.last < Pow2(Width(f))
    ensures var first := s.Of(f).net.value.first;
      && (AddressOf(Allocate(s, f, d), f, d) == s.Of(f).current <==> first + 2 < Pow2(Width(f)))
      && (Allocate(s, f, d).Of(f).current == s.Of(f).current <==> first + 2 < Pow2(Width(f)))
  {
    Pow2Sum(2, Width(f) - 2);
    assert Pow2(2) == 4;
  }

  // ----- runs -----

  datatype Request = Request(family: Family, domain: Domain, now: nat)

  ghost function After(s: Store, rs: seq<Request>): Store {
    if rs == [] then s else
      var last := rs[|rs| - 1];
      Allocate(After(s, rs[..|rs| - 1]), last.family, last.domain)
  }

  /** How many requests of the run were given a new address of family `f`. */
  ghost function FreshCount(s: Store, f: Family, rs: seq<Request>): nat {
    if rs == [] then 0 else
      var before, last := rs[..|rs| - 1], rs[|rs| - 1];
      FreshCount(s, f, before) + (if last.family == f && Fresh(After(s, before), f, last.domain) then 1 else 0)
  }

  lemma {:induction false} RunKeepsInv(s: Store, rs: seq<Request>)
    requires Inv(s)
    ensures Inv(After(s, rs))
    ensures forall f :: After(s, rs).Of(f).net == s.Of(f).net
  {
    if rs != [] {
      var before, last := rs[..|rs| - 1], rs[|rs| - 1];
      RunKeepsInv(s, before);
      AllocateKeepsInv(After(s, before), last.family, last.domain);
    }
  }

  /** Every address ever handed out by a store that started empty lies strictly inside its range. */
  lemma {:induction false} RunStaysStrictlyInside(
      four: Option<Net>, six: Option<Net>, rs: seq<Request>, f: Family, d: Domain)
    requires UsableOrAbsent(Four, four) && UsableOrAbsent(Six, six)
    ensures var s := After(Initial(four, six), rs);
      Inv(s) && (d in s.Of(f).byDomain ==> StrictlyInside(s.Of(f).net, s.Of(f).byDomain[d]))
  {
    var start := Initial(four, six);
    InitialHasInv(four, six);
    RunKeepsInv(start, rs);
    if rs != [] {
      var before, last := rs[..|rs| - 1], rs[|rs| - 1];
      RunStaysStrictlyInside(four, six, before, f, d);
      RunKeepsInv(start, before);
      AllocateStaysInside(After(start, before), last.family, last.domain, f, d);
    }
  }

  lemma AllocateStaysInside(s: Store, g: Family, e: Domain, f: Family, d: Domain)
    requires Inv(s) && (d in s.Of(f).byDomain ==> StrictlyInside(s.Of(f).net, s.Of(f).byDomain[d]))
    ensures var s' := Allocate(s, g, e);
      d in s'.Of(f).byDomain ==> StrictlyInside(s'.Of(f).net, s'.Of(f).byDomain[d])
  {
    assert CursorInside(g, s.Of(g));
    if Fresh(s, g, e) {
      NextInRingInside(g, s.Of(g).net.value, s.Of(g).current.value);
    }
  }

  /** `k` places further round the ring, for at most one turn. */
  function Ahead(net: Net, a: nat, k: nat): int {
    if a + k < net.last then a + k else a + k - RingSize(net)
  }

  /** After fewer fresh allocations than the ring has places, the cursor has moved that many places and
      the address still belongs to its domain. */
  lemma {:induction false} RingPosition(s: Store, f: Family, d: Domain, a: nat, rs: seq<Request>)
    requires Inv(s) && s.Of(f).net.Some? && s.Of(f).current == Some(a)
    requires IpAddr(f, a) in s.domains && s.domains[IpAddr(f, a)] == d
    requires FreshCount(s, f, rs) < RingSize(s.Of(f).net.value)
    ensures var s' := After(s, rs);
      && s'.Of(f).current == Some(Ahead(s.Of(f).net.value, a, FreshCount(s, f, rs)))
      && IpAddr(f, a) in s'.domains && s'.domains[IpAddr(f, a)] == d
  {
    assert CursorInside(f, s.Of(f));
    if rs != [] {
      var before, last := rs[..|rs| - 1], rs[|rs| - 1];
      RingPosition(s, f, d, a, before);
      RunKeepsInv(s, before);
      var m := After(s, before);
      assert CursorInside(f, m.Of(f));
      if last.family == f && Fresh(m, f, last.domain) {
        OnePlaceFurther(m, f, last.domain, a, d, FreshCount(s, f, before));
      } else if last.family != f {
        AllocateLeavesOtherFamily(m, last.family, f, last.domain);
      }
    }
  }

  lemma OnePlaceFurther(m: Store, f: Family, e: Domain, a: nat, d: Domain, k: nat)
    requires Fresh(m, f, e) && CursorInside(f, m.Of(f)) && k + 1 < RingSize(m.Of(f).net.value)
    requires StrictlyInside(m.Of(f).net, a) && m.Of(f).current == Some(Ahead(m.Of(f).net.value, a, k))
    requires IpAddr(f, a) in m.domains && m.domains[IpAddr(f, a)] == d
    ensures var m' := Allocate(m, f, e);
      && m'.Of(f).current == Some(Ahead(m.Of(f).net.value, a, k + 1))
      && IpAddr(f, a) in m'.domains && m'.domains[IpAddr(f, a)] == d
  {
    NextInRingInside(f, m.Of(f).net.value, m.Of(f).current.value);
  }

  /** A fresh allocation gets the next place of the ring, and forgets a domain only if that was its place. */
  lemma FreshTakesNextPlace(s: Store, f: Family, e: Domain, d: Domain, a: nat)
    requires Inv(s) && Fresh(s, f, e) && AddressOf(s, f, d) == Some(a)
    ensures var next := NextInRing(f, s.Of(f).net.value, s.Of(f).current.value);
      && AddressOf(Allocate(s, f, e), f, e) == Some(next)
      && (AddressOf(Allocate(s, f, e), f, d).None? <==> next == a)
  {
  }

  /** A fresh address leads back to its domain through the next N - 1 fresh allocations of its family,
      whatever else happens in between, and the N-th one takes exactly that address away. */
  lemma {:induction false} AddressLivesOneTurn(s: Store, f: Family, d: Domain, rs: seq<Request>, r: Request)
    requires Inv(s) && Fresh(s, f, d)
    requires FreshCount(Allocate(s, f, d), f, rs) < RingSize(s.Of(f).net.value)
    requires r.family == f && Fresh(After(Allocate(s, f, d), rs), f, r.domain)
    ensures var first := Allocate(s, f, d);
      var a := AddressOf(first, f, d);
      var held, next := After(first, rs), After(first, rs + [r]);
      && a.Some? && AddressOf(held, f, d) == a && IpAddr(f, a.value) in held.domains
      && held.domains[IpAddr(f, a.value)] == d
      && (AddressOf(next, f, r.domain) == a <==> FreshCount(first, f, rs + [r]) == RingSize(s.Of(f).net.value))
      && (AddressOf(next, f, r.domain) == a <==> AddressOf(next, f, d).None?)
  {
    var first := Allocate(s, f, d);
    AllocateKeepsInv(s, f, d);
    var a := first.Of(f).byDomain[d];
    RingPosition(first, f, d, a, rs);
    RunKeepsInv(first, rs);
    var held := After(first, rs);
    assert CursorInside(f, first.Of(f)) && CursorInside(f, held.Of(f)) && OneToOne(held, f);
    assert rs + [r] != [] && (rs + [r])[..|rs|] == rs;
    NextInRingInside(f, s.Of(f).net.value, held.Of(f).current.value);
    FreshTakesNextPlace(held, f, r.domain, d, a);
  }
}
