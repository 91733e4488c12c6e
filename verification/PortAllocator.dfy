/** External-port allocation: a wrapping cursor taken modulo the port span, a
    64-slot ring of recently handed-out ports, and at most sixteen probes a call. */
module PortAllocator {
  import opened Words
  import opened Abi
  import opened Pool

  const PROBES: nat := 16

  // ---------- specification ----------

  datatype Ring = Ring(idx: u32, ports: seq<u16>)

  /** `mapped`: the cursor map has its entry; without it every call is refused. */
  datatype State = State(mapped: bool, cursor: u32, ring: Option<Ring>)

  datatype Outcome = Refused | Exhausted | Allocated(port: u16)

  /** One call: the configured range and the ports `NAT` already holds. */
  datatype Call = Call(portMin: u16, portMax: u16, taken: set<u16>)

  predicate ValidState(st: State) {
    st.ring.Some? ==> |st.ring.value.ports| == COOLDOWN_SIZE
  }

  /** The ports of one external address and protocol that have a `NAT` entry. */
  function Taken(nat_: map<NatKey, NatVal>, extV4: u32, proto: byte): set<u16> {
    set p: u16 | 0 <= p < 0x1_0000 && NatKey(extV4, p, proto) in nat_
  }

  predicate Cooling(st: State, port: u16) {
    st.ring.Some? && port in st.ring.value.ports
  }

  function PushRing(r: Ring, port: u16): Ring
    requires |r.ports| == COOLDOWN_SIZE
  {
    Ring(Wrap32(r.idx + 1), r.ports[r.idx % COOLDOWN_SIZE := port])
  }

  function Push(st: State, port: u16): (r: State)
    requires ValidState(st)
    ensures ValidState(r)
  {
    match st.ring
    case None => st
    case Some(r) => st.(ring := Some(PushRing(r, port)))
  }

  function Span(c: Call): nat
    requires c.portMin <= c.portMax
  {
    c.portMax - c.portMin + 1
  }

  function Candidate(c: Call, cursor: u32): u16
    requires c.portMin <= c.portMax
  {
    c.portMin + cursor % Span(c)
  }

  predicate Free(st: State, c: Call, port: u16) {
    !Cooling(st, port) && port !in c.taken
  }

  function Probe(st: State, c: Call, tries: nat): (r: (State, Outcome))
    requires ValidState(st) && c.portMin <= c.portMax
    ensures ValidState(r.0)
    decreases tries
  {
    if tries == 0 then (st, Exhausted)
    else
      var next := st.(cursor := WrappingAdd32(st.cursor, 1));
      var port := Candidate(c, next.cursor);
      if Free(st, c, port) then (Push(next, port), Allocated(port))
      else Probe(next, c, tries - 1)
  }

  function Alloc(st: State, c: Call): (r: (State, Outcome))
    requires ValidState(st)
    ensures ValidState(r.0)
  {
    if c.portMin >= c.portMax || !st.mapped then (st, Refused) else Probe(st, c, PROBES)
  }

  // ---------- the program ----------

  /** A port that is in none of the slots is not in the ring. */
  lemma NoSlotHolds(ports: seq<u16>, port: u16)
    requires |ports| == COOLDOWN_SIZE
    requires forall i :: 0 <= i < COOLDOWN_SIZE ==> ports[i] != port
    ensures port !in ports
  {
  }

  class CooldownRing {
    var idx: u32
    const ports: array<u16>

    constructor ()
      ensures fresh(ports) && ports.Length == COOLDOWN_SIZE
      ensures idx == 0 && forall i :: 0 <= i < COOLDOWN_SIZE ==> ports[i] == 0
    {
      idx := 0;
      ports := new u16[COOLDOWN_SIZE](_ => 0);
    }

    ghost predicate Valid() {
      ports.Length == COOLDOWN_SIZE
    }

    ghost function Model(): Ring
      reads this, ports
    {
      Ring(idx, ports[..])
    }

    method Contains(port: u16) returns (found: bool)
      requires Valid()
      ensures found <==> port in ports[..]
    {
      found :=
        ports[0] == port || ports[1] == port || ports[2] == port || ports[3] == port
        || ports[4] == port || ports[5] == port || ports[6] == port || ports[7] == port
        || ports[8] == port || ports[9] == port || ports[10] == port || ports[11] == port
        || ports[12] == port || ports[13] == port || ports[14] == port || ports[15] == port
        || ports[16] == port || ports[17] == port || ports[18] == port || ports[19] == port
        || ports[20] == port || ports[21] == port || ports[22] == port || ports[23] == port
        || ports[24] == port || ports[25] == port || ports[26] == port || ports[27] == port
        || ports[28] == port || ports[29] == port || ports[30] == port || ports[31] == port
        || ports[32] == port || ports[33] == port || ports[34] == port || ports[35] == port
        || ports[36] == port || ports[37] == port || ports[38] == port || ports[39] == port
        || ports[40] == port || ports[41] == port || ports[42] == port || ports[43] == port
        || ports[44] == port || ports[45] == port || ports[46] == port || ports[47] == port
        || ports[48] == port || ports[49] == port || ports[50] == port || ports[51] == port
        || ports[52] == port || ports[53] == port || ports[54] == port || ports[55] == port
        || ports[56] == port || ports[57] == port || ports[58] == port || ports[59] == port
        || ports[60] == port || ports[61] == port || ports[62] == port || ports[63] == port;
      if !found {
        NoSlotHolds(ports[..], port);
      }
    }

    /** One arm for every slot; no other value of the index gets here. */
    method WriteSlot(slot: nat, port: u16)
      requires Valid() && slot < COOLDOWN_SIZE
      modifies ports
      ensures ports[..] == old(ports[..])[slot := port]
    {
      match slot
      case 0 => ports[0] := port;
      case 1 => ports[1] := port;
      case 2 => ports[2] := port;
      case 3 => ports[3] := port;
      case 4 => ports[4] := port;
      case 5 => ports[5] := port;
      case 6 => ports[6] := port;
      case 7 => ports[7] := port;
      case 8 => ports[8] := port;
      case 9 => ports[9] := port;
      case 10 => ports[10] := port;
      case 11 => ports[11] := port;
      case 12 => ports[12] := port;
      case 13 => ports[13] := port;
      case 14 => ports[14] := port;
      case 15 => ports[15] := port;
      case 16 => ports[16] := port;
      case 17 => ports[17] := port;
      case 18 => ports[18] := port;
      case 19 => ports[19] := port;
      case 20 => ports[20] := port;
      case 21 => ports[21] := port;
      case 22 => ports[22] := port;
      case 23 => ports[23] := port;
      case 24 => ports[24] := port;
      case 25 => ports[25] := port;
      case 26 => ports[26] := port;
      case 27 => ports[27] := port;
      case 28 => ports[28] := port;
      case 29 => ports[29] := port;
      case 30 => ports[30] := port;
      case 31 => ports[31] := port;
      case 32 => ports[32] := port;
      case 33 => ports[33] := port;
      case 34 => ports[34] := port;
      case 35 => ports[35] := port;
      case 36 => ports[36] := port;
      case 37 => ports[37] := port;
      case 38 => ports[38] := port;
      case 39 => ports[39] := port;
      case 40 => ports[40] := port;
      case 41 => ports[41] := port;
      case 42 => ports[42] := port;
      case 43 => ports[43] := port;
      case 44 => ports[44] := port;
      case 45 => ports[45] := port;
      case 46 => ports[46] := port;
      case 47 => ports[47] := port;
      case 48 => ports[48] := port;
      case 49 => ports[49] := port;
      case 50 => ports[50] := port;
      case 51 => ports[51] := port;
      case 52 => ports[52] := port;
      case 53 => ports[53] := port;
      case 54 => ports[54] := port;
      case 55 => ports[55] := port;
      case 56 => ports[56] := port;
      case 57 => ports[57] := port;
      case 58 => ports[58] := port;
      case 59 => ports[59] := port;
      case 60 => ports[60] := port;
      case 61 => ports[61] := port;
      case 62 => ports[62] := port;
      case 63 => ports[63] := port;
      case _ =>
    }

    method Push(port: u16)
      requires Valid()
      modifies this`idx, ports
      ensures Model() == PushRing(old(Model()), port)
    {
      var slot := idx % COOLDOWN_SIZE;
      WriteSlot(slot, port);
      idx := WrappingAdd32(idx, 1);
    }
  }

  class Allocator {
    const mapped: bool
    var cursor: u32
    const ring: CooldownRing?

    constructor (mapped: bool, ring: CooldownRing?)
      ensures this.mapped == mapped && this.ring == ring && cursor == 0
    {
      this.mapped := mapped;
      this.cursor := 0;
      this.ring := ring;
    }

    ghost predicate Valid() {
      ring != null ==> ring.Valid()
    }

    ghost function Repr(): set<object> {
      if ring == null then {this} else {this, ring, ring.ports}
    }

    ghost function Model(): (st: State)
      reads Repr()
      requires Valid()
      ensures ValidState(st)
    {
      State(mapped, cursor, if ring == null then None else Some(ring.Model()))
    }

    /** One turn of the probe loop: advance the cursor, and take its candidate if that
        port is neither cooling nor in `NAT`. */
    method ProbeOnce(portMin: u16, span: nat, extV4: u32, proto: byte, nat_: map<NatKey, NatVal>, ghost call: Call)
      returns (port: u16, taken: bool)
      requires Valid() && call.portMin == portMin <= call.portMax && span == Span(call)
      requires call.taken == Taken(nat_, extV4, proto)
      modifies Repr()
      ensures var next := old(Model()).(cursor := WrappingAdd32(old(cursor), 1));
              && port == Candidate(call, next.cursor)
              && taken == Free(old(Model()), call, port)
              && Model() == if taken then Push(next, port) else next
    {
      cursor := WrappingAdd32(cursor, 1);
      port := portMin + cursor % span;
      var cooling := false;
      if ring != null {
        cooling := ring.Contains(port);
      }
      if cooling || NatKey(extV4, port, proto) in nat_ {
        return port, false;
      }
      if ring != null {
        ring.Push(port);
      }
      return port, true;
    }

    method AllocPort(portMin: u16, portMax: u16, extV4: u32, proto: byte, nat_: map<NatKey, NatVal>)
      returns (o: Outcome)
      requires Valid()
      modifies Repr()
      ensures (Model(), o) == Alloc(old(Model()), Call(portMin, portMax, Taken(nat_, extV4, proto)))
    {
      if portMin >= portMax {
        return Refused;
      }
      if !mapped {
        return Refused;
      }
      var span := portMax - portMin + 1;
      ghost var call := Call(portMin, portMax, Taken(nat_, extV4, proto));
      for i := 0 to PROBES
        invariant Probe(Model(), call, PROBES - i) == Probe(old(Model()), call, PROBES)
      {
        var port, taken := ProbeOnce(portMin, span, extV4, proto, nat_, call);
        if taken {
          return Allocated(port);
        }
      }
      return Exhausted;
    }
  }

  // ---------- one call ----------

  /** The ports that are taken: those of this address and protocol with a `NAT` entry. */
  lemma TakenIsNatEntry(nat_: map<NatKey, NatVal>, extV4: u32, proto: byte, port: u16)
    ensures port in Taken(nat_, extV4, proto) <==> NatKey(extV4, port, proto) in nat_
  {
  }

  /** A push writes slot `idx mod 64` and no other, and the index wraps at 2^32. */
  lemma PushWritesOneSlot(r: Ring, port: u16, i: nat)
    requires |r.ports| == 64 && i < 64
    ensures var after := PushRing(r, port);
            && |after.ports| == 64 && after.ports[i] == (if i == r.idx % 64 then port else r.ports[i])
            && after.idx == if r.idx == 0xFFFF_FFFF then 0 else r.idx + 1
  {
    Wrap32IsRemainder(r.idx + 1);
  }

  /** The `k`th candidate of a call: the cursor wraps at 2^32 and is taken modulo the span. */
  function NthCandidate(st: State, c: Call, k: nat): u16
    requires c.portMin <= c.portMax
  {
    Candidate(c, Wrap32(st.cursor + k))
  }

  lemma NthCandidateIs(st: State, c: Call, k: nat)
    requires c.portMin <= c.portMax
    ensures NthCandidate(st, c, k) == c.portMin + (st.cursor + k) % 0x1_0000_0000 % (c.portMax - c.portMin + 1)
  {
    Wrap32IsRemainder(st.cursor + k);
  }

  /** One step on, the candidates are the same, counted from one less. */
  lemma NextCandidates(st: State, c: Call, k: nat)
    requires c.portMin <= c.portMax
    ensures var next := st.(cursor := WrappingAdd32(st.cursor, 1));
            && Wrap32(next.cursor + k) == Wrap32(st.cursor + (k + 1))
            && NthCandidate(next, c, k) == NthCandidate(st, c, k + 1)
  {
    WrapTwice(st.cursor, 1, k);
  }

  lemma {:induction false} ProbeTakesFirstFree(st: State, c: Call, tries: nat) returns (k: nat)
    requires ValidState(st) && c.portMin <= c.portMax
    ensures 1 <= k <= tries + 1
    ensures forall j :: 1 <= j < k ==> !Free(st, c, NthCandidate(st, c, j))
    ensures var (after, o) := Probe(st, c, tries);
            if k <= tries then
              && Free(st, c, NthCandidate(st, c, k)) && o == Allocated(NthCandidate(st, c, k))
              && after.cursor == Wrap32(st.cursor + k)
            else
              o == Exhausted && after == st.(cursor := Wrap32(st.cursor + tries))
    decreases tries
  {
    if tries == 0 {
      return 1;
    }
    var next := st.(cursor := WrappingAdd32(st.cursor, 1));
    if Free(st, c, Candidate(c, next.cursor)) {
      return 1;
    }
    var k' := ProbeTakesFirstFree(next, c, tries - 1);
    k := k' + 1;
    forall j | 1 <= j < k
      ensures !Free(st, c, NthCandidate(st, c, j))
    {
      if j >= 2 {
        NextCandidates(st, c, j - 1);
        assert !Free(next, c, NthCandidate(next, c, j - 1));
      }
    }
    NextCandidates(st, c, k');
    NextCandidates(st, c, tries - 1);
  }

  /** A call hands out the first free candidate among its sixteen, and leaves the cursor
      there; without one it is exhausted and has moved the cursor by sixteen. */
  lemma CallTakesFirstFree(st: State, c: Call) returns (k: nat)
    requires ValidState(st) && st.mapped && c.portMin < c.portMax
    ensures 1 <= k <= 17 && forall j :: 1 <= j < k ==> !Free(st, c, NthCandidate(st, c, j))
    ensures var (after, o) := Alloc(st, c);
            if k <= 16 then
              && Free(st, c, NthCandidate(st, c, k)) && o == Allocated(NthCandidate(st, c, k))
              && after.cursor == Wrap32(st.cursor + k)
            else
              o == Exhausted && after == st.(cursor := Wrap32(st.cursor + 16))
  {
    k := ProbeTakesFirstFree(st, c, PROBES);
  }

  /** A handed-out port is in range, has no `NAT` entry and was not cooling. */
  lemma {:induction false} ProbeGivesFreePort(st: State, c: Call, tries: nat)
    requires ValidState(st) && c.portMin <= c.portMax
    ensures var (after, o) := Probe(st, c, tries);
            if o.Allocated? then
              && c.portMin <= o.port <= c.portMax && Free(st, c, o.port)
              && after.ring == Push(st, o.port).ring
            else
              o == Exhausted && after == st.(cursor := after.cursor)
    decreases tries
  {
    if tries > 0 {
      var next := st.(cursor := WrappingAdd32(st.cursor, 1));
      ProbeGivesFreePort(next, c, tries - 1);
    }
  }

  lemma AllocGivesFreePort(st: State, c: Call)
    requires ValidState(st)
    ensures var (after, o) := Alloc(st, c);
            if o.Allocated? then
              && c.portMin <= o.port <= c.portMax && Free(st, c, o.port)
              && after.ring == Push(st, o.port).ring
            else
              after.ring == st.ring
  {
    if c.portMin < c.portMax && st.mapped {
      ProbeGivesFreePort(st, c, PROBES);
    }
  }

  // ---------- sequences of calls: distinct ports ----------

  /** The ports handed out by a sequence of calls, in order. */
  function Handed(st: State, calls: seq<Call>): seq<u16>
    requires ValidState(st)
    decreases |calls|
  {
    if calls == [] then []
    else
      var (after, o) := Alloc(st, calls[0]);
      (if o.Allocated? then [o.port] else []) + Handed(after, calls[1..])
  }

  /** Pushes left before the slot is overwritten. */
  function PushesLeft(idx: u32, slot: nat): nat
    requires slot < COOLDOWN_SIZE
  {
    var at := idx % COOLDOWN_SIZE;
    if at <= slot then slot - at else slot + COOLDOWN_SIZE - at
  }

  /** 64 divides 2^32, so the wrap of the index does not disturb the order of the slots. */
  lemma NextSlot(idx: u32)
    ensures Wrap32(idx + 1) % COOLDOWN_SIZE ==
            if idx % COOLDOWN_SIZE == COOLDOWN_SIZE - 1 then 0 else idx % COOLDOWN_SIZE + 1
  {
  }

  lemma PushesLeftStep(idx: u32, slot: nat)
    requires slot < COOLDOWN_SIZE
    ensures PushesLeft(idx, slot) == 0 <==> slot == idx % COOLDOWN_SIZE
    ensures PushesLeft(idx, slot) > 0 ==> PushesLeft(Wrap32(idx + 1), slot) == PushesLeft(idx, slot) - 1
    ensures PushesLeft(Wrap32(idx + 1), idx % COOLDOWN_SIZE) == COOLDOWN_SIZE - 1
  {
    NextSlot(idx);
  }

  /** What the first call of a sequence does to the ring and to the ports handed out. */
  lemma FirstCall(st: State, calls: seq<Call>) returns (after: State, o: Outcome)
    requires ValidState(st) && st.ring.Some? && calls != []
    ensures ValidState(after) && after.ring.Some?
    ensures Handed(st, calls) == (if o.Allocated? then [o.port] else []) + Handed(after, calls[1..])
    ensures o.Allocated? ==> o.port !in st.ring.value.ports && after.ring.value == PushRing(st.ring.value, o.port)
    ensures !o.Allocated? ==> after.ring == st.ring
    ensures o == Alloc(st, calls[0]).1
  {
    AllocGivesFreePort(st, calls[0]);
    after, o := Alloc(st, calls[0]).0, Alloc(st, calls[0]).1;
  }

  lemma {:induction false} HeldPortNotHanded(st: State, calls: seq<Call>, slot: nat, n: nat)
    requires ValidState(st) && st.ring.Some? && slot < COOLDOWN_SIZE
    requires n <= PushesLeft(st.ring.value.idx, slot) && n < |Handed(st, calls)|
    ensures Handed(st, calls)[n] != st.ring.value.ports[slot]
    decreases |calls|
  {
    var r := st.ring.value;
    var after, o := FirstCall(st, calls);
    PushesLeftStep(r.idx, slot);
    if o.Allocated? {
      assert r.ports[slot] in r.ports;
      if n > 0 {
        HeldPortNotHanded(after, calls[1..], slot, n - 1);
      }
    } else {
      HeldPortNotHanded(after, calls[1..], slot, n);
    }
  }

  lemma FirstPortNotRepeated(st: State, calls: seq<Call>, j: nat)
    requires ValidState(st) && st.ring.Some?
    requires calls != [] && Alloc(st, calls[0]).1.Allocated?
    requires 1 <= j <= 64 && j < |Handed(st, calls)|
    ensures Handed(st, calls)[0] != Handed(st, calls)[j]
  {
    var after, o := FirstCall(st, calls);
    var slot := st.ring.value.idx % COOLDOWN_SIZE;
    PushesLeftStep(st.ring.value.idx, slot);
    HeldPortNotHanded(after, calls[1..], slot, j - 1);
  }

  /** Any 65 consecutive ports handed out on one CPU are pairwise distinct, for every
      starting ring, every range and every `NAT` content from call to call. */
  lemma {:induction false} WindowOf65Distinct(st: State, calls: seq<Call>, i: nat, j: nat)
    requires ValidState(st) && st.ring.Some?
    requires i < j < |Handed(st, calls)| && j - i <= 64
    ensures Handed(st, calls)[i] != Handed(st, calls)[j]
    decreases |calls|
  {
    var after, o := FirstCall(st, calls);
    if !o.Allocated? {
      WindowOf65Distinct(after, calls[1..], i, j);
    } else if i > 0 {
      WindowOf65Distinct(after, calls[1..], i - 1, j - 1);
    } else {
      FirstPortNotRepeated(st, calls, j);
    }
  }

  lemma {:induction false} HandedInRange(st: State, calls: seq<Call>, lo: u16, hi: u16)
    requires ValidState(st)
    requires forall c :: c in calls ==> c.portMin == lo && c.portMax == hi
    ensures forall p :: p in Handed(st, calls) ==> lo <= p <= hi
    decreases |calls|
  {
    if calls != [] {
      AllocGivesFreePort(st, calls[0]);
      HandedInRange(Alloc(st, calls[0]).0, calls[1..], lo, hi);
    }
  }

  function Elements(s: seq<u16>): set<int> {
    set p: u16 | p in s
  }

  lemma {:induction false} DistinctCount(s: seq<u16>)
    requires forall i, j :: 0 <= i < j < |s| ==> s[i] != s[j]
    ensures |Elements(s)| == |s|
  {
    if |s| > 0 {
      var n := |s| - 1;
      DistinctCount(s[..n]);
      assert Elements(s) == Elements(s[..n]) + {s[n]};
    }
  }

  function RangeSet(lo: int, n: nat): (r: set<int>)
    ensures |r| == n && forall p :: p in r <==> lo <= p < lo + n
  {
    if n == 0 then {} else RangeSet(lo, n - 1) + {lo + n - 1}
  }

  lemma SubsetCount(a: set<int>, b: set<int>)
    requires a <= b
    ensures |a| <= |b|
  {
    assert b == a + (b - a);
  }

  /** Pairwise distinct ports fit in their range. */
  lemma DistinctFit(s: seq<u16>, lo: u16, hi: u16)
    requires forall i, j :: 0 <= i < j < |s| ==> s[i] != s[j]
    requires lo <= hi && forall i :: 0 <= i < |s| ==> lo <= s[i] <= hi
    ensures |s| <= hi - lo + 1
  {
    DistinctCount(s);
    SubsetCount(Elements(s), RangeSet(lo, hi - lo + 1));
  }

  /** With a span of at most 64 one CPU hands out at most `span` ports in its whole
      life, whatever sessions expire: no later push can displace a port. */
  lemma {:induction false} SmallRangeBound(st: State, calls: seq<Call>, lo: u16, hi: u16)
    requires ValidState(st) && st.ring.Some?
    requires lo <= hi && hi - lo + 1 <= 64
    requires forall c :: c in calls ==> c.portMin == lo && c.portMax == hi
    ensures |Handed(st, calls)| <= hi - lo + 1
  {
    var s, span := Handed(st, calls), hi - lo + 1;
    if |s| > span {
      var w := s[..span + 1];
      HandedInRange(st, calls, lo, hi);
      assert forall i :: 0 <= i < |w| ==> w[i] in s;
      forall i, j | 0 <= i < j < |w| ensures w[i] != w[j] {
        WindowOf65Distinct(st, calls, i, j);
      }
      DistinctFit(w, lo, hi);
      assert false;
    }
  }

  /** Exhaustion is permanent: once every port in range is cooling, no call succeeds again. */
  lemma {:induction false} ExhaustedForever(st: State, calls: seq<Call>, lo: u16, hi: u16)
    requires ValidState(st)
    requires forall p: u16 :: lo <= p <= hi ==> Cooling(st, p)
    requires forall c :: c in calls ==> c.portMin == lo && c.portMax == hi
    ensures Handed(st, calls) == []
    decreases |calls|
  {
    if calls != [] {
      AllocGivesFreePort(st, calls[0]);
      var (after, o) := Alloc(st, calls[0]);
      assert !o.Allocated? && forall p :: Cooling(after, p) <==> Cooling(st, p);
      ExhaustedForever(after, calls[1..], lo, hi);
    }
  }

  // ---------- sequences of calls: coverage ----------

  /** Does one of the next `n` identical calls succeed? */
  predicate SucceedsWithin(st: State, c: Call, n: nat)
    requires ValidState(st)
    decreases n
  {
    n > 0 && var (after, o) := Alloc(st, c); o.Allocated? || SucceedsWithin(after, c, n - 1)
  }

  predicate SomePortFree(st: State, c: Call) {
    exists p: u16 :: c.portMin <= p <= c.portMax && Free(st, c, p)
  }

  lemma {:induction false} ProbeCovers(st: State, c: Call, tries: nat, k: nat)
    requires ValidState(st) && c.portMin <= c.portMax
    requires Probe(st, c, tries).1 == Exhausted
    ensures Probe(st, c, tries).0 == st.(cursor := Wrap32(st.cursor + tries))
    ensures 1 <= k <= tries ==> !Free(st, c, Candidate(c, Wrap32(st.cursor + k)))
    decreases tries
  {
    if tries > 0 {
      var next := st.(cursor := WrappingAdd32(st.cursor, 1));
      WrapTwice(st.cursor, 1, tries - 1);
      if 2 <= k <= tries {
        WrapTwice(st.cursor, 1, k - 1);
        ProbeCovers(next, c, tries - 1, k - 1);
      } else {
        ProbeCovers(next, c, tries - 1, 0);
      }
    }
  }

  lemma FailingCall(st: State, c: Call, k: nat)
    requires ValidState(st) && st.mapped && c.portMin < c.portMax
    requires !Alloc(st, c).1.Allocated?
    ensures Alloc(st, c).0 == st.(cursor := Wrap32(st.cursor + PROBES))
    ensures 1 <= k <= PROBES ==> !Free(st, c, Candidate(c, Wrap32(st.cursor + k)))
  {
    ProbeGivesFreePort(st, c, PROBES);
    ProbeCovers(st, c, PROBES, k);
  }

  /** Failing calls probe consecutive cursor values and leave the ring alone. */
  lemma {:induction false} FailingCallsCover(st: State, c: Call, n: nat, k: nat, probed: u32)
    requires ValidState(st) && st.mapped && c.portMin < c.portMax
    requires !SucceedsWithin(st, c, n)
    requires 1 <= k <= PROBES * n && probed == Wrap32(st.cursor + k)
    ensures !Free(st, c, Candidate(c, probed))
    decreases n
  {
    FailingCall(st, c, k);
    if k > PROBES {
      var after := Alloc(st, c).0;
      WrapTwice(st.cursor, PROBES, k - PROBES);
      FailingCallsCover(after, c, n - 1, k - PROBES, probed);
      SameRingSameFree(st, after, c, Candidate(c, probed));
    }
  }

  lemma SameRingSameFree(st: State, after: State, c: Call, port: u16)
    requires after.ring == st.ring
    ensures Free(after, c, port) <==> Free(st, c, port)
  {
  }

  /** Every port in range is a candidate within 2 * span - 1 steps of the cursor, and
      within `span` steps when the cursor does not wrap on the way. */
  lemma CursorReaches(c: Call, cursor: u32, port: u16) returns (k: nat)
    requires c.portMin <= port <= c.portMax
    ensures 1 <= k <= 2 * Span(c) - 1
    ensures cursor + Span(c) < 0x1_0000_0000 ==> k <= Span(c)
    ensures Candidate(c, Wrap32(cursor + k)) == port
  {
    var span, r := Span(c), port - c.portMin;
    if cursor + span < 0x1_0000_0000 {
      k := 1 + (r - (cursor + 1)) % span;
      ResidueReached(cursor + 1, r, span);
    } else {
      k := 0x1_0000_0000 - cursor + r;
      SmallResidue(r, span);
    }
  }

  lemma SmallResidue(r: nat, span: nat)
    requires r < span
    ensures r % span == r
  {
  }

  lemma ResidueReached(x: nat, r: nat, span: nat)
    requires r < span
    ensures (x + (r - x) % span) % span == r
  {
    var y := (r - x) % span;
    var q := (r - x) / span;
    assert r - x == q * span + y;
    RemainderIs(x + y, -q, r, span);
  }

  function CeilDiv(a: nat, b: nat): nat
    requires b > 0
  {
    (a + b - 1) / b
  }

  lemma CoverageWithin(st: State, c: Call, n: nat)
    requires ValidState(st) && st.mapped && c.portMin < c.portMax
    requires PROBES * n >= 2 * Span(c) - 1 || (st.cursor + Span(c) < 0x1_0000_0000 && PROBES * n >= Span(c))
    ensures SucceedsWithin(st, c, n) <==> SomePortFree(st, c)
  {
    if !SomePortFree(st, c) {
      NoFreePortNoSuccess(st, c, n);
    } else if !SucceedsWithin(st, c, n) {
      var p: u16 :| c.portMin <= p <= c.portMax && Free(st, c, p);
      var k := CursorReaches(c, st.cursor, p);
      FailingCallsCover(st, c, n, k, Wrap32(st.cursor + k));
      assert false;
    }
  }

  /** Coverage: with `NAT` unchanged, one of the next ceil((2*span-1)/16) calls succeeds
      exactly when some port in range is free, whatever the cursor; ceil(span/16) calls
      are enough when the cursor does not wrap. */
  lemma AllocatorCoverage(st: State, c: Call)
    requires ValidState(st) && st.mapped && c.portMin < c.portMax
    ensures SucceedsWithin(st, c, CeilDiv(2 * Span(c) - 1, 16)) <==> SomePortFree(st, c)
    ensures st.cursor + Span(c) < 0x1_0000_0000 ==>
              (SucceedsWithin(st, c, CeilDiv(Span(c), 16)) <==> SomePortFree(st, c))
  {
    CoverageWithin(st, c, CeilDiv(2 * Span(c) - 1, PROBES));
    if st.cursor + Span(c) < 0x1_0000_0000 {
      CoverageWithin(st, c, CeilDiv(Span(c), PROBES));
    }
  }

  lemma {:induction false} NoFreePortNoSuccess(st: State, c: Call, n: nat)
    requires ValidState(st) && !SomePortFree(st, c)
    ensures !SucceedsWithin(st, c, n)
    decreases n
  {
    AllocGivesFreePort(st, c);
    if n > 0 {
      assert forall p :: Free(Alloc(st, c).0, c, p) <==> Free(st, c, p);
      NoFreePortNoSuccess(Alloc(st, c).0, c, n - 1);
    }
  }

  /** A call that is refused changes nothing, and so is refused again. */
  lemma {:induction false} RefusedForever(st: State, c: Call, n: nat)
    requires ValidState(st) && (c.portMin >= c.portMax || !st.mapped)
    ensures Alloc(st, c) == (st, Refused) && !SucceedsWithin(st, c, n)
    decreases n
  {
    if n > 0 {
      RefusedForever(st, c, n - 1);
    }
  }

  /** For every range that a policy may configure, with the cursor map present: some call of
      the next ceil((2*span-1)/16) succeeds exactly when the range has two ports or more and
      one of them is free. A one-port range is configured but never yields its port. */
  lemma AcceptedRangeCoverage(p: Policy, st: State, c: Call)
    requires Validate(p) == Accepted && c.portMin == p.portMin && c.portMax == p.portMax
    requires ValidState(st) && st.mapped
    ensures SucceedsWithin(st, c, CeilDiv(2 * Span(c) - 1, 16)) <==> p.portMin < p.portMax && SomePortFree(st, c)
  {
    if p.portMin < p.portMax {
      AllocatorCoverage(st, c);
    } else {
      RefusedForever(st, c, CeilDiv(2 * Span(c) - 1, PROBES));
    }
  }

  /** Whatever a one-port range is called with, and however often, nothing is handed out. */
  lemma OnePortRangeNeverAllocates(st: State, c: Call, n: nat)
    requires ValidState(st) && c.portMin == c.portMax
    ensures Alloc(st, c) == (st, Refused) && !SucceedsWithin(st, c, n)
  {
    RefusedForever(st, c, n);
  }
}
