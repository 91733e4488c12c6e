/** The two NAT tables and what each kind of step does to them: a forward packet,
    a reverse packet and the session timer callback. */
module NatTables {
  import opened Words
  import opened Abi
  import opened PortAllocator

  const EXPIRY_CONFIRMATION_NS: nat := 10_000_000
  const NS_PER_SECOND: nat := 1_000_000_000

  /** A forward mapping with its timer; `deadline` is the pending expiry of the timer. */
  datatype FwdVal = FwdVal(extV4: u32, extPort: u16, lastSeen: nat, generation: u32,
                           observed: nat, deadline: Option<nat>)

  datatype Tables = Tables(fwd: map<FwdKey, FwdVal>, nat_: map<NatKey, NatVal>)

  datatype Mapping = Mapping(extV4: u32, extPort: u16, generation: u32)

  function TimeoutNs(secs: u32): nat {
    secs * NS_PER_SECOND
  }

  /** `bpf_timer_start`: a zero delay is raised to one nanosecond. */
  function Rearm(now: nat, delay: nat): Option<nat> {
    Some(now + if delay == 0 then 1 else delay)
  }

  function Max(a: nat, b: nat): nat {
    if a < b then b else a
  }

  /** The external tuple of a forward entry, and the five-tuple of a reverse entry. */
  function ExtKey(k: FwdKey, v: FwdVal): NatKey {
    NatKey(v.extV4, v.extPort, k.proto)
  }

  function ClientKey(n: NatKey, v: NatVal): FwdKey {
    FwdKey(v.vmV6, v.remoteV4, v.vmPort, v.remotePort, n.proto)
  }

  // ---------- forward packets ----------

  datatype Faults = Faults(fwdInsert: bool, arm: bool)

  const NO_FAULTS := Faults(false, false)

  /** `lookup_or_create_mapping`, given what the allocator answered. */
  function LookupOrCreate(t: Tables, key: FwdKey, selected: u32, o: Outcome, gen: u32, now: nat, timeout: nat,
                          faults: Faults): (Tables, Option<Mapping>)
  {
    if key in t.fwd then
      var v := t.fwd[key];
      (t.(fwd := t.fwd[key := v.(lastSeen := now, observed := 0)]), Some(Mapping(v.extV4, v.extPort, v.generation)))
    else if !o.Allocated? || faults.fwdInsert || (timeout != 0 && faults.arm) then
      (t, None)
    else
      var deadline := if timeout == 0 then None else Rearm(now, timeout);
      (t.(fwd := t.fwd[key := FwdVal(selected, o.port, now, gen, 0, deadline)]), Some(Mapping(selected, o.port, gen)))
  }

  function InsertNat(t: Tables, key: FwdKey, m: Mapping, now: nat): Tables {
    t.(nat_ := t.nat_[NatKey(m.extV4, m.extPort, key.proto) :=
                      NatVal(key.vmV6, key.vmPort, key.remoteV4, key.remotePort, m.generation, now)])
  }

  /** A whole forward packet. `complete` says that the rewrite reached the `NAT` insertion. */
  function Forward(t: Tables, key: FwdKey, selected: u32, o: Outcome, gen: u32, now: nat, timeout: nat,
                   faults: Faults, complete: bool): Tables
  {
    var (mapped, m) := LookupOrCreate(t, key, selected, o, gen, now, timeout, faults);
    if m.Some? && complete then InsertNat(mapped, key, m.value, now) else mapped
  }

  // ---------- reverse packets ----------

  predicate Validated(t: Tables, n: NatKey, src: u32, srcPort: u16) {
    n in t.nat_ && NatTupleMatches(t.nat_[n], src, srcPort)
  }

  function Reverse(t: Tables, n: NatKey, src: u32, srcPort: u16, now: nat): Tables {
    if Validated(t, n, src, srcPort) then t.(nat_ := t.nat_[n := t.nat_[n].(lastSeen := now)]) else t
  }

  // ---------- the timer callback ----------

  /** The time of the last validated packet of either direction. */
  function Latest(t: Tables, key: FwdKey): nat
    requires key in t.fwd
  {
    var v := t.fwd[key];
    var n := ExtKey(key, v);
    Max(v.lastSeen, if n in t.nat_ && t.nat_[n].generation == v.generation then t.nat_[n].lastSeen else 0)
  }

  function SetTimer(t: Tables, key: FwdKey, observed: nat, deadline: Option<nat>): Tables
    requires key in t.fwd
  {
    t.(fwd := t.fwd[key := t.fwd[key].(observed := observed, deadline := deadline)])
  }

  /** The first half of the callback: everything up to the confirmed branch, which
      hands over the confirmed activity time. */
  function TimerFirst(t: Tables, key: FwdKey, now: nat, timeout: nat): (Tables, Option<nat>)
    requires key in t.fwd
  {
    var latest := Latest(t, key);
    var elapsed := SaturatingSub(now, latest);
    if timeout == 0 then
      (t, None)
    else if elapsed < timeout then
      (SetTimer(t, key, 0, Rearm(now, timeout - elapsed)), None)
    else if t.fwd[key].observed != latest then
      (SetTimer(t, key, latest, Rearm(now, EXPIRY_CONFIRMATION_NS)), None)
    else
      (t, Some(latest))
  }

  /** The second half: read again, and remove only what was confirmed. */
  function TimerFinish(t: Tables, key: FwdKey, latest: nat, now: nat, timeout: nat): Tables
    requires key in t.fwd
  {
    var v := t.fwd[key];
    var n := ExtKey(key, v);
    var final := Latest(t, key);
    if final != latest || SaturatingSub(now, final) < timeout then
      SetTimer(t, key, 0, Rearm(now, SaturatingSub(timeout, SaturatingSub(now, final))))
    else
      Tables(t.fwd - {key}, if n in t.nat_ && t.nat_[n].generation == v.generation then t.nat_ - {n} else t.nat_)
  }

  function Timer(t: Tables, key: FwdKey, now: nat, timeout: nat): Tables
    requires key in t.fwd
  {
    var (first, confirmed) := TimerFirst(t, key, now, timeout);
    match confirmed
    case None => first
    case Some(latest) => TimerFinish(first, key, latest, now, timeout)
  }

  // ---------- what each step writes ----------

  /** Both directions count as activity; a reverse entry counts only if it has the
      generation of the mapping. */
  lemma ActivityIsLatestOfBoth(t: Tables, key: FwdKey)
    requires key in t.fwd
    ensures var v := t.fwd[key];
            var n := NatKey(v.extV4, v.extPort, key.proto);
            if n in t.nat_ && t.nat_[n].generation == v.generation then
              && v.lastSeen <= Latest(t, key) && t.nat_[n].lastSeen <= Latest(t, key)
              && Latest(t, key) in {v.lastSeen, t.nat_[n].lastSeen}
            else
              Latest(t, key) == v.lastSeen
  {
  }

  /** A request for a mapped flow only notes the time and clears the pending confirmation; a
      granted new one writes the selected address, the port found, the generation drawn, and
      a deadline one timeout away, or none when expiry is disabled. */
  lemma RequestWrites(t: Tables, key: FwdKey, selected: u32, o: Outcome, gen: u32, now: nat, secs: u32, faults: Faults)
    ensures var (after, m) := LookupOrCreate(t, key, selected, o, gen, now, TimeoutNs(secs), faults);
            if key in t.fwd then
              && after.fwd == t.fwd[key := t.fwd[key].(lastSeen := now, observed := 0)]
              && m == Some(Mapping(t.fwd[key].extV4, t.fwd[key].extPort, t.fwd[key].generation))
            else if o.Allocated? && !faults.fwdInsert && (secs == 0 || !faults.arm) then
              && after.fwd == t.fwd[key := FwdVal(selected, o.port, now, gen, 0,
                                                  if secs == 0 then None else Some(now + 1_000_000_000 * secs))]
              && m == Some(Mapping(selected, o.port, gen))
            else
              after == t && m == None
  {
  }

  /** A completed packet writes its reverse entry, and no other. */
  lemma CompletionWrites(t: Tables, key: FwdKey, m: Mapping, now: nat)
    ensures var after, n := InsertNat(t, key, m, now), NatKey(m.extV4, m.extPort, key.proto);
            && after.fwd == t.fwd && after.nat_ - {n} == t.nat_ - {n} && n in after.nat_
            && ClientKey(n, after.nat_[n]) == key && after.nat_[n].vmPort == key.vmPort
            && after.nat_[n].generation == m.generation && after.nat_[n].lastSeen == now
  {
  }

  /** An accepted reply notes the time in its entry and changes nothing else; any other
      packet changes nothing. Accepted means: from the recorded address and port. */
  lemma ReplyWrites(t: Tables, n: NatKey, src: u32, srcPort: u16, now: nat)
    ensures var after := Reverse(t, n, src, srcPort, now);
            if n in t.nat_ && t.nat_[n].remoteV4 == src && t.nat_[n].remotePort == srcPort then
              after.fwd == t.fwd && after.nat_ == t.nat_[n := t.nat_[n].(lastSeen := now)]
            else
              after == t
  {
  }

  /** The first half of the callback, in terms of the activity time L: still active, wait for
      L + timeout (a whole timeout if L is ahead of the clock); newly idle, wait 10 ms for
      confirmation; confirmed idle, hand L to the second half. */
  lemma FirstHalfDecides(t: Tables, key: FwdKey, now: nat, timeout: nat)
    requires key in t.fwd && timeout > 0
    ensures var L := Latest(t, key);
            var (after, confirmed) := TimerFirst(t, key, now, timeout);
            && after.nat_ == t.nat_ && key in after.fwd && after.fwd - {key} == t.fwd - {key}
            && var v, v' := t.fwd[key], after.fwd[key];
            && v' == v.(observed := v'.observed, deadline := v'.deadline)
            && if L + timeout > now then
                 && confirmed == None && v'.observed == 0
                 && v'.deadline == Some(if L <= now then L + timeout else now + timeout)
               else if v.observed != L then
                 confirmed == None && v'.observed == L && v'.deadline == Some(now + 10_000_000)
               else
                 confirmed == Some(L) && v' == v
  {
    assert (t.fwd[key := TimerFirst(t, key, now, timeout).0.fwd[key]]) - {key} == t.fwd - {key};
  }

  /** The second half reads the activity time again: it removes the session exactly when that
      is still the confirmed time and a timeout has passed since, and with it the reverse
      entry of the same generation, no other. Otherwise the session stays, its confirmation
      is void, and its timer waits for L + timeout, at least a nanosecond. */
  lemma SecondHalfDecides(t: Tables, key: FwdKey, latest: nat, now: nat, timeout: nat)
    requires key in t.fwd && timeout > 0
    ensures var L, after := Latest(t, key), TimerFinish(t, key, latest, now, timeout);
            var v, n := t.fwd[key], ExtKey(key, t.fwd[key]);
            && after.fwd - {key} == t.fwd - {key}
            && if L == latest && L + timeout <= now then
                 && key !in after.fwd
                 && (n in t.nat_ && t.nat_[n].generation == v.generation ==> after.nat_ == t.nat_ - {n})
                 && (n !in t.nat_ || t.nat_[n].generation != v.generation ==> after.nat_ == t.nat_)
               else
                 && key in after.fwd && after.nat_ == t.nat_
                 && after.fwd[key] == v.(observed := 0,
                                         deadline := Some(if L > now then now + timeout
                                                          else if L + timeout > now then L + timeout else now + 1))
  {
    var after := TimerFinish(t, key, latest, now, timeout);
    assert key in after.fwd ==> t.fwd[key := after.fwd[key]] - {key} == t.fwd - {key};
  }

  /** With expiry disabled the callback does nothing. */
  lemma DisabledTimerDoesNothing(t: Tables, key: FwdKey, now: nat)
    requires key in t.fwd
    ensures Timer(t, key, now, TimeoutNs(0)) == t
  {
  }

  // ---------- the tables agree ----------

  /** Each table is the inverse of the other: the same flows, external tuples and generations. */
  predicate Inverse(t: Tables) {
    && (forall k :: k in t.fwd ==>
          var n := ExtKey(k, t.fwd[k]);
          n in t.nat_ && ClientKey(n, t.nat_[n]) == k && t.nat_[n].generation == t.fwd[k].generation)
    && (forall n :: n in t.nat_ ==>
          var k := ClientKey(n, t.nat_[n]);
          k in t.fwd && ExtKey(k, t.fwd[k]) == n)
  }

  /** No two live flows of one protocol share an external address and port. */
  lemma NoSharedTuple(t: Tables, k1: FwdKey, k2: FwdKey)
    requires Inverse(t) && k1 in t.fwd && k2 in t.fwd && k1 != k2
    ensures ExtKey(k1, t.fwd[k1]) != ExtKey(k2, t.fwd[k2])
  {
  }

  /** The allocator's collision check: a new port has no `NAT` entry. */
  predicate CollisionChecked(t: Tables, key: FwdKey, selected: u32, o: Outcome) {
    o.Allocated? ==> NatKey(selected, o.port, key.proto) !in t.nat_
  }

  lemma RefreshKeepsInverse(t: Tables, key: FwdKey, now: nat, complete: bool)
    requires Inverse(t) && key in t.fwd
    ensures Inverse(Forward(t, key, 0, Refused, 0, now, 0, NO_FAULTS, complete))
  {
    var after := Forward(t, key, 0, Refused, 0, now, 0, NO_FAULTS, complete);
    forall k | k in after.fwd
      ensures k in t.fwd && ExtKey(k, after.fwd[k]) == ExtKey(k, t.fwd[k])
    {
    }
  }

  lemma CreationAndInverse(t: Tables, key: FwdKey, v: FwdVal, now: nat, complete: bool)
    requires Inverse(t) && key !in t.fwd && ExtKey(key, v) !in t.nat_
    ensures var mapped := t.(fwd := t.fwd[key := v]);
            var after := if complete then InsertNat(mapped, key, Mapping(v.extV4, v.extPort, v.generation),
                                                    now) else mapped;
            Inverse(after) <==> complete
  {
    var mapped := t.(fwd := t.fwd[key := v]);
    var n := ExtKey(key, v);
    assert !complete ==> ExtKey(key, mapped.fwd[key]) !in mapped.nat_;
    if complete {
      var after := InsertNat(mapped, key, Mapping(v.extV4, v.extPort, v.generation), now);
      assert ClientKey(n, after.nat_[n]) == key;
      forall n' | n' in after.nat_ && n' != n
        ensures var k := ClientKey(n', after.nat_[n']); k in after.fwd && ExtKey(k, after.fwd[k]) == n'
      {
        assert ClientKey(n', t.nat_[n']) in t.fwd;
      }
    }
  }

  /** A forward packet keeps the tables inverse exactly when it does not create a
      mapping and then stop before inserting into `NAT`. */
  lemma ForwardKeepsInverse(t: Tables, key: FwdKey, selected: u32, o: Outcome, gen: u32, now: nat, timeout: nat,
                            faults: Faults, complete: bool)
    requires Inverse(t) && CollisionChecked(t, key, selected, o)
    ensures var created := key !in t.fwd && LookupOrCreate(t, key, selected, o, gen, now, timeout, faults).1.Some?;
            Inverse(Forward(t, key, selected, o, gen, now, timeout, faults, complete)) <==> (created ==> complete)
  {
    var (mapped, m) := LookupOrCreate(t, key, selected, o, gen, now, timeout, faults);
    if key in t.fwd {
      RefreshKeepsInverse(t, key, now, complete);
    } else if m.Some? {
      CreationAndInverse(t, key, mapped.fwd[key], now, complete);
    }
  }

  lemma ReverseKeepsInverse(t: Tables, n: NatKey, src: u32, srcPort: u16, now: nat)
    requires Inverse(t)
    ensures Inverse(Reverse(t, n, src, srcPort, now))
  {
  }

  lemma TimerKeepsInverse(t: Tables, key: FwdKey, now: nat, timeout: nat)
    requires Inverse(t) && key in t.fwd
    ensures Inverse(Timer(t, key, now, timeout))
  {
    var after := Timer(t, key, now, timeout);
    var n := ExtKey(key, t.fwd[key]);
    if key !in after.fwd {
      forall k | k in after.fwd
        ensures ExtKey(k, after.fwd[k]) in after.nat_
      {
        NoSharedTuple(t, k, key);
      }
    }
  }

  /** When a mapping request succeeds: the flow has its mapping, or a port was found and
      neither the insertion nor the timer failed. */
  predicate Granted(t: Tables, key: FwdKey, o: Outcome, timeout: nat, faults: Faults) {
    key in t.fwd || (o.Allocated? && !faults.fwdInsert && !(timeout != 0 && faults.arm))
  }

  /** A mapping request fails exactly when it is not granted and then leaves both tables as
      they were; granted, the flow is mapped to what was returned and no other flow changes. */
  lemma NoneChangesNothing(t: Tables, key: FwdKey, selected: u32, o: Outcome, gen: u32, now: nat, timeout: nat,
                           faults: Faults)
    ensures var (after, m) := LookupOrCreate(t, key, selected, o, gen, now, timeout, faults);
            && (m == None <==> !Granted(t, key, o, timeout, faults))
            && (m == None ==> after == t && key !in t.fwd)
            && (m.Some? ==> key in after.fwd
                            && ExtKey(key, after.fwd[key]) == NatKey(m.value.extV4, m.value.extPort, key.proto)
                            && after.fwd - {key} == t.fwd - {key} && after.nat_ == t.nat_)
  {
  }

  /** A mapping once given is given again to every later request, whatever the allocator,
      the clock and the faults are then. */
  lemma MappingIsStable(t: Tables, key: FwdKey, selected: u32, o: Outcome, gen: u32, now: nat, timeout: nat,
                        faults: Faults,
                        selected': u32, o': Outcome, gen': u32, now': nat, timeout': nat, faults': Faults)
    ensures var (after, m) := LookupOrCreate(t, key, selected, o, gen, now, timeout, faults);
            m.Some? ==> LookupOrCreate(after, key, selected', o', gen', now', timeout', faults').1 == m
  {
  }

  // ---------- what holds even when creations are cut short ----------

  /** Every reverse entry belongs to a live flow on that tuple, of the same generation. */
  predicate Backed(t: Tables) {
    forall n :: n in t.nat_ ==>
      var k := ClientKey(n, t.nat_[n]);
      k in t.fwd && ExtKey(k, t.fwd[k]) == n && t.nat_[n].generation == t.fwd[k].generation
  }

  /** The flow's own reverse entry is in place. */
  predicate Served(t: Tables, k: FwdKey)
    requires k in t.fwd
  {
    var n := ExtKey(k, t.fwd[k]);
    n in t.nat_ && ClientKey(n, t.nat_[n]) == k
  }

  lemma InverseIffServed(t: Tables)
    requires Backed(t)
    ensures Inverse(t) <==> forall k :: k in t.fwd ==> Served(t, k)
  {
    if Inverse(t) {
      forall k | k in t.fwd
        ensures Served(t, k)
      {
        assert ExtKey(k, t.fwd[k]) in t.nat_;
      }
    }
    if forall k :: k in t.fwd ==> Served(t, k) {
      forall k | k in t.fwd
        ensures var n := ExtKey(k, t.fwd[k]);
                n in t.nat_ && ClientKey(n, t.nat_[n]) == k && t.nat_[n].generation == t.fwd[k].generation
      {
        assert Served(t, k);
      }
    }
  }

  lemma ForwardKeepsBacked(t: Tables, key: FwdKey, selected: u32, o: Outcome, gen: u32, now: nat, timeout: nat,
                           faults: Faults, complete: bool)
    requires Backed(t)
    ensures Backed(Forward(t, key, selected, o, gen, now, timeout, faults, complete))
  {
    var after := Forward(t, key, selected, o, gen, now, timeout, faults, complete);
    forall n | n in after.nat_
      ensures var k := ClientKey(n, after.nat_[n]);
              k in after.fwd && ExtKey(k, after.fwd[k]) == n && after.nat_[n].generation == after.fwd[k].generation
    {
      if n in t.nat_ && after.nat_[n] == t.nat_[n] {
        assert ClientKey(n, t.nat_[n]) in t.fwd;
      }
    }
  }

  lemma ReverseKeepsBacked(t: Tables, n: NatKey, src: u32, srcPort: u16, now: nat)
    requires Backed(t)
    ensures Backed(Reverse(t, n, src, srcPort, now))
  {
  }

  lemma TimerKeepsBacked(t: Tables, key: FwdKey, now: nat, timeout: nat)
    requires Backed(t) && key in t.fwd
    ensures Backed(Timer(t, key, now, timeout))
  {
    var after := Timer(t, key, now, timeout);
    forall n | n in after.nat_
      ensures var k := ClientKey(n, after.nat_[n]);
              k in after.fwd && ExtKey(k, after.fwd[k]) == n && after.nat_[n].generation == after.fwd[k].generation
    {
      assert ClientKey(n, t.nat_[n]) in t.fwd;
    }
  }
}
