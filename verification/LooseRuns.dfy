/** Loose runs: packets on different CPUs interleave between their steps, any helper may
    fail after the mapping exists, entries may be evicted at any time, and no port is
    known to be free. What still holds is where a reply can have come from. */
module LooseRuns {
  import opened Words
  import opened Checksum
  import opened Abi
  import opened PortAllocator
  import opened NatTables

  /** A packet between two of its steps. */
  datatype Pending =
    | Outbound(key: FwdKey, m: Mapping, rewritten: bool)
    | Inbound(n: NatKey, v: NatVal)

  /** What happened on the wire: a packet of flow `key` was translated to source `n`; a
      reply from `src` to `n` was rewritten towards a client. */
  datatype Entry =
    | SentAs(key: FwdKey, n: NatKey)
    | DeliveredTo(n: NatKey, src: u32, srcPort: u16, vmV6: Addr6, vmPort: u16)

  datatype Sys = Sys(tables: Tables, pending: map<nat, Pending>, history: seq<Entry>)

  datatype Event =
    | Map(id: nat, key: FwdKey, selected: u32, o: Outcome, gen: u32, now: nat, timeout: nat, faults: Faults)
    | Rewrite(id: nat)
    | Insert(id: nat, now: nat)
    | Drop(id: nat)
    | Match(id: nat, n: NatKey, src: u32, srcPort: u16, now: nat)
    | Deliver(id: nat)
    | Touch(n: NatKey, now: nat)
    | EvictFwd(key: FwdKey)
    | EvictNat(n: NatKey)
    | CallbackFirst(key: FwdKey, now: nat, timeout: nat)
    | CallbackFinish(key: FwdKey, latest: nat, now: nat, timeout: nat)

  predicate Enabled(s: Sys, e: Event) {
    match e
    case Map(id, _, _, _, _, _, _, _) => id !in s.pending
    case Rewrite(id) => id in s.pending && s.pending[id].Outbound? && !s.pending[id].rewritten
    case Insert(id, _) => id in s.pending && s.pending[id].Outbound? && s.pending[id].rewritten
    case Drop(id) => id in s.pending
    case Match(id, n, src, srcPort, _) => id !in s.pending && Validated(s.tables, n, src, srcPort)
    case Deliver(id) => id in s.pending && s.pending[id].Inbound?
    case Touch(n, _) => n in s.tables.nat_
    case EvictFwd(_) => true
    case EvictNat(_) => true
    case CallbackFirst(key, _, _) => key in s.tables.fwd
    case CallbackFinish(key, _, _, _) => key in s.tables.fwd
  }

  function ExternalOf(key: FwdKey, m: Mapping): NatKey {
    NatKey(m.extV4, m.extPort, key.proto)
  }

  function Apply(s: Sys, e: Event): Sys
    requires Enabled(s, e)
  {
    match e
    case Map(id, key, selected, o, gen, now, timeout, faults) =>
      var (t, m) := LookupOrCreate(s.tables, key, selected, o, gen, now, timeout, faults);
      Sys(t, if m.Some? then s.pending[id := Outbound(key, m.value, false)] else s.pending, s.history)
    case Rewrite(id) =>
      var p := s.pending[id];
      Sys(s.tables, s.pending[id := p.(rewritten := true)], s.history + [SentAs(p.key, ExternalOf(p.key, p.m))])
    case Insert(id, now) =>
      Sys(InsertNat(s.tables, s.pending[id].key, s.pending[id].m, now), s.pending - {id}, s.history)
    case Drop(id) => s.(pending := s.pending - {id})
    case Match(id, n, src, srcPort, now) =>
      Sys(Reverse(s.tables, n, src, srcPort, now), s.pending[id := Inbound(n, s.tables.nat_[n])], s.history)
    case Deliver(id) =>
      var p := s.pending[id];
      Sys(s.tables, s.pending - {id},
          s.history + [DeliveredTo(p.n, p.v.remoteV4, p.v.remotePort, p.v.vmV6, p.v.vmPort)])
    case Touch(n, now) => s.(tables := s.tables.(nat_ := s.tables.nat_[n := s.tables.nat_[n].(lastSeen := now)]))
    case EvictFwd(key) => s.(tables := s.tables.(fwd := s.tables.fwd - {key}))
    case EvictNat(n) => s.(tables := s.tables.(nat_ := s.tables.nat_ - {n}))
    case CallbackFirst(key, now, timeout) => s.(tables := TimerFirst(s.tables, key, now, timeout).0)
    case CallbackFinish(key, latest, now, timeout) => s.(tables := TimerFinish(s.tables, key, latest, now, timeout))
  }

  const START := Sys(Tables(map[], map[]), map[], [])

  predicate StepAt(states: seq<Sys>, run: seq<Event>, i: nat)
    requires |states| == |run| + 1 && i < |run|
  {
    Enabled(states[i], run[i]) && states[i + 1] == Apply(states[i], run[i])
  }

  predicate IsRun(states: seq<Sys>, run: seq<Event>) {
    && |states| == |run| + 1 && states[0] == START
    && forall i :: 0 <= i < |run| ==> StepAt(states, run, i)
  }

  // ---------- traceability ----------

  predicate NatTraced(s: Sys, n: NatKey)
    requires n in s.tables.nat_
  {
    SentAs(ClientKey(n, s.tables.nat_[n]), n) in s.history
  }

  predicate PendingTraced(p: Pending, history: seq<Entry>) {
    match p
    case Outbound(key, m, rewritten) => rewritten ==> SentAs(key, ExternalOf(key, m)) in history
    case Inbound(n, v) => SentAs(ClientKey(n, v), n) in history
  }

  predicate EntryTraced(history: seq<Entry>, h: nat)
    requires h < |history|
  {
    match history[h]
    case SentAs(_, _) => true
    case DeliveredTo(n, src, srcPort, vmV6, vmPort) =>
      SentAs(FwdKey(vmV6, src, vmPort, srcPort, n.proto), n) in history[..h]
  }

  predicate Traced(s: Sys) {
    && (forall n :: n in s.tables.nat_ ==> NatTraced(s, n))
    && (forall id :: id in s.pending ==> PendingTraced(s.pending[id], s.history))
    && (forall h :: 0 <= h < |s.history| ==> EntryTraced(s.history, h))
  }

  lemma EntriesStayTraced(history: seq<Entry>, last: Entry)
    requires forall h :: 0 <= h < |history| ==> EntryTraced(history, h)
    requires last.SentAs? || EntryTraced(history + [last], |history|)
    ensures forall h :: 0 <= h < |history + [last]| ==> EntryTraced(history + [last], h)
  {
    var longer := history + [last];
    forall h | 0 <= h < |longer|
      ensures EntryTraced(longer, h)
    {
      if h < |history| {
        assert EntryTraced(history, h) && longer[..h] == history[..h];
      }
    }
  }

  lemma StepKeepsTraced(s: Sys, e: Event)
    requires Enabled(s, e) && Traced(s)
    ensures Traced(Apply(s, e))
  {
    var s' := Apply(s, e);
    match e
    case Rewrite(id) =>
      EntriesStayTraced(s.history, SentAs(s.pending[id].key, ExternalOf(s.pending[id].key, s.pending[id].m)));
      TablesCarryOver(s, s');
    case Deliver(id) =>
      var p := s.pending[id];
      assert PendingTraced(p, s.history);
      var last := DeliveredTo(p.n, p.v.remoteV4, p.v.remotePort, p.v.vmV6, p.v.vmPort);
      assert (s.history + [last])[..|s.history|] == s.history;
      EntriesStayTraced(s.history, last);
      TablesCarryOver(s, s');
    case Insert(id, now) =>
      assert PendingTraced(s.pending[id], s.history);
      forall n | n in s'.tables.nat_
        ensures NatTraced(s', n)
      {
        if n != ExternalOf(s.pending[id].key, s.pending[id].m) {
          assert NatTraced(s, n);
        }
      }
    case Match(id, n, src, srcPort, now) =>
      assert NatTraced(s, n);
      TablesCarryOver(s, s');
    case _ =>
      TablesCarryOver(s, s');
  }

  /** Every other step leaves each remaining reverse entry naming the same flow. */
  lemma TablesCarryOver(s: Sys, s': Sys)
    requires forall n :: n in s.tables.nat_ ==> NatTraced(s, n)
    requires forall n :: n in s'.tables.nat_ ==>
                           n in s.tables.nat_ && ClientKey(n, s'.tables.nat_[n]) == ClientKey(n, s.tables.nat_[n])
    requires s.history <= s'.history
    ensures forall n :: n in s'.tables.nat_ ==> NatTraced(s', n)
  {
    forall n | n in s'.tables.nat_
      ensures NatTraced(s', n)
    {
      assert NatTraced(s, n);
    }
  }

  lemma {:induction false} RunTraced(states: seq<Sys>, run: seq<Event>, i: nat)
    requires IsRun(states, run) && i < |states|
    ensures Traced(states[i])
  {
    if i > 0 {
      RunTraced(states, run, i - 1);
      assert StepAt(states, run, i - 1);
      StepKeepsTraced(states[i - 1], run[i - 1]);
    }
  }

  /** Traceability: in every loose run, a packet rewritten towards client c:p from remote
      r:q through external tuple n was preceded by a packet of the same protocol from c:p
      to r:q that was translated to source n. */
  lemma RepliesTraceable(states: seq<Sys>, run: seq<Event>, i: nat, h: nat)
    requires IsRun(states, run) && i < |states| && h < |states[i].history| && states[i].history[h].DeliveredTo?
    ensures var d := states[i].history[h];
            SentAs(FwdKey(d.vmV6, d.src, d.vmPort, d.srcPort, d.n.proto), d.n) in states[i].history[..h]
  {
    RunTraced(states, run, i);
    assert EntryTraced(states[i].history, h);
  }

  // ---------- the second half of a callback ----------

  /** Packets may come between the two halves of a callback. Whatever happened since the
      first, the second removes its session exactly when the activity time is still the one
      confirmed and a timeout old. */
  lemma SecondHalfRemovesIff(states: seq<Sys>, run: seq<Event>, i: nat)
    requires IsRun(states, run) && i < |run| && run[i].CallbackFinish? && run[i].timeout > 0
    ensures run[i].key in states[i].tables.fwd
    ensures var e := run[i];
            e.key !in states[i + 1].tables.fwd <==>
            Latest(states[i].tables, e.key) == e.latest && e.latest + e.timeout <= e.now
  {
    assert StepAt(states, run, i);
    SecondHalfDecides(states[i].tables, run[i].key, run[i].latest, run[i].now, run[i].timeout);
  }

  /** A forward packet of `key` at a time after `latest`. */
  predicate ForwardRefresh(s: Sys, e: Event, key: FwdKey, latest: nat) {
    e.Map? && e.key == key && key in s.tables.fwd && e.now > latest
  }

  /** Steps that can take such a refresh back: the flow's own entry evicted or removed, or a
      packet of the flow with an older clock. */
  predicate UndoesForward(e: Event, key: FwdKey, latest: nat) {
    match e
    case EvictFwd(k) => k == key
    case CallbackFinish(k, _, _, _) => k == key
    case Map(_, k, _, _, _, _, _, _) => k == key && e.now <= latest
    case _ => false
  }

  /** A reply to `key`'s tuple, of its generation, at a time after `latest`. */
  predicate ReplyRefresh(s: Sys, e: Event, key: FwdKey, latest: nat) {
    && key in s.tables.fwd && (e.Match? || e.Touch?) && e.n == ExtKey(key, s.tables.fwd[key]) && e.now > latest
    && e.n in s.tables.nat_ && s.tables.nat_[e.n].generation == s.tables.fwd[key].generation
  }

  /** Steps that can take that one back: either entry evicted, removed or overwritten, or a
      packet on the tuple with an older clock. */
  predicate UndoesReply(s: Sys, e: Event, key: FwdKey, n: NatKey, latest: nat) {
    match e
    case EvictFwd(k) => k == key
    case EvictNat(m) => m == n
    case CallbackFinish(k, _, _, _) => k == key || (k in s.tables.fwd && ExtKey(k, s.tables.fwd[k]) == n)
    case Insert(id, _) =>
      id in s.pending && s.pending[id].Outbound? && ExternalOf(s.pending[id].key, s.pending[id].m) == n
    case Match(_, m, _, _, now) => m == n && now <= latest
    case Touch(m, now) => m == n && now <= latest
    case _ => false
  }

  predicate ForwardRecent(s: Sys, key: FwdKey, latest: nat) {
    key in s.tables.fwd && s.tables.fwd[key].lastSeen > latest
  }

  predicate ReplyRecent(s: Sys, key: FwdKey, n: NatKey, latest: nat) {
    && key in s.tables.fwd && ExtKey(key, s.tables.fwd[key]) == n && n in s.tables.nat_
    && s.tables.nat_[n].generation == s.tables.fwd[key].generation && s.tables.nat_[n].lastSeen > latest
  }

  lemma ForwardStaysRecent(s: Sys, e: Event, key: FwdKey, latest: nat)
    requires Enabled(s, e) && !UndoesForward(e, key, latest)
    requires ForwardRecent(s, key, latest) || ForwardRefresh(s, e, key, latest)
    ensures ForwardRecent(Apply(s, e), key, latest)
  {
  }

  lemma ReplyStaysRecent(s: Sys, e: Event, key: FwdKey, n: NatKey, latest: nat)
    requires Enabled(s, e) && !UndoesReply(s, e, key, n, latest)
    requires ReplyRecent(s, key, n, latest)
             || (ReplyRefresh(s, e, key, latest) && ExtKey(key, s.tables.fwd[key]) == n)
    ensures ReplyRecent(Apply(s, e), key, n, latest)
  {
  }

  predicate ForwardKeptAt(run: seq<Event>, key: FwdKey, latest: nat, j: nat)
    requires j < |run|
  {
    !UndoesForward(run[j], key, latest)
  }

  predicate ReplyKeptAt(states: seq<Sys>, run: seq<Event>, key: FwdKey, n: NatKey, latest: nat, j: nat)
    requires |states| == |run| + 1 && j < |run|
  {
    !UndoesReply(states[j], run[j], key, n, latest)
  }

  lemma {:induction false} ForwardRecentUntil(states: seq<Sys>, run: seq<Event>, key: FwdKey, latest: nat,
                                              j: nat, i: nat)
    requires IsRun(states, run) && j < i < |states| && ForwardRefresh(states[j], run[j], key, latest)
    requires forall m :: j <= m < i ==> ForwardKeptAt(run, key, latest, m)
    ensures ForwardRecent(states[i], key, latest)
  {
    if j + 1 < i {
      ForwardRecentUntil(states, run, key, latest, j, i - 1);
    }
    assert StepAt(states, run, i - 1) && ForwardKeptAt(run, key, latest, i - 1);
    ForwardStaysRecent(states[i - 1], run[i - 1], key, latest);
  }

  lemma {:induction false} ReplyRecentUntil(states: seq<Sys>, run: seq<Event>, key: FwdKey, n: NatKey, latest: nat,
                                            j: nat, i: nat)
    requires IsRun(states, run) && j < i < |states| && ReplyRefresh(states[j], run[j], key, latest)
    requires n == ExtKey(key, states[j].tables.fwd[key])
    requires forall m :: j <= m < i ==> ReplyKeptAt(states, run, key, n, latest, m)
    ensures ReplyRecent(states[i], key, n, latest)
  {
    if j + 1 < i {
      ReplyRecentUntil(states, run, key, n, latest, j, i - 1);
    }
    assert StepAt(states, run, i - 1) && ReplyKeptAt(states, run, key, n, latest, i - 1);
    ReplyStaysRecent(states[i - 1], run[i - 1], key, n, latest);
  }

  /** A second half never removes a session that a packet of either direction refreshed
      since the first half confirmed `latest`, as long as nothing took the refresh back. */
  lemma SecondHalfSparesRefreshed(states: seq<Sys>, run: seq<Event>, j: nat, i: nat)
    requires IsRun(states, run) && j < i < |run| && run[i].CallbackFinish? && run[i].timeout > 0
    requires var key, latest := run[i].key, run[i].latest;
             || (ForwardRefresh(states[j], run[j], key, latest)
                 && forall m :: j <= m < i ==> ForwardKeptAt(run, key, latest, m))
             || (ReplyRefresh(states[j], run[j], key, latest)
                 && forall m :: j <= m < i ==>
                      ReplyKeptAt(states, run, key, ExtKey(key, states[j].tables.fwd[key]), latest, m))
    ensures run[i].key in states[i + 1].tables.fwd
  {
    var key, latest := run[i].key, run[i].latest;
    if ForwardRefresh(states[j], run[j], key, latest)
       && forall m :: j <= m < i ==> ForwardKeptAt(run, key, latest, m) {
      ForwardRecentUntil(states, run, key, latest, j, i);
    } else {
      ReplyRecentUntil(states, run, key, ExtKey(key, states[j].tables.fwd[key]), latest, j, i);
    }
    ActivityIsLatestOfBoth(states[i].tables, key);
    SecondHalfRemovesIff(states, run, i);
  }

  // ---------- the atomic packets are such steps ----------

  /** A whole forward packet is the three steps of its life run without a break. */
  lemma ForwardIsThreeSteps(s: Sys, id: nat, key: FwdKey, selected: u32, o: Outcome, gen: u32, now: nat, timeout: nat,
                            faults: Faults)
    requires id !in s.pending
    requires LookupOrCreate(s.tables, key, selected, o, gen, now, timeout, faults).1.Some?
    ensures var m := LookupOrCreate(s.tables, key, selected, o, gen, now, timeout, faults).1.value;
            var s1 := Apply(s, Map(id, key, selected, o, gen, now, timeout, faults));
            && Enabled(s1, Rewrite(id)) && Enabled(Apply(s1, Rewrite(id)), Insert(id, now))
            && Apply(Apply(s1, Rewrite(id)), Insert(id, now)) ==
               Sys(Forward(s.tables, key, selected, o, gen, now, timeout, faults, true), s.pending,
                   s.history + [SentAs(key, ExternalOf(key, m))])
  {
    var s1 := Apply(s, Map(id, key, selected, o, gen, now, timeout, faults));
    var s2 := Apply(s1, Rewrite(id));
    assert s2.pending - {id} == s.pending;
  }

  lemma ReplyIsTwoSteps(s: Sys, id: nat, n: NatKey, src: u32, srcPort: u16, now: nat)
    requires id !in s.pending && Validated(s.tables, n, src, srcPort)
    ensures var v := s.tables.nat_[n];
            var s1 := Apply(s, Match(id, n, src, srcPort, now));
            && Enabled(s1, Deliver(id))
            && Apply(s1, Deliver(id)) ==
               Sys(Reverse(s.tables, n, src, srcPort, now), s.pending,
                   s.history + [DeliveredTo(n, src, srcPort, v.vmV6, v.vmPort)])
  {
    var s1 := Apply(s, Match(id, n, src, srcPort, now));
    assert s1.pending - {id} == s.pending;
  }
}
