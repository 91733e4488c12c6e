/** Runs in which each packet and each callback is one atomic step and nothing is evicted.
    The tables stay inverse exactly in the strict ones, where no packet that creates a
    mapping is cut short; there a busy flow keeps its mapping, and an idle one expires
    neither early nor late. */
module StrictRuns {
  import opened Words
  import opened Abi
  import opened PortAllocator
  import opened NatTables

  /** `timeout` is zero or a whole number of seconds; `latency` bounds how late a callback
      reads the clock after its deadline. A deadline counts from the time its step read,
      though the kernel starts the timer a little later: that delay is part of `latency`. */
  datatype Params = Params(timeoutSecs: u32, latency: nat) {
    function Timeout(): nat {
      TimeoutNs(timeoutSecs)
    }
  }

  datatype Sys = Sys(now: nat, tables: Tables)

  datatype Event =
    | ForwardPacket(key: FwdKey, selected: u32, outcome: Outcome, gen: u32, complete: bool)
    | ReversePacket(n: NatKey, src: u32, srcPort: u16)
    | Callback(timed: FwdKey)
    | Idle

  datatype Step = Step(at: nat, ev: Event)

  /** Time does not run backwards, and no callback is overdue by more than the latency. */
  predicate OnTime(p: Params, s: Sys, at: nat) {
    && s.now <= at && 0 < at
    && (forall k :: k in s.tables.fwd && s.tables.fwd[k].deadline.Some? ==>
          at <= s.tables.fwd[k].deadline.value + p.latency)
  }

  predicate Due(s: Sys, at: nat, k: FwdKey) {
    k in s.tables.fwd && s.tables.fwd[k].deadline.Some? && s.tables.fwd[k].deadline.value <= at
  }

  /** When an event can happen: in time, a new port collision-checked, a callback due. A
      packet that asks nothing of the tables is idle. */
  predicate Enabled(p: Params, s: Sys, e: Step) {
    && OnTime(p, s, e.at)
    && match e.ev
       case ForwardPacket(key, selected, o, _, _) => CollisionChecked(s.tables, key, selected, o)
       case ReversePacket(_, _, _) => true
       case Callback(k) => Due(s, e.at, k)
       case Idle => true
  }

  function Apply(p: Params, s: Sys, e: Step): Sys
    requires Enabled(p, s, e)
  {
    Sys(e.at,
        match e.ev
        case ForwardPacket(key, selected, o, gen, complete) =>
          Forward(s.tables, key, selected, o, gen, e.at, p.Timeout(), NO_FAULTS, complete)
        case ReversePacket(n, src, srcPort) => Reverse(s.tables, n, src, srcPort, e.at)
        case Callback(k) => Timer(s.tables, k, e.at, p.Timeout())
        case Idle => s.tables)
  }

  const START := Sys(0, Tables(map[], map[]))

  /** A packet that creates a mapping and stops before it inserts into `NAT`. */
  predicate CutShort(s: Sys, e: Step) {
    e.ev.ForwardPacket? && !e.ev.complete && e.ev.key !in s.tables.fwd && e.ev.outcome.Allocated?
  }

  /** `run[i]` happens in state `states[i]` and leads to `states[i + 1]`. */
  predicate AnyStepAt(p: Params, states: seq<Sys>, run: seq<Step>, i: nat)
    requires |states| == |run| + 1 && i < |run|
  {
    Enabled(p, states[i], run[i]) && states[i + 1] == Apply(p, states[i], run[i])
  }

  predicate StepAt(p: Params, states: seq<Sys>, run: seq<Step>, i: nat)
    requires |states| == |run| + 1 && i < |run|
  {
    AnyStepAt(p, states, run, i) && !CutShort(states[i], run[i])
  }

  predicate IsAnyRun(p: Params, states: seq<Sys>, run: seq<Step>) {
    && |states| == |run| + 1 && states[0] == START
    && forall i :: 0 <= i < |run| ==> AnyStepAt(p, states, run, i)
  }

  /** A strict run: no creation is cut short. */
  predicate IsRun(p: Params, states: seq<Sys>, run: seq<Step>) {
    && |states| == |run| + 1 && states[0] == START
    && forall i :: 0 <= i < |run| ==> StepAt(p, states, run, i)
  }

  // ---------- the tables stay inverse ----------

  lemma StepKeepsInverse(p: Params, s: Sys, e: Step)
    requires Enabled(p, s, e) && Inverse(s.tables)
    ensures Inverse(Apply(p, s, e).tables) <==> !CutShort(s, e)
  {
    match e.ev
    case ForwardPacket(key, selected, o, gen, complete) =>
      ForwardKeepsInverse(s.tables, key, selected, o, gen, e.at, p.Timeout(), NO_FAULTS, complete);
    case ReversePacket(n, src, srcPort) =>
      ReverseKeepsInverse(s.tables, n, src, srcPort, e.at);
    case Callback(k) =>
      TimerKeepsInverse(s.tables, k, e.at, p.Timeout());
    case Idle =>
  }

  /** In every strict run both tables describe the same flows, one external tuple each. */
  lemma {:induction false} TablesStayInverse(p: Params, states: seq<Sys>, run: seq<Step>, i: nat)
    requires IsRun(p, states, run) && i < |states|
    ensures Inverse(states[i].tables)
  {
    if i > 0 {
      TablesStayInverse(p, states, run, i - 1);
      assert StepAt(p, states, run, i - 1);
      StepKeepsInverse(p, states[i - 1], run[i - 1]);
    }
  }

  predicate InverseAt(states: seq<Sys>, i: nat)
    requires i < |states|
  {
    Inverse(states[i].tables)
  }

  /** The tables stay inverse throughout a run exactly when it is strict. */
  lemma InverseThroughoutIffStrict(p: Params, states: seq<Sys>, run: seq<Step>)
    requires IsAnyRun(p, states, run)
    ensures (forall i :: 0 <= i < |states| ==> InverseAt(states, i)) <==> IsRun(p, states, run)
  {
    if IsRun(p, states, run) {
      forall i | 0 <= i < |states|
        ensures InverseAt(states, i)
      {
        TablesStayInverse(p, states, run, i);
      }
    }
    if forall i :: 0 <= i < |states| ==> InverseAt(states, i) {
      forall i | 0 <= i < |run|
        ensures StepAt(p, states, run, i)
      {
        assert AnyStepAt(p, states, run, i) && InverseAt(states, i) && InverseAt(states, i + 1);
        StepKeepsInverse(p, states[i], run[i]);
      }
    }
  }

  // ---------- when the tables are inverse again ----------

  /** A packet of flow `k` that got its mapping and wrote its reverse entry. */
  predicate Completes(s: Sys, e: Step, k: FwdKey) {
    e.ev.ForwardPacket? && e.ev.key == k && e.ev.complete && (k in s.tables.fwd || e.ev.outcome.Allocated?)
  }

  /** The external tuple a packet of a mapped flow, or of a new one, writes to. */
  function WrittenTuple(s: Sys, e: Step): NatKey
    requires e.ev.ForwardPacket? && Completes(s, e, e.ev.key)
  {
    if e.ev.key in s.tables.fwd then ExtKey(e.ev.key, s.tables.fwd[e.ev.key])
    else NatKey(e.ev.selected, e.ev.outcome.port, e.ev.key.proto)
  }

  /** A step of another flow that replaces or removes the reverse entry on `k`'s tuple: a
      complete packet on that tuple, or an expiry there with the same generation. */
  predicate Takes(p: Params, s: Sys, e: Step, k: FwdKey)
    requires Enabled(p, s, e) && k in s.tables.fwd
  {
    var v := s.tables.fwd[k];
    match e.ev
    case ForwardPacket(key, _, _, _, _) =>
      key != k && Completes(s, e, key) && WrittenTuple(s, e) == ExtKey(k, v)
    case ReversePacket(_, _, _) => false
    case Callback(other) =>
      && other != k && other !in Apply(p, s, e).tables.fwd
      && ExtKey(other, s.tables.fwd[other]) == ExtKey(k, v) && s.tables.fwd[other].generation == v.generation
    case Idle => false
  }

  lemma StepKeepsBacked(p: Params, s: Sys, e: Step)
    requires Enabled(p, s, e) && Backed(s.tables)
    ensures Backed(Apply(p, s, e).tables)
  {
    match e.ev
    case ForwardPacket(key, selected, o, gen, complete) =>
      ForwardKeepsBacked(s.tables, key, selected, o, gen, e.at, p.Timeout(), NO_FAULTS, complete);
    case ReversePacket(n, src, srcPort) =>
      ReverseKeepsBacked(s.tables, n, src, srcPort, e.at);
    case Callback(k) =>
      TimerKeepsBacked(s.tables, k, e.at, p.Timeout());
    case Idle =>
  }

  /** What one step does to a flow's own reverse entry. */
  lemma ServedStep(p: Params, s: Sys, e: Step, k: FwdKey)
    requires Enabled(p, s, e) && Backed(s.tables) && k in Apply(p, s, e).tables.fwd
    ensures Served(Apply(p, s, e).tables, k) <==>
            Completes(s, e, k) || (k in s.tables.fwd && Served(s.tables, k) && !Takes(p, s, e, k))
  {
  }

  /** The history of that entry: a complete packet of `k` put it there, and since then no
      step of another flow took it. */
  predicate OwnsEntry(p: Params, states: seq<Sys>, run: seq<Step>, k: FwdKey, i: nat)
    requires IsAnyRun(p, states, run) && i < |states|
  {
    && i > 0 && AnyStepAt(p, states, run, i - 1)
    && (Completes(states[i - 1], run[i - 1], k)
        || (k in states[i - 1].tables.fwd && OwnsEntry(p, states, run, k, i - 1)
            && !Takes(p, states[i - 1], run[i - 1], k)))
  }

  lemma {:induction false} BackedThroughout(p: Params, states: seq<Sys>, run: seq<Step>, i: nat)
    requires IsAnyRun(p, states, run) && i < |states|
    ensures Backed(states[i].tables)
  {
    if i > 0 {
      BackedThroughout(p, states, run, i - 1);
      assert AnyStepAt(p, states, run, i - 1);
      StepKeepsBacked(p, states[i - 1], run[i - 1]);
    }
  }

  lemma {:induction false} ServedIffOwned(p: Params, states: seq<Sys>, run: seq<Step>, k: FwdKey, i: nat)
    requires IsAnyRun(p, states, run) && i < |states| && k in states[i].tables.fwd
    ensures Served(states[i].tables, k) <==> OwnsEntry(p, states, run, k, i)
  {
    if i > 0 {
      BackedThroughout(p, states, run, i - 1);
      assert AnyStepAt(p, states, run, i - 1);
      ServedStep(p, states[i - 1], run[i - 1], k);
      if k in states[i - 1].tables.fwd {
        ServedIffOwned(p, states, run, k, i - 1);
      }
    }
  }

  /** In any run, cut-short creations or not, the tables are inverse at a state exactly when
      every flow live there has completed a packet and kept its tuple to itself since: a flow
      that was cut short must have expired, or completed with nobody taking the entry. */
  lemma InverseIffAllOwn(p: Params, states: seq<Sys>, run: seq<Step>, i: nat)
    requires IsAnyRun(p, states, run) && i < |states|
    ensures Inverse(states[i].tables) <==>
            forall k :: k in states[i].tables.fwd ==> OwnsEntry(p, states, run, k, i)
  {
    BackedThroughout(p, states, run, i);
    InverseIffServed(states[i].tables);
    forall k | k in states[i].tables.fwd
      ensures Served(states[i].tables, k) <==> OwnsEntry(p, states, run, k, i)
    {
      ServedIffOwned(p, states, run, k, i);
    }
  }

  // ---------- the timer of one session ----------

  /** What is known of a session's timer between steps. Either its last activity is
      not yet confirmed idle and the deadline is no later than activity plus timeout, or
      it is, and the deadline closes the confirmation interval. */
  predicate TimerState(p: Params, now: nat, v: FwdVal, latest: nat) {
    && v.deadline.Some? && 0 < latest <= now && v.observed <= latest
    && v.deadline.value <= Max(latest + p.Timeout(), now + EXPIRY_CONFIRMATION_NS)
    && (v.observed != latest ==> v.deadline.value <= latest + p.Timeout())
    && (v.observed == latest ==>
          && latest + p.Timeout() <= now
          && latest + p.Timeout() + EXPIRY_CONFIRMATION_NS <= v.deadline.value
          && v.deadline.value <= latest + p.Timeout() + EXPIRY_CONFIRMATION_NS + p.latency)
  }

  predicate TimersRight(p: Params, s: Sys) {
    forall k :: k in s.tables.fwd ==> TimerState(p, s.now, s.tables.fwd[k], Latest(s.tables, k))
  }

  function MappingOf(s: Sys, k: FwdKey): Mapping
    requires k in s.tables.fwd
  {
    var v := s.tables.fwd[k];
    Mapping(v.extV4, v.extPort, v.generation)
  }

  /** Is this step a validated packet of flow `k`, in either direction? */
  predicate Touches(s: Sys, e: Step, k: FwdKey) {
    match e.ev
    case ForwardPacket(key, _, o, _, _) => key == k && (k in s.tables.fwd || o.Allocated?)
    case ReversePacket(n, src, srcPort) =>
      k in s.tables.fwd && n == ExtKey(k, s.tables.fwd[k]) && Validated(s.tables, n, src, srcPort)
    case Callback(_) => false
    case Idle => false
  }

  /** A live session after a step: its mapping and deadline are kept; a packet of its own
      moves its activity to `at`, any other step leaves its entry and activity alone. */
  predicate SessionKept(t: Tables, t': Tables, k: FwdKey, own: bool, at: nat)
    requires k in t.fwd
  {
    && k in t'.fwd
    && var v, v' := t.fwd[k], t'.fwd[k];
    && v'.extV4 == v.extV4 && v'.extPort == v.extPort && v'.generation == v.generation && v'.deadline == v.deadline
    && if own then Latest(t', k) == at && v'.observed in {0, v.observed}
       else Latest(t', k) == Latest(t, k) && v' == v
  }

  lemma ForwardKeepsSession(t: Tables, key: FwdKey, selected: u32, o: Outcome, gen: u32, at: nat, timeout: nat,
                            complete: bool, k: FwdKey)
    requires Inverse(t) && CollisionChecked(t, key, selected, o) && k in t.fwd && Latest(t, k) <= at
    ensures SessionKept(t, Forward(t, key, selected, o, gen, at, timeout, NO_FAULTS, complete), k, key == k, at)
  {
    assert ExtKey(k, t.fwd[k]) in t.nat_;
    if key in t.fwd && key != k {
      NoSharedTuple(t, k, key);
    }
  }

  lemma ReverseKeepsSession(t: Tables, n: NatKey, src: u32, srcPort: u16, at: nat, k: FwdKey)
    requires Inverse(t) && k in t.fwd && Latest(t, k) <= at
    ensures SessionKept(t, Reverse(t, n, src, srcPort, at), k,
                        n == ExtKey(k, t.fwd[k]) && Validated(t, n, src, srcPort), at)
  {
    assert ExtKey(k, t.fwd[k]) in t.nat_;
  }

  lemma TimerKeepsSession(t: Tables, other: FwdKey, at: nat, timeout: nat, k: FwdKey)
    requires Inverse(t) && k in t.fwd && other in t.fwd && other != k
    ensures SessionKept(t, Timer(t, other, at, timeout), k, false, at)
  {
    assert ExtKey(k, t.fwd[k]) in t.nat_;
    NoSharedTuple(t, k, other);
  }

  /** What a step can do to one live session: a packet of the flow refreshes it, steps of
      other flows leave it alone. */
  lemma SessionStep(p: Params, s: Sys, e: Step, k: FwdKey)
    requires Enabled(p, s, e) && Inverse(s.tables)
    requires k in s.tables.fwd && Latest(s.tables, k) <= s.now && e.ev != Callback(k)
    ensures SessionKept(s.tables, Apply(p, s, e).tables, k, Touches(s, e, k), e.at)
  {
    match e.ev
    case ForwardPacket(key, selected, o, gen, complete) =>
      ForwardKeepsSession(s.tables, key, selected, o, gen, e.at, p.Timeout(), complete, k);
    case ReversePacket(n, src, srcPort) =>
      ReverseKeepsSession(s.tables, n, src, srcPort, e.at, k);
    case Callback(other) =>
      TimerKeepsSession(s.tables, other, e.at, p.Timeout(), k);
    case Idle =>
  }

  /** The callback of a session removes it inside the promised interval, or keeps it. */
  lemma CallbackStep(p: Params, s: Sys, e: Step, k: FwdKey)
    requires Enabled(p, s, e) && Inverse(s.tables) && e.ev == Callback(k) && p.timeoutSecs > 0
    requires TimerState(p, s.now, s.tables.fwd[k], Latest(s.tables, k))
    ensures var s', due := Apply(p, s, e), Latest(s.tables, k) + p.Timeout() + EXPIRY_CONFIRMATION_NS;
            if k in s'.tables.fwd then
              && MappingOf(s', k) == MappingOf(s, k) && Latest(s'.tables, k) == Latest(s.tables, k)
              && TimerState(p, s'.now, s'.tables.fwd[k], Latest(s'.tables, k))
            else
              due <= e.at <= due + 2 * p.latency
  {
    TimeoutCoversConfirmation(p);
    var latest := Latest(s.tables, k);
    var s' := Apply(p, s, e);
    if k in s'.tables.fwd {
      LatestFrame(s.tables, s'.tables, k);
    }
  }

  lemma StepKeepsTimers(p: Params, s: Sys, e: Step)
    requires Enabled(p, s, e) && Inverse(s.tables) && p.timeoutSecs > 0 && TimersRight(p, s) && !CutShort(s, e)
    ensures TimersRight(p, Apply(p, s, e))
  {
    var s' := Apply(p, s, e);
    forall k | k in s'.tables.fwd
      ensures TimerState(p, s'.now, s'.tables.fwd[k], Latest(s'.tables, k))
    {
      if k !in s.tables.fwd {
        TimeoutCoversConfirmation(p);
      } else if e.ev == Callback(k) {
        CallbackStep(p, s, e, k);
      } else {
        SessionStep(p, s, e, k);
        RefreshedTimer(p, s.now, e.at, s.tables.fwd[k], Latest(s.tables, k), s'.tables.fwd[k], Latest(s'.tables, k));
      }
    }
  }

  lemma TimeoutCoversConfirmation(p: Params)
    requires p.timeoutSecs > 0
    ensures p.Timeout() > EXPIRY_CONFIRMATION_NS
  {
  }

  /** Time passing, or a packet refreshing the activity to `at`, keeps the timer state. */
  lemma RefreshedTimer(p: Params, now: nat, at: nat, v: FwdVal, latest: nat, refreshed: FwdVal, latest': nat)
    requires p.timeoutSecs > 0 && TimerState(p, now, v, latest) && now <= at
    requires refreshed.deadline == v.deadline && refreshed.observed in {0, v.observed}
    requires (latest' == latest && refreshed.observed == v.observed) || latest' == at
    ensures TimerState(p, at, refreshed, latest')
  {
    TimeoutCoversConfirmation(p);
  }

  /** The activity time of a flow looks only at its own entry and its own reverse entry. */
  lemma LatestFrame(t: Tables, t': Tables, k: FwdKey)
    requires k in t.fwd && k in t'.fwd && ExtKey(k, t.fwd[k]) == ExtKey(k, t'.fwd[k])
    requires t.fwd[k].lastSeen == t'.fwd[k].lastSeen && t.fwd[k].generation == t'.fwd[k].generation
    requires t.nat_ == t'.nat_
    ensures Latest(t, k) == Latest(t', k)
  {
  }

  lemma {:induction false} RunInvariant(p: Params, states: seq<Sys>, run: seq<Step>, i: nat)
    requires IsRun(p, states, run) && i < |states| && p.timeoutSecs > 0
    ensures Inverse(states[i].tables) && TimersRight(p, states[i])
  {
    TablesStayInverse(p, states, run, i);
    if i > 0 {
      RunInvariant(p, states, run, i - 1);
      assert StepAt(p, states, run, i - 1);
      StepKeepsTimers(p, states[i - 1], run[i - 1]);
    }
  }

  // ---------- the recorded activity is the history ----------

  /** The time of the last validated packet of flow `k` before step `i`; 0 if there was none. */
  function LastActive(states: seq<Sys>, run: seq<Step>, k: FwdKey, i: nat): nat
    requires |states| == |run| + 1 && i <= |run|
  {
    if i == 0 then 0
    else if Touches(states[i - 1], run[i - 1], k) then run[i - 1].at
    else LastActive(states, run, k, i - 1)
  }

  /** One step: the recorded activity moves to the packets that touch the flow. */
  lemma LatestStep(p: Params, s: Sys, e: Step, k: FwdKey)
    requires Enabled(p, s, e) && Inverse(s.tables) && p.timeoutSecs > 0 && TimersRight(p, s) && !CutShort(s, e)
    requires k in Apply(p, s, e).tables.fwd
    ensures k in s.tables.fwd || Touches(s, e, k)
    ensures Latest(Apply(p, s, e).tables, k) == if Touches(s, e, k) then e.at else Latest(s.tables, k)
  {
    if k in s.tables.fwd {
      if e.ev == Callback(k) {
        CallbackStep(p, s, e, k);
      } else {
        SessionStep(p, s, e, k);
      }
    }
  }

  /** What the two tables record as the latest activity of a live flow is what happened. */
  lemma {:induction false} LatestIsHistory(p: Params, states: seq<Sys>, run: seq<Step>, k: FwdKey, i: nat)
    requires IsRun(p, states, run) && i < |states| && p.timeoutSecs > 0 && k in states[i].tables.fwd
    ensures Latest(states[i].tables, k) == LastActive(states, run, k, i)
  {
    if i > 0 {
      RunInvariant(p, states, run, i - 1);
      assert StepAt(p, states, run, i - 1);
      LatestStep(p, states[i - 1], run[i - 1], k);
      if k in states[i - 1].tables.fwd {
        LatestIsHistory(p, states, run, k, i - 1);
      }
    }
  }

  /** Expiry is neither early nor late: a session last active at L is removed between
      L + timeout + 10 ms and L + timeout + 10 ms + 2 * latency, and only by its callback. */
  lemma ExpiryWindow(p: Params, states: seq<Sys>, run: seq<Step>, k: FwdKey, i: nat)
    requires IsRun(p, states, run) && i < |run| && p.timeoutSecs > 0
    requires k in states[i].tables.fwd && k !in states[i + 1].tables.fwd
    ensures run[i].ev == Callback(k)
    ensures var due := LastActive(states, run, k, i) + 1_000_000_000 * p.timeoutSecs + 10_000_000;
            due <= run[i].at <= due + 2 * p.latency
  {
    RunInvariant(p, states, run, i);
    LatestIsHistory(p, states, run, k, i);
    assert StepAt(p, states, run, i);
    if run[i].ev == Callback(k) {
      CallbackStep(p, states[i], run[i], k);
    } else {
      SessionStep(p, states[i], run[i], k);
    }
  }

  /** No session outlives that interval: while it is live, no step is later. */
  lemma NeverOverdue(p: Params, states: seq<Sys>, run: seq<Step>, k: FwdKey, i: nat)
    requires IsRun(p, states, run) && i < |run| && p.timeoutSecs > 0 && k in states[i].tables.fwd
    ensures run[i].at <= LastActive(states, run, k, i) + 1_000_000_000 * p.timeoutSecs + 10_000_000 + 2 * p.latency
  {
    RunInvariant(p, states, run, i);
    LatestIsHistory(p, states, run, k, i);
    assert StepAt(p, states, run, i);
    assert TimerState(p, states[i].now, states[i].tables.fwd[k], Latest(states[i].tables, k));
  }

  // ---------- a busy flow keeps its mapping ----------

  predicate GapShort(p: Params, states: seq<Sys>, run: seq<Step>, k: FwdKey, j: nat)
    requires |states| == |run| + 1 && j < |run|
  {
    Touches(states[j], run[j], k) ==> run[j].at < LastActive(states, run, k, j) + 1_000_000_000 * p.timeoutSecs
  }

  /** Every gap between consecutive validated packets of `k`, from step `i` to step `m`,
      is shorter than the timeout. */
  predicate GapsShort(p: Params, states: seq<Sys>, run: seq<Step>, k: FwdKey, i: nat, m: nat)
    requires |states| == |run| + 1 && m < |run|
  {
    forall j :: i <= j <= m ==> GapShort(p, states, run, k, j)
  }

  predicate TimesOrdered(run: seq<Step>) {
    forall j :: 0 < j < |run| ==> run[j - 1].at <= run[j].at
  }

  lemma RunTimesOrdered(p: Params, states: seq<Sys>, run: seq<Step>)
    requires IsRun(p, states, run)
    ensures TimesOrdered(run)
  {
    forall j | 0 < j < |run|
      ensures run[j - 1].at <= run[j].at
    {
      assert StepAt(p, states, run, j) && StepAt(p, states, run, j - 1);
    }
  }

  /** A step before the next packet of the flow is within the gap. */
  lemma {:induction false} QuietLessThanTimeout(p: Params, states: seq<Sys>, run: seq<Step>, k: FwdKey,
                                                i: nat, j: nat, m: nat)
    requires |states| == |run| + 1 && TimesOrdered(run) && i <= j <= m < |run|
    requires GapsShort(p, states, run, k, i, m) && Touches(states[m], run[m], k)
    ensures run[j].at < LastActive(states, run, k, j) + p.Timeout()
    decreases m - j
  {
    assert GapShort(p, states, run, k, j);
    if !Touches(states[j], run[j], k) {
      QuietLessThanTimeout(p, states, run, k, i, j + 1, m);
    }
  }

  lemma QuietAt(p: Params, states: seq<Sys>, run: seq<Step>, k: FwdKey, i: nat, j: nat, m: nat)
    requires IsRun(p, states, run) && i <= j <= m < |run| && p.timeoutSecs > 0
    requires GapsShort(p, states, run, k, i, m) && Touches(states[m], run[m], k) && k in states[j].tables.fwd
    ensures run[j].at < Latest(states[j].tables, k) + p.Timeout()
  {
    RunTimesOrdered(p, states, run);
    QuietLessThanTimeout(p, states, run, k, i, j, m);
    LatestIsHistory(p, states, run, k, j);
  }

  lemma BusyStep(p: Params, s: Sys, e: Step, k: FwdKey)
    requires Enabled(p, s, e) && Inverse(s.tables) && TimersRight(p, s) && p.timeoutSecs > 0
    requires k in s.tables.fwd && e.at < Latest(s.tables, k) + p.Timeout()
    ensures var s' := Apply(p, s, e); k in s'.tables.fwd && MappingOf(s', k) == MappingOf(s, k)
  {
    if e.ev == Callback(k) {
      CallbackStep(p, s, e, k);
    } else {
      SessionStep(p, s, e, k);
    }
  }

  lemma BusyAt(p: Params, states: seq<Sys>, run: seq<Step>, k: FwdKey, j: nat)
    requires IsRun(p, states, run) && j < |run| && p.timeoutSecs > 0
    requires k in states[j].tables.fwd && run[j].at < Latest(states[j].tables, k) + p.Timeout()
    ensures k in states[j + 1].tables.fwd && MappingOf(states[j + 1], k) == MappingOf(states[j], k)
  {
    RunInvariant(p, states, run, j);
    assert StepAt(p, states, run, j);
    BusyStep(p, states[j], run[j], k);
  }

  /** A flow whose gaps between validated packets, of either direction, are shorter than
      the timeout keeps its external address, port and generation, however the steps of
      other flows and the timers interleave. */
  lemma {:induction false} BusyFlowKeepsMapping(p: Params, states: seq<Sys>, run: seq<Step>, k: FwdKey,
                                                i: nat, j: nat, m: nat)
    requires IsRun(p, states, run) && i <= j <= m < |run| && p.timeoutSecs > 0
    requires k in states[i].tables.fwd
    requires GapsShort(p, states, run, k, i, m) && Touches(states[m], run[m], k)
    ensures k in states[j].tables.fwd && MappingOf(states[j], k) == MappingOf(states[i], k)
  {
    if i < j {
      BusyFlowKeepsMapping(p, states, run, k, i, j - 1, m);
      QuietAt(p, states, run, k, i, j - 1, m);
      BusyAt(p, states, run, k, j - 1);
    }
  }
}
