/** Runs of whole frames: every step is what a classifier or the timer callback does, as
    their contracts state it. On the tables such a run is one of atomic session steps, so
    what holds of those holds of the frames. */
module FrameRuns {
  import opened Words
  import opened Abi
  import PA = PortAllocator
  import opened NatTables
  import opened Checksum
  import opened Dataplane
  import S = StrictRuns

  datatype FrameEvent =
    | Outbound(d: seq<byte>, gen: u32, env: ForwardEnv, o: PA.Outcome, d': seq<byte>, action: Action,
               sent: ForwardOutcome)
    | Inbound(reply: seq<byte>, renv: ReverseEnv, back: seq<byte>, raction: Action, got: ReverseOutcome)
    | Expiry(timed: FwdKey)

  datatype FrameStep = FrameStep(at: nat, ev: FrameEvent)

  function ParamsOf(cfg: DataplaneConfig, latency: nat): S.Params {
    S.Params(cfg.sessionTimeoutSecs, latency)
  }

  /** One frame, or one callback, between two states of the tables. */
  ghost predicate Happens(cfg: DataplaneConfig, latency: nat, s: S.Sys, e: FrameStep, s': S.Sys)
    requires WellFormed(cfg)
  {
    && S.OnTime(ParamsOf(cfg, latency), s, e.at) && s'.now == e.at
    && match e.ev
       case Outbound(d, gen, env, o, d', action, sent) =>
         ForwardResult(cfg, s.tables, d, e.at, gen, env, o, s'.tables, d', action, sent)
       case Inbound(reply, renv, back, raction, got) =>
         ReverseResult(cfg, s.tables, reply, e.at, renv, s'.tables, back, raction, got)
       case Expiry(k) =>
         S.Due(s, e.at, k) && s'.tables == Timer(s.tables, k, e.at, TimeoutNs(cfg.sessionTimeoutSecs))
  }

  ghost predicate HappensAt(cfg: DataplaneConfig, latency: nat, states: seq<S.Sys>, run: seq<FrameStep>, i: nat)
    requires WellFormed(cfg) && |states| == |run| + 1 && i < |run|
  {
    Happens(cfg, latency, states[i], run[i], states[i + 1])
  }

  ghost predicate IsFrameRun(cfg: DataplaneConfig, latency: nat, states: seq<S.Sys>, run: seq<FrameStep>)
    requires WellFormed(cfg)
  {
    && |states| == |run| + 1 && states[0] == S.START
    && forall i :: 0 <= i < |run| ==> HappensAt(cfg, latency, states, run, i)
  }

  /** The flow whose mapping a forward packet looks up, if it gets that far. */
  function LookedUpFlow(cfg: DataplaneConfig, d: seq<byte>, env: ForwardEnv): Option<Flow>
    requires WellFormed(cfg)
  {
    var flow := ForwardFlow(cfg, d);
    if flow.Some? && flow.value.key.proto == PROTO_TCP && env.changeProtoFails then None else flow
  }

  /** Does a mapped packet get as far as its reverse entry? */
  predicate Finishes(d: seq<byte>, f: Flow, env: ForwardEnv) {
    Completes(d, f, env) && !env.natInsertFails
  }

  /** A frame that creates a mapping without its reverse entry: too short for its checksum
      field, or stopped by a fault. */
  predicate CreatesHalf(cfg: DataplaneConfig, s: S.Sys, e: FrameStep)
    requires WellFormed(cfg)
  {
    && e.ev.Outbound? && LookedUpFlow(cfg, e.ev.d, e.ev.env).Some?
    && var f := LookedUpFlow(cfg, e.ev.d, e.ev.env).value;
    && f.key !in s.tables.fwd
    && Granted(s.tables, f.key, e.ev.o, TimeoutNs(cfg.sessionTimeoutSecs), e.ev.env.faults)
    && !Finishes(e.ev.d, f, e.ev.env)
  }

  predicate CreatesHalfAt(cfg: DataplaneConfig, states: seq<S.Sys>, run: seq<FrameStep>, i: nat)
    requires WellFormed(cfg) && |states| == |run| + 1 && i < |run|
  {
    CreatesHalf(cfg, states[i], run[i])
  }

  // ---------- frames as session steps ----------

  function AsStep(cfg: DataplaneConfig, s: S.Sys, e: FrameStep): S.Step
    requires WellFormed(cfg)
  {
    S.Step(e.at,
           match e.ev
           case Outbound(d, gen, env, o, _, _, _) =>
             var flow := LookedUpFlow(cfg, d, env);
             if flow.None? then S.Idle
             else
               var f := flow.value;
               var granted := Granted(s.tables, f.key, o, TimeoutNs(cfg.sessionTimeoutSecs), env.faults);
               S.ForwardPacket(f.key, f.selected, if granted then o else PA.Refused, gen, Finishes(d, f, env))
           case Inbound(reply, _, _, _, _) =>
             var r := ReplyFlow(cfg, reply);
             if r.None? then S.Idle else S.ReversePacket(r.value.n, r.value.src, r.value.srcPort)
           case Expiry(k) => S.Callback(k))
  }

  /** Without faults and with the answer a fault would have voided, the step is the same. */
  lemma FaultsAsRefusals(t: Tables, key: FwdKey, selected: u32, o: PA.Outcome, gen: u32, now: nat, timeout: nat,
                         faults: Faults, complete: bool)
    ensures var o' := if Granted(t, key, o, timeout, faults) then o else PA.Refused;
            Forward(t, key, selected, o, gen, now, timeout, faults, complete) ==
            Forward(t, key, selected, o', gen, now, timeout, NO_FAULTS, complete)
  {
  }

  lemma OutboundTables(cfg: DataplaneConfig, t: Tables, d: seq<byte>, now: nat, gen: u32, env: ForwardEnv,
                       o: PA.Outcome, t': Tables, d': seq<byte>, action: Action, sent: ForwardOutcome)
    requires WellFormed(cfg) && ForwardResult(cfg, t, d, now, gen, env, o, t', d', action, sent)
    ensures var flow := LookedUpFlow(cfg, d, env);
            if flow.None? then t' == t
            else FlowResult(cfg, flow.value, t, d, now, gen, env, o, t', d', action, sent)
  {
    if ForwardFlow(cfg, d).Some? {
      FlowNotShort(cfg, d);
    }
  }

  lemma FrameIsStep(cfg: DataplaneConfig, latency: nat, s: S.Sys, e: FrameStep, s': S.Sys)
    requires WellFormed(cfg) && Happens(cfg, latency, s, e, s')
    ensures S.Enabled(ParamsOf(cfg, latency), s, AsStep(cfg, s, e))
    ensures s' == S.Apply(ParamsOf(cfg, latency), s, AsStep(cfg, s, e))
    ensures S.CutShort(s, AsStep(cfg, s, e)) <==> CreatesHalf(cfg, s, e)
  {
    match e.ev
    case Outbound(d, gen, env, o, d', action, sent) =>
      OutboundTables(cfg, s.tables, d, e.at, gen, env, o, s'.tables, d', action, sent);
      var flow, timeout := LookedUpFlow(cfg, d, env), TimeoutNs(cfg.sessionTimeoutSecs);
      if flow.Some? {
        var f := flow.value;
        FlowIsForwardStep(cfg, f, s.tables, d, e.at, gen, env, o, s'.tables, d', action, sent);
        FaultsAsRefusals(s.tables, f.key, f.selected, o, gen, e.at, timeout, env.faults, Finishes(d, f, env));
      }
    case Inbound(_, _, _, _, _) =>
    case Expiry(_) =>
  }

  function AsRun(cfg: DataplaneConfig, states: seq<S.Sys>, run: seq<FrameStep>): (steps: seq<S.Step>)
    requires WellFormed(cfg) && |states| == |run| + 1
    ensures |steps| == |run| && forall i :: 0 <= i < |run| ==> steps[i] == AsStep(cfg, states[i], run[i])
  {
    seq(|run|, i requires 0 <= i < |run| => AsStep(cfg, states[i], run[i]))
  }

  /** Every run of frames is a run of session steps through the same states. */
  lemma FramesRefineSteps(cfg: DataplaneConfig, latency: nat, states: seq<S.Sys>, run: seq<FrameStep>)
    requires WellFormed(cfg) && IsFrameRun(cfg, latency, states, run)
    ensures S.IsAnyRun(ParamsOf(cfg, latency), states, AsRun(cfg, states, run))
  {
    forall i | 0 <= i < |run|
      ensures S.AnyStepAt(ParamsOf(cfg, latency), states, AsRun(cfg, states, run), i)
    {
      assert HappensAt(cfg, latency, states, run, i);
      FrameIsStep(cfg, latency, states[i], run[i], states[i + 1]);
    }
  }

  /** A strict one exactly when no frame in it creates half a mapping. */
  lemma StrictIffNoHalf(cfg: DataplaneConfig, latency: nat, states: seq<S.Sys>, run: seq<FrameStep>)
    requires WellFormed(cfg) && IsFrameRun(cfg, latency, states, run)
    ensures S.IsRun(ParamsOf(cfg, latency), states, AsRun(cfg, states, run))
            <==> forall i :: 0 <= i < |run| ==> !CreatesHalfAt(cfg, states, run, i)
  {
    FramesRefineSteps(cfg, latency, states, run);
    var p, steps := ParamsOf(cfg, latency), AsRun(cfg, states, run);
    forall i | 0 <= i < |run|
      ensures S.StepAt(p, states, steps, i) <==> !CreatesHalfAt(cfg, states, run, i)
    {
      assert HappensAt(cfg, latency, states, run, i) && S.AnyStepAt(p, states, steps, i);
      FrameIsStep(cfg, latency, states[i], run[i], states[i + 1]);
    }
  }

  // ---------- what follows for frames ----------

  /** However frames and callbacks follow each other, the tables stay mutually inverse
      exactly when no frame creates a mapping without its reverse entry. */
  lemma FramesKeepTablesInverseIff(cfg: DataplaneConfig, latency: nat, states: seq<S.Sys>, run: seq<FrameStep>)
    requires WellFormed(cfg) && IsFrameRun(cfg, latency, states, run)
    ensures (forall i :: 0 <= i < |states| ==> S.InverseAt(states, i))
            <==> forall i :: 0 <= i < |run| ==> !CreatesHalfAt(cfg, states, run, i)
  {
    FramesRefineSteps(cfg, latency, states, run);
    StrictIffNoHalf(cfg, latency, states, run);
    S.InverseThroughoutIffStrict(ParamsOf(cfg, latency), states, AsRun(cfg, states, run));
  }

  /** In such a run a session goes only by its callback, inside the promised interval
      after the last frame of either direction that was its own. */
  lemma FramesExpireInWindow(cfg: DataplaneConfig, latency: nat, states: seq<S.Sys>, run: seq<FrameStep>, k: FwdKey,
                             i: nat)
    requires WellFormed(cfg) && IsFrameRun(cfg, latency, states, run) && cfg.sessionTimeoutSecs > 0
    requires forall j :: 0 <= j < |run| ==> !CreatesHalfAt(cfg, states, run, j)
    requires i < |run| && k in states[i].tables.fwd && k !in states[i + 1].tables.fwd
    ensures run[i].ev == Expiry(k)
    ensures var due := S.LastActive(states, AsRun(cfg, states, run), k, i)
                       + 1_000_000_000 * cfg.sessionTimeoutSecs + 10_000_000;
            due <= run[i].at <= due + 2 * latency
  {
    StrictIffNoHalf(cfg, latency, states, run);
    S.ExpiryWindow(ParamsOf(cfg, latency), states, AsRun(cfg, states, run), k, i);
  }

  /** And a flow whose own frames follow each other within the timeout keeps its mapping. */
  lemma FramesKeepBusyMapping(cfg: DataplaneConfig, latency: nat, states: seq<S.Sys>, run: seq<FrameStep>, k: FwdKey,
                              i: nat, j: nat, m: nat)
    requires WellFormed(cfg) && IsFrameRun(cfg, latency, states, run) && cfg.sessionTimeoutSecs > 0
    requires forall h :: 0 <= h < |run| ==> !CreatesHalfAt(cfg, states, run, h)
    requires i <= j <= m < |run| && k in states[i].tables.fwd
    requires var steps := AsRun(cfg, states, run);
             S.GapsShort(ParamsOf(cfg, latency), states, steps, k, i, m) && S.Touches(states[m], steps[m], k)
    ensures k in states[j].tables.fwd && S.MappingOf(states[j], k) == S.MappingOf(states[i], k)
  {
    StrictIffNoHalf(cfg, latency, states, run);
    S.BusyFlowKeepsMapping(ParamsOf(cfg, latency), states, AsRun(cfg, states, run), k, i, j, m);
  }

  /** The frames that are a flow's own: a forward packet of it that has or is given its
      mapping, and a reply to its tuple from its remote that the entry accepts. */
  lemma OwnFrames(cfg: DataplaneConfig, s: S.Sys, e: FrameStep, k: FwdKey)
    requires WellFormed(cfg)
    ensures S.Touches(s, AsStep(cfg, s, e), k) <==>
            match e.ev
            case Outbound(d, _, env, o, _, _, _) =>
              var flow := LookedUpFlow(cfg, d, env);
              flow.Some? && flow.value.key == k
              && Granted(s.tables, k, o, TimeoutNs(cfg.sessionTimeoutSecs), env.faults)
            case Inbound(reply, _, _, _, _) =>
              var r := ReplyFlow(cfg, reply);
              r.Some? && k in s.tables.fwd && r.value.n == ExtKey(k, s.tables.fwd[k])
              && Validated(s.tables, r.value.n, r.value.src, r.value.srcPort)
            case Expiry(_) => false
  {
  }
}
