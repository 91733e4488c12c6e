/** Translation policy: what `validate` accepts, the dataplane configuration made from
    it, and the selection of an external address from the pool. */
module Pool {
  import opened Words
  import opened Checksum
  import opened Abi
  import opened Fnv

  // ---------- user-facing policy ----------

  datatype Duration = Duration(secs: u64, nanos: u32)

  datatype Policy = Policy(prefix96: seq<byte>, v4Pool: seq<u32>, portMin: u16, portMax: u16,
                           sessionTimeout: Option<Duration>)

  datatype PolicyError =
    | EmptyV4Pool
    | V4PoolTooLarge(actual: nat, maximum: nat)
    | InvalidPortRange(portMin: u16, portMax: u16)
    | InvalidSessionTimeout

  datatype Validation = Accepted | Rejected(error: PolicyError)

  function Validate(p: Policy): Validation {
    if p.v4Pool == [] then Rejected(EmptyV4Pool)
    else if |p.v4Pool| > V4_POOL_MAX then Rejected(V4PoolTooLarge(|p.v4Pool|, V4_POOL_MAX))
    else if p.portMin == 0 || p.portMin > p.portMax then Rejected(InvalidPortRange(p.portMin, p.portMax))
    else if p.sessionTimeout == Some(Duration(0, 0)) then Rejected(InvalidSessionTimeout)
    else Accepted
  }

  /** Exactly which policies are accepted, and which error each of the others gets: the
      first complaint in the order pool, ports, timeout. */
  lemma ValidateDecides(p: Policy)
    ensures Validate(p) == Accepted <==>
            1 <= |p.v4Pool| <= 16 && 0 < p.portMin <= p.portMax && p.sessionTimeout != Some(Duration(0, 0))
    ensures Validate(p) == Rejected(EmptyV4Pool) <==> |p.v4Pool| == 0
    ensures Validate(p) == Rejected(V4PoolTooLarge(|p.v4Pool|, 16)) <==> |p.v4Pool| > 16
    ensures Validate(p) == Rejected(InvalidPortRange(p.portMin, p.portMax)) <==>
            1 <= |p.v4Pool| <= 16 && (p.portMin == 0 || p.portMin > p.portMax)
    ensures Validate(p) == Rejected(InvalidSessionTimeout) <==>
            1 <= |p.v4Pool| <= 16 && 0 < p.portMin <= p.portMax && p.sessionTimeout == Some(Duration(0, 0))
  {
  }

  /** Whole seconds, rounded up, at most the largest 32-bit value; 0 disables expiry. */
  function TimeoutSecs(t: Option<Duration>): u32 {
    match t
    case None => 0
    case Some(d) =>
      var roundedUp := if d.nanos != 0 && d.secs < MAX_U64 then d.secs + 1 else d.secs;
      if roundedUp > 0xFFFF_FFFF then 0xFFFF_FFFF else roundedUp
  }

  method ToDataplane(p: Policy, bridge: u32, uplink: u32) returns (cfg: DataplaneConfig)
    requires |p.prefix96| == 12 && |p.v4Pool| < 0x1_0000_0000
    ensures WellFormed(cfg)
    ensures cfg.v4PoolLen == |p.v4Pool|
    ensures forall i :: 0 <= i < V4_POOL_MAX ==> cfg.v4Pool[i] == if i < |p.v4Pool| then p.v4Pool[i] else 0
    ensures cfg == DataplaneConfig(p.prefix96, cfg.v4Pool, cfg.v4PoolLen, p.portMin, p.portMax,
                                   TimeoutSecs(p.sessionTimeout), bridge, uplink)
  {
    var pool: seq<u32> := seq(V4_POOL_MAX, _ => 0);
    var i := 0;
    while i < V4_POOL_MAX && i < |p.v4Pool|
      invariant i <= V4_POOL_MAX && i <= |p.v4Pool| && |pool| == V4_POOL_MAX
      invariant forall j :: 0 <= j < V4_POOL_MAX ==> pool[j] == if j < i then p.v4Pool[j] else 0
    {
      pool := pool[i := p.v4Pool[i]];
      i := i + 1;
    }
    cfg := DataplaneConfig(p.prefix96, pool, |p.v4Pool|, p.portMin, p.portMax,
                           TimeoutSecs(p.sessionTimeout), bridge, uplink);
  }

  /** What the dataplane relies on, and what `ToDataplane` gives for an accepted policy. */
  predicate Installable(p: Policy, cfg: DataplaneConfig) {
    && Validate(p) == Accepted && WellFormed(cfg)
    && cfg.prefix96 == p.prefix96 && cfg.portMin == p.portMin && cfg.portMax == p.portMax
    && cfg.v4PoolLen == |p.v4Pool| && cfg.sessionTimeoutSecs == TimeoutSecs(p.sessionTimeout)
    && (|p.v4Pool| <= V4_POOL_MAX ==> cfg.v4Pool[..|p.v4Pool|] == p.v4Pool)
  }

  /** An accepted timeout is never shortened (up to the 32-bit limit), is lengthened by less
      than a second, and never turns into the zero that disables expiry. */
  lemma TimeoutRounding(p: Policy)
    requires Validate(p) == Accepted
    requires p.sessionTimeout.Some? ==> p.sessionTimeout.value.nanos < 1_000_000_000
    ensures TimeoutSecs(p.sessionTimeout) == 0 <==> p.sessionTimeout == None
    ensures p.sessionTimeout.Some? && p.sessionTimeout.value.secs < 0xFFFF_FFFF ==>
              var d := p.sessionTimeout.value;
              var ns := d.secs * 1_000_000_000 + d.nanos;
              ns <= TimeoutSecs(p.sessionTimeout) * 1_000_000_000 < ns + 1_000_000_000
    ensures p.sessionTimeout.Some? && p.sessionTimeout.value.secs >= 0xFFFF_FFFF ==>
              TimeoutSecs(p.sessionTimeout) == 0xFFFF_FFFF
  {
  }

  // ---------- selection ----------

  /** `hash % len`. */
  function Remainder(hash: nat, len: nat): (r: nat)
    requires len > 0
    ensures r < len
  {
    if hash < len then hash else Remainder(hash - len, len)
  }

  lemma {:induction false} RemainderIsModulo(hash: nat, len: nat)
    requires len > 0
    ensures Remainder(hash, len) == hash % len
  {
    if hash >= len {
      RemainderIsModulo(hash - len, len);
      ModuloStep(hash, len);
    } else {
      SmallModulo(hash, len);
    }
  }

  lemma SmallModulo(x: nat, n: nat)
    requires x < n
    ensures x % n == x
  {
  }

  lemma ModuloStep(x: nat, n: nat)
    requires 0 < n <= x
    ensures x % n == (x - n) % n
  {
    var q, r := (x - n) / n, (x - n) % n;
    assert x - n == q * n + r;
    assert x == (q + 1) * n + r;
    RemainderIs(x, q + 1, r, n);
  }

  /** The address a configuration selects for a client. */
  function Selected(vm: Addr6, cfg: DataplaneConfig): Option<u32>
    requires WellFormed(cfg)
  {
    if cfg.v4PoolLen == 0 || cfg.v4PoolLen > V4_POOL_MAX then None
    else Some(cfg.v4Pool[Remainder(Hash(vm), cfg.v4PoolLen)])
  }

  /** The hash picks the slot by remainder, from a pool of one to sixteen addresses. */
  lemma SelectedIsRemainder(vm: Addr6, cfg: DataplaneConfig)
    requires WellFormed(cfg)
    ensures Selected(vm, cfg) ==
            if 1 <= cfg.v4PoolLen <= 16 then Some(cfg.v4Pool[Hash(vm) % cfg.v4PoolLen]) else None
  {
    if 1 <= cfg.v4PoolLen <= 16 {
      RemainderIsModulo(Hash(vm), cfg.v4PoolLen);
    }
  }

  method HashAddress(vm: Addr6) returns (hash: u32)
    ensures hash == Hash(vm)
  {
    hash := 0x811c_9dc5;
    for i := 0 to |vm|
      invariant hash == Hash(vm[..i])
    {
      assert vm[..i + 1][..i] == vm[..i];
      hash := HashRound(hash, vm[i]);
    }
    assert vm[..|vm|] == vm;
  }

  method SelectV4FromPool(vm: Addr6, cfg: DataplaneConfig) returns (r: Option<u32>)
    requires WellFormed(cfg)
    ensures r == Selected(vm, cfg)
  {
    if cfg.v4PoolLen == 0 || cfg.v4PoolLen > V4_POOL_MAX {
      return None;
    }
    var hash := HashAddress(vm);
    RemainderIsModulo(hash, cfg.v4PoolLen);
    var idx := hash % cfg.v4PoolLen;
    return Some(cfg.v4Pool[idx]);
  }

  /** The dataplane's selection: sixteen fixed loads, then a match on the index. */
  function PickSlot(idx: u32, v: seq<u32>): Option<u32>
    requires |v| == V4_POOL_MAX
  {
    match idx
    case 0 => Some(v[0])
    case 1 => Some(v[1])
    case 2 => Some(v[2])
    case 3 => Some(v[3])
    case 4 => Some(v[4])
    case 5 => Some(v[5])
    case 6 => Some(v[6])
    case 7 => Some(v[7])
    case 8 => Some(v[8])
    case 9 => Some(v[9])
    case 10 => Some(v[10])
    case 11 => Some(v[11])
    case 12 => Some(v[12])
    case 13 => Some(v[13])
    case 14 => Some(v[14])
    case 15 => Some(v[15])
    case _ => None
  }

  method SelectV4FromPoolEbpf(vm: Addr6, cfg: DataplaneConfig) returns (r: Option<u32>)
    requires WellFormed(cfg)
    ensures r == Selected(vm, cfg)
  {
    var len := cfg.v4PoolLen;
    if len == 0 || len > V4_POOL_MAX {
      return None;
    }
    var hash := HashAddress(vm);
    RemainderIsModulo(hash, len);
    return PickSlot(hash % len, cfg.v4Pool);
  }

  /** The unrolled membership test: one arm for every pool length. */
  predicate InFirst(len: u32, v4: u32, p: seq<u32>)
    requires |p| == V4_POOL_MAX
  {
    match len
    case 1 => v4 == p[0]
    case 2 => v4 == p[0] || v4 == p[1]
    case 3 => v4 == p[0] || v4 == p[1] || v4 == p[2]
    case 4 => v4 == p[0] || v4 == p[1] || v4 == p[2] || v4 == p[3]
    case 5 => v4 == p[0] || v4 == p[1] || v4 == p[2] || v4 == p[3] || v4 == p[4]
    case 6 => v4 == p[0] || v4 == p[1] || v4 == p[2] || v4 == p[3] || v4 == p[4] || v4 == p[5]
    case 7 => v4 == p[0] || v4 == p[1] || v4 == p[2] || v4 == p[3] || v4 == p[4] || v4 == p[5] || v4 == p[6]
    case 8 =>
      v4 == p[0] || v4 == p[1] || v4 == p[2] || v4 == p[3] || v4 == p[4] || v4 == p[5] || v4 == p[6] || v4 == p[7]
    case 9 =>
      v4 == p[0] || v4 == p[1] || v4 == p[2] || v4 == p[3] || v4 == p[4] || v4 == p[5] || v4 == p[6] || v4 == p[7]
      || v4 == p[8]
    case 10 =>
      v4 == p[0] || v4 == p[1] || v4 == p[2] || v4 == p[3] || v4 == p[4] || v4 == p[5] || v4 == p[6] || v4 == p[7]
      || v4 == p[8] || v4 == p[9]
    case 11 =>
      v4 == p[0] || v4 == p[1] || v4 == p[2] || v4 == p[3] || v4 == p[4] || v4 == p[5] || v4 == p[6] || v4 == p[7]
      || v4 == p[8] || v4 == p[9] || v4 == p[10]
    case 12 =>
      v4 == p[0] || v4 == p[1] || v4 == p[2] || v4 == p[3] || v4 == p[4] || v4 == p[5] || v4 == p[6] || v4 == p[7]
      || v4 == p[8] || v4 == p[9] || v4 == p[10] || v4 == p[11]
    case 13 =>
      v4 == p[0] || v4 == p[1] || v4 == p[2] || v4 == p[3] || v4 == p[4] || v4 == p[5] || v4 == p[6] || v4 == p[7]
      || v4 == p[8] || v4 == p[9] || v4 == p[10] || v4 == p[11] || v4 == p[12]
    case 14 =>
      v4 == p[0] || v4 == p[1] || v4 == p[2] || v4 == p[3] || v4 == p[4] || v4 == p[5] || v4 == p[6] || v4 == p[7]
      || v4 == p[8] || v4 == p[9] || v4 == p[10] || v4 == p[11] || v4 == p[12] || v4 == p[13]
    case 15 =>
      v4 == p[0] || v4 == p[1] || v4 == p[2] || v4 == p[3] || v4 == p[4] || v4 == p[5] || v4 == p[6] || v4 == p[7]
      || v4 == p[8] || v4 == p[9] || v4 == p[10] || v4 == p[11] || v4 == p[12] || v4 == p[13] || v4 == p[14]
    case 16 =>
      v4 == p[0] || v4 == p[1] || v4 == p[2] || v4 == p[3] || v4 == p[4] || v4 == p[5] || v4 == p[6] || v4 == p[7]
      || v4 == p[8] || v4 == p[9] || v4 == p[10] || v4 == p[11] || v4 == p[12] || v4 == p[13] || v4 == p[14]
      || v4 == p[15]
    case _ => false
  }

  predicate V4InPool(v4: u32, cfg: DataplaneConfig)
    requires WellFormed(cfg)
  {
    if cfg.v4PoolLen == 0 || cfg.v4PoolLen > V4_POOL_MAX then false
    else InFirst(cfg.v4PoolLen, v4, cfg.v4Pool)
  }

  lemma InFirstIsMembership(len: u32, v4: u32, p: seq<u32>)
    requires |p| == V4_POOL_MAX && 1 <= len <= V4_POOL_MAX
    ensures InFirst(len, v4, p) <==> exists i :: 0 <= i < len && p[i] == v4
  {
  }

  /** For every accepted policy and every client, the selection succeeds, is one of the
      configured addresses, and passes the reply filter; the filter passes nothing else. */
  lemma SelectionPassesFilter(p: Policy, cfg: DataplaneConfig, vm: Addr6, v4: u32)
    requires Installable(p, cfg)
    ensures V4InPool(v4, cfg) <==> v4 in p.v4Pool
    ensures var s := Selected(vm, cfg); s.Some? && s.value in p.v4Pool && V4InPool(s.value, cfg)
  {
    var n := |p.v4Pool|;
    InFirstIsMembership(cfg.v4PoolLen, v4, cfg.v4Pool);
    var idx := Remainder(Hash(vm), cfg.v4PoolLen);
    assert cfg.v4Pool[..n][idx] == cfg.v4Pool[idx];
    InFirstIsMembership(cfg.v4PoolLen, cfg.v4Pool[idx], cfg.v4Pool);
    assert forall i :: 0 <= i < n ==> cfg.v4Pool[i] == p.v4Pool[i];
  }

  // ---------- installing a policy ----------

  datatype SystemError =
    | InvalidInterfaceName
    | ReadInterfaceIndex
    | ParseInterfaceIndex
    | MissingMap
    | ConfigureMap
    | TrafficControl
    | MissingProgram
    | Program

  datatype AttachError = AlreadyAttached | NotConfigured | System(cause: SystemError) | Invalid(error: PolicyError)

  /** What the host answers: an interface index, or why there is none. */
  datatype Lookup = Index(value: u32) | NoIndex(cause: SystemError)

  /** The host while a dataplane is attached: both interfaces, the configuration map, and
      the four traffic-control steps behind it (`clsact` twice, then the two classifiers). */
  datatype Host = Host(bridge: Lookup, uplink: Lookup, map_: Option<SystemError>, clsactBridge: Option<SystemError>,
                       clsactUplink: Option<SystemError>, forward: Option<SystemError>, reverse: Option<SystemError>)

  /** The error of the first of two steps, or else of the second. */
  function Then(first: Option<SystemError>, second: Option<SystemError>): Option<SystemError> {
    if first.Some? then first else second
  }

  /** Does the host let the configuration map be written? */
  predicate Writable(h: Host) {
    h.bridge.Index? && h.uplink.Index? && h.map_ == None
  }

  function Cause(l: Lookup): Option<SystemError> {
    match l
    case Index(_) => None
    case NoIndex(cause) => Some(cause)
  }

  function SetUpFailure(h: Host): Option<SystemError> {
    Then(h.clsactBridge, Then(h.clsactUplink, Then(h.forward, h.reverse)))
  }

  /** Why an attachment fails: the first step, in the order they are taken, that does. */
  function HostFailure(h: Host): Option<SystemError> {
    Then(Cause(h.bridge), Then(Cause(h.uplink), Then(h.map_, SetUpFailure(h))))
  }

  /** The order of the steps of an attachment: both interfaces, the configuration map, `clsact`
      on both, the forward classifier, the reverse one. */
  lemma HostFailureIsFirst(h: Host)
    ensures HostFailure(h) ==
            if h.bridge.NoIndex? then Some(h.bridge.cause)
            else if h.uplink.NoIndex? then Some(h.uplink.cause)
            else if h.map_.Some? then h.map_
            else if h.clsactBridge.Some? then h.clsactBridge
            else if h.clsactUplink.Some? then h.clsactUplink
            else if h.forward.Some? then h.forward
            else h.reverse
  {
  }

  /** The loaded dataplane: whatever sits in the configuration map came from an accepted policy. */
  class Nat64 {
    var config: Option<Policy>
    var attached: bool
    var installed: Option<DataplaneConfig>

    ghost predicate Valid()
      reads this
    {
      && (config.Some? ==> Validate(config.value) == Accepted && |config.value.prefix96| == 12)
      && (attached ==> config.Some? && installed.Some?)
      && (installed.Some? ==> exists p :: Installable(p, installed.value))
    }

    constructor ()
      ensures Valid() && config == None && !attached && installed == None
    {
      config, attached, installed := None, false, None;
    }

    method Configure(p: Policy) returns (e: Option<AttachError>)
      requires Valid() && |p.prefix96| == 12
      modifies this
      ensures Valid() && attached == old(attached) && installed == old(installed)
      ensures e == if old(attached) then Some(AlreadyAttached)
                   else if Validate(p).Rejected? then Some(Invalid(Validate(p).error))
                   else None
      ensures config == if e == None then Some(p) else old(config)
    {
      if attached {
        return Some(AlreadyAttached);
      }
      var v := Validate(p);
      if v.Rejected? {
        return Some(Invalid(v.error));
      }
      config := Some(p);
      return None;
    }

    /** The policy reaches the configuration map once both interfaces are known, and stays
        there if a later step fails. */
    method Attach(h: Host) returns (e: Option<AttachError>)
      requires Valid()
      modifies this
      ensures Valid() && config == old(config)
      ensures e == if old(attached) then Some(AlreadyAttached)
                   else if old(config) == None then Some(NotConfigured)
                   else if HostFailure(h).Some? then Some(System(HostFailure(h).value))
                   else None
      ensures attached == (old(attached) || e == None)
      ensures if !old(attached) && config.Some? && Writable(h) then
                && installed.Some? && Installable(config.value, installed.value)
                && installed.value.bridge == h.bridge.value && installed.value.uplink == h.uplink.value
              else installed == old(installed)
    {
      if attached {
        return Some(AlreadyAttached);
      }
      if config == None {
        return Some(NotConfigured);
      }
      if h.bridge.NoIndex? {
        return Some(System(h.bridge.cause));
      }
      if h.uplink.NoIndex? {
        return Some(System(h.uplink.cause));
      }
      var cfg := ToDataplane(config.value, h.bridge.value, h.uplink.value);
      assert Installable(config.value, cfg);
      if h.map_.Some? {
        return Some(System(h.map_.value));
      }
      installed := Some(cfg);
      e := SetUpTrafficControl(h);
      attached := e == None;
    }
  }

  method SetUpTrafficControl(h: Host) returns (e: Option<AttachError>)
    ensures e == if SetUpFailure(h).Some? then Some(System(SetUpFailure(h).value)) else None
  {
    if h.clsactBridge.Some? {
      return Some(System(h.clsactBridge.value));
    }
    if h.clsactUplink.Some? {
      return Some(System(h.clsactUplink.value));
    }
    if h.forward.Some? {
      return Some(System(h.forward.value));
    }
    if h.reverse.Some? {
      return Some(System(h.reverse.value));
    }
    return None;
  }
}
