/** The mapping counters of one CPU: eight saturating 64-bit counters, bumped along the
    branches of a mapping request. */
module Counters {
  import opened Words

  datatype Counters = Counters(
    lookupHit: u64, refreshOk: u64, lookupMiss: u64,
    portAllocOk: u64, portAllocErr: u64, portAllocExhausted: u64,
    insertOk: u64, insertErr: u64
  )

  const ZERO := Counters(0, 0, 0, 0, 0, 0, 0, 0)

  /** How one mapping request ended. */
  datatype Request = Hit | NoPort(exhausted: bool) | NotInserted | Created

  function SatInc(x: u64): u64 {
    if x == MAX_U64 then x else x + 1
  }

  /** One more if the event happened, up to the largest 64-bit value. */
  function Bumped(x: u64, happened: bool): u64 {
    if happened && x < 0xFFFF_FFFF_FFFF_FFFF then x + 1 else x
  }

  /** What a request adds, as the branches of the program count it. */
  function Count(c: Counters, r: Request): Counters {
    match r
    case Hit => c.(lookupHit := SatInc(c.lookupHit), refreshOk := SatInc(c.refreshOk))
    case NoPort(exhausted) =>
      c.(lookupMiss := SatInc(c.lookupMiss), portAllocErr := SatInc(c.portAllocErr),
         portAllocExhausted := if exhausted then SatInc(c.portAllocExhausted) else c.portAllocExhausted)
    case NotInserted =>
      c.(lookupMiss := SatInc(c.lookupMiss), portAllocOk := SatInc(c.portAllocOk), insertErr := SatInc(c.insertErr))
    case Created =>
      c.(lookupMiss := SatInc(c.lookupMiss), portAllocOk := SatInc(c.portAllocOk), insertOk := SatInc(c.insertOk))
  }

  function CountAll(requests: seq<Request>): Counters {
    if requests == [] then ZERO
    else Count(CountAll(requests[..|requests| - 1]), requests[|requests| - 1])
  }

  /** How often each kind of request ended a run. */
  datatype Totals = Totals(hits: nat, noPorts: nat, exhausted: nat, notInserted: nat, created: nat)

  function Add(t: Totals, r: Request): Totals {
    match r
    case Hit => t.(hits := t.hits + 1)
    case NoPort(exhausted) =>
      t.(noPorts := t.noPorts + 1, exhausted := if exhausted then t.exhausted + 1 else t.exhausted)
    case NotInserted => t.(notInserted := t.notInserted + 1)
    case Created => t.(created := t.created + 1)
  }

  function TotalsOf(requests: seq<Request>): Totals {
    if requests == [] then Totals(0, 0, 0, 0, 0)
    else Add(TotalsOf(requests[..|requests| - 1]), requests[|requests| - 1])
  }

  function Saturated(n: nat): u64 {
    if n < MAX_U64 then n else MAX_U64
  }

  predicate Shows(c: Counters, t: Totals) {
    && c.lookupHit == c.refreshOk == Saturated(t.hits)
    && c.lookupMiss == Saturated(t.noPorts + t.notInserted + t.created)
    && c.portAllocErr == Saturated(t.noPorts)
    && c.portAllocExhausted == Saturated(t.exhausted)
    && c.portAllocOk == Saturated(t.notInserted + t.created)
    && c.insertErr == Saturated(t.notInserted)
    && c.insertOk == Saturated(t.created)
  }

  lemma CountShows(c: Counters, t: Totals, r: Request)
    requires Shows(c, t)
    ensures Shows(Count(c, r), Add(t, r))
  {
  }

  /** Every counter is the saturated number of the requests it stands for. */
  lemma {:induction false} CountersAreTotals(requests: seq<Request>)
    ensures Shows(CountAll(requests), TotalsOf(requests))
    ensures TotalsOf(requests).exhausted <= TotalsOf(requests).noPorts
  {
    if requests != [] {
      CountersAreTotals(requests[..|requests| - 1]);
      CountShows(CountAll(requests[..|requests| - 1]), TotalsOf(requests[..|requests| - 1]), requests[|requests| - 1]);
    }
  }

  /** What is conserved while no counter has saturated. */
  predicate Conserved(c: Counters) {
    && c.lookupMiss == c.portAllocOk + c.portAllocErr
    && c.portAllocOk == c.insertOk + c.insertErr
    && c.lookupHit == c.refreshOk
    && c.portAllocExhausted <= c.portAllocErr
  }

  /** Conservation over every run of requests whose misses have not saturated. */
  lemma {:induction false} Conservation(requests: seq<Request>)
    requires CountAll(requests).lookupMiss < MAX_U64
    ensures Conserved(CountAll(requests))
  {
    CountersAreTotals(requests);
  }
}
