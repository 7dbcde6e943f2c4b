/**
 The ping state store: the latest probe record for each target, replaced as a
 whole on every update. The store's lock makes each operation atomic, so each
 one is a function from state to state here.
 */
module PingStore {
  import opened StatusTypes

  /** The latest observation of one target. */
  datatype PingRecord = PingRecord(ok: bool, latency: Option<Latency>, ts: Option<Instant>)

  datatype PingState = PingState(latest: map<string, PingRecord>)

  /** The record every configured target starts with: not reachable, never checked. */
  const Unchecked := PingRecord(false, None, None)

  /** A latency is recorded only for a target that answered. */
  predicate LatencyOnlyWhenOk(st: PingState)
  {
    forall t | t in st.latest :: st.latest[t].latency.Some? ==> st.latest[t].ok
  }

  /** The store as built from the configured target list (duplicates collapse). */
  function Init(targets: seq<string>): (st: PingState)
    ensures forall t :: t in st.latest <==> t in targets
    ensures forall t | t in targets :: !st.latest[t].ok && st.latest[t].latency.None? && st.latest[t].ts.None?
    ensures LatencyOnlyWhenOk(st)
  {
    PingState(map t | t in targets :: Unchecked)
  }

  /**
   Replaces the record of `target` with a fresh one stamped `now`; a target
   that was not configured gains an entry.
   */
  function Update(st: PingState, target: string, ok: bool, latency: Option<Latency>, now: Instant): (st': PingState)
    ensures st'.latest.Keys == st.latest.Keys + {target}
    ensures st'.latest[target] == PingRecord(ok, latency, Some(now))
    ensures forall t | t in st.latest && t != target :: st'.latest[t] == st.latest[t]
    ensures LatencyOnlyWhenOk(st) && (latency.Some? ==> ok) ==> LatencyOnlyWhenOk(st')
  {
    PingState(st.latest[target := PingRecord(ok, latency, Some(now))])
  }

  /** A copy of the whole mapping for the renderer; with values, the copy is the map itself. */
  function Snapshot(st: PingState): (copy: map<string, PingRecord>)
  {
    st.latest
  }

  /** Updates of two different targets do not interfere: their order does not matter. */
  lemma UpdatesCommute(st: PingState, a: string, okA: bool, latA: Option<Latency>, nowA: Instant,
                       b: string, okB: bool, latB: Option<Latency>, nowB: Instant)
    requires a != b
    ensures Update(Update(st, a, okA, latA, nowA), b, okB, latB, nowB)
         == Update(Update(st, b, okB, latB, nowB), a, okA, latA, nowA)
  {
  }

  /** A second update of the same target discards the first entirely. */
  lemma LatestUpdateWins(st: PingState, t: string, ok1: bool, lat1: Option<Latency>, now1: Instant,
                         ok2: bool, lat2: Option<Latency>, now2: Instant)
    ensures Update(Update(st, t, ok1, lat1, now1), t, ok2, lat2, now2) == Update(st, t, ok2, lat2, now2)
  {
  }
}
