/**
  The per-group cooldown state machine of `CooldownManager`.

  The manager keeps a map from group id to a record of three timestamps
  (whole seconds). Every call of `CheckAndUpdate` refreshes the group's trigger
  time and then decides, from the timestamps read before that refresh, whether
  the group is still in its execution window, in its cooldown window, or past
  it. The wall clock is an explicit `now` argument, so each call is a pure step
  from one state to the next.
 */
module Cooldown {

  /** The optional `response_time` argument of a check. */
  datatype Option<+T> = None | Some(value: T)

  /** One group's record: its last trigger time, when its cooldown window
      begins and when that window ends. */
  datatype Record = Record(trigger: int, start: int, end: int)

  /** The two durations fixed when the manager is constructed. */
  datatype Config = Config(executionPeriod: int, cooldownDuration: int)

  /** The manager's in-memory mapping from group id to record. */
  type State = map<string, Record>

  /** What a check answers: whether the group is cooling down, and for how
      many more seconds (0 when it is not). */
  datatype Verdict = Verdict(inCooldown: bool, remaining: int)

  /** The outcome of one check: the new mapping, the verdict, and every
      snapshot of the mapping written to the store during the call, in order. */
  datatype Step = Step(state: State, verdict: Verdict, saved: seq<State>)

  /** The answer of every branch that lets the command through. */
  const Allowed := Verdict(false, 0)

  /** The three logical phases of a group, read off its timestamps. */
  datatype Phase = Armed | Cooling | Expired

  function PhaseAt(rec: Record, now: int): Phase
  {
    if now < rec.start then Armed
    else if now < rec.end then Cooling
    else Expired
  }

  /** The caller's response time elapsed since the trigger recorded in `rec`. */
  predicate TimedOut(rec: Record, now: int, responseTime: Option<int>)
  {
    responseTime.Some? && now - rec.trigger > responseTime.value
  }

  /** The record of a cooldown cycle begun at `now`. */
  function Cycle(cfg: Config, now: int): Record
  {
    Record(now, now + cfg.executionPeriod, now + cfg.executionPeriod + cfg.cooldownDuration)
  }

  /** Records a trigger at `now` for a known group; an unknown group is left
      absent. */
  function UpdateTrigger(s: State, g: string, now: int): (s': State)
    ensures s'.Keys == s.Keys
    ensures g in s ==> s'[g].trigger == now && s'[g].start == s[g].start && s'[g].end == s[g].end
    ensures forall h :: h in s && h != g ==> s'[h] == s[h]
  {
    if g in s then s[g := s[g].(trigger := now)] else s
  }

  /** Begins a new cooldown window at `now`. A known group keeps its trigger
      time; a new group gets a record whose trigger is `now`. */
  function StartCooldown(cfg: Config, s: State, g: string, now: int): (s': State)
    ensures s'.Keys == s.Keys + {g}
    ensures s'[g].start == now + cfg.executionPeriod
    ensures s'[g].end == s'[g].start + cfg.cooldownDuration
    ensures g in s ==> s'[g].trigger == s[g].trigger
    ensures g !in s ==> s'[g] == Cycle(cfg, now)
    ensures forall h :: h in s && h != g ==> s'[h] == s[h]
  {
    var start := now + cfg.executionPeriod;
    var end := start + cfg.cooldownDuration;
    if g in s then s[g := s[g].(start := start, end := end)]
    else s[g := Record(now, start, end)]
  }

  /** One call of the check. The timeout test uses the trigger time read
      before this call's own trigger update. */
  function CheckAndUpdate(cfg: Config, s: State, g: string, now: int, responseTime: Option<int>): (r: Step)
    // frame: only g's entry may change, and no key is ever removed
    ensures r.state.Keys == s.Keys + {g}
    ensures forall h :: h in s && h != g ==> r.state[h] == s[h]
    // every branch leaves g's trigger at now
    ensures r.state[g].trigger == now
    // the flag and the remaining time agree
    ensures r.verdict.inCooldown <==> r.verdict.remaining != 0
    ensures 0 <= r.verdict.remaining
    // write-through: the last snapshot written is the final state
    ensures |r.saved| >= 1 && r.saved[|r.saved| - 1] == r.state
    // a known group's refreshed trigger is written before anything else
    ensures g in s ==> r.saved[0] == UpdateTrigger(s, g, now)
    // a new group's record is written once
    ensures g !in s ==> r.saved == [r.state]
    // an unknown group starts its first cycle
    ensures g !in s ==> r.verdict == Allowed && r.state[g] == Cycle(cfg, now)
    // execution window, no timeout: allowed, window untouched
    ensures g in s && PhaseAt(s[g], now) == Armed && !TimedOut(s[g], now, responseTime) ==>
              r.verdict == Allowed && r.state[g] == s[g].(trigger := now)
    // execution window, timed out since the previous trigger: the cycle restarts
    ensures g in s && PhaseAt(s[g], now) == Armed && TimedOut(s[g], now, responseTime) ==>
              r.verdict == Allowed && r.state[g] == Cycle(cfg, now)
    // cooldown window: blocked for the rest of the window, window untouched
    ensures g in s && PhaseAt(s[g], now) == Cooling ==>
              && r.verdict == Verdict(true, s[g].end - now)
              && 0 < r.verdict.remaining <= s[g].end - s[g].start
              && r.state[g] == s[g].(trigger := now)
    // past the window: allowed, and the cycle restarts at now
    ensures g in s && PhaseAt(s[g], now) == Expired ==>
              r.verdict == Allowed && r.state[g] == Cycle(cfg, now)
  {
    if g in s then
      var prev := s[g];
      var touched := UpdateTrigger(s, g, now);
      if responseTime.Some? && now - prev.trigger > responseTime.value && now < prev.start then
        var s' := StartCooldown(cfg, touched, g, now);
        Step(s', Allowed, [touched, s'])
      else if now < prev.start then
        Step(touched, Allowed, [touched])
      else if now < prev.end then
        Step(touched, Verdict(true, prev.end - now), [touched])
      else
        var s' := StartCooldown(cfg, touched, g, now);
        Step(s', Allowed, [touched, s'])
    else
      var s' := StartCooldown(cfg, s, g, now);
      Step(s', Allowed, [s'])
  }
}
