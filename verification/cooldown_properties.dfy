/**
  Properties of the cooldown state machine that relate several records or
  several calls: the window invariants a check preserves, and what a sequence
  of checks on one manager does.
 */
module CooldownProperties {
  import opened Cooldown

  /** Every window ends no earlier than it starts. */
  ghost predicate Ordered(s: State)
  {
    forall h :: h in s ==> s[h].start <= s[h].end
  }

  /** A record as a cycle leaves it: the window lasts exactly the configured
      duration, and it begins no later than one execution period after the
      last trigger. */
  predicate Consistent(cfg: Config, rec: Record)
  {
    && rec.end == rec.start + cfg.cooldownDuration
    && rec.start <= rec.trigger + cfg.executionPeriod
  }

  ghost predicate AllConsistent(cfg: Config, s: State)
  {
    forall h :: h in s ==> Consistent(cfg, s[h])
  }

  /** No trigger recorded in `s` lies after `now`. */
  ghost predicate TriggersNotAfter(s: State, now: int)
  {
    forall h :: h in s ==> s[h].trigger <= now
  }

  /** A check keeps every window ordered when the cooldown duration is not
      negative. */
  lemma CheckKeepsOrdered(cfg: Config, s: State, g: string, now: int, responseTime: Option<int>)
    requires cfg.cooldownDuration >= 0
    requires Ordered(s)
    ensures Ordered(CheckAndUpdate(cfg, s, g, now, responseTime).state)
  {
  }

  /** A check at a time no earlier than the group's last trigger keeps every
      record consistent. */
  lemma CheckKeepsConsistent(cfg: Config, s: State, g: string, now: int, responseTime: Option<int>)
    requires AllConsistent(cfg, s)
    requires g in s ==> s[g].trigger <= now
    ensures AllConsistent(cfg, CheckAndUpdate(cfg, s, g, now, responseTime).state)
  {
  }

  /** A timeout reset really restarts the cycle: for a consistent record and
      a non-negative response time, the new window begins strictly later than
      the old one. */
  lemma TimeoutResetMovesWindow(cfg: Config, s: State, g: string, now: int, rt: int)
    requires g in s && Consistent(cfg, s[g])
    requires rt >= 0
    requires now - s[g].trigger > rt && now < s[g].start
    ensures CheckAndUpdate(cfg, s, g, now, Some(rt)).state[g].start > s[g].start
    ensures CheckAndUpdate(cfg, s, g, now, Some(rt)).verdict == Allowed
  {
  }

  /** The timeout test reads the trigger from before the call: a check that
      times out against the previous trigger restarts the cycle, while the
      record it leaves would not time out at the same moment, since its
      trigger is now `now`. */
  lemma TimeoutNeedsPreviousTrigger(cfg: Config, s: State, g: string, now: int, rt: int)
    requires g in s && PhaseAt(s[g], now) == Armed && TimedOut(s[g], now, Some(rt))
    requires rt >= 0
    ensures CheckAndUpdate(cfg, s, g, now, Some(rt)).state[g] == Cycle(cfg, now)
    ensures !TimedOut(CheckAndUpdate(cfg, s, g, now, Some(rt)).state[g], now, Some(rt))
  {
  }

  /** For a consistent record and a non-negative cooldown duration, the
      remaining time a check reports never exceeds the configured duration. */
  lemma RemainingWithinDuration(cfg: Config, s: State, g: string, now: int, responseTime: Option<int>)
    requires g in s ==> Consistent(cfg, s[g])
    requires cfg.cooldownDuration >= 0
    ensures CheckAndUpdate(cfg, s, g, now, responseTime).verdict.remaining <= cfg.cooldownDuration
  {
  }

  /** One request the dispatcher makes of the manager. */
  datatype Call = Call(group: string, now: int, responseTime: Option<int>)

  /** The state left by a sequence of checks, and their verdicts in order. */
  datatype Session = Session(state: State, verdicts: seq<Verdict>)

  /** The groups a sequence of calls touches. */
  ghost predicate Touches(calls: seq<Call>, g: string)
  {
    exists i :: 0 <= i < |calls| && calls[i].group == g
  }

  /** Consecutive calls never go back in time. */
  ghost predicate InTimeOrder(calls: seq<Call>)
  {
    forall i, j :: 0 <= i < j < |calls| ==> calls[i].now <= calls[j].now
  }

  /** Applies the checks in `calls` one after the other to the same manager. */
  function Run(cfg: Config, s: State, calls: seq<Call>): (r: Session)
    ensures |r.verdicts| == |calls|
    ensures forall h :: h in r.state <==> h in s || Touches(calls, h)
    decreases |calls|
  {
    if |calls| == 0 then Session(s, [])
    else
      var c := calls[0];
      var first := CheckAndUpdate(cfg, s, c.group, c.now, c.responseTime);
      var rest := Run(cfg, first.state, calls[1..]);
      assert forall h :: Touches(calls, h) <==> h == c.group || Touches(calls[1..], h) by {
        forall h
          ensures Touches(calls, h) <==> h == c.group || Touches(calls[1..], h)
        {
          if Touches(calls, h) && h != c.group {
            var i :| 0 <= i < |calls| && calls[i].group == h;
            assert calls[1..][i - 1].group == h;
          }
          if Touches(calls[1..], h) {
            var i :| 0 <= i < |calls[1..]| && calls[1..][i].group == h;
            assert calls[i + 1].group == h;
          }
        }
      }
      Session(rest.state, [first.verdict] + rest.verdicts)
  }

  /** Checks on other groups never alter, create or remove `b`'s record. */
  lemma {:induction false} RunLeavesOtherGroups(cfg: Config, s: State, calls: seq<Call>, b: string)
    requires forall i :: 0 <= i < |calls| ==> calls[i].group != b
    ensures b in Run(cfg, s, calls).state <==> b in s
    ensures b in s ==> Run(cfg, s, calls).state[b] == s[b]
    decreases |calls|
  {
    if |calls| > 0 {
      var c := calls[0];
      var first := CheckAndUpdate(cfg, s, c.group, c.now, c.responseTime);
      RunLeavesOtherGroups(cfg, first.state, calls[1..], b);
    }
  }

  /** Any sequence of checks keeps every window ordered. */
  lemma {:induction false} RunKeepsOrdered(cfg: Config, s: State, calls: seq<Call>)
    requires cfg.cooldownDuration >= 0
    requires Ordered(s)
    ensures Ordered(Run(cfg, s, calls).state)
    decreases |calls|
  {
    if |calls| > 0 {
      var c := calls[0];
      CheckKeepsOrdered(cfg, s, c.group, c.now, c.responseTime);
      var first := CheckAndUpdate(cfg, s, c.group, c.now, c.responseTime);
      RunKeepsOrdered(cfg, first.state, calls[1..]);
    }
  }

  /** While the clock only moves forward, any sequence of checks keeps every
      record consistent. */
  lemma {:induction false} RunKeepsConsistent(cfg: Config, s: State, calls: seq<Call>)
    requires AllConsistent(cfg, s)
    requires InTimeOrder(calls)
    requires |calls| > 0 ==> TriggersNotAfter(s, calls[0].now)
    ensures AllConsistent(cfg, Run(cfg, s, calls).state)
    decreases |calls|
  {
    if |calls| > 0 {
      var c := calls[0];
      CheckKeepsConsistent(cfg, s, c.group, c.now, c.responseTime);
      var first := CheckAndUpdate(cfg, s, c.group, c.now, c.responseTime);
      if |calls| > 1 {
        assert calls[1..][0] == calls[1];
        forall h | h in first.state
          ensures first.state[h].trigger <= calls[1].now
        {
          if h != c.group {
            assert first.state[h] == s[h];
          }
        }
      }
      RunKeepsConsistent(cfg, first.state, calls[1..]);
    }
  }

  /** Repeated checks of one group inside its cooldown window report the rest
      of that window each time, leave the window where it is, and the
      remaining time strictly decreases as the clock advances. */
  lemma {:induction false} CooldownCountsDown(cfg: Config, s: State, g: string, calls: seq<Call>)
    requires g in s
    requires forall i :: 0 <= i < |calls| ==> calls[i].group == g && s[g].start <= calls[i].now < s[g].end
    requires forall i, j :: 0 <= i < j < |calls| ==> calls[i].now < calls[j].now
    ensures g in Run(cfg, s, calls).state
    ensures Run(cfg, s, calls).state[g].start == s[g].start
    ensures Run(cfg, s, calls).state[g].end == s[g].end
    ensures forall i :: 0 <= i < |calls| ==>
              Run(cfg, s, calls).verdicts[i] == Verdict(true, s[g].end - calls[i].now)
    ensures forall i, j :: 0 <= i < j < |calls| ==>
              0 < Run(cfg, s, calls).verdicts[j].remaining < Run(cfg, s, calls).verdicts[i].remaining
    decreases |calls|
  {
    if |calls| > 0 {
      var c := calls[0];
      assert PhaseAt(s[g], c.now) == Cooling;
      var first := CheckAndUpdate(cfg, s, c.group, c.now, c.responseTime);
      CooldownCountsDown(cfg, first.state, g, calls[1..]);
      var r := Run(cfg, s, calls);
      var rest := Run(cfg, first.state, calls[1..]);
      assert r.verdicts == [first.verdict] + rest.verdicts;
      forall i | 0 <= i < |calls|
        ensures r.verdicts[i] == Verdict(true, s[g].end - calls[i].now)
      {
        if i > 0 {
          assert calls[1..][i - 1] == calls[i];
        }
      }
    }
  }

  /** The life of one group with an execution period of 10 seconds and a
      cooldown of 5: first sight, a check inside the execution window, a
      timeout reset, a check inside the cooldown window, and one after it.
      The record goes (100, 110, 115), (103, 110, 115), (109, 119, 124),
      (120, 119, 124), (124, 134, 139). */
  lemma GroupLifecycle()
    ensures var cfg := Config(10, 5);
            var calls := [Call("g", 100, None), Call("g", 103, None), Call("g", 109, Some(5)),
                          Call("g", 120, None), Call("g", 124, None)];
            var r := Run(cfg, map[], calls);
            && r.verdicts == [Allowed, Allowed, Allowed, Verdict(true, 4), Allowed]
            && r.state["g"] == Record(124, 134, 139)
  {
  }
}
