# Cooldown manager — Dafny model

This project models `CooldownManager`, the per-group cooldown tracker of a chat-bot command plugin.
The manager keeps a map from group id to a record of three timestamps in whole seconds:

- the last command trigger;
- when the group's cooldown window begins;
- when that window ends.

Each call of `check_and_update_cooldown(group_id, response_time)` does three things:

1. It records the trigger.
2. It decides whether the command is allowed, or blocked with some seconds left.
3. When the group is new, has timed out, or is past its window, it starts a fresh cooldown cycle.

A fresh cycle begins the window one execution period after the call. The window lasts the cooldown duration.

In the model, the wall clock is an explicit `now` argument. Each call is a pure step `CheckAndUpdate(cfg, state, group, now, responseTime)`. It returns the new map, the verdict `(inCooldown, remaining)`, and the snapshots of the map that the call writes to the store. The module `Cooldown` (`cooldown.dfy`) holds the data model and the three operations of `cooldown.py`. The module `CooldownProperties` (`cooldown_properties.dfy`) holds the following:

- the invariants a check keeps;
- `Run`, which applies a sequence of checks to one manager as the command dispatcher would;
- lemmas about such sequences.

The verdict of a known group depends on the phase of its record at `now`, as `PhaseAt` defines it:

- *armed* before the window;
- *cooling* inside it;
- *expired* at or after its end.

The timeout reset compares `now` with the trigger time read *before* the call records its own trigger. The model keeps that order: the test is made against the stored record `s[g]`, not the updated one.

## Model

| member | source | states |
|---|---|---|
| Cooldown.CheckAndUpdate | cooldown.py:45-74 | Only the checked group's entry changes, and no key is removed. The group's trigger ends at `now` in every branch. `inCooldown` holds exactly when `remaining` is non-zero, and `remaining` is never negative. The final map is the last snapshot written. For a known group, the first snapshot is the map with only the trigger refreshed. A new group's record is written exactly once. An unknown group gets a full cycle from `now` and is allowed. If armed and not timed out against the previous trigger: allowed, window unchanged. If armed and timed out: allowed, and the cycle restarts at `now`. If cooling: blocked with `end - now` seconds left, which is positive and at most the window length, and the window is unchanged. If expired: allowed, and the cycle restarts at `now`. |
| Cooldown.UpdateTrigger | cooldown.py:76-83 | A known group's trigger becomes `now` and its window is unchanged. No key is added or removed. Every other entry is unchanged. |
| Cooldown.StartCooldown | cooldown.py:85-102 | The group's window starts at `now + execution_period` and ends `cooldown_duration` later. A known group keeps its trigger time. A new group is created with trigger `now`. The key set gains only this group, and other entries are unchanged. |
| CooldownProperties.CheckKeepsOrdered | cooldown.py:89-95 | When the cooldown duration is non-negative, a check leaves every window with `start <= end`. |
| CooldownProperties.CheckKeepsConsistent | cooldown.py:54-95 | A check at or after the group's last trigger keeps every record consistent: each window lasts exactly the cooldown duration, and starts no later than one execution period after the record's trigger. |
| CooldownProperties.TimeoutResetMovesWindow | cooldown.py:56-63 | For a consistent record and a non-negative response time, a timeout reset answers allowed. The new window starts strictly later than the old one, so the cycle really restarts. |
| CooldownProperties.TimeoutNeedsPreviousTrigger | cooldown.py:56-63 | In the execution window, a check that times out against the trigger read before the update (non-negative response time) restarts the cycle at `now`. The record it leaves would not time out at the same moment, because its trigger is now `now`. So the reset fires only because the test uses the previous trigger. |
| CooldownProperties.RemainingWithinDuration | cooldown.py:64-71 | For a consistent record and a non-negative cooldown duration, the remaining time a check reports is at most the configured cooldown duration. |
| CooldownProperties.Run | cooldown.py:45-74 | A sequence of checks on one manager yields one verdict per call. The final keys are exactly the initial keys plus the groups the calls name. |
| CooldownProperties.RunLeavesOtherGroups | cooldown.py:81-101 | Checks that never name group `b` neither create, remove nor alter `b`'s record. |
| CooldownProperties.RunKeepsOrdered | cooldown.py:91-92 | When the cooldown duration is non-negative, any sequence of checks keeps `start <= end` for every record. |
| CooldownProperties.RunKeepsConsistent | cooldown.py:89-95 | Any sequence of checks in time order, starting no earlier than any stored trigger, keeps every record consistent. |
| CooldownProperties.CooldownCountsDown | cooldown.py:66-68 | Checks of one group at increasing times inside its cooldown window each report `(true, end - now)`. They leave the window where it was, and the remaining time strictly decreases from call to call. |
| CooldownProperties.GroupLifecycle | cooldown.py:54-74 | With a 10 s execution period and a 5 s cooldown, one group is checked at 100, 103, 109 (response time 5), 120 and 124. The answers are allowed, allowed, allowed (a timeout reset), blocked with 4 s left, and allowed (expiry). The last check leaves the record `(124, 134, 139)`. |

## Left out

- `load_cooldowns` and `save_cooldowns` (cooldown.py:20-43): file I/O and JSON encoding. A save is modelled only as the snapshot of the map it would write (`Step.saved`). The JSON round trip, the empty and missing file cases, and write failures are not modelled.
- `time.time()` (cooldown.py:54, 80, 89): replaced by one `now` argument per check. The source reads the clock again inside `update_trigger` and `start_cooldown`, and the model takes all three readings as equal.
- `async`/`await`: each check is one sequential step, and no interleaving of calls is modelled.
- Configuration checks: the source accepts any integers for `execution_period` and `cooldown_duration`, and so does the model. The properties that need a non-negative duration say so in their `requires`.
- Trigger on a cycle restart: `start_cooldown` computes `command_trigger = current_time` (cooldown.py:90) but stores it only when it creates a record (cooldown.py:97-101). An existing record keeps its trigger (cooldown.py:93-95). Inside a check the trigger was already set to `now` at cooldown.py:59, so the record a check leaves is `Cycle(cfg, now)` either way.
