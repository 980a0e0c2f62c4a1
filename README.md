# Causal intervention server: the intervention lifecycle in Dafny

The causal intervention server decides when to inject a synthetic
"intervention" into a running simulation (fix the hand or the ball at a
position, or prevent collisions) and tells the simulation client about it
through polling. Its whole logic is a small state machine over three
module-level variables: the current intervention slot, the append-only
intervention history and `lastInterventionEndTime`, with a fixed 5000 ms
cooldown between interventions and a 2000 ms grace window for re-sending
restore commands.

This project models that state machine:

- `decision.dfy`, module `DecisionEngine`: `processEvents` as the
  specification function `Decide` and the method `ProcessEvents` proved equal
  to it; its scanning loop over the last three events is the method
  `ScanRecent`, proved equal to the specification function `ScanMovement`. The random
  draws (`Math.random()`) are the explicit record `Draws`: the 50% roll, the
  kind index in 0..2, the two jitter offsets in [-50, 50) and the 30% roll.
- `lifecycle.dfy`, module `Lifecycle`: the class `Server` with the three
  state variables as fields and one method per handler body:
  `Submit` (`/process_events`), `Poll` (`/get_interventions`), `Force`
  (`/force_intervention/:type`), `Snapshot` (`/debug/history`) and
  `TimerFire` (the `setTimeout` expiry callback). Activated interventions are
  objects of class `Intervention` whose `active` flag is cleared in place; the
  history holds the same objects. Every method preserves `Valid()`: the slot
  is occupied only by an active intervention, which is the last history entry.
- `scenarios.dfy`, module `Scenarios`: client runs from a fresh server that
  fix the reply of each handler along a lifecycle.

Behaviour of the code that the model keeps as it is:

- The expiry callback does not check which intervention it was armed for. A
  timer armed for an earlier intervention clears a newer forced one before
  its deadline (`Scenarios.StaleTimerClearsForcedIntervention`). A design in
  which the timer compares the slot's identity first is not what the code
  does, so the model has no identity check.
- `Force` overwrites an active intervention without clearing its `active`
  flag, so that record stays active in the history for good.
- The activation in `/process_events` does not re-check the slot or the
  cooldown; it relies on `processEvents` having done so. `Submit` still
  proves that an organic activation only fills an empty slot after the
  cooldown.
- Restore delivery is not guaranteed. A record that `Force` overwrites is
  never deactivated, so no restore is ever issued for it (a restore issued
  for a newer intervention of the same type cannot be told apart from one).
  Polls from the overwritten record's deadline on can get nothing: when the
  newer intervention ended more than 2000 ms before that deadline
  (`Scenarios.OverwrittenForcedGetsNoRestore`); if it ended less than
  2000 ms before, the grace window still answers with a bare restore. A
  stale timer ends a forced intervention early, and the grace window then
  opens when that timer fires, not at the record's own deadline.
- A `null` element among the last three events makes `processEvents` throw a
  TypeError when the 50% roll fails; `/process_events` answers 500 and
  changes nothing. The model keeps this path (`Outcome.Threw`,
  `SubmitReply.ServerError`).

## Model

| member | source | states |
|---|---|---|
| DecisionEngine.Decide | causal-intervention-server.js:23-126 | no proposal while the slot holds an active intervention or within 5000 ms of the last end; otherwise at most one proposal, each well formed (duration 5000, collision prevented with no target, hand and ball fixed within ±50 of (200,150) and (100,100)); a throw exactly when both gates are open, the 50% roll failed and a recent event is null |
| DecisionEngine.Fallback | causal-intervention-server.js:93-125 | the fallback throws iff a recent event is null; otherwise it proposes nothing or the movement proposal, the latter iff some recent event moves and the 30% roll fires |
| DecisionEngine.ProcessEvents | causal-intervention-server.js:23-126 | the procedure with its scanning loop returns exactly what `Decide` specifies |
| DecisionEngine.ScanMovement | causal-intervention-server.js:95-105 | the scan throws iff a recent event is null; otherwise hand (ball) movement is reported iff some recent event has a moving hand (ball) velocity component |
| DecisionEngine.ScanRecent | causal-intervention-server.js:95-105 | the loop over the recent events returns exactly what `ScanMovement` specifies |
| DecisionEngine.LastThree | causal-intervention-server.js:99 | the recent events are the suffix of length min(3, n) |
| DecisionEngine.RandomProposal | causal-intervention-server.js:43-90 | the unconditional trigger proposes the kind at the drawn index of [hand, ball, collision], fully populated and within the jitter box |
| DecisionEngine.MovingIffAboveOne | causal-intervention-server.js:101-104 | a velocity component counts iff present with magnitude strictly greater than 1 |
| DecisionEngine.RollDecidesFirst | causal-intervention-server.js:42-108 | once both gates are open, a successful 50% roll gives the random proposal and the fallback is reached only when it fails |
| DecisionEngine.OnlyLastThreeInspected | causal-intervention-server.js:98-105 | events before the last three never change the decision |
| DecisionEngine.DecideReadsLastThree | causal-intervention-server.js:98-105 | every batch, of any length, gets the same decision as its last three events alone |
| DecisionEngine.MovementFallback | causal-intervention-server.js:107-125 | after a failed 50% roll a proposal comes iff the recent events are non-null, one of them moves and the 30% roll fires; it is the hand fixed at (200,150) |
| DecisionEngine.QuietShortBatch | causal-intervention-server.js:42-125 | fewer than three quiet events after the cooldown: a proposal comes iff the 50% roll fires |
| DecisionEngine.InitialCooldownPasses | causal-intervention-server.js:16-37 | with the initial end time 0, any time from 5000 ms passes the cooldown check |
| Lifecycle.ForcedProposal | causal-intervention-server.js:251-288 | exactly `hand`, `ball` and `collision` are accepted, giving the hand at (200,150), the ball at (150,100) or a prevented collision, with the requested duration |
| Lifecycle.CooldownRemaining | causal-intervention-server.js:318-326 | the remaining cooldown is non-negative, positive iff less than 5000 ms have passed since the last end, and then ends exactly 5000 ms after it |
| Lifecycle.CooldownReportAgreesWithDecide | causal-intervention-server.js:318-326 | the debug cooldown flag is on exactly when the decision's cooldown check suppresses every proposal |
| Lifecycle.Intervention.constructor | causal-intervention-server.js:147-152 | an activated record copies the proposal, is active, stamped `now` and expires at `now + duration` |
| Lifecycle.Server.constructor | causal-intervention-server.js:12-17 | the server starts with an empty slot, an empty history and end time 0 |
| Lifecycle.Server.Submit | causal-intervention-server.js:129-180 | a non-array payload or a throw changes nothing; a proposal fills the slot with a fresh active record expiring at `now + duration` and appends exactly it to the history; the reply is the proposal list; an organic activation only fills an empty slot after the cooldown |
| Lifecycle.Server.TimerFire | causal-intervention-server.js:159-166 | the callback (also at 302-308) clears whatever occupies the slot, marks it inactive and sets the end time to `now`, leaving the history as it is; on an empty slot it does nothing |
| Lifecycle.Server.Poll | causal-intervention-server.js:182-242 | an unexpired active record is returned with no change; an expired one is deactivated and cleared, the end time set to `now` and one restore naming its type appended and returned; an empty slot yields a bare restore iff within 2000 ms of the last end, else nothing, and changes nothing |
| Lifecycle.Server.Force | causal-intervention-server.js:245-313 | an unknown type is rejected with no change; a known one overwrites the slot whatever it holds and whatever the cooldown, and appends exactly the new record |
| Lifecycle.Server.Snapshot | causal-intervention-server.js:316-330 | returns the slot and the history unchanged and the cooldown remaining, active iff less than 5000 ms since the last end |
| Scenarios.ForcedHandLifecycle | causal-intervention-server.js:182-313 | a forced 1000 ms hand intervention is reported active, a poll at its deadline returns a restore naming the hand, and an organic trigger in the next 5000 ms is suppressed |
| Scenarios.GraceWindowAfterTimer | causal-intervention-server.js:222-240 | after a timer ends an intervention, polls within 2000 ms get a bare restore and later polls nothing |
| Scenarios.StaleTimerClearsForcedIntervention | causal-intervention-server.js:159-166 | an organic intervention's timer clears a newer 60 s forced intervention 56 s before its deadline (deactivated, slot empty, only a bare restore), and the overwritten organic record stays active in the history |
| Scenarios.OverwrittenForcedGetsNoRestore | causal-intervention-server.js:291-309 | a forced hand record overwritten by a forced ball stays active, and once the ball's timer and then the hand's timer have fired, polls at and 1999 ms after the hand's deadline get nothing: no restore ever names the hand |

## Left out

- The HTTP layer: Express routing, body parsing, CORS, status codes, JSON serialisation and `app.listen`. Replies are datatypes naming which response is sent.
- Logging: every `console.log` and the rounding done only for log messages.
- Real timers: `setTimeout` is replaced by `TimerFire`, which the environment may call at any time. The model does not track which timers are pending or their due times, so it allows firings the real event loop would not produce.
- Restore delivery for every ended intervention is not stated as a property. The code does not keep it for overwritten or early-cleared interventions (see above), and since `TimerFire` may fire at any time, the model cannot state even the organic case: a timer may end the intervention long before a poll.
- `Date.now()`: each handler takes one `now`; the two separate calls at lines 149/151 and 293/295 are taken as the same instant.
- `Math.random()`: the draws are parameters; their probabilities, and the statistical claim that about half of the quiet batches trigger, are not modelled. Coordinates and jitter are reals; the jitter range [-50, 50) is the type `Jitter`.
- `parseInt(req.query.duration || 5000)`: the duration is taken as an integer; the default of 5000 and NaN from unparsable text are not modelled.
- `remainingSec` in the debug snapshot: floating-point rounding of a derived value.
- Velocity fields are modelled as optional numbers. Other JSON values that JavaScript coerces (a numeric string passed to `Math.abs`, booleans) are not modelled.
- Exceptions other than the TypeError from a `null` event inside `processEvents` (the `try`/`catch` of `/process_events`) are not modelled.
- The constant fields of records: `node` and `originalNode` always equal `type` and `originalType`; `forceRestore: true` and `isRestoreCommand: true` never vary. They are represented by the kind and the datatype constructor.
