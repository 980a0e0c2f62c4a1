/** The decision procedure of the causal intervention server (`processEvents`):
    given a batch of observation events, whether an intervention is already
    active, the end time of the last intervention and the random draws, it
    proposes zero or one intervention.

    `Math.random()` is replaced by the explicit `Draws` record and `Date.now()`
    by the parameter `now` (milliseconds). */
module DecisionEngine {

  datatype Option<+T> = None | Some(value: T)

  /** The three intervention types, in the order of the `interventionTypes` array. */
  datatype Kind = HandPosition | BallPosition | Collision

  datatype Action = Fix | Prevent

  datatype Point = Point(x: real, y: real)

  /** An intervention proposal. Its `type` and `node` are the same string in
      every proposal the server builds, so `kind` stands for both. */
  datatype Proposal = Proposal(kind: Kind, action: Action, target: Option<Point>, duration: int, reason: string)

  /** One element of the submitted `events` array: JSON `null`, or an object
      whose velocity fields may be absent. */
  datatype Event =
    | NullEvent
    | Sample(handVx: Option<real>, handVy: Option<real>, ballVx: Option<real>, ballVy: Option<real>)

  /** `Math.floor(Math.random() * 3)` */
  type KindIndex = i: nat | i < 3

  /** `Math.random() * 100 - 50` */
  type Jitter = r: real | -50.0 <= r < 50.0

  /** The random draws of one call: `trigger` is `Math.random() < 0.5`,
      `movementRoll` is `Math.random() < 0.3`. */
  datatype Draws = Draws(trigger: bool, kindIndex: KindIndex, jitterX: Jitter, jitterY: Jitter, movementRoll: bool)

  /** What `processEvents` does: return a list of proposals, or throw a
      TypeError (reading a velocity field of a `null` event). */
  datatype Outcome = Decided(proposals: seq<Proposal>) | Threw

  const CooldownMs: int := 5000
  const DurationMs: int := 5000
  const KindOrder: seq<Kind> := [HandPosition, BallPosition, Collision]
  const HandBase: Point := Point(200.0, 150.0)
  const BallBase: Point := Point(100.0, 100.0)

  /** The proposal of the movement-triggered fallback. */
  const MovementProposal: Proposal :=
    Proposal(HandPosition, Fix, Some(HandBase), DurationMs, "Movement-triggered intervention")

  /** Action and target agree with the kind: position kinds are fixed at a
      target point, a collision is prevented and has no target. */
  predicate Shaped(p: Proposal) {
    && (p.action == Prevent <==> p.kind == Collision)
    && (p.target.None? <==> p.kind == Collision)
  }

  /** `p` lies in the jitter box [c - 50, c + 50) around `c` on both axes. */
  predicate Near(p: Point, c: Point) {
    c.x - 50.0 <= p.x < c.x + 50.0 && c.y - 50.0 <= p.y < c.y + 50.0
  }

  /** A fully populated proposal of the organic trigger. */
  predicate WellFormed(p: Proposal) {
    && Shaped(p)
    && p.duration == DurationMs
    && (p.kind == HandPosition ==> Near(p.target.value, HandBase))
    && (p.kind == BallPosition ==> Near(p.target.value, BallBase))
  }

  function Abs(v: real): (r: real)
    ensures r >= 0.0 && (r == v || r == -v)
  {
    if v < 0.0 then -v else v
  }

  /** `v && Math.abs(v) > 1`: the component is present, non-zero and of
      magnitude above the threshold. */
  predicate Moving(v: Option<real>) {
    v.Some? && v.value != 0.0 && Abs(v.value) > 1.0
  }

  predicate HandMoves(e: Event) {
    e.Sample? && (Moving(e.handVx) || Moving(e.handVy))
  }

  predicate BallMoves(e: Event) {
    e.Sample? && (Moving(e.ballVx) || Moving(e.ballVy))
  }

  /** `events.slice(-3)` */
  function LastThree(events: seq<Event>): (r: seq<Event>)
    ensures |r| == if |events| < 3 then |events| else 3
    ensures r == events[|events| - |r|..]
  {
    if |events| <= 3 then events else events[|events| - 3..]
  }

  /** The result of the scanning loop over the recent events. */
  datatype Scan = Scanned(handMovement: bool, ballMovement: bool) | ScanThrew

  /** Specification of the scanning loop: it throws when any recent event is
      `null`, and otherwise reports movement of the hand and of the ball. */
  function ScanMovement(recent: seq<Event>): (r: Scan)
    ensures r.ScanThrew? <==> exists i :: 0 <= i < |recent| && recent[i].NullEvent?
    ensures r.Scanned? ==> (r.handMovement <==> exists i :: 0 <= i < |recent| && HandMoves(recent[i]))
    ensures r.Scanned? ==> (r.ballMovement <==> exists i :: 0 <= i < |recent| && BallMoves(recent[i]))
  {
    if |recent| == 0 then Scanned(false, false)
    else if recent[0].NullEvent? then ScanThrew
    else
      match ScanMovement(recent[1..])
      case ScanThrew => ScanThrew
      case Scanned(h, b) => Scanned(h || HandMoves(recent[0]), b || BallMoves(recent[0]))
  }

  /** The proposal of the unconditional 50% trigger. */
  function RandomProposal(d: Draws): (p: Proposal)
    ensures WellFormed(p)
    ensures p.kind == KindOrder[d.kindIndex]
  {
    match KindOrder[d.kindIndex]
    case HandPosition =>
      Proposal(HandPosition, Fix, Some(Point(HandBase.x + d.jitterX, HandBase.y + d.jitterY)), DurationMs,
               "Testing causal effect of fixed hand position")
    case BallPosition =>
      Proposal(BallPosition, Fix, Some(Point(BallBase.x + d.jitterX, BallBase.y + d.jitterY)), DurationMs,
               "Testing causal effect of fixed ball position")
    case Collision =>
      Proposal(Collision, Prevent, None, DurationMs, "Testing causal effect of prevented collisions")
  }

  /** The movement-conditioned fallback, reached when the 50% roll fails. */
  function Fallback(events: seq<Event>, movementRoll: bool): (r: Outcome)
    ensures r.Threw? <==> exists e <- LastThree(events) :: e.NullEvent?
    ensures r.Decided? ==> r.proposals == [] || r.proposals == [MovementProposal]
    ensures r == Decided([MovementProposal]) <==>
      && (forall e <- LastThree(events) :: e.Sample?)
      && (exists e <- LastThree(events) :: HandMoves(e) || BallMoves(e))
      && movementRoll
  {
    match ScanMovement(LastThree(events))
    case ScanThrew => Threw
    case Scanned(h, b) => if (h || b) && movementRoll then Decided([MovementProposal]) else Decided([])
  }

  /** Specification of `processEvents`. */
  function Decide(events: seq<Event>, slotActive: bool, lastEnd: int, now: int, d: Draws): (r: Outcome)
    ensures slotActive ==> r == Decided([])
    ensures now - lastEnd < CooldownMs ==> r == Decided([])
    ensures r.Decided? ==> |r.proposals| <= 1 && forall p <- r.proposals :: WellFormed(p)
    ensures r.Threw? <==>
      && !slotActive && now - lastEnd >= CooldownMs && !d.trigger
      && exists e <- LastThree(events) :: e.NullEvent?
  {
    if slotActive then Decided([])
    else if now - lastEnd < CooldownMs then Decided([])
    else if d.trigger then Decided([RandomProposal(d)])
    else Fallback(events, d.movementRoll)
  }

  /** The scanning loop of `processEvents` over the recent events. */
  method ScanRecent(recent: seq<Event>) returns (s: Scan)
    ensures s == ScanMovement(recent)
  {
    var handMovement, ballMovement := false, false;
    var i := 0;
    while i < |recent|
      invariant 0 <= i <= |recent|
      invariant forall j :: 0 <= j < i ==> recent[j].Sample?
      invariant handMovement <==> exists j :: 0 <= j < i && HandMoves(recent[j])
      invariant ballMovement <==> exists j :: 0 <= j < i && BallMoves(recent[j])
    {
      var e := recent[i];
      if e.NullEvent? {
        return ScanThrew;
      }
      if Moving(e.handVx) || Moving(e.handVy) { handMovement := true; }
      if Moving(e.ballVx) || Moving(e.ballVy) { ballMovement := true; }
      i := i + 1;
    }
    return Scanned(handMovement, ballMovement);
  }

  /** `processEvents`. */
  method ProcessEvents(events: seq<Event>, slotActive: bool, lastEnd: int, now: int, d: Draws)
    returns (out: Outcome)
    ensures out == Decide(events, slotActive, lastEnd, now, d)
  {
    if slotActive {
      return Decided([]);
    }
    if now - lastEnd < CooldownMs {
      return Decided([]);
    }
    if d.trigger {
      return Decided([RandomProposal(d)]);
    }
    var scan := ScanRecent(LastThree(events));
    if scan.ScanThrew? {
      return Threw;
    }
    if (scan.handMovement || scan.ballMovement) && d.movementRoll {
      return Decided([MovementProposal]);
    }
    return Decided([]);
  }

  /** A velocity component counts exactly when its magnitude is strictly
      greater than 1; the truthiness test adds nothing. */
  lemma MovingIffAboveOne(v: Option<real>)
    ensures Moving(v) <==> v.Some? && (v.value > 1.0 || v.value < -1.0)
  {
  }

  /** Once both gates are open, the 50% roll decides first; the fallback is
      reached only when it fails. */
  lemma RollDecidesFirst(events: seq<Event>, lastEnd: int, now: int, d: Draws)
    requires now - lastEnd >= CooldownMs
    ensures d.trigger ==> Decide(events, false, lastEnd, now, d) == Decided([RandomProposal(d)])
    ensures !d.trigger ==> Decide(events, false, lastEnd, now, d) == Fallback(events, d.movementRoll)
  {
  }

  /** The decision depends on the last three events only. */
  lemma OnlyLastThreeInspected(older: seq<Event>, events: seq<Event>, slotActive: bool, lastEnd: int, now: int, d: Draws)
    requires |events| >= 3
    ensures Decide(older + events, slotActive, lastEnd, now, d) == Decide(events, slotActive, lastEnd, now, d)
  {
  }

  /** The fallback proposes exactly when no recent event is `null`, some recent
      event shows movement and the 30% roll fires; what it proposes is the hand
      fixed at (200, 150). */
  lemma MovementFallback(events: seq<Event>, lastEnd: int, now: int, d: Draws)
    requires now - lastEnd >= CooldownMs && !d.trigger
    ensures var r := Decide(events, false, lastEnd, now, d);
      (r.Decided? && r.proposals != []) <==>
        && (forall e <- LastThree(events) :: e.Sample?)
        && (exists e <- LastThree(events) :: HandMoves(e) || BallMoves(e))
        && d.movementRoll
    ensures var r := Decide(events, false, lastEnd, now, d);
      r.Decided? && r.proposals != [] ==> r.proposals == [MovementProposal]
  {
  }

  /** Every batch, short or long, is decided on `events.slice(-3)` alone. */
  lemma DecideReadsLastThree(events: seq<Event>, slotActive: bool, lastEnd: int, now: int, d: Draws)
    ensures Decide(events, slotActive, lastEnd, now, d) == Decide(LastThree(events), slotActive, lastEnd, now, d)
  {
  }

  /** A batch of fewer than three quiet events, submitted with no intervention
      active and the cooldown over: only the 50% roll can produce a proposal. */
  lemma QuietShortBatch(events: seq<Event>, lastEnd: int, now: int, d: Draws)
    requires |events| < 3
    requires forall e <- events :: e.Sample? && !HandMoves(e) && !BallMoves(e)
    requires now - lastEnd >= CooldownMs
    ensures var r := Decide(events, false, lastEnd, now, d);
      r.Decided? && (r.proposals != [] <==> d.trigger)
  {
  }

  /** From the initial state (`lastInterventionEndTime = 0`) any time from 5000 ms
      on passes the cooldown check. */
  lemma InitialCooldownPasses(events: seq<Event>, now: int, d: Draws)
    requires now >= CooldownMs
    ensures Decide(events, false, 0, now, d) ==
      if d.trigger then Decided([RandomProposal(d)]) else Fallback(events, d.movementRoll)
  {
  }
}
