/** The lifecycle of the single current intervention: the module-level state of
    the server (the current intervention slot, the history log and
    `lastInterventionEndTime`) and the handlers that change it.

    Each handler takes the time `now` (milliseconds) as a parameter. The expiry
    timers armed by `setTimeout` are replaced by `TimerFire`, which the
    environment may call at any time. */
module Lifecycle {
  import opened DecisionEngine

  /** Window after the end of an intervention during which an empty poll
      still answers with a bare restore command. */
  const GraceMs: int := 2000

  /** An activated intervention: the proposal spread into a fresh object with
      `timestamp`, `active` and `expiresAt`. The history holds the same object,
      so clearing `active` later is visible through the history too. */
  class Intervention {
    const proposal: Proposal
    const timestamp: int
    const expiresAt: int
    var active: bool

    constructor (p: Proposal, now: int)
      ensures proposal == p && timestamp == now && expiresAt == now + p.duration && active
    {
      proposal := p;
      timestamp := now;
      expiresAt := now + p.duration;
      active := true;
    }
  }

  /** One element of `interventionHistory`: an activated intervention, or the
      record of a restore command sent on lazy expiry. */
  datatype Entry = Activated(record: Intervention) | RestoreSent(originalType: Kind, timestamp: int)

  /** The body of `req.body.events`: an array, or anything else (missing, `null`,
      a string, an object). */
  datatype Payload = EventArray(events: seq<Event>) | NotAnArray

  /** Replies of `/process_events`: 400 with no interventions, 500 with no
      interventions, or the list `processEvents` returned. */
  datatype SubmitReply = InvalidEventData | ServerError | Triggered(interventions: seq<Proposal>)

  /** Replies of `/get_interventions`: the current intervention, a restore
      command (carrying the expired type, or bare in the grace window), or nothing. */
  datatype PollReply = SendActive(record: Intervention) | SendRestore(originalType: Option<Kind>) | NoInterventions

  /** Replies of `/force_intervention/:type`. */
  datatype ForceReply = InvalidType | Forced(intervention: Proposal)

  /** History grows by at most one element. */
  ghost predicate GrowsByAtMostOne(before: seq<Entry>, after: seq<Entry>) {
    after == before || (|after| == |before| + 1 && after[..|before|] == before)
  }

  /** The proposal built by `/force_intervention/:type` for the path segment
      `name`, or `None` for an unknown name. */
  function ForcedProposal(name: string, duration: int): (r: Option<Proposal>)
    ensures r.Some? <==> name == "hand" || name == "ball" || name == "collision"
    ensures r.Some? ==> Shaped(r.value) && r.value.duration == duration && r.value.reason == "Manual test intervention"
    ensures r.Some? && r.value.kind == HandPosition <==> name == "hand"
    ensures r.Some? && r.value.kind == BallPosition <==> name == "ball"
    ensures r.Some? && r.value.kind == Collision <==> name == "collision"
    ensures name == "hand" ==> r.value.target == Some(HandBase)
    ensures name == "ball" ==> r.value.target == Some(Point(150.0, 100.0))
  {
    if name == "hand" then
      Some(Proposal(HandPosition, Fix, Some(Point(200.0, 150.0)), duration, "Manual test intervention"))
    else if name == "ball" then
      Some(Proposal(BallPosition, Fix, Some(Point(150.0, 100.0)), duration, "Manual test intervention"))
    else if name == "collision" then
      Some(Proposal(Collision, Prevent, None, duration, "Manual test intervention"))
    else None
  }

  /** `Math.max(0, INTERVENTION_COOLDOWN - (now - lastInterventionEndTime))` */
  function CooldownRemaining(now: int, lastEnd: int): (r: int)
    ensures r >= 0
    ensures r > 0 <==> now - lastEnd < CooldownMs
    ensures r > 0 ==> now + r == lastEnd + CooldownMs
  {
    if CooldownMs - (now - lastEnd) > 0 then CooldownMs - (now - lastEnd) else 0
  }

  /** The debug snapshot reports the cooldown as active exactly when the
      decision procedure's cooldown check suppresses every proposal, and as
      over exactly when the decision is left to the triggers. */
  lemma CooldownReportAgreesWithDecide(events: seq<Event>, now: int, lastEnd: int, d: Draws)
    ensures CooldownRemaining(now, lastEnd) > 0 ==> Decide(events, false, lastEnd, now, d) == Decided([])
    ensures CooldownRemaining(now, lastEnd) == 0 ==>
      Decide(events, false, lastEnd, now, d) ==
        if d.trigger then Decided([RandomProposal(d)]) else Fallback(events, d.movementRoll)
  {
  }

  class Server {
    var current: Intervention?
    var history: seq<Entry>
    var lastEnd: int

    /** The slot is occupied only by an active intervention, and that
        intervention is the last entry of the history. */
    ghost predicate Valid()
      reads this, current
    {
      current != null ==> current.active && |history| > 0 && history[|history| - 1] == Activated(current)
    }

    /** `currentIntervention && currentIntervention.active` */
    ghost predicate SlotActive()
      reads this, current
    {
      current != null && current.active
    }

    constructor ()
      ensures Valid()
      ensures current == null && history == [] && lastEnd == 0
    {
      current := null;
      history := [];
      lastEnd := 0;
    }

    /** `/process_events`: validate the payload, decide, and on a proposal fill
        the slot and log the new intervention. */
    method Submit(payload: Payload, now: int, d: Draws) returns (reply: SubmitReply)
      requires Valid()
      modifies this
      ensures Valid()
      ensures GrowsByAtMostOne(old(history), history) && lastEnd == old(lastEnd)
      ensures payload.NotAnArray? ==>
        reply == InvalidEventData && current == old(current) && history == old(history)
      ensures payload.EventArray? && Decide(payload.events, old(SlotActive()), old(lastEnd), now, d).Threw? ==>
        reply == ServerError && current == old(current) && history == old(history)
      ensures payload.EventArray? && Decide(payload.events, old(SlotActive()), old(lastEnd), now, d).Decided? ==>
        var ps := Decide(payload.events, old(SlotActive()), old(lastEnd), now, d).proposals;
        && reply == Triggered(ps)
        && (ps == [] ==> current == old(current) && history == old(history))
        && (ps != [] ==>
              && fresh(current) && current.active
              && current.proposal == ps[0] && current.timestamp == now && current.expiresAt == now + ps[0].duration
              && history == old(history) + [Activated(current)])
      // An organic activation only fills an empty slot after the cooldown.
      ensures current != old(current) ==> old(current) == null && now - old(lastEnd) >= CooldownMs
    {
      if payload.NotAnArray? {
        return InvalidEventData;
      }
      var out := ProcessEvents(payload.events, current != null && current.active, lastEnd, now, d);
      if out.Threw? {
        return ServerError;
      }
      if |out.proposals| > 0 {
        var p := out.proposals[0];
        var record := new Intervention(p, now);
        current := record;
        history := history + [Activated(record)];
      }
      reply := Triggered(out.proposals);
    }

    /** The `setTimeout` callback of both `/process_events` and
        `/force_intervention/:type`: it clears whatever occupies the slot, with
        no check that it is the intervention the timer was armed for. */
    method TimerFire(now: int)
      requires Valid()
      modifies this, current
      ensures Valid()
      ensures current == null && history == old(history)
      ensures old(current) != null ==> !old(current).active && lastEnd == now
      ensures old(current) == null ==> lastEnd == old(lastEnd)
    {
      if current != null {
        current.active := false;
        current := null;
        lastEnd := now;
      }
    }

    /** `/get_interventions`: report the active intervention, or expire it
        lazily and send a restore, or re-send a bare restore within the grace
        window, or report nothing. */
    method Poll(now: int) returns (reply: PollReply)
      requires Valid()
      modifies this, current
      ensures Valid()
      ensures GrowsByAtMostOne(old(history), history)
      ensures old(SlotActive()) && old(current.expiresAt) > now ==>
        && reply == SendActive(old(current))
        && current == old(current) && current.active
        && history == old(history) && lastEnd == old(lastEnd)
      ensures old(SlotActive()) && old(current.expiresAt) <= now ==>
        && reply == SendRestore(Some(old(current.proposal.kind)))
        && current == null && !old(current).active && lastEnd == now
        && history == old(history) + [RestoreSent(old(current.proposal.kind), now)]
      ensures !old(SlotActive()) ==>
        && reply == (if now - old(lastEnd) < GraceMs then SendRestore(None) else NoInterventions)
        && current == old(current) && history == old(history) && lastEnd == old(lastEnd)
    {
      if current != null && current.active && current.expiresAt > now {
        reply := SendActive(current);
      } else if current != null && current.active {
        var kind := current.proposal.kind;
        current.active := false;
        lastEnd := now;
        history := history + [RestoreSent(kind, now)];
        current := null;
        reply := SendRestore(Some(kind));
      } else if now - lastEnd < GraceMs {
        reply := SendRestore(None);
      } else {
        reply := NoInterventions;
      }
    }

    /** `/force_intervention/:type`: overwrite the slot with a new intervention,
        whatever occupies it and whatever the cooldown, or reject an unknown type. */
    method Force(name: string, duration: int, now: int) returns (reply: ForceReply)
      requires Valid()
      modifies this
      ensures Valid()
      ensures GrowsByAtMostOne(old(history), history) && lastEnd == old(lastEnd)
      ensures ForcedProposal(name, duration).None? ==>
        reply == InvalidType && current == old(current) && history == old(history)
      ensures ForcedProposal(name, duration).Some? ==>
        var p := ForcedProposal(name, duration).value;
        && reply == Forced(p)
        && fresh(current) && current.active
        && current.proposal == p && current.timestamp == now && current.expiresAt == now + duration
        && history == old(history) + [Activated(current)]
    {
      var p := ForcedProposal(name, duration);
      if p.None? {
        return InvalidType;
      }
      var record := new Intervention(p.value, now);
      current := record;
      history := history + [Activated(record)];
      reply := Forced(p.value);
    }

    /** `/debug/history`: the slot, the history and the cooldown status, read
        without changing anything. */
    method Snapshot(now: int) returns (slot: Intervention?, log: seq<Entry>, cooldownActive: bool, remainingMs: int)
      ensures slot == current && log == history
      ensures remainingMs == CooldownRemaining(now, lastEnd)
      ensures cooldownActive <==> now - lastEnd < CooldownMs
    {
      remainingMs := CooldownRemaining(now, lastEnd);
      cooldownActive := remainingMs > 0;
      slot, log := current, history;
    }
  }
}
