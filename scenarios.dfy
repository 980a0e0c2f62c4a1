/** Client runs of the server, from a fresh start, that follow the intervention
    lifecycle through several handlers and say what each reply must be. */
module Scenarios {
  import opened DecisionEngine
  import opened Lifecycle

  /** A forced hand intervention of 1000 ms is reported while it runs, a poll at
      its deadline expires it and answers with a restore naming the hand, and
      an organic trigger within the next 5000 ms is suppressed by the cooldown. */
  method ForcedHandLifecycle(t: int, u: int, events: seq<Event>, d: Draws)
    returns (forced: ForceReply, first: PollReply, second: PollReply, organic: SubmitReply)
    requires 0 <= u < CooldownMs
    ensures forced.Forced? && forced.intervention.kind == HandPosition && forced.intervention.duration == 1000
    ensures first.SendActive? && first.record.proposal.kind == HandPosition
    ensures second == SendRestore(Some(HandPosition))
    ensures organic == Triggered([])
  {
    var s := new Server();
    forced := s.Force("hand", 1000, t);
    first := s.Poll(t);
    second := s.Poll(t + 1000);
    organic := s.Submit(EventArray(events), t + 1000 + u, d);
  }

  /** A timer firing ends the intervention without a restore; polls within
      2000 ms of that moment get a bare restore, later polls nothing. */
  method GraceWindowAfterTimer(t: int, duration: int)
    returns (inside: PollReply, outside: PollReply)
    ensures inside == SendRestore(None)
    ensures outside == NoInterventions
  {
    var s := new Server();
    var _ := s.Force("collision", duration, t);
    s.TimerFire(t + duration);
    inside := s.Poll(t + duration + GraceMs - 1);
    outside := s.Poll(t + duration + GraceMs);
  }

  /** The timer armed for an organic intervention clears a newer forced one
      long before the forced one's deadline: the expiry callback clears
      whatever occupies the slot. The overwritten organic record is never
      deactivated, so the history shows it active forever. */
  method StaleTimerClearsForcedIntervention(t: int)
    returns (organic: Intervention, forced: Intervention, reply: PollReply)
    requires t >= CooldownMs
    ensures organic.active && organic.proposal.kind == HandPosition
    ensures forced.proposal.kind == Collision && forced.expiresAt == t + 61000
    ensures !forced.active
    ensures reply == SendRestore(None)
  {
    var s := new Server();
    var submitted := s.Submit(EventArray([]), t, Draws(true, 0, 0.0, 0.0, false));
    organic := s.current;
    var _ := s.Force("collision", 60000, t + 1000);
    forced := s.current;
    // The organic intervention's timer, armed for 5000 ms at time t.
    s.TimerFire(t + DurationMs);
    reply := s.Poll(t + DurationMs + 1);
  }

  /** No restore is issued for an intervention that a forced one overwrites:
      the overwritten hand record stays active, the ball's own timer ends the
      forced one without a restore more than 2000 ms before the hand's
      deadline, the hand's timer later finds the slot empty, and polls from
      the hand's deadline on get nothing. */
  method OverwrittenForcedGetsNoRestore(t: int)
    returns (overwritten: Intervention, atDeadline: PollReply, later: PollReply)
    ensures overwritten.active && overwritten.proposal.kind == HandPosition
    ensures overwritten.expiresAt == t + 60000
    ensures atDeadline == NoInterventions && later == NoInterventions
  {
    var s := new Server();
    var _ := s.Force("hand", 60000, t);
    overwritten := s.current;
    var _ := s.Force("ball", 1000, t + 1);
    // The ball's timer, then the hand's timer.
    s.TimerFire(t + 1001);
    s.TimerFire(t + 60000);
    atDeadline := s.Poll(t + 60000);
    later := s.Poll(t + 61999);
  }
}
