/** What a whole run guarantees: when it ends, how many clicks land, and what each click is. */
module PollingProperties {
  import opened BookingPage
  import opened CourtScan
  import opened ScanProperties
  import opened Polling

  /** A cycle's clicks: none lands except possibly the last, which lands exactly when the cycle books. */
  lemma CycleAtMostOneLanded(time: string, snap: Cycle)
    ensures forall n :: 0 <= n < |CycleOf(time, snap).attempts| - 1 ==> !CycleOf(time, snap).attempts[n].landed
    ensures CycleOf(time, snap).outcome.CycleBooked? <==>
      |CycleOf(time, snap).attempts| > 0 &&
      CycleOf(time, snap).attempts[|CycleOf(time, snap).attempts| - 1].landed
  {
    if snap.Page? {
      ScanAtMostOneLanded(snap.courts, time, 0);
    }
  }

  /** The polling loop never ends in the sport lookup's error. */
  lemma {:induction false} PollNeverSportMissing(time: string, cycles: seq<Cycle>, k: nat)
    requires k <= |cycles|
    ensures !PollFrom(time, cycles, k).outcome.SportMissing?
    decreases |cycles| - k
  {
    if k < |cycles| {
      PollNeverSportMissing(time, cycles, k + 1);
    }
  }

  /**
   * The run stops with "sport not found" exactly when the configured sport is
   * missing from the tiles before or after login, and then it has sent no
   * slot click at all.
   */
  lemma SportMissingIff(cfg: Config, before: seq<string>, after: seq<string>, cycles: seq<Cycle>)
    ensures RunOf(cfg, before, after, cycles).outcome.SportMissing? <==>
      cfg.sportName !in before || cfg.sportName !in after
    ensures RunOf(cfg, before, after, cycles).outcome == SportMissing(BeforeLogin) <==> cfg.sportName !in before
    ensures RunOf(cfg, before, after, cycles).outcome.SportMissing? ==> RunOf(cfg, before, after, cycles).clicks == []
  {
    PollNeverSportMissing(cfg.bookingTime, cycles, 0);
  }

  lemma {:induction false} PollAtMostOneLanded(time: string, cycles: seq<Cycle>, k: nat)
    requires k <= |cycles|
    ensures forall n :: 0 <= n < |PollFrom(time, cycles, k).clicks| - 1 ==> !PollFrom(time, cycles, k).clicks[n].landed
    ensures PollFrom(time, cycles, k).outcome.Exited? <==>
      |PollFrom(time, cycles, k).clicks| > 0 &&
      PollFrom(time, cycles, k).clicks[|PollFrom(time, cycles, k).clicks| - 1].landed
    decreases |cycles| - k
  {
    if k < |cycles| {
      CycleAtMostOneLanded(time, cycles[k]);
      PollAtMostOneLanded(time, cycles, k + 1);
      var step := CycleOf(time, cycles[k]);
      var sent := Stamp(k, step.attempts);
      if !step.outcome.CycleBooked? {
        var rest := PollFrom(time, cycles, k + 1);
        assert forall n :: 0 <= n < |sent| ==> !sent[n].landed;
        assert PollFrom(time, cycles, k).clicks == sent + rest.clicks;
      }
    }
  }

  /**
   * At most one click of a run lands: every click but the last raised, and
   * the last landed exactly when the run ended by `exit()`.
   */
  lemma RunAtMostOneLanded(cfg: Config, before: seq<string>, after: seq<string>, cycles: seq<Cycle>)
    ensures forall n :: 0 <= n < |RunOf(cfg, before, after, cycles).clicks| - 1 ==>
      !RunOf(cfg, before, after, cycles).clicks[n].landed
    ensures RunOf(cfg, before, after, cycles).outcome.Exited? <==>
      |RunOf(cfg, before, after, cycles).clicks| > 0 &&
      RunOf(cfg, before, after, cycles).clicks[|RunOf(cfg, before, after, cycles).clicks| - 1].landed
  {
    PollAtMostOneLanded(cfg.bookingTime, cycles, 0);
  }

  lemma {:induction false} PollExitsOnFirstBookingCycle(time: string, cycles: seq<Cycle>, k: nat)
    requires k <= |cycles|
    ensures PollFrom(time, cycles, k).outcome.Exited? ==>
      var e := PollFrom(time, cycles, k).outcome;
      k <= e.cycle < |cycles| &&
      CycleOf(time, cycles[e.cycle]).outcome == CycleBooked(e.day, e.court, e.slot) &&
      forall j :: k <= j < e.cycle ==> !CycleOf(time, cycles[j]).outcome.CycleBooked?
    ensures PollFrom(time, cycles, k).outcome == StillPolling <==>
      forall j :: k <= j < |cycles| ==> !CycleOf(time, cycles[j]).outcome.CycleBooked?
    decreases |cycles| - k
  {
    if k < |cycles| {
      PollExitsOnFirstBookingCycle(time, cycles, k + 1);
    }
  }

  /**
   * A run that exits does so in the first cycle whose scan books a slot,
   * on the last day button of that cycle, after finding the sport twice;
   * every earlier cycle (one that raised, had no day buttons, hit a raising
   * court tab or found nothing to click) let the loop go round again.
   */
  lemma RunExitsOnFirstBookingCycle(cfg: Config, before: seq<string>, after: seq<string>, cycles: seq<Cycle>)
    ensures RunOf(cfg, before, after, cycles).outcome.Exited? ==>
      var e := RunOf(cfg, before, after, cycles).outcome;
      cfg.sportName in before && cfg.sportName in after &&
      e.cycle < |cycles| && cycles[e.cycle].Page? && e.day == |cycles[e.cycle].days| - 1 &&
      ScanOf(cycles[e.cycle].courts, cfg.bookingTime).outcome == CourtScan.Booked(e.court, e.slot) &&
      forall j :: 0 <= j < e.cycle ==> !CycleOf(cfg.bookingTime, cycles[j]).outcome.CycleBooked?
  {
    PollExitsOnFirstBookingCycle(cfg.bookingTime, cycles, 0);
  }

  /**
   * Once the sport is found, the run is still polling exactly when no
   * observed cycle booked: a failed cycle never ends the run.
   */
  lemma StillPollingIff(cfg: Config, before: seq<string>, after: seq<string>, cycles: seq<Cycle>)
    requires cfg.sportName in before && cfg.sportName in after
    ensures RunOf(cfg, before, after, cycles).outcome == StillPolling <==>
      forall j :: 0 <= j < |cycles| ==> !CycleOf(cfg.bookingTime, cycles[j]).outcome.CycleBooked?
  {
    PollExitsOnFirstBookingCycle(cfg.bookingTime, cycles, 0);
  }

  lemma {:induction false} PollExitIsFinal(time: string, cycles: seq<Cycle>, more: seq<Cycle>, k: nat)
    requires k <= |cycles|
    requires PollFrom(time, cycles, k).outcome.Exited?
    ensures PollFrom(time, cycles + more, k) == PollFrom(time, cycles, k)
    decreases |cycles| - k
  {
    assert (cycles + more)[k] == cycles[k];
    if !CycleOf(time, cycles[k]).outcome.CycleBooked? {
      PollExitIsFinal(time, cycles, more, k + 1);
    }
  }

  /**
   * After the exit nothing more happens: whatever the browser would have
   * shown in later cycles, the run's outcome and clicks are the same.
   */
  lemma RunExitIsFinal(cfg: Config, before: seq<string>, after: seq<string>, cycles: seq<Cycle>, more: seq<Cycle>)
    requires RunOf(cfg, before, after, cycles).outcome.Exited?
    ensures RunOf(cfg, before, after, cycles + more) == RunOf(cfg, before, after, cycles)
  {
    PollExitIsFinal(cfg.bookingTime, cycles, more, 0);
  }

  /** Click `c` of a run is on the candidate slot of a court shown in its cycle. */
  predicate OnCandidate(time: string, cycles: seq<Cycle>, c: Click) {
    c.cycle < |cycles| && cycles[c.cycle].Page? &&
    ClicksCandidate(cycles[c.cycle].courts, time, Attempt(c.court, c.slot, c.landed))
  }

  lemma {:induction false} PollClicksCandidates(time: string, cycles: seq<Cycle>, k: nat)
    requires k <= |cycles|
    ensures forall n :: 0 <= n < |PollFrom(time, cycles, k).clicks| ==>
      k <= PollFrom(time, cycles, k).clicks[n].cycle &&
      OnCandidate(time, cycles, PollFrom(time, cycles, k).clicks[n])
    decreases |cycles| - k
  {
    if k < |cycles| {
      PollClicksCandidates(time, cycles, k + 1);
      var step := CycleOf(time, cycles[k]);
      var sent := Stamp(k, step.attempts);
      if cycles[k].Page? {
        ScanClicksCandidates(cycles[k].courts, time, 0);
      }
      assert forall n :: 0 <= n < |sent| ==> sent[n].cycle == k && OnCandidate(time, cycles, sent[n]);
      if !step.outcome.CycleBooked? {
        assert PollFrom(time, cycles, k).clicks == sent + PollFrom(time, cycles, k + 1).clicks;
      }
    }
  }

  /**
   * Every slot click of a run is on the first slot with the booking label
   * of its court, and that slot had a button whose class lacked "disabled":
   * a slot without a button, a disabled one, or a later slot with the same
   * label is never clicked.
   */
  lemma RunClicksCandidates(cfg: Config, before: seq<string>, after: seq<string>, cycles: seq<Cycle>)
    ensures forall n :: 0 <= n < |RunOf(cfg, before, after, cycles).clicks| ==>
      OnCandidate(cfg.bookingTime, cycles, RunOf(cfg, before, after, cycles).clicks[n])
  {
    PollClicksCandidates(cfg.bookingTime, cycles, 0);
  }

  /**
   * The shipped configuration end to end: the sport tile is found before
   * and after login, the first cycle raises, and the second shows the two
   * courts of `TwoCourts` under a single day. The run exits in cycle 1 on
   * court 1 after exactly one click.
   */
  lemma ConfiguredRunBooksSecondCourt()
    ensures RunOf(Configured, [SportName], [SportName], [Threw, Page(["Today"], TwoCourts)]) ==
      Trace(Exited(1, 0, 1, 0), [Click(1, 1, 0, true)])
  {
    SecondCourtBooked();
    var cycles := [Threw, Page(["Today"], TwoCourts)];
    assert CycleOf(BookingTime, cycles[1]) == CycleResult(CycleBooked(0, 1, 0), [Attempt(1, 0, true)]);
    assert Stamp(1, [Attempt(1, 0, true)]) == [Click(1, 1, 0, true)];
    assert PollFrom(BookingTime, cycles, 1) == Trace(Exited(1, 0, 1, 0), [Click(1, 1, 0, true)]);
  }
}
