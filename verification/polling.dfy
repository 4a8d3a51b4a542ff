/**
 * The whole run of bot.py: open the sport before and after logging in, then
 * poll without end, each cycle picking the last day and scanning the courts,
 * until a click lands and the process exits. The browser's answers for the
 * cycles observed so far are given as a sequence of snapshots.
 */
module Polling {
  import opened BookingPage
  import opened SportSelect
  import opened CourtScan

  /** Which of the two sport lookups failed. */
  datatype Phase = BeforeLogin | AfterLogin

  /**
   * How a run stands: ended by the "sport not found" exception, ended by
   * `exit()` after a landed click, or still inside `while True` after the
   * observed cycles.
   */
  datatype RunOutcome =
    | SportMissing(phase: Phase)
    | Exited(cycle: nat, day: nat, court: nat, slot: nat)
    | StillPolling

  /** A slot click sent during cycle `cycle`. */
  datatype Click = Click(cycle: nat, court: nat, slot: nat, landed: bool)

  /** A run's outcome and every slot click it sent, in order. */
  datatype Trace = Trace(outcome: RunOutcome, clicks: seq<Click>)

  /** How one polling cycle ends. */
  datatype CycleOutcome = CycleBooked(day: nat, court: nat, slot: nat) | CycleMissed | CycleFailed

  /** A cycle's outcome and the clicks it sent. */
  datatype CycleResult = CycleResult(outcome: CycleOutcome, attempts: seq<Attempt>)

  /**
   * The day button the bot clicks: the last one. An empty list has no last
   * element, which raises inside the cycle.
   */
  function PickDay(days: seq<string>): (r: Option<nat>)
    ensures r.Some? <==> |days| > 0
    ensures r.Some? ==> r.value < |days| && days[r.value..] == [days[|days| - 1]]
  {
    if |days| == 0 then None else Some(|days| - 1)
  }

  /**
   * One pass of the `while True` body. Every exception (a failed query,
   * no day buttons, a court tab that raises) ends the cycle as failed, after
   * whatever clicks the scan had already sent.
   */
  function CycleOf(time: string, snap: Cycle): (r: CycleResult)
    ensures r.outcome.CycleBooked? <==>
      snap.Page? && |snap.days| > 0 && ScanOf(snap.courts, time).outcome.Booked?
    ensures r.outcome.CycleBooked? ==>
      r.outcome.day == |snap.days| - 1 &&
      ScanOf(snap.courts, time).outcome == Booked(r.outcome.court, r.outcome.slot)
    ensures r.outcome == CycleMissed <==>
      snap.Page? && |snap.days| > 0 && ScanOf(snap.courts, time).outcome == Exhausted
    ensures snap.Page? && |snap.days| > 0 ==> r.attempts == ScanOf(snap.courts, time).attempts
    ensures !(snap.Page? && |snap.days| > 0) ==> r == CycleResult(CycleFailed, [])
  {
    match snap
    case Threw => CycleResult(CycleFailed, [])
    case Page(days, courts) =>
      match PickDay(days)
      case None => CycleResult(CycleFailed, [])
      case Some(d) =>
        var scan := ScanOf(courts, time);
        match scan.outcome
        case Booked(c, s) => CycleResult(CycleBooked(d, c, s), scan.attempts)
        case Exhausted => CycleResult(CycleMissed, scan.attempts)
        case Aborted(_) => CycleResult(CycleFailed, scan.attempts)
  }

  /** The scan's clicks, stamped with the cycle that sent them. */
  function Stamp(k: nat, attempts: seq<Attempt>): seq<Click> {
    seq(|attempts|, n requires 0 <= n < |attempts| =>
      Click(k, attempts[n].court, attempts[n].slot, attempts[n].landed))
  }

  /** The polling loop from cycle `k` on, as a specification of `Run`. */
  function PollFrom(time: string, cycles: seq<Cycle>, k: nat): Trace
    requires k <= |cycles|
    decreases |cycles| - k
  {
    if k == |cycles| then Trace(StillPolling, [])
    else
      var step := CycleOf(time, cycles[k]);
      var sent := Stamp(k, step.attempts);
      match step.outcome
      case CycleBooked(d, c, s) => Trace(Exited(k, d, c, s), sent)
      case _ =>
        var rest := PollFrom(time, cycles, k + 1);
        Trace(rest.outcome, sent + rest.clicks)
  }

  /** The whole run: both sport lookups, then the polling loop. */
  function RunOf(cfg: Config, before: seq<string>, after: seq<string>, cycles: seq<Cycle>): Trace {
    if cfg.sportName !in before then Trace(SportMissing(BeforeLogin), [])
    else if cfg.sportName !in after then Trace(SportMissing(AfterLogin), [])
    else PollFrom(cfg.bookingTime, cycles, 0)
  }

  /**
   * bot.py from the first page load on. `before` and `after` are the sport
   * tiles shown before and after logging in; `cycles` are the browser's
   * answers to the polling cycles run so far.
   */
  method Run(cfg: Config, before: seq<string>, after: seq<string>, cycles: seq<Cycle>)
    returns (outcome: RunOutcome, clicks: seq<Click>)
    ensures Trace(outcome, clicks) == RunOf(cfg, before, after, cycles)
  {
    var tile := FindSport(before, cfg.sportName);
    if tile.None? {
      return SportMissing(BeforeLogin), [];
    }
    // Logging in is not modelled; the sport is looked up again afterwards.
    tile := FindSport(after, cfg.sportName);
    if tile.None? {
      return SportMissing(AfterLogin), [];
    }
    clicks := [];
    var k := 0;
    while k < |cycles|
      invariant k <= |cycles|
      invariant RunOf(cfg, before, after, cycles) ==
        Trace(PollFrom(cfg.bookingTime, cycles, k).outcome, clicks + PollFrom(cfg.bookingTime, cycles, k).clicks)
    {
      ghost var time := cfg.bookingTime;
      ghost var rest := PollFrom(time, cycles, k + 1);
      match cycles[k] {
        case Threw =>
          assert PollFrom(time, cycles, k) == rest;
        case Page(days, courts) =>
          var day := PickDay(days);
          if day.Some? {
            var scan, attempts := ScanCourts(courts, cfg.bookingTime);
            assert CycleOf(time, cycles[k]).attempts == attempts;
            if scan.Booked? {
              assert PollFrom(time, cycles, k) == Trace(Exited(k, day.value, scan.court, scan.slot), Stamp(k, attempts));
              return Exited(k, day.value, scan.court, scan.slot), clicks + Stamp(k, attempts);
            }
            assert PollFrom(time, cycles, k) == Trace(rest.outcome, Stamp(k, attempts) + rest.clicks);
            assert clicks + (Stamp(k, attempts) + rest.clicks) == (clicks + Stamp(k, attempts)) + rest.clicks;
            clicks := clicks + Stamp(k, attempts);
          } else {
            assert PollFrom(time, cycles, k) == rest;
          }
      }
      k := k + 1;
    }
    outcome := StillPolling;
  }
}
