/**
 * The per-cycle scan of bot.py: walk the court tabs in order, look at the
 * first slot of each court whose time label is the target, and click it when
 * its button is not disabled. A click that lands ends the run.
 */
module CourtScan {
  import opened Text
  import opened BookingPage

  /** A click sent to slot `slot` of court `court`; `landed` is false when it raised. */
  datatype Attempt = Attempt(court: nat, slot: nat, landed: bool)

  /** How a scan ends: a landed click, all courts checked, or a court tab whose click raised. */
  datatype ScanOutcome = Booked(court: nat, slot: nat) | Exhausted | Aborted(court: nat)

  /** A scan's outcome and the clicks it sent, in order. */
  datatype Scan = Scan(outcome: ScanOutcome, attempts: seq<Attempt>)

  /** Slot `i` is the first of `slots` whose time label is `time`. */
  predicate IsFirstLabel(slots: seq<Slot>, time: string, i: nat) {
    i < |slots| && slots[i].timeLabel == time &&
    forall p :: 0 <= p < i ==> slots[p].timeLabel != time
  }

  /** Index of the first slot at or after `j` whose time label is `time`. */
  function FirstLabelFrom(slots: seq<Slot>, time: string, j: nat): (r: Option<nat>)
    requires j <= |slots|
    ensures r.Some? ==> j <= r.value < |slots| && slots[r.value].timeLabel == time
    ensures r.Some? ==> forall m :: j <= m < r.value ==> slots[m].timeLabel != time
    ensures r.None? ==> forall m :: j <= m < |slots| ==> slots[m].timeLabel != time
    decreases |slots| - j
  {
    if j == |slots| then None
    else if slots[j].timeLabel == time then Some(j)
    else FirstLabelFrom(slots, time, j + 1)
  }

  /** The slot has a button and that button's class does not contain "disabled". */
  predicate Bookable(s: Slot) {
    s.button.Some? && !Contains(s.button.value.cls, DisabledMarker)
  }

  /**
   * The one slot of court `c` the bot clicks: the first slot labelled
   * `time`, provided it is bookable. Later slots with the same label are
   * never looked at.
   */
  function Candidate(c: Court, time: string): (r: Option<nat>)
    ensures r.Some? ==> IsFirstLabel(c.slots, time, r.value) && Bookable(c.slots[r.value])
    ensures r.None? ==> forall i: nat :: IsFirstLabel(c.slots, time, i) ==> !Bookable(c.slots[i])
  {
    match FirstLabelFrom(c.slots, time, 0)
    case None => None
    case Some(i) => if Bookable(c.slots[i]) then Some(i) else None
  }

  /** Court `c` has a candidate slot and the click on it does not raise. */
  predicate Lands(c: Court, time: string) {
    match Candidate(c, time)
    case None => false
    case Some(i) => !c.slots[i].button.value.clickRaises
  }

  /** At least one slot's whole text contains "Opens at". */
  predicate AnyOpensAt(slots: seq<Slot>) {
    exists i :: 0 <= i < |slots| && Contains(slots[i].text, OpensAtMarker)
  }

  /** The scan of `courts[k..]`, as a specification of `ScanCourts`. */
  function ScanFrom(courts: seq<Court>, time: string, k: nat): Scan
    requires k <= |courts|
    decreases |courts| - k
  {
    if k == |courts| then Scan(Exhausted, [])
    else if courts[k].selectRaises then Scan(Aborted(k), [])
    else match Candidate(courts[k], time)
      case None => ScanFrom(courts, time, k + 1)
      case Some(i) =>
        if courts[k].slots[i].button.value.clickRaises then
          var rest := ScanFrom(courts, time, k + 1);
          Scan(rest.outcome, [Attempt(k, i, false)] + rest.attempts)
        else
          Scan(Booked(k, i), [Attempt(k, i, true)])
  }

  /** The scan of every court. */
  function ScanOf(courts: seq<Court>, time: string): Scan {
    ScanFrom(courts, time, 0)
  }

  /**
   * The nested loops of the booking cycle: for each court tab, select it
   * (a raise aborts the cycle), take the first slot labelled `time` and
   * stop looking in that court; click it when it has a button whose class
   * lacks "disabled". A landed click ends the scan at once (the process
   * exits); a raised click is skipped and the next court is tried.
   */
  method ScanCourts(courts: seq<Court>, time: string) returns (outcome: ScanOutcome, attempts: seq<Attempt>)
    ensures Scan(outcome, attempts) == ScanOf(courts, time)
  {
    attempts := [];
    var c := 0;
    while c < |courts|
      invariant c <= |courts|
      invariant ScanOf(courts, time) == Scan(ScanFrom(courts, time, c).outcome, attempts + ScanFrom(courts, time, c).attempts)
    {
      var court := courts[c];
      if court.selectRaises {
        return Aborted(c), attempts;
      }
      ghost var found: Option<nat> := None;
      var s := 0;
      while s < |court.slots|
        invariant s <= |court.slots|
        invariant forall m :: 0 <= m < s ==> court.slots[m].timeLabel != time
        invariant found == None
      {
        var slot := court.slots[s];
        if slot.timeLabel == time {
          found := Some(s);
          if slot.button.Some? {
            var button := slot.button.value;
            if !Contains(button.cls, DisabledMarker) {
              if !button.clickRaises {
                return Booked(c, s), attempts + [Attempt(c, s, true)];
              }
              attempts := attempts + [Attempt(c, s, false)];
            }
          }
          break;
        }
        s := s + 1;
      }
      assert found == FirstLabelFrom(court.slots, time, 0);
      if AnyOpensAt(court.slots) {
        // The branch does nothing: whether the court has "Opens at"
        // slots never changes what is clicked.
      }
      c := c + 1;
    }
    outcome := Exhausted;
  }
}
