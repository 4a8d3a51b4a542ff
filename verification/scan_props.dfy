/** What the court scan guarantees: which slot is clicked, how often, and on what it depends. */
module ScanProperties {
  import opened BookingPage
  import opened CourtScan

  /** Court `c` is scanned and left without booking: its tab opens and no click on it lands. */
  predicate PassesOver(c: Court, time: string) {
    !c.selectRaises && !Lands(c, time)
  }

  /** Court `c` is the first court at or after `k` where the scan books: every earlier one is passed over. */
  predicate FirstBooking(courts: seq<Court>, time: string, k: nat, c: nat) {
    k <= c < |courts| && !courts[c].selectRaises && Lands(courts[c], time) &&
    forall j :: k <= j < c ==> PassesOver(courts[j], time)
  }

  /** A click the scan sends is the candidate slot of its court, and it lands exactly when that court lands. */
  predicate ClicksCandidate(courts: seq<Court>, time: string, a: Attempt) {
    a.court < |courts| && Candidate(courts[a.court], time) == Some(a.slot) &&
    a.landed == Lands(courts[a.court], time)
  }

  /**
   * Every click of the scan is on the first slot with the target label of
   * its court, that slot is bookable (it has a button whose class lacks
   * "disabled"), and no court is clicked twice: courts come in list order.
   */
  lemma {:induction false} ScanClicksCandidates(courts: seq<Court>, time: string, k: nat)
    requires k <= |courts|
    ensures forall n :: 0 <= n < |ScanFrom(courts, time, k).attempts| ==>
      k <= ScanFrom(courts, time, k).attempts[n].court &&
      ClicksCandidate(courts, time, ScanFrom(courts, time, k).attempts[n])
    ensures forall m, n :: 0 <= m < n < |ScanFrom(courts, time, k).attempts| ==>
      ScanFrom(courts, time, k).attempts[m].court < ScanFrom(courts, time, k).attempts[n].court
    decreases |courts| - k
  {
    if k < |courts| && !courts[k].selectRaises {
      ScanClicksCandidates(courts, time, k + 1);
    }
  }

  /**
   * At most one click of a scan lands and, if one does, it is the last
   * click and the scan books that slot; a scan that books ends on a landed
   * click.
   */
  lemma {:induction false} ScanAtMostOneLanded(courts: seq<Court>, time: string, k: nat)
    requires k <= |courts|
    ensures forall n :: 0 <= n < |ScanFrom(courts, time, k).attempts| - 1 ==>
      !ScanFrom(courts, time, k).attempts[n].landed
    ensures ScanFrom(courts, time, k).outcome.Booked? <==>
      |ScanFrom(courts, time, k).attempts| > 0 &&
      ScanFrom(courts, time, k).attempts[|ScanFrom(courts, time, k).attempts| - 1].landed
    ensures ScanFrom(courts, time, k).outcome.Booked? ==>
      ScanFrom(courts, time, k).attempts[|ScanFrom(courts, time, k).attempts| - 1] ==
      Attempt(ScanFrom(courts, time, k).outcome.court, ScanFrom(courts, time, k).outcome.slot, true)
    decreases |courts| - k
  {
    if k < |courts| && !courts[k].selectRaises {
      ScanAtMostOneLanded(courts, time, k + 1);
    }
  }

  /**
   * A scan books court `c`'s candidate slot only when `c` is the first
   * court, in list order, whose click lands with every earlier court passed
   * over.
   */
  lemma {:induction false} ScanBooksFirstLanding(courts: seq<Court>, time: string, k: nat)
    requires k <= |courts|
    ensures ScanFrom(courts, time, k).outcome.Booked? ==>
      FirstBooking(courts, time, k, ScanFrom(courts, time, k).outcome.court) &&
      Candidate(courts[ScanFrom(courts, time, k).outcome.court], time) == Some(ScanFrom(courts, time, k).outcome.slot)
    decreases |courts| - k
  {
    if k < |courts| && !courts[k].selectRaises {
      ScanBooksFirstLanding(courts, time, k + 1);
    }
  }

  /** Conversely, the first court where a click lands is the one booked. */
  lemma {:induction false} ScanReachesFirstLanding(courts: seq<Court>, time: string, k: nat, c: nat)
    requires k <= |courts|
    requires FirstBooking(courts, time, k, c)
    ensures ScanFrom(courts, time, k).outcome == Booked(c, Candidate(courts[c], time).value)
    decreases |courts| - k
  {
    if k < c {
      assert PassesOver(courts[k], time);
      ScanReachesFirstLanding(courts, time, k + 1, c);
    }
  }

  /** A scan checks every court without booking exactly when every court is passed over. */
  lemma {:induction false} ScanExhaustedIff(courts: seq<Court>, time: string, k: nat)
    requires k <= |courts|
    ensures ScanFrom(courts, time, k).outcome == Exhausted <==>
      forall j :: k <= j < |courts| ==> PassesOver(courts[j], time)
    decreases |courts| - k
  {
    if k < |courts| && !courts[k].selectRaises {
      ScanExhaustedIff(courts, time, k + 1);
    }
  }

  /** A scan aborts at court `a` only when that tab's click raises and every earlier court was passed over. */
  lemma {:induction false} ScanAbortsAtRaisingTab(courts: seq<Court>, time: string, k: nat)
    requires k <= |courts|
    ensures ScanFrom(courts, time, k).outcome.Aborted? ==>
      var a := ScanFrom(courts, time, k).outcome.court;
      k <= a < |courts| && courts[a].selectRaises &&
      forall j :: k <= j < a ==> PassesOver(courts[j], time)
    decreases |courts| - k
  {
    if k < |courts| && !courts[k].selectRaises {
      ScanAbortsAtRaisingTab(courts, time, k + 1);
    }
  }

  /** Two courts that differ at most in their names and in the whole text of their slots. */
  predicate SameControls(x: Court, y: Court) {
    x.selectRaises == y.selectRaises && |x.slots| == |y.slots| &&
    forall m :: 0 <= m < |x.slots| ==>
      x.slots[m].timeLabel == y.slots[m].timeLabel && x.slots[m].button == y.slots[m].button
  }

  lemma FirstLabelSameControls(x: Court, y: Court, time: string, j: nat)
    requires SameControls(x, y) && j <= |x.slots|
    ensures FirstLabelFrom(x.slots, time, j) == FirstLabelFrom(y.slots, time, j)
  {
  }

  /**
   * The scan's clicks and outcome depend only on the tabs, the time labels
   * and the buttons: the "Opens at" test on the slots' whole text, and the
   * court names, change nothing.
   */
  lemma {:induction false} ScanIgnoresSlotText(a: seq<Court>, b: seq<Court>, time: string, k: nat)
    requires |a| == |b| && k <= |a|
    requires forall j :: 0 <= j < |a| ==> SameControls(a[j], b[j])
    ensures ScanFrom(a, time, k) == ScanFrom(b, time, k)
    decreases |a| - k
  {
    if k < |a| {
      FirstLabelSameControls(a[k], b[k], time, 0);
      ScanIgnoresSlotText(a, b, time, k + 1);
    }
  }

  /**
   * With the shipped booking label: court 0 shows the label first on a
   * disabled button and again on an enabled one, court 1 on an enabled
   * button.
   */
  const TwoCourts: seq<Court> := [
    Court("Court 01", false, [
      Slot(BookingTime, "Opens at 6:00 PM", Some(Button("btn disabled", false))),
      Slot(BookingTime, "", Some(Button("btn", false)))]),
    Court("Court 02", false, [Slot(BookingTime, "", Some(Button("btn", false)))])]

  /**
   * The scan skips court 0 entirely (its second matching slot is never
   * looked at) and books court 1 with a single click.
   */
  lemma {:induction false} SecondCourtBooked()
    ensures ScanOf(TwoCourts, BookingTime) == Scan(Booked(1, 0), [Attempt(1, 0, true)])
  {
    var courts := TwoCourts;
    Text.ContainsIff("btn disabled", DisabledMarker);
    assert Text.OccursAt("btn disabled", DisabledMarker, 4);
    Text.ContainsIff("btn", DisabledMarker);
    assert FirstLabelFrom(courts[0].slots, BookingTime, 0) == Some(0);
    assert Candidate(courts[0], BookingTime) == None;
    assert FirstLabelFrom(courts[1].slots, BookingTime, 0) == Some(0);
    assert Candidate(courts[1], BookingTime) == Some(0);
    assert ScanFrom(courts, BookingTime, 1) == Scan(Booked(1, 0), [Attempt(1, 0, true)]);
  }
}
