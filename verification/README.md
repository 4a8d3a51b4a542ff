# UofT court-booking bot, modelled in Dafny

`bot.py` drives a browser through the University of Toronto recreation
booking site: it opens the configured sport tile, logs in, opens the tile
again, and then polls for ever. Each polling cycle refreshes the page,
clicks the last day button, and walks the court tabs in order. In each
court it looks only at the first slot whose time label equals the
configured `BOOKING_TIME`, and clicks that slot's button when the button's
class does not contain `"disabled"`. A click that goes through is followed
by `exit()`, which ends the process. A click that raises is swallowed and
the next court is tried. Any other exception in a cycle only starts the
next cycle.

The model replaces every browser query with plain data (module
`BookingPage`):

- the sport tiles are a `seq<string>` of already-stripped names;
- a polling cycle is either `Threw` (a refresh or a wait raised) or a
  `Page` holding the day buttons and, for the last day, the court tabs;
- a court is its name, whether clicking its tab raises, and its slots;
- a slot is its stripped `<p>` time label, its whole text, and an optional
  button. A button is its `class` string and whether the click sent to it
  raises.

The modules follow the script's parts:

- `Text`: Python's substring test `sub in s`.
- `SportSelect`: the flag-and-`break` tile lookup.
- `CourtScan`: the nested court/slot loops. `ScanCourts` is proved equal to
  the specification function `ScanOf`.
- `ScanProperties`: what `ScanOf` guarantees.
- `Polling`: the day pick, one cycle (`CycleOf`) and the whole run. `Run`
  is proved equal to the specification function `RunOf`.
- `PollingProperties`: what `RunOf` guarantees.

The endless `while True` is run over the finite sequence of cycles observed
so far. `StillPolling` means the loop would go on to another cycle.

Some behaviour one might expect is not in the script:

- The script has no slot classifier. It has no "no spots available" test
  and no booking confirmation: it prints "Booking successful!" right after
  the click. Its retries are unbounded, and it has no jitter.
- The "Opens at" test (bot.py:129-131) has an empty branch. The model
  evaluates it and ignores the result.
- When the sport is missing, the exception is caught at the top level. The
  script prints it, quits the driver and ends normally. It does not exit
  with a non-zero status.

## Model

| member | source | states |
|---|---|---|
| `Text.ContainsIff` | bot.py:114 | the substring test used on the button class holds exactly when the text occurs at some position |
| `SportSelect.FindSport` | bot.py:30-42 | the lookup (the same at lines 64-76) returns the first tile, in page order, whose name equals the sport; it reports not found exactly when no tile has that name |
| `CourtScan.FirstLabelFrom` | bot.py:108-110 | returns the first slot whose time label equals the booking time; when there is none, no slot has that label |
| `CourtScan.Candidate` | bot.py:108-126 | the only slot of a court that may be clicked is the first one with the booking label, and only if it has a button whose class lacks "disabled"; otherwise the court offers nothing |
| `CourtScan.ScanCourts` | bot.py:100-131 | the nested loops, with `break` after the first matching slot and return at the exit, produce exactly the outcome and clicks of the scan specification |
| `ScanProperties.ScanClicksCandidates` | bot.py:108-126 | every click of a scan is on its court's candidate slot; courts are clicked in list order, each at most once |
| `ScanProperties.ScanAtMostOneLanded` | bot.py:112-125 | within a scan every click but the last raised; the last landed exactly when the scan booked, and it is the booked slot |
| `ScanProperties.ScanBooksFirstLanding` | bot.py:100-119 | a scan books a court only when every earlier court was passed over and that court's candidate click lands |
| `ScanProperties.ScanReachesFirstLanding` | bot.py:100-119 | conversely, the first court whose candidate click lands, after courts that were all passed over, is the one booked |
| `ScanProperties.ScanExhaustedIff` | bot.py:100-131 | a scan checks every court without booking exactly when every court's tab opens and no candidate click lands |
| `ScanProperties.ScanAbortsAtRaisingTab` | bot.py:100-104 | a scan is cut short only at a court whose tab click raises, after every earlier court was passed over |
| `ScanProperties.ScanIgnoresSlotText` | bot.py:128-131 | the scan's clicks and outcome do not depend on the slots' whole text, which the "Opens at" test reads, or on the court names |
| `ScanProperties.SecondCourtBooked` | bot.py:108-126 | with the shipped booking label, a disabled first match on court 0 makes that court skipped, its later enabled match is ignored, and court 1 is booked with one click |
| `Polling.PickDay` | bot.py:88-90 | the day clicked is the last day button; with no day buttons the cycle raises |
| `Polling.CycleOf` | bot.py:80-138 | a cycle books exactly when the page has day buttons and its scan books, and then on the last day and the scan's booked slot; it finishes without booking exactly when the scan checked every court; on a page with day buttons its clicks are the scan's, including the raised clicks sent before a court tab that raises; a cycle that raised before the scan, or had no day buttons, fails with no click |
| `Polling.Run` | bot.py:23-138 | the script, with both sport lookups and the polling loop over the observed cycles, produces exactly the outcome and clicks of the run specification |
| `PollingProperties.SportMissingIff` | bot.py:41-76 | the run stops with "sport not found" exactly when the sport is missing before or after login, says which, and has then sent no slot click |
| `PollingProperties.CycleAtMostOneLanded` | bot.py:112-126 | within a cycle every click but the last raised, and the last landed exactly when the cycle booked |
| `PollingProperties.RunAtMostOneLanded` | bot.py:116-123 | in a whole run at most one click lands: every click but the last raised, and the last landed exactly when the run exited |
| `PollingProperties.RunExitsOnFirstBookingCycle` | bot.py:79-119 | a run exits in the first cycle that books, on that cycle's last day and its scan's booked slot, after finding the sport twice |
| `PollingProperties.StillPollingIff` | bot.py:79-138 | once the sport is found, the run keeps polling exactly when no observed cycle booked, so a failed cycle never ends the run |
| `PollingProperties.RunExitIsFinal` | bot.py:116-119 | after the exit, later cycles change neither the outcome nor the clicks |
| `PollingProperties.ConfiguredRunBooksSecondCourt` | bot.py:12-138 | with the shipped sport and booking time, a run whose first cycle raises and whose second shows the two-court page exits in the second cycle on court 1, on the last day, after exactly one click |
| `PollingProperties.RunClicksCandidates` | bot.py:108-126 | every slot click of a run is on the first slot with the booking label of a court shown in its cycle, and that slot had a non-disabled button |

## Left out

- Browser I/O is represented by the snapshot values: driver setup, `find_element`, `WebDriverWait` timeouts, `refresh`, `ActionChains` and `driver.quit`. A wait inside the polling loop (bot.py:85-87, 94-96) that times out is a `Threw` cycle.
- Login and credential entry are external authentication. The model goes straight from the first sport lookup to the second.
- `time.sleep` and `REFRESH_INTERVAL` are real-time delays. One cycle is one loop step.
- `.text` and `.strip()` are taken as already applied. No whitespace rules are modelled.
- `run_parallel.py` only starts several OS processes running `bot.py` and waits for them. run_parallel.py is not part of this model.
- A tile without its name element, or a tile link whose click raises, would end the run through the top-level handler. These cases are not modelled: a tile is just its name.
- A slot without a `<p>` element would raise out of the scan. The model gives every slot a time label.
- A `class` attribute read as `None` would make the substring test raise, and the slot would be skipped. The model reads the class as a string.
- The waits for the sport tiles before and after login (bot.py:26-28, 60-62) are not modelled. A timeout there ends the run through the top-level handler (bot.py:140) with a `TimeoutException`, not the "not found" exception. The model instead reports an empty tile list as `SportMissing`.
- The "Opens at" test reads each slot's whole `.text`. Such a read could raise and end the cycle through bot.py:136. The model treats the read as always succeeding.
- The script has no slot classifier enum, no "no spots available" test, no booking confirmation, no bounded structural retries and no jitter, so none of them is modelled.
