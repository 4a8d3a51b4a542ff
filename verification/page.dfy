/**
 * What the bot reads from the booking site, as plain values. Each Selenium
 * query of bot.py becomes a field here; text is already stripped.
 */
module BookingPage {

  datatype Option<T> = None | Some(value: T)

  /** The time label the bot books (BOOKING_TIME). */
  const BookingTime: string := "7:45 - 8:30 PM"
  /** The sport tile the bot opens (SPORT_NAME). */
  const SportName: string := "S&R American Squash Crts"
  /** A slot button whose class contains this text is not clicked. */
  const DisabledMarker: string := "disabled"
  /** Text the bot looks for in a slot once it has scanned a court. */
  const OpensAtMarker: string := "Opens at"

  /** The configuration the run reads: the sport tile and the slot label to book. */
  datatype Config = Config(sportName: string, bookingTime: string)

  /** The configuration bot.py is shipped with. */
  const Configured: Config := Config(SportName, BookingTime)

  /**
   * The `<button>` inside a booking slot: its `class` attribute, and whether
   * the click the bot sends to it raises in the browser.
   */
  datatype Button = Button(cls: string, clickRaises: bool)

  /**
   * One `booking-slot-item`: the stripped text of its `<p>` (the time label),
   * the whole text of the slot element, and its button when it has one.
   */
  datatype Slot = Slot(timeLabel: string, text: string, button: Option<Button>)

  /**
   * One court tab under `#tabBookingFacilities`: its name, whether clicking
   * the tab raises, and the slots shown once it is selected.
   */
  datatype Court = Court(name: string, selectRaises: bool, slots: seq<Slot>)

  /**
   * One pass of the polling loop as the browser answers it: either a query
   * before the court scan raised (refresh, one of the waits), or the page
   * shows the day buttons and, for the last day, the court tabs.
   */
  datatype Cycle = Threw | Page(days: seq<string>, courts: seq<Court>)
}
