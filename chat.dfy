/** The message record every metric reads, and the calendar facts taken from its
    timestamp. */
module Chat {

  /** A timestamp: whole seconds since 0001-01-01 00:00:00, timezone-naive. That day is a
      Monday in the proleptic Gregorian calendar Python's `datetime` uses, so day
      number modulo 7 is the weekday counted from Monday. */
  type Stamp = int

  /** One parsed message: the Date, Time, Author, Message and DateTime columns. */
  datatype Message = Message(date: string, time: string, author: string, body: string, stamp: Stamp)

  const SecondsPerMinute := 60
  const SecondsPerHour := 3600
  const SecondsPerDay := 86400

  /** `DateTime.dt.hour`. */
  function Hour(t: Stamp): (h: nat)
    ensures h < 24
  {
    (t / SecondsPerHour) % 24
  }

  /** `DateTime.dt.weekday`: 0 for Monday up to 6 for Sunday. */
  function Weekday(t: Stamp): (d: nat)
    ensures d < 7
  {
    (t / SecondsPerDay) % 7
  }

  /** `DateTime.dt.day_name()`, indexed by `Weekday`. */
  const DayNames: seq<string> := ["Monday", "Tuesday", "Wednesday", "Thursday", "Friday", "Saturday", "Sunday"]
}
