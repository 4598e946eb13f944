// The clock helpers of the projection: the "Today" / "Yesterday" day label,
// the human time and the ISO form of a local wall-clock timestamp. The
// Apple-epoch conversions themselves are `MessageText.ConvertAppleTime` and
// `MessageText.AppleFromUnix`, which this module states the shared
// properties of. Parsing, formatting and the local zone are parameters.

module TimeUtil {
  import opened Str
  import MessageText

  /** What the helpers ask of Ruby's `Time` in the local zone: `parse` is
      `Time.parse` (None where it raises), `day` the local calendar day of a
      Unix time, and the three formatters `strftime('%B %d, %Y')`,
      `strftime('%l:%M %p')` and `iso8601`. */
  datatype Clock = Clock(parse: string -> Option<real>, day: real -> int,
                         longDate: real -> string, hourMinute: real -> string, iso8601: real -> string)

  const SecondsPerDay: real := 86_400.0

  /** `day_label`: "" without a timestamp, "Today" on the day of `now`,
      "Yesterday" on the day of `now` less 86400 seconds, else the long
      date. None where `Time.parse` raises. */
  function DayLabel(ts: Option<string>, now: real, c: Clock): (r: Option<string>)
    ensures ts.None? ==> r == Some([])
    ensures ts.Some? ==> (r.None? <==> c.parse(ts.value).None?)
    ensures ts.Some? && r.Some? ==> var t := c.parse(ts.value).value;
      (c.day(t) == c.day(now) ==> r.value == "Today") &&
      (c.day(t) != c.day(now) && c.day(t) == c.day(now - SecondsPerDay) ==> r.value == "Yesterday") &&
      (c.day(t) != c.day(now) && c.day(t) != c.day(now - SecondsPerDay) ==> r.value == c.longDate(t))
  {
    if ts.None? then Some([])
    else match c.parse(ts.value)
      case None => None
      case Some(t) =>
        if c.day(t) == c.day(now) then Some("Today")
        else if c.day(t) == c.day(now - SecondsPerDay) then Some("Yesterday")
        else Some(c.longDate(t))
  }

  /** `time_human`: "" without a timestamp, else the 12-hour clock time
      with its padding stripped. */
  function TimeHuman(ts: Option<string>, c: Clock): (r: Option<string>)
    ensures ts.None? ==> r == Some([])
    ensures ts.Some? ==> (r.None? <==> c.parse(ts.value).None?)
    ensures r.Some? && r.value != [] ==> !IsStripChar(r.value[0]) && !IsStripChar(r.value[|r.value| - 1])
  {
    if ts.None? then Some([])
    else match c.parse(ts.value)
      case None => None
      case Some(t) => Some(Strip(c.hourMinute(t)))
  }

  /** `iso`: "" without a timestamp, else the ISO 8601 form. */
  function Iso(ts: Option<string>, c: Clock): (r: Option<string>)
    ensures ts.None? ==> r == Some([])
    ensures ts.Some? ==> (r.None? <==> c.parse(ts.value).None?)
  {
    if ts.None? then Some([])
    else match c.parse(ts.value)
      case None => None
      case Some(t) => Some(c.iso8601(t))
  }

  /** `apple_from_iso`: the parsed Unix time less the Apple epoch offset;
      nil when the text does not parse. */
  function AppleFromIso(iso: string, c: Clock): (r: Option<real>)
    ensures r.None? <==> c.parse(iso).None?
    ensures r.Some? ==> r.value + MessageText.AppleEpochOffset as real == c.parse(iso).value
  {
    MessageText.AppleFromUnix(c.parse(iso))
  }

  /** A time given in seconds and the same time given in nanoseconds are
      shown as the same local wall-clock text. */
  lemma SameInstantSameText(s: int, format: int -> string)
    requires 1000 < s <= 1_000_000_000_000
    ensures MessageText.ConvertAppleTime(Some(s * 1_000_000_000), format) == MessageText.ConvertAppleTime(Some(s), format)
  {
    var n := s * 1_000_000_000;
    assert n > 1_000_000_000_000;
    assert MessageText.AppleSeconds(n) == s as real;
  }

  /** Reading back a timestamp written in whole seconds of the Unix clock
      gives the Apple time it came from. */
  lemma AppleFromIsoInverse(iso: string, c: Clock, t: int)
    requires t <= 1_000_000_000_000
    requires c.parse(iso) == Some(MessageText.AppleToUnix(t))
    ensures AppleFromIso(iso, c) == Some(t as real)
  {
    MessageText.AppleRoundTrip(t);
  }
}
