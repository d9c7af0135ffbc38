/**
 * `StatusAdapter`: the text of an entity's status card. The elapsed time
 * since the last check is shown in whole seconds, minutes or hours; the
 * message gains the uptime on a line of its own; the badge names the status.
 * Views, colours and preferences are left out.
 */
module Adapter {
  import opened Lang
  import opened Decimal
  import opened Results

  /** Milliseconds in one unit of the elapsed-time text: 's', 'm' or 'h'. */
  function UnitMs(unit: char): nat
  {
    if unit == 's' then 1000 else if unit == 'm' then 60000 else 3600000
  }

  /**
   * `formatElapsed(ms)`: whole seconds below a minute, else whole minutes
   * below an hour, else whole hours, each followed by its unit and " ago".
   * Java's `/` truncates, so a negative `ms` reads as negative seconds.
   */
  function FormatElapsed(ms: int): (r: string)
    ensures |r| > 5 && r[|r| - 4..] == " ago"
  {
    var seconds := JavaDiv(ms, 1000);
    if seconds < 60 then IntToString(seconds) + "s ago"
    else
      var minutes := seconds / 60;
      if minutes < 60 then IntToString(minutes) + "m ago"
      else IntToString(minutes / 60) + "h ago"
  }

  /**
   * When the clock has moved back the elapsed time is negative: the text is
   * in seconds, and its count is the time in whole seconds rounded toward
   * zero, so anything above -1000 ms reads "0s ago".
   */
  lemma NegativeElapsed(ms: int)
    requires ms < 0
    ensures var r := FormatElapsed(ms);
      r[|r| - 5] == 's' && ParseInt(r[..|r| - 5]) == Some(-((-ms) / 1000))
  {
    var seconds := JavaDiv(ms, 1000);
    var r := FormatElapsed(ms);
    assert r == IntToString(seconds) + "s ago";
    assert r[..|r| - 5] == IntToString(seconds);
    IntToStringRoundTrip(seconds);
  }

  /**
   * For a non-negative elapsed time the text reads back as a count and a
   * unit: the unit is the largest of seconds, minutes and hours that the
   * time reaches (hours from 3600000 ms on), and the count is the number of
   * whole units elapsed.
   */
  lemma ElapsedReadsBack(ms: int)
    requires ms >= 0
    ensures var r := FormatElapsed(ms);
      var unit := r[|r| - 5];
      var n := ParseInt(r[..|r| - 5]);
      n.Some? && n.value >= 0
      && (unit == 's' <==> ms < 60000) && (unit == 'h' <==> ms >= 3600000) && (unit == 's' || unit == 'm' || unit == 'h')
      && n.value * UnitMs(unit) <= ms && (unit != 'h' ==> ms < (n.value + 1) * UnitMs(unit))
  {
    var r := FormatElapsed(ms);
    var seconds := ms / 1000;
    var minutes := seconds / 60;
    assert minutes == ms / 60000;
    assert minutes / 60 == ms / 3600000;
    var count := if seconds < 60 then seconds else if minutes < 60 then minutes else minutes / 60;
    var unit := if seconds < 60 then 's' else if minutes < 60 then 'm' else 'h';
    assert r == IntToString(count) + [unit] + " ago";
    assert r[..|r| - 5] == IntToString(count);
    IntToStringRoundTrip(count);
  }

  /**
   * `updateTimer`: "Checking..." until the entity has been checked, then the
   * time elapsed since the check; the two never coincide.
   */
  function LastCheckText(lastCheckTime: int, now: int): (r: string)
    ensures r == "Checking..." <==> lastCheckTime == 0
    ensures lastCheckTime != 0 ==> r == FormatElapsed(now - lastCheckTime)
  {
    if lastCheckTime == 0 then "Checking..."
    else
      var t := FormatElapsed(now - lastCheckTime);
      assert t[|t| - 1] == 'o';
      t
  }

  /**
   * `updateStatus`'s message: when the uptime is present and not empty, the
   * message (or "null"), " \nuptime: " and the uptime; otherwise the message
   * as it is.
   */
  function DisplayMessage(message: Option<string>, uptime: Option<string>): (r: Option<string>)
    ensures uptime.None? || uptime.value == [] ==> r == message
    ensures uptime.Some? && uptime.value != [] ==> r.Some? && |r.value| == |Str(message)| + 10 + |uptime.value|
    ensures uptime.Some? && uptime.value != [] ==> r.value[..|Str(message)|] == Str(message)
    ensures uptime.Some? && uptime.value != [] ==> r.value[|Str(message)|..|Str(message)| + 10] == " \nuptime: "
    ensures uptime.Some? && uptime.value != [] ==> r.value[|Str(message)| + 10..] == uptime.value
  {
    if uptime.Some? && uptime.value != [] then
      var m := Str(message) + " \nuptime: " + uptime.value;
      assert m[|Str(message)| + 10..] == uptime.value;
      Some(m)
    else message
  }

  /** The badge text for each status. */
  function BadgeText(s: Status): (t: string)
    ensures t == "ONLINE" || t == "OFFLINE" || t == "NO CONNECTION"
    ensures t == "ONLINE" <==> s == Online
    ensures t == "OFFLINE" <==> s == Offline
    ensures t == "NO CONNECTION" <==> s == NoConnection
  {
    match s
    case Online => "ONLINE"
    case Offline => "OFFLINE"
    case NoConnection => "NO CONNECTION"
  }

  /** Different statuses get different badges. */
  lemma BadgeTextDistinct(a: Status, b: Status)
    ensures BadgeText(a) == BadgeText(b) ==> a == b
  {
    if a != b {
      assert BadgeText(a)[1] != BadgeText(b)[1] || |BadgeText(a)| != |BadgeText(b)|;
    }
  }
}
