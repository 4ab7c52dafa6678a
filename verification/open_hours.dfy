/** The open-hours decision of `is_open`. It is deliberately fail-open: a
    missing, empty or unparseable specification counts as open. The wall
    clock becomes the parameter `now`, in microseconds since midnight (the
    resolution of `datetime.now().time()`). */
module OpenHours {
  import opened Values

  const MicrosPerMinute: nat := 60_000_000
  const MicrosPerDay: nat := 24 * 60 * MicrosPerMinute

  type TimeOfDay = t: nat | t < MicrosPerDay

  /** A clock time as `strptime(_, "%H:%M")` produces it. */
  datatype ClockTime = ClockTime(hour: nat, minute: nat)

  predicate ValidClock(t: ClockTime) { t.hour <= 23 && t.minute <= 59 }

  function Micros(t: ClockTime): nat
  {
    (t.hour * 60 + t.minute) * MicrosPerMinute
  }

  /** Index of the first `c` in `s`, or `|s|` when there is none. */
  function IndexOf(s: string, c: char): (k: nat)
    ensures k <= |s|
    ensures forall i :: 0 <= i < k ==> s[i] != c
    ensures k < |s| ==> s[k] == c
  {
    if |s| == 0 then 0 else if s[0] == c then 0 else 1 + IndexOf(s[1..], c)
  }

  lemma {:induction false} IndexOfIs(s: string, c: char, k: nat)
    requires k <= |s| && (forall i :: 0 <= i < k ==> s[i] != c) && (k < |s| ==> s[k] == c)
    ensures IndexOf(s, c) == k
  {
    if k > 0 {
      IndexOfIs(s[1..], c, k - 1);
    }
  }

  /** Python's `s.split(sep)` for a one-character separator. */
  function Split(s: string, sep: char): (parts: seq<string>)
    ensures |parts| >= 1
    ensures (forall i :: 0 <= i < |s| ==> s[i] != sep) ==> parts == [s]
    decreases |s|
  {
    var k := IndexOf(s, sep);
    if k == |s| then [s] else [s[..k]] + Split(s[k + 1..], sep)
  }

  /** A `%H` or `%M` field of `strptime`: one ASCII digit, or two whose value
      is at most `max` (the patterns `2[0-3]|[0-1]\d|\d` and `[0-5]\d|\d`). */
  function ParseField(s: string, max: nat): (r: Option<nat>)
    ensures r.Some? ==> r.value <= max || |s| == 1
    ensures r.Some? ==> 1 <= |s| <= 2 && AllDigits(s) && r.value == DigitsValue(s)
  {
    if (|s| == 1 || |s| == 2) && AllDigits(s) && (|s| == 1 || DigitsValue(s) <= max)
    then Some(DigitsValue(s))
    else None
  }

  /** `strptime(s, "%H:%M")`; `None` where it raises ValueError. */
  function ParseClock(s: string): (r: Option<ClockTime>)
    ensures r.Some? ==> ValidClock(r.value)
  {
    var k := IndexOf(s, ':');
    if k == |s| then None
    else
      match (ParseField(s[..k], 23), ParseField(s[k + 1..], 59))
      case (Some(h), Some(m)) => Some(ClockTime(h, m))
      case _ => None
  }

  /** `is_open(hours)` evaluated at time `now`. */
  function IsOpen(hours: Value, now: TimeOfDay): (r: bool)
    ensures !hours.Str? || hours.s == "" ==> r
    ensures hours.Str? && Lower(Strip(hours.s)) == "24/7" ==> r
    ensures hours.Str? && |Split(hours.s, '-')| != 2 ==> r
    ensures hours.Str? && |Split(hours.s, '-')| == 2
      && (ParseClock(Strip(Split(hours.s, '-')[0])).None?
          || ParseClock(Strip(Split(hours.s, '-')[1])).None?)
      ==> r
  {
    if !hours.Str? || hours.s == "" then true
    else if Lower(Strip(hours.s)) == "24/7" then true
    else
      var parts := Split(hours.s, '-');
      if |parts| != 2 then true
      else
        match (ParseClock(Strip(parts[0])), ParseClock(Strip(parts[1])))
        case (Some(o), Some(c)) =>
          var open, close := Micros(o), Micros(c);
          if close < open then now >= open || now <= close
          else open <= now <= close
        case _ => true
  }

  /** Reference reading of an opening window: walking forward round the
      clock from the opening time, `now` comes no later than the closing
      time. */
  predicate WithinWindow(open: nat, close: nat, now: nat)
    requires open < MicrosPerDay && close < MicrosPerDay
  {
    (now - open) % MicrosPerDay <= (close - open) % MicrosPerDay
  }

  function DigitChar(d: nat): (c: char)
    requires d <= 9
    ensures IsDigit(c) && DigitValue(c) == d
  {
    ('0' as int + d) as char
  }

  /** The zero-padded `HH:MM` form of a clock time. */
  function Format(t: ClockTime): (s: string)
    requires ValidClock(t)
    ensures |s| == 5
  {
    [DigitChar(t.hour / 10), DigitChar(t.hour % 10), ':', DigitChar(t.minute / 10), DigitChar(t.minute % 10)]
  }

  lemma TwoDigits(x: char, y: char)
    requires IsDigit(x) && IsDigit(y)
    ensures AllDigits([x, y]) && DigitsValue([x, y]) == 10 * DigitValue(x) + DigitValue(y)
  {
    assert [x, y][..1] == [x];
    assert [x][..0] == [];
  }

  lemma NotSpaceKept(s: string)
    requires |s| > 0 && !IsSpace(s[0]) && !IsSpace(s[|s| - 1])
    ensures Strip(s) == s
  {
    assert TrimStart(s) == s;
    assert TrimEnd(s) == s;
  }

  lemma FormatParses(t: ClockTime)
    requires ValidClock(t)
    ensures ParseClock(Format(t)) == Some(t)
    ensures Strip(Format(t)) == Format(t)
    ensures forall i :: 0 <= i < |Format(t)| ==> Format(t)[i] != '-'
  {
    var s := Format(t);
    IndexOfIs(s, ':', 2);
    assert s[..2] == [s[0], s[1]] && s[3..] == [s[3], s[4]];
    TwoDigits(s[0], s[1]);
    TwoDigits(s[3], s[4]);
    NotSpaceKept(s);
  }

  /** For every well-formed `HH:MM-HH:MM` specification, `is_open` answers
      exactly whether `now` lies in the window read round the clock. */
  lemma WindowSpecDecided(o: ClockTime, c: ClockTime, now: TimeOfDay)
    requires ValidClock(o) && ValidClock(c)
    ensures Micros(o) < MicrosPerDay && Micros(c) < MicrosPerDay
    ensures IsOpen(Str(Format(o) + "-" + Format(c)), now) == WithinWindow(Micros(o), Micros(c), now)
  {
    WindowParsed(o, c);
    ParsedWindow(Format(o) + "-" + Format(c), o, c, now);
    WindowAgrees(Micros(o), Micros(c), now);
  }

  /** `is_open` on a specification whose two parts parse as `o` and `c`. */
  lemma ParsedWindow(s: string, o: ClockTime, c: ClockTime, now: TimeOfDay)
    requires s != "" && Lower(Strip(s)) != "24/7" && |Split(s, '-')| == 2
    requires ParseClock(Strip(Split(s, '-')[0])) == Some(o) && ParseClock(Strip(Split(s, '-')[1])) == Some(c)
    ensures IsOpen(Str(s), now) ==
      (if Micros(c) < Micros(o) then now >= Micros(o) || now <= Micros(c) else Micros(o) <= now <= Micros(c))
  {
  }

  /** How `is_open` reads a formatted window: not the always-open marker,
      two parts, each parsing back to its clock time. */
  lemma WindowParsed(o: ClockTime, c: ClockTime)
    requires ValidClock(o) && ValidClock(c)
    ensures var s := Format(o) + "-" + Format(c);
      && s != "" && Lower(Strip(s)) != "24/7" && |Split(s, '-')| == 2
      && ParseClock(Strip(Split(s, '-')[0])) == Some(o) && ParseClock(Strip(Split(s, '-')[1])) == Some(c)
  {
    var a, b := Format(o), Format(c);
    var s := a + "-" + b;
    FormatParses(o);
    FormatParses(c);
    SplitTwo(a, b);
    NotSpaceKept(s);
    assert Lower(Strip(s)) != "24/7" by { assert |Lower(s)| == 11; }
  }

  lemma SplitTwo(a: string, b: string)
    requires forall i :: 0 <= i < |a| ==> a[i] != '-'
    requires forall i :: 0 <= i < |b| ==> b[i] != '-'
    ensures Split(a + "-" + b, '-') == [a, b]
  {
    var s := a + "-" + b;
    IndexOfIs(s, '-', |a|);
    assert s[..|a|] == a && s[|a| + 1..] == b;
  }

  /** The two readings of an opening window agree: the wrap-around rule of
      `is_open` and the forward walk round the clock. */
  lemma WindowAgrees(open: nat, close: nat, now: TimeOfDay)
    requires open < MicrosPerDay && close < MicrosPerDay
    ensures WithinWindow(open, close, now) ==
      (if close < open then now >= open || now <= close else open <= now <= close)
  {
    var d := MicrosPerDay;
    if close < open {
      assert (close - open) % d == close - open + d;
      if now >= open {
        assert (now - open) % d == now - open;
      } else {
        assert (now - open) % d == now - open + d;
      }
    } else {
      assert (close - open) % d == close - open;
      if now >= open {
        assert (now - open) % d == now - open;
      } else {
        assert (now - open) % d == now - open + d;
      }
    }
  }

  /** An overnight window such as `22:00-02:00` is open at 01:00. */
  lemma OvernightExample()
    ensures IsOpen(Str("22:00-02:00"), 60 * MicrosPerMinute)
  {
    var o, c := ClockTime(22, 0), ClockTime(2, 0);
    assert DigitChar(2) == '2' && DigitChar(0) == '0';
    assert Format(o) == "22:00";
    assert Format(c) == "02:00";
    assert Format(o) + "-" + Format(c) == "22:00-02:00";
    WindowSpecDecided(o, c, 60 * MicrosPerMinute);
    WindowAgrees(Micros(o), Micros(c), 60 * MicrosPerMinute);
  }
}
