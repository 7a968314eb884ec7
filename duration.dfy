/** `format_time` of etl/loader_pipeline.py on whole seconds, and a reader for
    its output that serves as its inverse. */
module Duration {
  import opened Decimal

  /** Python's `" ".join(parts)`. */
  function Join(parts: seq<string>): string
  {
    if |parts| == 0 then ""
    else if |parts| == 1 then parts[0]
    else parts[0] + " " + Join(parts[1..])
  }

  /** The pieces `format_time` emits: hours, minutes, and seconds only while
      there are no hours; zero quantities are left out. */
  function Parts(total: nat): seq<string>
  {
    var minutes, seconds := total / 60, total % 60;
    var hours, mins := minutes / 60, minutes % 60;
    (if hours > 0 then [NatToString(hours) + "h"] else [])
    + (if mins > 0 then [NatToString(mins) + "m"] else [])
    + (if seconds > 0 && hours == 0 then [NatToString(seconds) + "s"] else [])
  }

  /** `format_time(total)` for a whole, non-negative number of seconds:
      `" ".join(parts) or "0s"`. */
  function FormatTime(total: nat): string
  {
    var joined := Join(Parts(total));
    if joined == "" then "0s" else joined
  }

  /** Reads a duration written as space-separated tokens `<digits><unit>` with
      unit h, m or s, left to right; `cur` is the number being read. */
  function Scan(s: string, cur: nat, total: nat): nat
    decreases |s|
  {
    if s == [] then total
    else if IsDigit(s[0]) then Scan(s[1..], cur * 10 + (s[0] as int - '0' as int), total)
    else if s[0] == 'h' then Scan(s[1..], 0, total + 3600 * cur)
    else if s[0] == 'm' then Scan(s[1..], 0, total + 60 * cur)
    else if s[0] == 's' then Scan(s[1..], 0, total + cur)
    else Scan(s[1..], 0, total)
  }

  function ParseDuration(s: string): nat { Scan(s, 0, 0) }

  /** Reading the digits of `n` leaves `n` as the number being read. */
  lemma {:induction false} ScanNumber(n: nat, rest: string, total: nat)
    ensures Scan(NatToString(n) + rest, 0, total) == Scan(rest, n, total)
    decreases n
  {
    if n >= 10 {
      var d := [DigitChar(n % 10)];
      assert NatToString(n) + rest == NatToString(n / 10) + (d + rest);
      ScanNumber(n / 10, d + rest, total);
      assert (d + rest)[1..] == rest;
    } else {
      assert (NatToString(n) + rest)[1..] == rest;
    }
  }

  /** Reading one token `<n><unit>` adds `weight * n`. */
  lemma ScanToken(n: nat, unit: char, weight: nat, rest: string, total: nat)
    requires (unit == 'h' && weight == 3600) || (unit == 'm' && weight == 60) || (unit == 's' && weight == 1)
    ensures Scan(NatToString(n) + [unit] + rest, 0, total) == Scan(rest, 0, total + weight * n)
  {
    assert NatToString(n) + [unit] + rest == NatToString(n) + ([unit] + rest);
    ScanNumber(n, [unit] + rest, total);
    assert ([unit] + rest)[1..] == rest;
  }

  /** Reading a separating space changes nothing. */
  lemma ScanSpace(rest: string, total: nat)
    ensures Scan(" " + rest, 0, total) == Scan(rest, 0, total)
  {
    assert (" " + rest)[1..] == rest;
  }

  /** Reading back one printed token. */
  lemma ParseOne(n: nat, unit: char, weight: nat)
    requires (unit == 'h' && weight == 3600) || (unit == 'm' && weight == 60) || (unit == 's' && weight == 1)
    ensures ParseDuration(Join([NatToString(n) + [unit]])) == weight * n
  {
    ScanToken(n, unit, weight, "", 0);
    assert NatToString(n) + [unit] == NatToString(n) + [unit] + "";
  }

  /** Two printed tokens joined by a space. */
  lemma JoinTwo(x: string, y: string)
    ensures Join([x, y]) == x + " " + y
  {
    assert [x, y][1..] == [y];
  }

  /** Reading back "<hours>h <mins>m". */
  lemma ParseHoursMinutes(hours: nat, mins: nat)
    ensures ParseDuration(Join([NatToString(hours) + "h", NatToString(mins) + "m"])) == 3600 * hours + 60 * mins
  {
    var x, y := NatToString(hours) + "h", NatToString(mins) + "m";
    JoinTwo(x, y);
    calc {
      ParseDuration(Join([x, y]));
      Scan(x + " " + y, 0, 0);
      { assert x + " " + y == NatToString(hours) + ['h'] + (" " + y);
        ScanToken(hours, 'h', 3600, " " + y, 0); }
      Scan(" " + y, 0, 3600 * hours);
      { ScanSpace(y, 3600 * hours); }
      Scan(y, 0, 3600 * hours);
      { assert y == NatToString(mins) + ['m'] + "";
        ScanToken(mins, 'm', 60, "", 3600 * hours); }
      Scan("", 0, 3600 * hours + 60 * mins);
    }
  }

  /** Reading back "<mins>m <seconds>s". */
  lemma ParseMinutesSeconds(mins: nat, seconds: nat)
    ensures ParseDuration(Join([NatToString(mins) + "m", NatToString(seconds) + "s"])) == 60 * mins + seconds
  {
    var x, y := NatToString(mins) + "m", NatToString(seconds) + "s";
    JoinTwo(x, y);
    calc {
      ParseDuration(Join([x, y]));
      Scan(x + " " + y, 0, 0);
      { assert x + " " + y == NatToString(mins) + ['m'] + (" " + y);
        ScanToken(mins, 'm', 60, " " + y, 0); }
      Scan(" " + y, 0, 60 * mins);
      { ScanSpace(y, 60 * mins); }
      Scan(y, 0, 60 * mins);
      { assert y == NatToString(seconds) + ['s'] + "";
        ScanToken(seconds, 's', 1, "", 60 * mins); }
      Scan("", 0, 60 * mins + 1 * seconds);
    }
  }

  /** Reading back what `format_time` printed gives the number of seconds,
      except that the seconds are lost once there is at least one hour. */
  lemma FormatTimeRoundTrip(total: nat)
    ensures ParseDuration(FormatTime(total)) == if total >= 3600 then total - total % 60 else total
  {
    var minutes, seconds := total / 60, total % 60;
    var hours, mins := minutes / 60, minutes % 60;
    assert total == 3600 * hours + 60 * mins + seconds;
    var h, m, s := NatToString(hours) + "h", NatToString(mins) + "m", NatToString(seconds) + "s";
    if hours > 0 {
      if mins > 0 {
        assert Parts(total) == [h, m];
        ParseHoursMinutes(hours, mins);
      } else {
        assert Parts(total) == [h];
        ParseOne(hours, 'h', 3600);
      }
    } else if mins > 0 {
      if seconds > 0 {
        assert Parts(total) == [m, s];
        ParseMinutesSeconds(mins, seconds);
      } else {
        assert Parts(total) == [m];
        ParseOne(mins, 'm', 60);
      }
    } else if seconds > 0 {
      assert Parts(total) == [s];
      ParseOne(seconds, 's', 1);
    } else {
      assert Parts(total) == [];
      ScanToken(0, 's', 1, "", 0);
      assert "0s" == NatToString(0) + ['s'] + "";
    }
  }

  /** "0s" is printed for zero seconds and for nothing else. */
  lemma FormatTimeZeroIff(total: nat)
    ensures FormatTime(total) == "0s" <==> total == 0
  {
    FormatTimeRoundTrip(total);
    FormatTimeRoundTrip(0);
  }

  /** The example of the documentation: 3661 seconds print as "1h 1m". */
  lemma FormatTimeDropsSeconds()
    ensures FormatTime(3661) == "1h 1m"
  {
    assert DigitChar(1) == '1';
    assert NatToString(1) == "1";
    assert 3661 / 60 == 61 && 3661 % 60 == 1 && 61 / 60 == 1 && 61 % 60 == 1;
    assert NatToString(1) + "h" == "1h" && NatToString(1) + "m" == "1m";
    assert Parts(3661) == ["1h"] + ["1m"] + [];
    assert ["1h", "1m"][1..] == ["1m"];
  }
}
