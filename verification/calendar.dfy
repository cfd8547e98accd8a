/**
 * Log file names and the hour they stand for. A journal file is named
 * `YYMMDDHH.log` and holds the lines of one hour of the day `20YY-MM-DD`;
 * both directory readers (`src/parser/mod.rs` and the older
 * `src/parser.rs`) decode that name into an instant, through chrono's
 * calendar. Instants are nanoseconds from 1970-01-01 00:00:00, with no time
 * zone.
 */
module Calendar {
  import opened Base
  import opened Host

  const NanosPerSecond: int := 1_000_000_000
  const NanosPerHour: int := 3600 * NanosPerSecond

  /** `NaiveTime::from_hms_nano_opt`: the offset of a time from midnight, or
      nothing when a component is out of range. A fraction of one second or
      more (below two) stands for a leap second. */
  function TimeOfDay(hour: nat, min: nat, sec: nat, nano: nat): (r: Option<int>)
    ensures r.Some? <==> hour < 24 && min < 60 && sec < 60 && nano < 2 * NanosPerSecond
    ensures r.Some? ==> 0 <= r.value < 24 * NanosPerHour + NanosPerSecond
  {
    if hour >= 24 || min >= 60 || sec >= 60 || nano >= 2 * NanosPerSecond then None
    else Some(((hour * 60 + min) * 60 + sec) * NanosPerSecond + nano)
  }

  /** `NaiveDate::from_ymd(year, month, day).and_hms(hour, 0, 0)`, or
      nothing where either of them panics. */
  function DateHour(h: Host, year: int, month: int, day: int, hour: nat): (r: Option<int>)
    ensures r.Some? <==> h.dayStart(year, month, day).Some? && hour < 24
    ensures r.Some? ==> r.value == h.dayStart(year, month, day).value + hour * NanosPerHour
  {
    match h.dayStart(year, month, day)
    case None => None
    case Some(d) =>
      match TimeOfDay(hour, 0, 0, 0)
      case None => None
      case Some(t) => Some(d + t)
  }

  /** `date.date().and_hms(date.hour(), 0, 0)`: the start of the hour an
      instant falls in (days are whole hours from the epoch). */
  function HourStart(t: int): (r: int)
    ensures r <= t < r + NanosPerHour
    ensures r % NanosPerHour == 0
  {
    t - t % NanosPerHour
  }

  /** Eight decimal digits, in the regex crate's Unicode sense, followed by
      `.log` start at position `i`. */
  predicate MatchesAt(h: Host, s: string, i: nat)
  {
    && i + 12 <= |s|
    && (forall k :: i <= k < i + 8 ==> h.isDecimal(s[k]))
    && s[i + 8..i + 12] == ".log"
  }

  /** The whole name is eight decimal digits and `.log`: `^\d{8}[.]log$`. */
  predicate IsLogName(h: Host, name: string)
  {
    |name| == 12 && MatchesAt(h, name, 0)
  }

  /** A log name whose eight digits are all ASCII: the only kind whose
      numbers can be read. */
  predicate AsciiLogName(name: string)
  {
    && |name| == 12
    && (forall k :: 0 <= k < 8 ==> IsDigit(name[k]))
    && name[8..12] == ".log"
  }

  /** The two-digit number at position `i` of a log name. */
  function Pair(name: string, i: nat): (n: nat)
    requires AsciiLogName(name) && i <= 6
    ensures n < 100
  {
    var d := name[i..i + 2];
    assert AllDigits(d) by {
      forall k | 0 <= k < |d| ensures IsDigit(d[k]) {
        assert d[k] == name[i + k];
      }
    }
    Pad2OfDigits(d);
    DigitsValue(d)
  }

  /** The hour a log name stands for: year `2000 + YY`, then month, day and
      hour; an impossible date or hour panics. The numbers are read from the
      byte slices `[0..2]`, `[2..4]`, `[4..6]` and `[6..8]` of the name. A
      digit outside ASCII takes two bytes or more in UTF-8, so the slice
      that reaches the first such digit either cuts it, which panics, or
      holds it whole, and `parse` takes ASCII digits only, so its `unwrap`
      panics. */
  function NameHour(h: Host, name: string): (r: Exec<int>)
    requires IsLogName(h, name)
    ensures !r.Loops?
    ensures !AsciiLogName(name) ==> r.Panics?
    ensures r.Returns? <==>
      AsciiLogName(name) && DateHour(h, 2000 + Pair(name, 0), Pair(name, 2), Pair(name, 4), Pair(name, 6)).Some?
  {
    if !AsciiLogName(name) then Panics
    else match DateHour(h, 2000 + Pair(name, 0), Pair(name, 2), Pair(name, 4), Pair(name, 6))
    case None => Panics
    case Some(t) => Returns(t)
  }

  // ---------------------------------------------------------------------
  // Writing a name for an hour

  function Pad2(n: nat): (s: string)
    requires n < 100
    ensures |s| == 2 && IsDigit(s[0]) && IsDigit(s[1])
  {
    [DigitChar(n / 10), DigitChar(n % 10)]
  }

  /** The name of the file holding the hour `hh` of the day `20yy-mm-dd`. */
  function LogName(yy: nat, mm: nat, dd: nat, hh: nat): string
    requires yy < 100 && mm < 100 && dd < 100 && hh < 100
  {
    Pad2(yy) + Pad2(mm) + Pad2(dd) + Pad2(hh) + ".log"
  }

  lemma Pad2Value(n: nat)
    requires n < 100
    ensures AllDigits(Pad2(n)) && DigitsValue(Pad2(n)) == n
  {
    var s := Pad2(n);
    assert s[..1] == [s[0]];
    assert DigitsValue([s[0]]) == DigitValue(s[0]) by {
      assert [s[0]][..0] == [];
    }
  }

  lemma PairOfPad(name: string, i: nat, n: nat)
    requires AsciiLogName(name) && i <= 6 && n < 100 && name[i..i + 2] == Pad2(n)
    ensures Pair(name, i) == n
  {
    Pad2Value(n);
  }

  /** A name written for an hour is a log name and decodes to that hour. */
  lemma {:induction false} LogNameRoundTrip(h: Host, yy: nat, mm: nat, dd: nat, hh: nat)
    requires DecimalOnAscii(h) && yy < 100 && mm < 100 && dd < 100 && hh < 100
    ensures IsLogName(h, LogName(yy, mm, dd, hh)) && AsciiLogName(LogName(yy, mm, dd, hh))
    ensures NameHour(h, LogName(yy, mm, dd, hh))
      == match DateHour(h, 2000 + yy, mm, dd, hh)
         case None => Panics
         case Some(t) => Returns(t)
  {
    var name := LogName(yy, mm, dd, hh);
    assert name[..2] == Pad2(yy) && name[2..4] == Pad2(mm) && name[4..6] == Pad2(dd) && name[6..8] == Pad2(hh);
    assert name[8..12] == ".log";
    PairOfPad(name, 0, yy);
    PairOfPad(name, 2, mm);
    PairOfPad(name, 4, dd);
    PairOfPad(name, 6, hh);
  }

  lemma Pad2OfDigits(s: string)
    requires |s| == 2 && AllDigits(s)
    ensures DigitsValue(s) < 100 && Pad2(DigitsValue(s)) == s
  {
    assert s[..1] == [s[0]];
    assert DigitsValue([s[0]]) == DigitValue(s[0]) by {
      assert [s[0]][..0] == [];
    }
  }

  /** Every log name is the name written for the hour it decodes to. */
  lemma {:induction false} LogNameOfDigits(name: string)
    requires AsciiLogName(name)
    ensures name == LogName(Pair(name, 0), Pair(name, 2), Pair(name, 4), Pair(name, 6))
  {
    Pad2OfDigits(name[0..2]);
    Pad2OfDigits(name[2..4]);
    Pad2OfDigits(name[4..6]);
    Pad2OfDigits(name[6..8]);
    var w := LogName(Pair(name, 0), Pair(name, 2), Pair(name, 4), Pair(name, 6));
    assert w == name[0..2] + name[2..4] + name[4..6] + name[6..8] + name[8..12];
    assert name == name[0..2] + name[2..4] + name[4..6] + name[6..8] + name[8..12];
  }

  // ---------------------------------------------------------------------
  // The older reader: the date of a file from its path

  /** The leftmost position at or after `from` where a name match starts:
      the match of the unanchored `(\d{8})[.]log`. */
  function FirstMatch(h: Host, s: string, from: nat): (r: Option<nat>)
    ensures r.Some? ==> from <= r.value && MatchesAt(h, s, r.value)
    ensures r.Some? ==> forall j :: from <= j < r.value ==> !MatchesAt(h, s, j)
    ensures r.None? ==> forall j :: from <= j ==> !MatchesAt(h, s, j)
    decreases |s| - from
  {
    if from + 12 > |s| then None
    else if MatchesAt(h, s, from) then Some(from)
    else FirstMatch(h, s, from + 1)
  }

  /** `LogParser::parse_date` of `src/parser.rs`: the hour named by the first
      match in the whole path; no match, or an impossible date, panics. */
  function PathHour(h: Host, path: string): (r: Exec<int>)
    ensures !r.Loops?
    ensures FirstMatch(h, path, 0).None? ==> r.Panics?
  {
    match FirstMatch(h, path, 0)
    case None => Panics
    case Some(i) =>
      MatchedSlice(h, path, i);
      NameHour(h, path[i..i + 12])
  }

  lemma MatchedSlice(h: Host, s: string, i: nat)
    requires MatchesAt(h, s, i)
    ensures IsLogName(h, s[i..i + 12])
  {
    var n := s[i..i + 12];
    assert n[8..12] == s[i + 8..i + 12];
    forall k | 0 <= k < 8 ensures h.isDecimal(n[k]) {
      assert n[k] == s[i + k];
    }
  }

  /** A match cannot run across a `/`. */
  lemma NoMatchAcross(h: Host, dir: string, name: string, j: nat)
    requires DecimalOnAscii(h)
    requires |dir| > 0 && dir[|dir| - 1] == '/' && j < |dir| && j + 12 > |dir|
    ensures !MatchesAt(h, dir + name, j)
  {
    var s := dir + name;
    var k := |dir| - 1;
    assert s[k] == '/';
    if k < j + 8 {
      assert !h.isDecimal(s[k]);
    } else if j + 12 <= |s| {
      assert s[j + 8..j + 12][k - j - 8] == '/';
    }
  }

  lemma MatchInPrefix(h: Host, dir: string, name: string, j: nat)
    requires j + 12 <= |dir| && MatchesAt(h, dir + name, j)
    ensures MatchesAt(h, dir, j)
  {
    var s := dir + name;
    assert s[j + 8..j + 12] == dir[j + 8..j + 12];
    forall k | j <= k < j + 8 ensures h.isDecimal(dir[k]) {
      assert dir[k] == s[k];
    }
  }

  /** For a file in a directory whose path holds no name match of its own,
      the older reader dates the file by its name, as the newer one does. */
  lemma {:induction false} PathHourOfFile(h: Host, dir: string, name: string)
    requires DecimalOnAscii(h) && IsLogName(h, name)
    requires dir == [] || dir[|dir| - 1] == '/'
    requires forall j :: !MatchesAt(h, dir, j)
    ensures PathHour(h, dir + name) == NameHour(h, name)
  {
    var s := dir + name;
    forall j | 0 <= j < |dir| ensures !MatchesAt(h, s, j) {
      if j + 12 <= |dir| {
        if MatchesAt(h, s, j) {
          MatchInPrefix(h, dir, name, j);
        }
      } else {
        NoMatchAcross(h, dir, name, j);
      }
    }
    assert s[|dir|..|dir| + 12] == name;
    assert MatchesAt(h, s, |dir|) by {
      assert s[|dir| + 8..|dir| + 12] == name[8..12];
      forall k | |dir| <= k < |dir| + 8 ensures h.isDecimal(s[k]) {
        assert s[k] == name[k - |dir|];
      }
    }
    assert FirstMatch(h, s, 0) == Some(|dir|);
  }
}
