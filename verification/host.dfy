/**
 * The collaborators the parsing and filtering core calls but that are not
 * modelled here: the regular-expression engine, chrono's calendar, date
 * parsing and formatting, `util::parse_time` (which is not part of this model), and the
 * `Display`/`Debug` formatting of numbers, date-times and lists. Each is a
 * total function supplied by the caller.
 */
module Host {
  import opened Base
  import opened Values

  datatype Host = Host(
    /** `char::is_numeric`: the Unicode numeric classes. */
    isNumeric: char -> bool,
    /** `\d` of the regex crate: the Unicode decimal digits (`\p{Nd}`). */
    isDecimal: char -> bool,
    /** `Regex::new(pattern).is_ok()`. */
    regexValid: string -> bool,
    /** `Regex::is_match(pattern, text)`: the pattern occurs somewhere in the text. */
    regexMatch: (string, string) -> bool,
    /** `NaiveDateTime::parse_from_str(text, "%Y-%m-%d %H:%M:%S")`. */
    parseDateTime: string -> Option<int>,
    /** `NaiveDate::from_ymd_opt(year, month, day)`: midnight of that day, or
        nothing when there is no such day. */
    dayStart: (int, int, int) -> Option<int>,
    /** Whether chrono's calendar holds a `NaiveDateTime` at that instant:
        outside it, date arithmetic panics. */
    inCalendar: int -> bool,
    /** `util::parse_time(hour, text)`: the instant of a line's time field in a file of that hour. */
    parseTime: (int, string) -> int,
    /** `Display for f64`. */
    showNumber: real -> string,
    /** `Display for NaiveDateTime`. */
    showDateTime: int -> string,
    /** `Debug for Vec<Value>`. */
    showList: seq<Value> -> string,
    /** `NaiveDateTime::format("%d-%m-%y %T%.9f")`. */
    formatTableTime: int -> string)

  /** Among ASCII characters exactly the decimal digits are numeric, as in
      Unicode. */
  predicate NumericOnAscii(h: Host)
  {
    forall c: char :: c < 128 as char ==> (h.isNumeric(c) <==> IsDigit(c))
  }

  /** Among ASCII characters exactly the ten digits are decimal digits, as
      in Unicode. */
  predicate DecimalOnAscii(h: Host)
  {
    forall c: char :: c < 128 as char ==> (h.isDecimal(c) <==> IsDigit(c))
  }

  /** `Value::to_string()`. */
  function Display(h: Host, v: Value): string
  {
    match v
    case String(s) => s
    case Number(n) => h.showNumber(n)
    case DateTime(t) => h.showDateTime(t)
    case MultiValue(items) => h.showList(items)
  }
}
