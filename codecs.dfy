/** String <-> enum conversion (taskmanager.cpp `strToPrio`, `strToStat`, `PrioToStr`, `StatToStr`). */
module Codecs {
  import opened Tasks
  import opened Wrappers

  /** `::tolower` on one character, restricted to ASCII: capitals move down by 32, all else stays. */
  function LowerChar(c: char): (r: char)
    ensures !('A' <= r <= 'Z')
    ensures r == c || ('A' <= c <= 'Z' && r as int == c as int + 32)
    ensures 'a' <= c <= 'z' ==> r == c
  {
    if 'A' <= c <= 'Z' then (c as int + 32) as char else c
  }

  /**
   * The lower-cased copy the parsers compare against (`std::transform` with `::tolower`):
   * same length, no ASCII capital left, and each character either kept or an ASCII capital
   * moved to its lower-case letter.
   */
  function ToLower(s: string): (r: string)
    ensures |r| == |s|
    ensures forall i :: 0 <= i < |r| ==> !('A' <= r[i] <= 'Z')
    ensures forall i :: 0 <= i < |s| ==> r[i] == s[i] || ('A' <= s[i] <= 'Z' && r[i] as int == s[i] as int + 32)
  {
    seq(|s|, i requires 0 <= i < |s| => LowerChar(s[i]))
  }

  /** Lower-casing twice is lower-casing once. */
  lemma ToLowerIdempotent(s: string)
    ensures ToLower(ToLower(s)) == ToLower(s)
  {
  }

  /** The lower-cased canonical names, worked out once. */
  lemma LoweredNames()
    ensures ToLower("Low") == "low" && ToLower("Medium") == "medium" && ToLower("High") == "high"
    ensures ToLower("Open") == "open" && ToLower("InProgress") == "inprogress" && ToLower("Done") == "done"
  {
  }

  /** The canonical display form of a priority. */
  function PrioToStr(p: Priority): (r: string)
    ensures |r| > 0 && 'A' <= r[0] <= 'Z'
  {
    match p
    case Low => "Low"
    case Medium => "Medium"
    case High => "High"
  }

  /** The canonical display form of a status. */
  function StatToStr(s: Status): (r: string)
    ensures |r| > 0 && 'A' <= r[0] <= 'Z'
  {
    match s
    case Open => "Open"
    case InProgress => "InProgress"
    case Done => "Done"
  }

  /**
   * Parses a priority name in any letter case; any other text fails with the message
   * `invalid_argument` would carry.
   */
  function StrToPrio(inp: string): (r: Result<Priority, string>)
    ensures r.Success? ==> ToLower(inp) == ToLower(PrioToStr(r.value))
    ensures r.Failure? ==> r.error == "Invalid Priority: " + inp
    ensures r.Failure? ==> forall p :: ToLower(inp) != ToLower(PrioToStr(p))
  {
    LoweredNames();
    var lower := ToLower(inp);
    if lower == "low" then Success(Low)
    else if lower == "medium" then Success(Medium)
    else if lower == "high" then Success(High)
    else Failure("Invalid Priority: " + inp)
  }

  /**
   * Parses a status name in any letter case, accepting "in progress" as a second spelling of
   * InProgress; any other text fails with the message `invalid_argument` would carry.
   */
  function StrToStat(inp: string): (r: Result<Status, string>)
    ensures r.Success? ==>
      ToLower(inp) == ToLower(StatToStr(r.value)) || (r.value == InProgress && ToLower(inp) == "in progress")
    ensures r.Failure? ==> r.error == "Invalid Status: " + inp
    ensures r.Failure? ==> ToLower(inp) != "in progress" && forall s :: ToLower(inp) != ToLower(StatToStr(s))
  {
    LoweredNames();
    var lower := ToLower(inp);
    if lower == "open" then Success(Open)
    else if lower == "inprogress" || lower == "in progress" then Success(InProgress)
    else if lower == "done" then Success(Done)
    else Failure("Invalid Status: " + inp)
  }

  /** Formatting then parsing gives back the priority. */
  lemma PrioRoundTrip(p: Priority)
    ensures StrToPrio(PrioToStr(p)) == Success(p)
  {
  }

  /** Formatting then parsing gives back the status. */
  lemma StatRoundTrip(s: Status)
    ensures StrToStat(StatToStr(s)) == Success(s)
  {
  }

  /** Every letter-case variant of a canonical priority name parses to that priority. */
  lemma PrioAnyCase(inp: string, p: Priority)
    requires ToLower(inp) == ToLower(PrioToStr(p))
    ensures StrToPrio(inp) == Success(p)
  {
  }

  /** Every letter-case variant of a canonical status name, and of "in progress", parses to that status. */
  lemma StatAnyCase(inp: string, s: Status)
    requires ToLower(inp) == ToLower(StatToStr(s)) || (s == InProgress && ToLower(inp) == "in progress")
    ensures StrToStat(inp) == Success(s)
  {
  }

  /** Parsing a priority depends only on the lower-cased input. */
  lemma PrioCaseInsensitive(inp: string)
    ensures StrToPrio(ToLower(inp)).Success? == StrToPrio(inp).Success?
    ensures StrToPrio(inp).Success? ==> StrToPrio(ToLower(inp)).value == StrToPrio(inp).value
  {
    ToLowerIdempotent(inp);
  }

  /** Parsing a status depends only on the lower-cased input. */
  lemma StatCaseInsensitive(inp: string)
    ensures StrToStat(ToLower(inp)).Success? == StrToStat(inp).Success?
    ensures StrToStat(inp).Success? ==> StrToStat(ToLower(inp)).value == StrToStat(inp).value
  {
    ToLowerIdempotent(inp);
  }

  /** Distinct priorities have distinct display forms. */
  lemma PrioToStrInjective(p: Priority, q: Priority)
    requires PrioToStr(p) == PrioToStr(q)
    ensures p == q
  {
    PrioRoundTrip(p);
    PrioRoundTrip(q);
  }

  /** Distinct statuses have distinct display forms. */
  lemma StatToStrInjective(s: Status, t: Status)
    requires StatToStr(s) == StatToStr(t)
    ensures s == t
  {
    StatRoundTrip(s);
    StatRoundTrip(t);
  }
}
