/** Docket_Updates/Docket_Updates.py, the per-response loop of `get_info`: each fetched docket is checked against
    the `case id -> date of last filing` dictionary. An unseen case is recorded; a known case is reported when its
    filing date is strictly later than the one on record. Dates are read with `datetime.strptime(s, "%Y-%m-%d")`. */
module Docket {
  import opened Text

  /** One fetched docket, as the fields the loop reads from its JSON. */
  datatype CaseRecord = CaseRecord(id: int, dateLastFiling: string, caseName: string)

  /** A calendar date (the time of day `strptime` fills in is always midnight, so it plays no part). */
  datatype Date = Date(year: int, month: int, day: int)

  /** Why `strptime` raises `ValueError`: the text does not match the pattern, text remains after the match,
      or the fields do not form a date. */
  datatype DateError = NoMatch | UnconvertedData | OutOfRange

  datatype Result<T> = Ok(value: T) | Err(error: DateError)

  /** The text each newly active case adds to the report. */
  const ActivitySuffix: string := " has new docket activity!\n"

  predicate IsDigit(c: char)
  {
    '0' <= c <= '9'
  }

  function DigitValue(c: char): int
  {
    c as int - '0' as int
  }

  predicate IsLeap(year: int)
  {
    year % 4 == 0 && (year % 100 != 0 || year % 400 == 0)
  }

  function DaysInMonth(year: int, month: int): int
  {
    if month == 2 then (if IsLeap(year) then 29 else 28)
    else if month == 4 || month == 6 || month == 9 || month == 11 then 30
    else 31
  }

  /** The dates `datetime` accepts. */
  predicate ValidDate(d: Date)
  {
    1 <= d.year <= 9999 && 1 <= d.month <= 12 && 1 <= d.day <= DaysInMonth(d.year, d.month)
  }

  /** The `%m` group `1[0-2]|0[1-9]|[1-9]`, alternatives tried in order: the value matched at the front of `s` and
      the number of characters it took. */
  function MatchMonth(s: string): (r: Option<(int, nat)>)
    ensures r.Some? ==> 1 <= r.value.0 <= 12 && 1 <= r.value.1 <= 2 && r.value.1 <= |s|
  {
    if |s| >= 2 && s[0] == '1' && '0' <= s[1] <= '2' then Some((10 + DigitValue(s[1]), 2))
    else if |s| >= 2 && s[0] == '0' && '1' <= s[1] <= '9' then Some((DigitValue(s[1]), 2))
    else if |s| >= 1 && '1' <= s[0] <= '9' then Some((DigitValue(s[0]), 1))
    else None
  }

  /** The `%d` group `3[01]|[12]\d|0[1-9]|[1-9]| [1-9]`, alternatives tried in order. */
  function MatchDay(s: string): (r: Option<(int, nat)>)
    ensures r.Some? ==> 1 <= r.value.0 <= 31 && 1 <= r.value.1 <= 2 && r.value.1 <= |s|
  {
    if |s| >= 2 && s[0] == '3' && '0' <= s[1] <= '1' then Some((30 + DigitValue(s[1]), 2))
    else if |s| >= 2 && '1' <= s[0] <= '2' && IsDigit(s[1]) then Some((10 * DigitValue(s[0]) + DigitValue(s[1]), 2))
    else if |s| >= 2 && s[0] == '0' && '1' <= s[1] <= '9' then Some((DigitValue(s[1]), 2))
    else if |s| >= 1 && '1' <= s[0] <= '9' then Some((DigitValue(s[0]), 1))
    else if |s| >= 2 && s[0] == ' ' && '1' <= s[1] <= '9' then Some((DigitValue(s[1]), 2))
    else None
  }

  /** `datetime.strptime(s, "%Y-%m-%d")`: four digits, '-', a month, '-', a day; the whole text must be used, and
      the result must be a real date. */
  function ParseDate(s: string): (r: Result<Date>)
    ensures r.Ok? ==> ValidDate(r.value)
  {
    if |s| < 5 || !IsDigit(s[0]) || !IsDigit(s[1]) || !IsDigit(s[2]) || !IsDigit(s[3]) || s[4] != '-' then Err(NoMatch)
    else
      var year := 1000 * DigitValue(s[0]) + 100 * DigitValue(s[1]) + 10 * DigitValue(s[2]) + DigitValue(s[3]);
      match MatchMonth(s[5..])
      case None => Err(NoMatch)
      case Some((month, m)) =>
        var i := 5 + m;
        if i >= |s| || s[i] != '-' then Err(NoMatch)
        else
          match MatchDay(s[i + 1..])
          case None => Err(NoMatch)
          case Some((day, n)) =>
            if i + 1 + n != |s| then Err(UnconvertedData)
            else if year < 1 || day > DaysInMonth(year, month) then Err(OutOfRange)
            else Ok(Date(year, month, day))
  }

  /** `date1 > date2` on dates: later year, or same year and later month, or same month and later day. */
  predicate Later(a: Date, b: Date)
  {
    a.year > b.year || (a.year == b.year && (a.month > b.month || (a.month == b.month && a.day > b.day)))
  }

  /** What one response adds to the report, given the dictionary as the loop has it: nothing for an unseen case;
      for a known case, both dates parsed (the fetched one first) and the activity line when the fetched date is
      strictly later. */
  function Line(r: CaseRecord, dates: map<int, string>): Result<string>
  {
    if r.id !in dates then Ok("")
    else
      match ParseDate(r.dateLastFiling)
      case Err(e) => Err(e)
      case Ok(date1) =>
        match ParseDate(dates[r.id])
        case Err(e) => Err(e)
        case Ok(date2) => if Later(date1, date2) then Ok(r.caseName + ActivitySuffix) else Ok("")
  }

  /** The dictionary after the responses: each unseen id is added with the date of its response. */
  function Recorded(rs: seq<CaseRecord>, stored: map<int, string>): map<int, string>
  {
    if rs == [] then stored
    else
      var dates := Recorded(rs[..|rs| - 1], stored);
      var r := rs[|rs| - 1];
      if r.id in dates then dates else dates[r.id := r.dateLastFiling]
  }

  /** The report text after the responses, or the first date error. */
  function Report(rs: seq<CaseRecord>, stored: map<int, string>): Result<string>
  {
    if rs == [] then Ok("")
    else
      match Report(rs[..|rs| - 1], stored)
      case Err(e) => Err(e)
      case Ok(text) =>
        match Line(rs[|rs| - 1], Recorded(rs[..|rs| - 1], stored))
        case Err(e) => Err(e)
        case Ok(line) => Ok(text + line)
  }

  /** The loop of `get_info` and its return: `None` when no case was reported, the report otherwise; a date that
      `strptime` refuses ends the run with its error. Also returns the dictionary as the loop left it. */
  method GetInfo(responses: seq<CaseRecord>, datesByCase: map<int, string>)
    returns (result: Result<Option<string>>, dates: map<int, string>)
    ensures result.Err? <==> Report(responses, datesByCase).Err?
    ensures result.Ok? ==>
      var text := Report(responses, datesByCase).value;
      result.value == (if text == "" then None else Some(text)) && dates == Recorded(responses, datesByCase)
  {
    var ret := "";
    dates := datesByCase;
    var i := 0;
    while i < |responses|
      invariant 0 <= i <= |responses|
      invariant dates == Recorded(responses[..i], datesByCase)
      invariant Report(responses[..i], datesByCase) == Ok(ret)
    {
      var r := responses[i];
      assert responses[..i + 1] == responses[..i] + [r];
      Snoc(responses[..i], r, datesByCase);
      if r.id in dates {
        var date1 := ParseDate(r.dateLastFiling);
        if date1.Err? {
          ReportErrSticks(responses, datesByCase, i + 1);
          return Err(date1.error), dates;
        }
        var date2 := ParseDate(dates[r.id]);
        if date2.Err? {
          ReportErrSticks(responses, datesByCase, i + 1);
          return Err(date2.error), dates;
        }
        if Later(date1.value, date2.value) {
          ret := ret + (r.caseName + ActivitySuffix);
        } else {
          assert ret + "" == ret;
        }
      } else {
        assert ret + "" == ret;
        dates := dates[r.id := r.dateLastFiling];
      }
      i := i + 1;
    }
    assert responses[..i] == responses;
    if ret == "" {
      return Ok(None), dates;
    }
    return Ok(Some(ret)), dates;
  }

  /** The dictionary and the report, one response further on. */
  lemma Snoc(rs: seq<CaseRecord>, r: CaseRecord, stored: map<int, string>)
    ensures var dates := Recorded(rs, stored);
            Recorded(rs + [r], stored) == (if r.id in dates then dates else dates[r.id := r.dateLastFiling])
    ensures Report(rs + [r], stored) ==
            match Report(rs, stored)
            case Err(e) => Err(e)
            case Ok(text) =>
              match Line(r, Recorded(rs, stored))
              case Err(e) => Err(e)
              case Ok(line) => Ok(text + line)
  {
    assert (rs + [r])[..|rs|] == rs;
  }

  /** Once a prefix of the responses ends in an error, the whole run does. */
  lemma {:induction false} ReportErrSticks(rs: seq<CaseRecord>, stored: map<int, string>, k: nat)
    requires k <= |rs| && Report(rs[..k], stored).Err?
    ensures Report(rs, stored).Err?
    decreases |rs| - k
  {
    if k < |rs| {
      assert rs[..k + 1][..k] == rs[..k];
      ReportErrSticks(rs, stored, k + 1);
    } else {
      assert rs[..k] == rs;
    }
  }

  /** Stored dates are never changed and no key is removed; the keys afterwards are the stored ones plus the
      ids of the responses. */
  lemma {:induction false} RecordedKeepsKnown(rs: seq<CaseRecord>, stored: map<int, string>)
    ensures forall k :: k in stored ==> k in Recorded(rs, stored) && Recorded(rs, stored)[k] == stored[k]
    ensures Recorded(rs, stored).Keys == stored.Keys + set r | r in rs :: r.id
  {
    if rs != [] {
      var init := rs[..|rs| - 1];
      RecordedKeepsKnown(init, stored);
      assert rs == init + [rs[|rs| - 1]];
      assert (set r | r in rs :: r.id) == (set r | r in init :: r.id) + {rs[|rs| - 1].id};
    }
  }

  /** An id not on record gets the date of its first response, whatever later responses for it say. */
  lemma {:induction false} RecordedFirst(rs: seq<CaseRecord>, stored: map<int, string>, j: nat)
    requires j < |rs| && rs[j].id !in stored
    requires forall i :: 0 <= i < j ==> rs[i].id != rs[j].id
    ensures rs[j].id in Recorded(rs, stored) && Recorded(rs, stored)[rs[j].id] == rs[j].dateLastFiling
  {
    var n := |rs| - 1;
    var init := rs[..n];
    if j < n {
      assert forall i :: 0 <= i < j ==> init[i] == rs[i];
      RecordedFirst(init, stored, j);
    } else {
      RecordedKeepsKnown(init, stored);
      assert rs[j].id !in Recorded(init, stored) by {
        assert forall r :: r in init ==> r.id != rs[j].id;
      }
    }
  }

  /** A case id seen twice in one batch is compared, on its later occurrence, against the date its first
      occurrence recorded. */
  lemma DuplicateComparedToFirst(rs: seq<CaseRecord>, stored: map<int, string>, j: nat, i: nat)
    requires j < i < |rs| && rs[j].id == rs[i].id && rs[j].id !in stored
    requires forall k :: 0 <= k < j ==> rs[k].id != rs[j].id
    ensures Line(rs[i], Recorded(rs[..i], stored)) == Line(rs[i], stored[rs[j].id := rs[j].dateLastFiling])
  {
    var prefix := rs[..i];
    assert forall k :: 0 <= k <= j ==> prefix[k] == rs[k];
    RecordedFirst(prefix, stored, j);
  }

  /** `>` on dates is a strict total order: of two dates, exactly one is later or they are equal, so an equal or
      earlier filing date is never reported. */
  lemma LaterTotal(a: Date, b: Date)
    ensures !Later(a, a)
    ensures Later(a, b) ==> !Later(b, a)
    ensures a == b || Later(a, b) || Later(b, a)
  {
  }

  /** A known case adds the activity line if and only if its filing date is strictly later than the one on
      record; an unseen case adds nothing. */
  lemma LineEmptyUnlessLater(r: CaseRecord, dates: map<int, string>)
    ensures r.id !in dates ==> Line(r, dates) == Ok("")
    ensures Line(r, dates).Ok? && Line(r, dates).value != "" ==>
      r.id in dates && Later(ParseDate(r.dateLastFiling).value, ParseDate(dates[r.id]).value) &&
      Line(r, dates).value == r.caseName + ActivitySuffix
    ensures (r.id in dates && ParseDate(r.dateLastFiling).Ok? && ParseDate(dates[r.id]).Ok? &&
             Later(ParseDate(r.dateLastFiling).value, ParseDate(dates[r.id]).value)) ==>
      Line(r, dates) == Ok(r.caseName + ActivitySuffix)
  {
  }

  /** Whether a response adds no line to the report, given the dictionary as it stands. */
  predicate Quiet(r: CaseRecord, dates: map<int, string>)
  {
    Line(r, dates) == Ok("")
  }

  /** For each response, whether it adds no line, judged against the dictionary as the responses before it
      left it. */
  function Quiets(rs: seq<CaseRecord>, stored: map<int, string>): (q: seq<bool>)
    ensures |q| == |rs|
  {
    if rs == [] then []
    else Quiets(rs[..|rs| - 1], stored) + [Quiet(rs[|rs| - 1], Recorded(rs[..|rs| - 1], stored))]
  }

  /** No response adds a line. */
  predicate NoLines(rs: seq<CaseRecord>, stored: map<int, string>)
  {
    false !in Quiets(rs, stored)
  }

  /** Each flag of `Quiets` judges its response against the responses before it. */
  lemma {:induction false} QuietsAt(rs: seq<CaseRecord>, stored: map<int, string>, i: int)
    requires 0 <= i < |rs|
    ensures Quiets(rs, stored)[i] == Quiet(rs[i], Recorded(rs[..i], stored))
  {
    var init := rs[..|rs| - 1];
    if i < |init| {
      assert init[..i] == rs[..i];
      QuietsAt(init, stored, i);
    }
  }

  /** `NoLines` holds exactly when every response, judged against the responses before it, adds no line. */
  lemma NoLinesEvery(rs: seq<CaseRecord>, stored: map<int, string>)
    ensures NoLines(rs, stored) <==> forall i :: 0 <= i < |rs| ==> Quiet(rs[i], Recorded(rs[..i], stored))
  {
    forall i | 0 <= i < |rs|
      ensures Quiets(rs, stored)[i] == Quiet(rs[i], Recorded(rs[..i], stored))
    {
      QuietsAt(rs, stored, i);
    }
  }

  /** The report is empty exactly when no response adds a line. */
  lemma {:induction false} ReportEmptyIff(rs: seq<CaseRecord>, stored: map<int, string>)
    requires Report(rs, stored).Ok?
    ensures Report(rs, stored).value == "" <==> NoLines(rs, stored)
  {
    if rs != [] {
      var init := rs[..|rs| - 1];
      ReportEmptyIff(init, stored);
      var line := Line(rs[|rs| - 1], Recorded(init, stored));
      assert line.Ok? && Report(rs, stored).value == Report(init, stored).value + line.value;
    }
  }

  /** The digit character for 0..9. */
  function DigitChar(n: int): (c: char)
    requires 0 <= n <= 9
    ensures IsDigit(c) && DigitValue(c) == n
  {
    ('0' as int + n) as char
  }

  /** `n` as two zero-padded digits. */
  function Pad2(n: int): (r: string)
    requires 0 <= n <= 99
    ensures |r| == 2 && IsDigit(r[0]) && IsDigit(r[1]) && 10 * DigitValue(r[0]) + DigitValue(r[1]) == n
  {
    [DigitChar(n / 10), DigitChar(n % 10)]
  }

  /** A date as `YYYY-MM-DD`, zero-padded. */
  function Format(d: Date): string
    requires ValidDate(d)
  {
    Pad2(d.year / 100) + Pad2(d.year % 100) + "-" + Pad2(d.month) + "-" + Pad2(d.day)
  }

  /** A zero-padded month is read as its two digits. */
  lemma MatchPaddedMonth(month: int, rest: string)
    requires 1 <= month <= 12
    ensures MatchMonth(Pad2(month) + rest) == Some((month, 2))
  {
  }

  /** A zero-padded day is read as its two digits. */
  lemma MatchPaddedDay(day: int)
    requires 1 <= day <= 31
    ensures MatchDay(Pad2(day)) == Some((day, 2))
  {
  }

  /** Ten characters `YYYY-MM-DD` whose month and day are read as two digits each give that date. */
  lemma ParseTwoDigitFields(s: string, d: Date)
    requires |s| == 10 && IsDigit(s[0]) && IsDigit(s[1]) && IsDigit(s[2]) && IsDigit(s[3]) && s[4] == '-' && s[7] == '-'
    requires 1000 * DigitValue(s[0]) + 100 * DigitValue(s[1]) + 10 * DigitValue(s[2]) + DigitValue(s[3]) == d.year
    requires MatchMonth(s[5..]) == Some((d.month, 2)) && MatchDay(s[8..]) == Some((d.day, 2))
    requires ValidDate(d)
    ensures ParseDate(s) == Ok(d)
  {
  }

  /** Every date in the zero-padded `YYYY-MM-DD` form reads back as itself. */
  lemma ParseFormat(d: Date)
    requires ValidDate(d)
    ensures ParseDate(Format(d)) == Ok(d)
  {
    var hi, lo, mm, dd := Pad2(d.year / 100), Pad2(d.year % 100), Pad2(d.month), Pad2(d.day);
    var s := Format(d);
    assert s == hi + lo + "-" + mm + "-" + dd;
    assert s[0] == hi[0] && s[1] == hi[1] && s[2] == lo[0] && s[3] == lo[1] && s[4] == '-';
    assert s[5..] == mm + "-" + dd;
    MatchPaddedMonth(d.month, "-" + dd);
    assert s[7] == '-' && s[8..] == dd;
    MatchPaddedDay(d.day);
    ParseTwoDigitFields(s, d);
  }

  /** Single-digit months and days are read too. */
  lemma SingleDigitFields()
    ensures ParseDate("2024-1-5") == Ok(Date(2024, 1, 5))
  {
    assert MatchMonth("1-5") == Some((1, 1));
    assert MatchDay("5") == Some((5, 1));
  }

  /** Text after the day is refused, and so is a day the month does not have. */
  lemma RefusedDates()
    ensures ParseDate("2024-01-05x") == Err(UnconvertedData)
    ensures ParseDate("2023-02-29") == Err(OutOfRange)
  {
    assert MatchMonth("01-05x") == Some((1, 2));
    assert MatchDay("05x") == Some((5, 2));
    assert MatchMonth("02-29") == Some((2, 2));
    assert MatchDay("29") == Some((29, 2));
  }
}
