/**
 * The read-only endpoints of the web API (handlers/schedule.go): the
 * schedule of one month, with user details shown only to active
 * authenticated users, and the (still empty) prognosis.
 *
 * The store's answer for the month is an input: the duties it returns, or
 * `None` when the query fails.
 */
module Schedule {
  import opened Civil
  import opened Store

  /** One entry of the schedule; the date stays a day number. */
  datatype Row = Row(
    id: int,
    date: Date,
    userId: UserId,
    userName: string,
    assignmentType: AssignmentType,
    volunteerQueueDays: int,
    adminQueueDays: int)

  /** A JSON answer: a list, or an error status with its text. */
  datatype Answer<T> = Listing(items: seq<T>) | Failure(status: int, error: string)

  const StatusBadRequest := 400
  const StatusInternalServerError := 500

  const BadYearMsg := "Invalid year format"
  const BadMonthMsg := "Invalid month format"
  const MonthRangeMsg := "Month must be between 1 and 12"
  const ScheduleFailedMsg := "Failed to retrieve schedule"

  /** The name shown in place of a user's name to callers who may not see it. */
  const Anonymous := "***"

  const MaxInt64 := 0x7fff_ffff_ffff_ffff
  const MinInt64 := -0x8000_0000_0000_0000

  // ---------------------------------------------------------------------
  // Decimal integers in the path
  // ---------------------------------------------------------------------

  /**
   * A decimal integer: an optional sign, then at least one digit, and
   * nothing else; the value must fit in 64 bits.
   */
  function Atoi(s: string): Option<int>
  {
    if |s| == 0 then None
    else
      var digits := if s[0] == '-' || s[0] == '+' then s[1..] else s;
      if |digits| == 0 || !AllDigits(digits) then None
      else
        var v := if s[0] == '-' then -ValueOf(digits) else ValueOf(digits);
        if MinInt64 <= v <= MaxInt64 then Some(v) else None
  }

  /** Every 64-bit integer written in decimal reads back as itself. */
  lemma AtoiOfIntToString(n: int)
    requires MinInt64 <= n <= MaxInt64
    ensures Atoi(IntToString(n)) == Some(n)
  {
    if n < 0 {
      ValueOfDigits(-n);
      AtoiNegative(Digits(-n));
      assert IntToString(n) == "-" + Digits(-n);
    } else {
      ValueOfDigits(n);
      AtoiUnsigned(Digits(n));
      assert IntToString(n) == Digits(n);
    }
  }

  /** A run of digits without a sign reads as its value, when that fits. */
  lemma AtoiUnsigned(digits: string)
    requires |digits| > 0 && forall i :: 0 <= i < |digits| ==> IsDigit(digits[i])
    requires 0 <= ValueOf(digits) <= MaxInt64
    ensures Atoi(digits) == Some(ValueOf(digits))
  {
    assert IsDigit(digits[0]);
  }

  /** A minus sign and a run of digits read as the negated value, when that fits. */
  lemma AtoiNegative(digits: string)
    requires |digits| > 0 && forall i :: 0 <= i < |digits| ==> IsDigit(digits[i])
    requires MinInt64 <= -ValueOf(digits) <= MaxInt64
    ensures Atoi("-" + digits) == Some(-ValueOf(digits))
  {
    assert ("-" + digits)[1..] == digits;
  }

  // ---------------------------------------------------------------------
  // The projection
  // ---------------------------------------------------------------------

  /** Only an authenticated, active user may see names and queue counters. */
  predicate Authorized(caller: Option<User>)
  {
    caller.Some? && caller.value.isActive
  }

  /** The row of one duty. */
  function RowOf(d: Duty, authorized: bool): (r: Row)
    ensures r.id == d.id && r.date == d.date && r.userId == d.userId && r.assignmentType == d.assignmentType
    ensures d.user.None? ==> r.userName == "" && r.volunteerQueueDays == 0 && r.adminQueueDays == 0
    ensures d.user.Some? && !authorized ==> r.userName == Anonymous && r.volunteerQueueDays == 0 && r.adminQueueDays == 0
    ensures d.user.Some? && authorized ==>
              r.userName == d.user.value.firstName
              && r.volunteerQueueDays == d.user.value.volunteerQueueDays
              && r.adminQueueDays == d.user.value.adminQueueDays
  {
    var (name, v, a) :=
      if authorized && d.user.Some? then (d.user.value.firstName, d.user.value.volunteerQueueDays, d.user.value.adminQueueDays)
      else if d.user.Some? then (Anonymous, 0, 0)
      else ("", 0, 0);
    Row(d.id, d.date, d.userId, name, d.assignmentType, v, a)
  }

  /** One row per duty, in the store's order. */
  function Rows(duties: seq<Duty>, authorized: bool): (rows: seq<Row>)
    ensures |rows| == |duties|
    ensures forall i :: 0 <= i < |duties| ==> rows[i] == RowOf(duties[i], authorized)
  {
    if |duties| == 0 then [] else Rows(duties[..|duties| - 1], authorized) + [RowOf(duties[|duties| - 1], authorized)]
  }

  /** The year and month of the path, or the 400 answer. */
  function CheckMonth(yearParam: string, monthParam: string): Answer<int>
  {
    if Atoi(yearParam).None? then Failure(StatusBadRequest, BadYearMsg)
    else if Atoi(monthParam).None? then Failure(StatusBadRequest, BadMonthMsg)
    else
      var month := Atoi(monthParam).value;
      if month < 1 || month > 12 then Failure(StatusBadRequest, MonthRangeMsg)
      else Listing([Atoi(yearParam).value, month])
  }

  /** GET /api/v1/schedule/:year/:month, as a value. */
  function ScheduleAnswer(yearParam: string, monthParam: string, stored: Option<seq<Duty>>, caller: Option<User>): Answer<Row>
  {
    var checked := CheckMonth(yearParam, monthParam);
    if checked.Failure? then Failure(checked.status, checked.error)
    else if stored.None? then Failure(StatusInternalServerError, ScheduleFailedMsg)
    else Listing(Rows(stored.value, Authorized(caller)))
  }

  /** GET /api/v1/prognosis/:year/:month, as a value. */
  function PrognosisAnswer(yearParam: string, monthParam: string): Answer<()>
  {
    var checked := CheckMonth(yearParam, monthParam);
    if checked.Failure? then Failure(checked.status, checked.error) else Listing([])
  }

  // ---------------------------------------------------------------------
  // Properties
  // ---------------------------------------------------------------------

  /** A month outside 1..12 or a path that is not numeric is refused before the store is read. */
  lemma InvalidMonthRejected(yearParam: string, monthParam: string, stored: Option<seq<Duty>>, caller: Option<User>)
    ensures var a := ScheduleAnswer(yearParam, monthParam, stored, caller);
            && (Atoi(yearParam).None? ==> a == Failure(StatusBadRequest, BadYearMsg))
            && (Atoi(yearParam).Some? && Atoi(monthParam).None? ==> a == Failure(StatusBadRequest, BadMonthMsg))
            && ((Atoi(yearParam).Some? && Atoi(monthParam).Some? && !(1 <= Atoi(monthParam).value <= 12))
                ==> a == Failure(StatusBadRequest, MonthRangeMsg))
            && (a.Failure? && a.status == StatusBadRequest ==> forall other :: ScheduleAnswer(yearParam, monthParam, other, caller) == a)
  {
  }

  /** A valid request lists exactly one row per stored duty, in order. */
  lemma ScheduleListsEveryDuty(year: int, month: int, stored: seq<Duty>, caller: Option<User>)
    requires MinInt64 <= year <= MaxInt64 && 1 <= month <= 12
    ensures var a := ScheduleAnswer(IntToString(year), IntToString(month), Some(stored), caller);
            && a.Listing? && |a.items| == |stored|
            && forall i :: 0 <= i < |stored| ==>
                 a.items[i].id == stored[i].id && a.items[i].userId == stored[i].userId
                 && a.items[i].assignmentType == stored[i].assignmentType && a.items[i].date == stored[i].date
  {
    AtoiOfIntToString(year);
    AtoiOfIntToString(month);
  }

  /**
   * What an unauthorised caller sees does not depend on the names or the
   * counters of the users: two month listings that agree on everything
   * else look the same.
   */
  lemma AnonymousViewHidesUsers(a: seq<Duty>, b: seq<Duty>)
    requires |a| == |b|
    requires forall i :: 0 <= i < |a| ==>
               a[i].id == b[i].id && a[i].date == b[i].date && a[i].userId == b[i].userId
               && a[i].assignmentType == b[i].assignmentType && a[i].user.Some? == b[i].user.Some?
    ensures Rows(a, false) == Rows(b, false)
  {
    assert forall i :: 0 <= i < |a| ==> RowOf(a[i], false) == RowOf(b[i], false);
  }

  /** A valid prognosis request answers with an empty list. */
  lemma PrognosisIsEmpty(year: int, month: int)
    requires MinInt64 <= year <= MaxInt64 && 1 <= month <= 12
    ensures PrognosisAnswer(IntToString(year), IntToString(month)) == Listing([])
  {
    AtoiOfIntToString(year);
    AtoiOfIntToString(month);
  }

  // ---------------------------------------------------------------------
  // The handler
  // ---------------------------------------------------------------------

  /** Builds the rows of the schedule, one per duty. */
  method GetSchedule(yearParam: string, monthParam: string, stored: Option<seq<Duty>>, caller: Option<User>)
    returns (a: Answer<Row>)
    ensures a == ScheduleAnswer(yearParam, monthParam, stored, caller)
  {
    var year := Atoi(yearParam);
    if year.None? {
      return Failure(StatusBadRequest, BadYearMsg);
    }
    var month := Atoi(monthParam);
    if month.None? {
      return Failure(StatusBadRequest, BadMonthMsg);
    }
    if month.value < 1 || month.value > 12 {
      return Failure(StatusBadRequest, MonthRangeMsg);
    }
    if stored.None? {
      return Failure(StatusInternalServerError, ScheduleFailedMsg);
    }
    var duties := stored.value;
    var isAuthorized := caller.Some? && caller.value.isActive;
    var response := [];
    for i := 0 to |duties|
      invariant response == Rows(duties[..i], isAuthorized)
    {
      assert duties[..i + 1][..i] == duties[..i];
      var duty := duties[i];
      var userName, volunteerQueue, adminQueue := "", 0, 0;
      if isAuthorized && duty.user.Some? {
        userName := duty.user.value.firstName;
        volunteerQueue := duty.user.value.volunteerQueueDays;
        adminQueue := duty.user.value.adminQueueDays;
      } else if duty.user.Some? {
        userName := Anonymous;
      }
      response := response + [Row(duty.id, duty.date, duty.userId, userName, duty.assignmentType, volunteerQueue, adminQueue)];
    }
    assert duties[..|duties|] == duties;
    a := Listing(response);
  }

  method GetPrognosis(yearParam: string, monthParam: string) returns (a: Answer<()>)
    ensures a == PrognosisAnswer(yearParam, monthParam)
  {
    var year := Atoi(yearParam);
    if year.None? {
      return Failure(StatusBadRequest, BadYearMsg);
    }
    var month := Atoi(monthParam);
    if month.None? {
      return Failure(StatusBadRequest, BadMonthMsg);
    }
    if month.value < 1 || month.value > 12 {
      return Failure(StatusBadRequest, MonthRangeMsg);
    }
    a := Listing([]);
  }
}
