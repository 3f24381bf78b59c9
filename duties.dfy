/**
 * The ledger endpoints of the web API (handlers/duties.go): volunteering
 * for a date, an admin assignment, an admin change of assignee and an
 * admin deletion.
 *
 * The HTTP layer is reduced to what decides the outcome: the decoded JSON
 * body (`None` when it does not decode), the date text, the authenticated
 * caller (`None` when there is none) and the outcome of each store call.
 * A handler answers with a status code and an error text.
 */
module Duties {
  import opened Civil
  import opened Store

  datatype Response = Response(status: int, error: string)

  const StatusOK := 200
  const StatusCreated := 201
  const StatusNoContent := 204
  const StatusBadRequest := 400
  const StatusUnauthorized := 401
  const StatusNotFound := 404
  const StatusInternalServerError := 500

  const BindErrorMsg := "request body does not bind"
  const BadDateMsg := "Invalid date format, expected YYYY-MM-DD"
  const BadUrlDateMsg := "Invalid date format in URL, expected YYYY-MM-DD"
  const AuthFailedMsg := "Authentication failed"
  const VolunteerFailedMsg := "Failed to assign volunteer duty"
  const AssignFailedMsg := "Failed to assign duty"
  const NotFoundMsg := "No duty found for the specified date"
  const ModifyFailedMsg := "Failed to modify duty"
  const DeleteFailedMsg := "Failed to delete duty"

  /** The body of an admin assignment: a user id and a date. */
  datatype AssignRequest = AssignRequest(userId: int, date: string)

  /** The day number of a date in the "2006-01-02" layout, if it is one. */
  function DateOf(text: string): Option<Date>
  {
    match ParseIso(text)
    case None => None
    case Some(c) => Some(DaysFromCivil(c))
  }

  // ---------------------------------------------------------------------
  // The handlers, as functions of the old state
  // ---------------------------------------------------------------------

  /**
   * Deletes whatever is filed under `date` (a failing delete is ignored),
   * then creates the new record; the two steps are not atomic.
   */
  function ReplaceStep(s: State, date: Date, userId: UserId, kind: AssignmentType, now: int,
                       deleteFail: bool, createFail: bool, failMsg: string): (Response, State)
  {
    var kept := if deleteFail then s.duties else s.duties - {date};
    if createFail || date in kept then (Response(StatusInternalServerError, failMsg), s.(duties := kept))
    else
      var d := Duty(s.nextDutyId, userId, date, kind, now, None, None);
      (Response(StatusCreated, ""), State(kept[date := d], s.users, s.nextDutyId + 1))
  }

  function VolunteerStep(s: State, body: Option<string>, caller: Option<User>, now: int,
                         deleteFail: bool, createFail: bool): (Response, State)
  {
    if body.None? || body.value == "" then (Response(StatusBadRequest, BindErrorMsg), s)
    else if DateOf(body.value).None? then (Response(StatusBadRequest, BadDateMsg), s)
    else if caller.None? then (Response(StatusUnauthorized, AuthFailedMsg), s)
    else ReplaceStep(s, DateOf(body.value).value, caller.value.id, Voluntary, now, deleteFail, createFail, VolunteerFailedMsg)
  }

  function AdminAssignStep(s: State, body: Option<AssignRequest>, now: int,
                           deleteFail: bool, createFail: bool): (Response, State)
  {
    if body.None? || body.value.userId == 0 || body.value.date == "" then (Response(StatusBadRequest, BindErrorMsg), s)
    else if DateOf(body.value.date).None? then (Response(StatusBadRequest, BadDateMsg), s)
    else ReplaceStep(s, DateOf(body.value.date).value, body.value.userId, Admin, now, deleteFail, createFail, AssignFailedMsg)
  }

  function AdminModifyStep(s: State, dateParam: string, body: Option<int>,
                           lookupFail: bool, updateFail: bool): (Response, State)
  {
    if DateOf(dateParam).None? then (Response(StatusBadRequest, BadUrlDateMsg), s)
    else if body.None? || body.value == 0 then (Response(StatusBadRequest, BindErrorMsg), s)
    else
      var date := DateOf(dateParam).value;
      if lookupFail || DutyByDate(s, date).None? then (Response(StatusNotFound, NotFoundMsg), s)
      else if updateFail then (Response(StatusInternalServerError, ModifyFailedMsg), s)
      else (Response(StatusOK, ""), s.(duties := s.duties[date := s.duties[date].(userId := body.value)]))
  }

  function AdminDeleteStep(s: State, dateParam: string, fail: bool): (Response, State)
  {
    if DateOf(dateParam).None? then (Response(StatusBadRequest, BadUrlDateMsg), s)
    else if fail then (Response(StatusInternalServerError, DeleteFailedMsg), s)
    else (Response(StatusNoContent, ""), s.(duties := s.duties - {DateOf(dateParam).value}))
  }

  // ---------------------------------------------------------------------
  // Properties
  // ---------------------------------------------------------------------

  /** The date a request names, when it names one. */
  lemma DateOfIso(c: Ymd)
    requires ValidYmd(c) && 0 <= c.year <= 9999
    ensures DateOf(FormatIso(c)) == Some(DaysFromCivil(c))
  {
    ParseFormatIso(c);
  }

  /**
   * Volunteering for a well-formed date as an authenticated user leaves
   * that date holding a voluntary duty of the caller, whatever was filed
   * there before, an admin duty included; only that date changes.
   */
  lemma VolunteerOverwrites(s: State, text: string, caller: User, now: int)
    requires DateOf(text).Some?
    ensures var date := DateOf(text).value;
            var (r, s') := VolunteerStep(s, Some(text), Some(caller), now, false, false);
            && r.status == StatusCreated
            && date in s'.duties
            && s'.duties[date].userId == caller.id && s'.duties[date].assignmentType == Voluntary
            && s'.duties[date].date == date
            && s'.users == s.users
            && forall d :: d != date ==> (d in s'.duties <==> d in s.duties) && (d in s.duties ==> s'.duties[d] == s.duties[d])
  {
  }

  /** An admin assignment of a well-formed request overwrites whatever was filed at the date. */
  lemma AdminAssignOverwrites(s: State, req: AssignRequest, now: int)
    requires req.userId != 0 && DateOf(req.date).Some?
    ensures var date := DateOf(req.date).value;
            var (r, s') := AdminAssignStep(s, Some(req), now, false, false);
            && r.status == StatusCreated
            && date in s'.duties
            && s'.duties[date].userId == req.userId && s'.duties[date].assignmentType == Admin
            && s'.users == s.users
            && forall d :: d != date ==> (d in s'.duties <==> d in s.duties) && (d in s.duties ==> s'.duties[d] == s.duties[d])
  {
    assert req.date != "";
  }

  /** A request that does not bind, a malformed date or a missing caller changes nothing. */
  lemma RejectedRequestsChangeNothing(s: State, body: Option<string>, caller: Option<User>, now: int,
                                      deleteFail: bool, createFail: bool)
    ensures var (r, s') := VolunteerStep(s, body, caller, now, deleteFail, createFail);
            && (body.None? || DateOf(body.value).None? ==> r.status == StatusBadRequest && s' == s)
            && (body.Some? && DateOf(body.value).Some? && caller.None? ==> r.status == StatusUnauthorized && s' == s)
            && (400 <= r.status < 500 ==> s' == s)
  {
  }

  /**
   * The delete and the create are not atomic: when the delete succeeds and
   * the create fails, the date is left empty and the answer is 500.  When
   * the delete fails, the create meets the old record and fails too.
   */
  lemma ReplaceNotAtomic(s: State, date: Date, userId: UserId, kind: AssignmentType, now: int, msg: string)
    ensures var (r, s') := ReplaceStep(s, date, userId, kind, now, false, true, msg);
            r.status == StatusInternalServerError && date !in s'.duties
            && s'.duties == s.duties - {date}
    ensures date in s.duties ==>
              ReplaceStep(s, date, userId, kind, now, true, false, msg) == (Response(StatusInternalServerError, msg), s)
  {
  }

  /**
   * A change of assignee on an empty date, or on a duty whose user row is
   * missing, is a 404; otherwise only the user id changes.
   */
  lemma ModifyChangesOnlyAssignee(s: State, dateParam: string, userId: int, lookupFail: bool, updateFail: bool)
    requires StateValid(s) && DateOf(dateParam).Some? && userId != 0
    ensures var date := DateOf(dateParam).value;
            var (r, s') := AdminModifyStep(s, dateParam, Some(userId), lookupFail, updateFail);
            && ((date !in s.duties || forall u :: u in s.users ==> u.id != s.duties[date].userId)
                ==> r == Response(StatusNotFound, NotFoundMsg) && s' == s)
            && (r.status != StatusOK ==> s' == s)
            && (r.status == StatusOK ==>
                  date in s.duties && StateValid(s') && s'.users == s.users
                  && s'.duties == s.duties[date := s.duties[date].(userId := userId)]
                  && s'.duties[date].assignmentType == s.duties[date].assignmentType)
  {
  }

  /** A delete of a well-formed date that succeeds leaves nothing at that date and touches nothing else. */
  lemma DeleteRemovesOnlyDate(s: State, dateParam: string)
    requires DateOf(dateParam).Some?
    ensures var date := DateOf(dateParam).value;
            var (r, s') := AdminDeleteStep(s, dateParam, false);
            && r.status == StatusNoContent && date !in s'.duties
            && forall d :: d != date ==> (d in s'.duties <==> d in s.duties) && (d in s.duties ==> s'.duties[d] == s.duties[d])
  {
  }

  /** Every handler touches at most the single date it was given. */
  lemma HandlersTouchOneDate(s: State, text: string, caller: Option<User>, req: Option<AssignRequest>,
                             body: Option<int>, now: int, f1: bool, f2: bool, d: Date)
    ensures var s1 := VolunteerStep(s, Some(text), caller, now, f1, f2).1;
            (DateOf(text).None? || d != DateOf(text).value) ==> (d in s1.duties <==> d in s.duties) && (d in s.duties ==> s1.duties[d] == s.duties[d])
    ensures var s2 := AdminAssignStep(s, req, now, f1, f2).1;
            (req.None? || DateOf(req.value.date).None? || d != DateOf(req.value.date).value) ==>
              (d in s2.duties <==> d in s.duties) && (d in s.duties ==> s2.duties[d] == s.duties[d])
    ensures var s3 := AdminModifyStep(s, text, body, f1, f2).1;
            (DateOf(text).None? || d != DateOf(text).value) ==> (d in s3.duties <==> d in s.duties) && (d in s.duties ==> s3.duties[d] == s.duties[d])
    ensures var s4 := AdminDeleteStep(s, text, f1).1;
            (DateOf(text).None? || d != DateOf(text).value) ==> (d in s4.duties <==> d in s.duties) && (d in s.duties ==> s4.duties[d] == s.duties[d])
  {
  }

  // ---------------------------------------------------------------------
  // The handlers
  // ---------------------------------------------------------------------

  /** Deletes, then creates; the outcome of the delete is not looked at. */
  method Replace(st: Store, date: Date, userId: UserId, kind: AssignmentType, now: int,
                 deleteFail: bool, createFail: bool, failMsg: string) returns (r: Response)
    requires st.Valid()
    modifies st
    ensures st.Valid()
    ensures (r, st.Snapshot()) == ReplaceStep(old(st.Snapshot()), date, userId, kind, now, deleteFail, createFail, failMsg)
  {
    var _ := st.DeleteDuty(date, deleteFail);
    var created := st.CreateDuty(Duty(0, userId, date, kind, now, None, None), createFail);
    if created.Err? {
      return Response(StatusInternalServerError, failMsg);
    }
    r := Response(StatusCreated, "");
  }

  /** POST /api/v1/duties/volunteer */
  method VolunteerForDuty(st: Store, body: Option<string>, caller: Option<User>, now: int,
                          deleteFail: bool, createFail: bool) returns (r: Response)
    requires st.Valid()
    modifies st
    ensures st.Valid()
    ensures (r, st.Snapshot()) == VolunteerStep(old(st.Snapshot()), body, caller, now, deleteFail, createFail)
  {
    if body.None? || body.value == "" {
      return Response(StatusBadRequest, BindErrorMsg);
    }
    var date := DateOf(body.value);
    if date.None? {
      return Response(StatusBadRequest, BadDateMsg);
    }
    if caller.None? {
      return Response(StatusUnauthorized, AuthFailedMsg);
    }
    r := Replace(st, date.value, caller.value.id, Voluntary, now, deleteFail, createFail, VolunteerFailedMsg);
  }

  /** POST /api/v1/duties */
  method AdminAssignDuty(st: Store, body: Option<AssignRequest>, now: int,
                         deleteFail: bool, createFail: bool) returns (r: Response)
    requires st.Valid()
    modifies st
    ensures st.Valid()
    ensures (r, st.Snapshot()) == AdminAssignStep(old(st.Snapshot()), body, now, deleteFail, createFail)
  {
    if body.None? || body.value.userId == 0 || body.value.date == "" {
      return Response(StatusBadRequest, BindErrorMsg);
    }
    var date := DateOf(body.value.date);
    if date.None? {
      return Response(StatusBadRequest, BadDateMsg);
    }
    r := Replace(st, date.value, body.value.userId, Admin, now, deleteFail, createFail, AssignFailedMsg);
  }

  /** PUT /api/v1/duties/:date */
  method AdminModifyDuty(st: Store, dateParam: string, body: Option<int>,
                         lookupFail: bool, updateFail: bool) returns (r: Response)
    requires st.Valid()
    modifies st
    ensures st.Valid()
    ensures (r, st.Snapshot()) == AdminModifyStep(old(st.Snapshot()), dateParam, body, lookupFail, updateFail)
  {
    var date := DateOf(dateParam);
    if date.None? {
      return Response(StatusBadRequest, BadUrlDateMsg);
    }
    if body.None? || body.value == 0 {
      return Response(StatusBadRequest, BindErrorMsg);
    }
    var found := st.GetDutyByDate(date.value, lookupFail);
    if found.Err? || found.value.None? {
      return Response(StatusNotFound, NotFoundMsg);
    }
    var existing := found.value.value.(userId := body.value);
    var ok := st.UpdateDuty(existing, updateFail);
    if !ok {
      return Response(StatusInternalServerError, ModifyFailedMsg);
    }
    r := Response(StatusOK, "");
  }

  /** DELETE /api/v1/duties/:date */
  method AdminDeleteDuty(st: Store, dateParam: string, fail: bool) returns (r: Response)
    requires st.Valid()
    modifies st
    ensures st.Valid()
    ensures (r, st.Snapshot()) == AdminDeleteStep(old(st.Snapshot()), dateParam, fail)
  {
    var date := DateOf(dateParam);
    if date.None? {
      return Response(StatusBadRequest, BadUrlDateMsg);
    }
    var ok := st.DeleteDuty(date.value, fail);
    if !ok {
      return Response(StatusInternalServerError, DeleteFailedMsg);
    }
    r := Response(StatusNoContent, "");
  }
}
