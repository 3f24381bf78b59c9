/**
 * The duty-assignment engine (scheduler.go) and the interface adapter
 * (adapter.go).
 *
 * Each state-changing operation of `Scheduler` is specified by a pure step
 * function from the old store state to the result and the new store state;
 * the properties the engine promises are lemmas about those functions.
 * The clock is an input: `today` (a day number), the current hour in
 * Berlin and `now` (the creation / completion timestamp).
 */
module Scheduler {
  import opened Civil
  import opened Store
  import opened Balancing

  /** Which of the store calls made by one daily assignment fail. */
  datatype Faults = Faults(
    dutyLookup: bool,           // GetDutyByDate
    volunteerList: bool,        // GetUsersWithVolunteerQueue
    adminList: bool,            // GetUsersWithAdminQueue
    activeList: bool,           // ListActiveUsers
    offDutyLookup: set<UserId>, // IsUserOffDuty, per user id
    completedRange: bool,       // GetCompletedDutiesInRange
    create: bool,               // CreateDuty
    decrement: bool)            // DecrementVolunteerQueue / DecrementAdminQueue

  /** The hour (Berlin time) before which the daily assignment refuses to run. */
  const AssignHour := 11
  /** Length of the trailing window of the fairness count, in days. */
  const FairnessWindow := 14

  const TooEarlyMsg := "too early to assign today's duty (before 11:00 AM Berlin time)"
  const VolunteersFailedMsg := "failed to get volunteers"
  const AdminsFailedMsg := "failed to get admin-assigned users"
  const ActiveFailedMsg := "failed to get active users"
  const NoUsersMsg := "no available users for duty"
  const CreateFailedMsg := "failed to create duty"
  const DaysMsg := "days must be positive"
  const WindowMsg := "end date must be after start date"
  const PastMsg := "cannot change past duties"
  const NoDutyMsg := "no duty found for this date"
  const UpdateFailedMsg := "failed to update duty"
  const StoreFailedMsg := "store call failed"

  // ---------------------------------------------------------------------
  // The daily assignment, as a function of the old state
  // ---------------------------------------------------------------------

  /** A drawn user and the queue (or fairness draw) it was drawn from. */
  datatype Pick = Pick(user: User, kind: AssignmentType)

  /** The ids that count as off duty: lookups that fail count as "not off duty". */
  function OffToday(s: State, today: Date, f: Faults): set<UserId>
  {
    OffDutyIds(s.users, today) - f.offDutyLookup
  }

  /** The store's answer for the completed duties of [today-14, today]. */
  function Window14(s: State, today: Date, f: Faults): Option<seq<Duty>>
  {
    if f.completedRange then None else Some(CompletedInRange(s.duties, today - FairnessWindow, today))
  }

  /** The available users of the volunteer queue. */
  function VolunteerPool(s: State, today: Date, f: Faults): seq<User>
  {
    Without(VolunteerQueue(s.users), OffToday(s, today, f))
  }

  /** The available users of the admin queue. */
  function AdminPool(s: State, today: Date, f: Faults): seq<User>
  {
    Without(AdminQueue(s.users), OffToday(s, today, f))
  }

  /** The available active users, admins included. */
  function FairPool(s: State, today: Date, f: Faults): seq<User>
  {
    Without(ActiveUsers(s.users), OffToday(s, today, f))
  }

  /** A queue draw over a pool whose members all have a positive counter. */
  function QueueDraw(pool: seq<User>, completed: Option<seq<Duty>>): (u: User)
    requires |pool| > 0 && forall v :: v in pool ==> Level(v) > 0
    ensures u in pool
    ensures forall v :: v in pool ==> Level(v) <= Level(u)
  {
    assert pool[0] in pool;
    BalancedChoiceIsMaximal(pool, completed);
    BalancedChoice(pool, completed).value
  }

  /** The fairness draw over a non-empty pool. */
  function FairDraw(pool: seq<User>, completed: Option<seq<Duty>>): (u: User)
    requires |pool| > 0
    ensures u in pool
    ensures completed.None? ==> u == pool[0]
    ensures completed.Some? ==> exists k :: IsFirstMinimum(pool, completed.value, k) && u == pool[k]
  {
    RoundRobinChoiceInPool(pool, completed);
    if completed.Some? then FirstMinIsFirstMinimum(pool, completed.value); RoundRobinChoice(pool, completed).value
    else RoundRobinChoice(pool, completed).value
  }

  /**
   * The cascade: the volunteer queue, then the admin queue, then the
   * fairness draw over every active user.  The drawn user is always an
   * active user the store does not report off duty.
   */
  function Choose(s: State, today: Date, f: Faults): (r: Result<Pick>)
    ensures r.Ok? ==> r.value.user in s.users && r.value.user.isActive
                      && r.value.user.id !in OffToday(s, today, f)
  {
    if f.volunteerList then Err(VolunteersFailedMsg)
    else if |VolunteerPool(s, today, f)| > 0 then
      Ok(Pick(QueueDraw(VolunteerPool(s, today, f), Window14(s, today, f)), Voluntary))
    else if f.adminList then Err(AdminsFailedMsg)
    else if |AdminPool(s, today, f)| > 0 then
      Ok(Pick(QueueDraw(AdminPool(s, today, f), Window14(s, today, f)), Admin))
    else if f.activeList then Err(ActiveFailedMsg)
    else if |FairPool(s, today, f)| == 0 then Err(NoUsersMsg)
    else Ok(Pick(FairDraw(FairPool(s, today, f), Window14(s, today, f)), RoundRobin))
  }

  /** The counters after the counter of the queue drawn from lost one day. */
  function Consume(users: seq<User>, id: UserId, kind: AssignmentType): seq<User>
  {
    match kind
    case Voluntary => DecrementVolunteer(users, id)
    case Admin => DecrementAdmin(users, id)
    case RoundRobin => users
  }

  /** Creates the duty of the pick; only a successful create consumes a queue day. */
  function Draw(s: State, p: Pick, today: Date, now: int, f: Faults): (Result<Duty>, State)
  {
    if f.create || today in s.duties then (Err(CreateFailedMsg), s)
    else
      var d := Duty(s.nextDutyId, p.user.id, today, p.kind, now, None, None);
      var users := if f.decrement then s.users else Consume(s.users, p.user.id, p.kind);
      (Ok(d), State(s.duties[today := d], users, s.nextDutyId + 1))
  }

  /** The daily assignment. */
  function AssignStep(s: State, today: Date, hour: int, now: int, f: Faults): (Result<Duty>, State)
  {
    if hour < AssignHour then (Err(TooEarlyMsg), s)
    else if !f.dutyLookup && DutyByDate(s, today).Some? then (Ok(DutyByDate(s, today).value), s)
    else
      match Choose(s, today, f)
      case Err(m) => (Err(m), s)
      case Ok(p) => Draw(s, p, today, now, f)
  }

  // ---------------------------------------------------------------------
  // The other operations, as functions of the old state
  // ---------------------------------------------------------------------

  /** Adding days to one of the two queues of a user. */
  function AddQueueStep(s: State, id: UserId, days: int, kind: AssignmentType, fail: bool): (Outcome, State)
    requires kind != RoundRobin
  {
    if days <= 0 then (Fail(DaysMsg), s)
    else if fail then (Fail(StoreFailedMsg), s)
    else if kind == Voluntary then (Pass, s.(users := AddVolunteerDays(s.users, id, days)))
    else (Pass, s.(users := AddAdminDays(s.users, id, days)))
  }

  function SetOffDutyStep(s: State, id: UserId, start: Date, end: Date, fail: bool): (Outcome, State)
  {
    if end < start then (Fail(WindowMsg), s)
    else if fail then (Fail(StoreFailedMsg), s)
    else (Pass, s.(users := SetWindow(s.users, id, Some(Window(start, end)))))
  }

  function ClearOffDutyStep(s: State, id: UserId, fail: bool): (Outcome, State)
  {
    if fail then (Fail(StoreFailedMsg), s)
    else (Pass, s.(users := SetWindow(s.users, id, None)))
  }

  function CompleteStep(s: State, today: Date, now: int, fail: bool): (Outcome, State)
  {
    if fail || today !in s.duties then (Fail(StoreFailedMsg), s)
    else (Pass, s.(duties := s.duties[today := s.duties[today].(completedAt := Some(now))]))
  }

  /**
   * An admin hands the duty of `date` to another user; nothing else
   * changes.  The record returned is the one read, with the new user id
   * but still the joined row of the previous user.
   */
  function ChangeStep(s: State, date: Date, newUserId: UserId, today: Date, lookupFail: bool, updateFail: bool)
    : (Result<Duty>, State)
  {
    if date < today then (Err(PastMsg), s)
    else if lookupFail || DutyByDate(s, date).None? then (Err(NoDutyMsg), s)
    else if updateFail then (Err(UpdateFailedMsg), s)
    else (Ok(DutyByDate(s, date).value.(userId := newUserId)),
          s.(duties := s.duties[date := s.duties[date].(userId := newUserId)]))
  }

  // ---------------------------------------------------------------------
  // Properties of the daily assignment
  // ---------------------------------------------------------------------

  /** Before 11:00 Berlin time nothing happens. */
  lemma TooEarlyChangesNothing(s: State, today: Date, hour: int, now: int, f: Faults)
    requires hour < AssignHour
    ensures AssignStep(s, today, hour, now, f) == (Err(TooEarlyMsg), s)
  {
  }

  /**
   * An existing duty for today is returned as read, joined with its user
   * row, and nothing changes.
   */
  lemma ExistingDutyReturned(s: State, today: Date, hour: int, now: int, f: Faults, u: User)
    requires hour >= AssignHour && !f.dutyLookup && today in s.duties
    requires u in s.users && u.id == s.duties[today].userId
    ensures var (r, s') := AssignStep(s, today, hour, now, f);
            && s' == s && r.Ok? && Row(r.value) == Row(s.duties[today])
            && exists v :: v in s.users && v.id == u.id && r.value.user == Some(JoinedUser(v))
  {
  }

  /**
   * A duty for today whose user row is missing is not found by the read;
   * the create that follows hits the taken date, so the call fails and
   * nothing changes.
   */
  lemma OrphanDutyBlocksAssignment(s: State, today: Date, hour: int, now: int, f: Faults)
    requires today in s.duties && forall u :: u in s.users ==> u.id != s.duties[today].userId
    ensures var (r, s') := AssignStep(s, today, hour, now, f);
            && r.Err? && s' == s
            && (hour >= AssignHour && Choose(s, today, f).Ok? ==> r == Err(CreateFailedMsg))
  {
  }

  /** Every failing call leaves the store exactly as it was. */
  lemma ErrorChangesNothing(s: State, today: Date, hour: int, now: int, f: Faults)
    requires AssignStep(s, today, hour, now, f).0.Err?
    ensures AssignStep(s, today, hour, now, f).1 == s
  {
  }

  /**
   * A successful call created exactly one duty, for today, touching no
   * other date, unless it found today's duty already there.
   */
  lemma OneDutyCreated(s: State, today: Date, hour: int, now: int, f: Faults)
    requires StateValid(s)
    requires AssignStep(s, today, hour, now, f).0.Ok?
    ensures var (r, s') := AssignStep(s, today, hour, now, f);
            && StateValid(s') && today in s'.duties && Row(s'.duties[today]) == Row(r.value)
            && (today in s.duties ==> s' == s)
            && (today !in s.duties ==> (s'.duties == s.duties[today := r.value]
                                       && s'.duties.Keys == s.duties.Keys + {today}))
  {
  }

  /**
   * The cascade order: a voluntary duty goes to an available user of the
   * volunteer queue; an admin duty is drawn only when no volunteer is
   * available; the fairness draw runs only when both queues are empty of
   * available users.  A draw happens only when the pool is not empty.
   */
  lemma CascadeOrder(s: State, today: Date, f: Faults)
    ensures var r := Choose(s, today, f);
            && (r.Ok? && r.value.kind == Voluntary ==>
                  r.value.user in VolunteerPool(s, today, f))
            && (r.Ok? && r.value.kind == Admin ==>
                  |VolunteerPool(s, today, f)| == 0 && r.value.user in AdminPool(s, today, f))
            && (r.Ok? && r.value.kind == RoundRobin ==>
                  |VolunteerPool(s, today, f)| == 0 && |AdminPool(s, today, f)| == 0
                  && r.value.user in FairPool(s, today, f))
            && (!f.volunteerList && |VolunteerPool(s, today, f)| > 0 ==> r.Ok? && r.value.kind == Voluntary)
            && ((!f.volunteerList && !f.adminList && |VolunteerPool(s, today, f)| == 0
                 && |AdminPool(s, today, f)| > 0) ==> r.Ok? && r.value.kind == Admin)
            && ((!f.volunteerList && !f.adminList && !f.activeList
                 && |FairPool(s, today, f)| == 0) ==> r == Err(NoUsersMsg))
  {
  }

  /** The fallback pool holds every active user not off duty, admins included. */
  lemma FairPoolIncludesAdmins(s: State, today: Date, f: Faults, u: User)
    requires u in s.users && u.isActive && u.id !in OffToday(s, today, f)
    ensures u in FairPool(s, today, f)
  {
  }

  /**
   * A queue draw picks one of the highest queue levels of its pool; the
   * fairness draw picks the first user with the fewest non-admin duties
   * completed in the window.
   */
  lemma DrawnUserIsBalanced(s: State, today: Date, f: Faults)
    requires !f.completedRange && Choose(s, today, f).Ok?
    ensures var p := Choose(s, today, f).value;
            var pool := if p.kind == Voluntary then VolunteerPool(s, today, f)
                        else if p.kind == Admin then AdminPool(s, today, f)
                        else FairPool(s, today, f);
            && p.user in pool
            && (p.kind != RoundRobin ==> forall v :: v in pool ==> Level(v) <= Level(p.user))
            && (p.kind == RoundRobin ==>
                  exists k :: IsFirstMinimum(pool, CompletedInRange(s.duties, today - FairnessWindow, today), k)
                              && pool[k] == p.user)
  {
  }

  /**
   * Only a successful create consumes a queue day, and only from the queue
   * drawn from, of the user drawn; a failing decrement is ignored.
   */
  lemma QueueConsumedOnSuccessOnly(s: State, today: Date, hour: int, now: int, f: Faults)
    ensures var (r, s') := AssignStep(s, today, hour, now, f);
            && (r.Err? ==> s' == s)
            && (r.Ok? && today in s.duties ==> s' == s)
            && (r.Ok? && today !in s.duties ==>
                  var p := Choose(s, today, f).value;
                  && r.value.userId == p.user.id && r.value.assignmentType == p.kind
                  && s'.users == (if f.decrement then s.users else Consume(s.users, p.user.id, p.kind)))
  {
  }

  /**
   * Asking again on the same day changes nothing more and returns the same
   * duty columns, now joined with the user row of its assignee; a duty that
   * was read the first time is returned again exactly.
   */
  lemma AssignIdempotent(s: State, today: Date, hour: int, now: int, now2: int, f: Faults, f2: Faults)
    ensures var (r, s') := AssignStep(s, today, hour, now, f);
            var (r2, s'') := AssignStep(s', today, hour, now2, f2);
            r.Ok? && !f2.dutyLookup ==>
              && s'' == s' && r2.Ok? && Row(r2.value) == Row(r.value)
              && r2.value.user.Some? && r2.value.user.value.id == r.value.userId
              && (r.value.user.Some? ==> r2 == r)
  {
    if AssignStep(s, today, hour, now, f).0.Ok? && (DutyByDate(s, today).None? || f.dutyLookup) {
      DrawnDutyIsFound(s, Choose(s, today, f).value, today, now, f);
    }
  }

  /** A duty just created is found by the read, joined with its assignee's row. */
  lemma DrawnDutyIsFound(s: State, p: Pick, today: Date, now: int, f: Faults)
    requires p.user in s.users && Draw(s, p, today, now, f).0.Ok?
    ensures var (r, s') := Draw(s, p, today, now, f);
            && DutyByDate(s', today).Some? && Row(DutyByDate(s', today).value) == Row(r.value)
            && DutyByDate(s', today).value.user.value.id == r.value.userId
  {
    var s' := Draw(s, p, today, now, f).1;
    var i :| 0 <= i < |s.users| && s.users[i] == p.user;
    if p.kind != RoundRobin {
      ConsumeTakesOneDay(s.users, p.user.id, p.kind, i);
    }
    assert s'.users[i] in s'.users && s'.users[i].id == p.user.id;
  }

  /** Consuming a day takes exactly one day off that user's counter of that queue. */
  lemma ConsumeTakesOneDay(users: seq<User>, id: UserId, kind: AssignmentType, i: int)
    requires 0 <= i < |users| && kind != RoundRobin
    ensures var users' := Consume(users, id, kind);
            && |users'| == |users|
            && (users[i].id != id ==> users'[i] == users[i])
            && (users[i].id == id && kind == Voluntary && users[i].volunteerQueueDays > 0 ==>
                  users'[i] == users[i].(volunteerQueueDays := users[i].volunteerQueueDays - 1))
            && (users[i].id == id && kind == Admin && users[i].adminQueueDays > 0 ==>
                  users'[i] == users[i].(adminQueueDays := users[i].adminQueueDays - 1))
            && (users[i].volunteerQueueDays >= 0 ==> users'[i].volunteerQueueDays >= 0)
            && (users[i].adminQueueDays >= 0 ==> users'[i].adminQueueDays >= 0)
            && users'[i].id == users[i].id
  {
  }

  // ---------------------------------------------------------------------
  // Properties of the other operations
  // ---------------------------------------------------------------------

  /** A top-up of days <= 0 is refused before the store is touched; else only that counter grows. */
  lemma AddQueueEffect(s: State, id: UserId, days: int, kind: AssignmentType, fail: bool, i: int)
    requires kind != RoundRobin && 0 <= i < |s.users|
    ensures var (r, s') := AddQueueStep(s, id, days, kind, fail);
            && (days <= 0 ==> r == Fail(DaysMsg) && s' == s)
            && (r.Fail? ==> s' == s)
            && (r.Pass? ==> (days > 0 && s'.duties == s.duties && |s'.users| == |s.users|
                  && s'.users[i] == if s.users[i].id != id then s.users[i]
                                    else if kind == Voluntary
                                    then s.users[i].(volunteerQueueDays := s.users[i].volunteerQueueDays + days)
                                    else s.users[i].(adminQueueDays := s.users[i].adminQueueDays + days)))
  {
  }

  /** An off-duty window ending before it starts is refused; a one-day window is accepted. */
  lemma SetOffDutyValidation(s: State, id: UserId, start: Date, end: Date, fail: bool)
    ensures var (r, s') := SetOffDutyStep(s, id, start, end, fail);
            && (end < start ==> r == Fail(WindowMsg) && s' == s)
            && (start <= end && !fail ==> (r == Pass && s'.duties == s.duties
                  && forall u :: u in s'.users && u.id == id ==> OffDutyOn(u, start) && OffDutyOn(u, end)))
  {
  }

  /** A past date or a date without duty is refused; otherwise only the assignee changes. */
  lemma ChangeDutyUserEffect(s: State, date: Date, newUserId: UserId, today: Date, lookupFail: bool, updateFail: bool)
    requires StateValid(s)
    ensures var (r, s') := ChangeStep(s, date, newUserId, today, lookupFail, updateFail);
            && (date < today ==> r == Err(PastMsg) && s' == s)
            && ((date >= today && (date !in s.duties || forall u :: u in s.users ==> u.id != s.duties[date].userId))
                ==> r == Err(NoDutyMsg) && s' == s)
            && (r.Err? ==> s' == s)
            && (r.Ok? ==> (date in s.duties && StateValid(s') && s'.users == s.users
                  && s'.duties.Keys == s.duties.Keys
                  && s'.duties[date] == s.duties[date].(userId := newUserId)
                  && Row(r.value) == Row(s'.duties[date])
                  && r.value.userId == newUserId
                  && r.value.assignmentType == s.duties[date].assignmentType
                  && r.value.date == date && r.value.id == s.duties[date].id
                  && (exists u :: u in s.users && u.id == s.duties[date].userId && r.value.user == Some(JoinedUser(u)))
                  && forall d :: d in s.duties && d != date ==> s'.duties[d] == s.duties[d]))
  {
  }

  // ---------------------------------------------------------------------
  // The engine
  // ---------------------------------------------------------------------

  class Scheduler {
    const store: Store

    constructor (s: Store)
      ensures store == s
    {
      store := s;
    }

    method AddToVolunteerQueue(userId: UserId, days: int, fail: bool) returns (r: Outcome)
      modifies store
      ensures (r, store.Snapshot()) == AddQueueStep(old(store.Snapshot()), userId, days, Voluntary, fail)
    {
      if days <= 0 {
        return Fail(DaysMsg);
      }
      var ok := store.AddToVolunteerQueue(userId, days, fail);
      r := if ok then Pass else Fail(StoreFailedMsg);
    }

    method AddToAdminQueue(userId: UserId, days: int, fail: bool) returns (r: Outcome)
      modifies store
      ensures (r, store.Snapshot()) == AddQueueStep(old(store.Snapshot()), userId, days, Admin, fail)
    {
      if days <= 0 {
        return Fail(DaysMsg);
      }
      var ok := store.AddToAdminQueue(userId, days, fail);
      r := if ok then Pass else Fail(StoreFailedMsg);
    }

    method SetOffDuty(userId: UserId, start: Date, end: Date, fail: bool) returns (r: Outcome)
      modifies store
      ensures (r, store.Snapshot()) == SetOffDutyStep(old(store.Snapshot()), userId, start, end, fail)
    {
      if end < start {
        return Fail(WindowMsg);
      }
      var ok := store.SetOffDuty(userId, start, end, fail);
      r := if ok then Pass else Fail(StoreFailedMsg);
    }

    method ClearOffDuty(userId: UserId, fail: bool) returns (r: Outcome)
      modifies store
      ensures (r, store.Snapshot()) == ClearOffDutyStep(old(store.Snapshot()), userId, fail)
    {
      var ok := store.ClearOffDuty(userId, fail);
      r := if ok then Pass else Fail(StoreFailedMsg);
    }

    /** The daily assignment (the scheduled trigger runs it at 11:00 Berlin time). */
    method AssignTodaysDuty(today: Date, berlinHour: int, now: int, faults: Faults) returns (r: Result<Duty>)
      requires store.Valid()
      modifies store
      ensures store.Valid()
      ensures (r, store.Snapshot()) == AssignStep(old(store.Snapshot()), today, berlinHour, now, faults)
    {
      if berlinHour < AssignHour {
        return Err(TooEarlyMsg);
      }
      var existing := store.GetDutyByDate(today, faults.dutyLookup);
      if existing.Ok? && existing.value.Some? {
        return Ok(existing.value.value);
      }
      var pick := ChooseUser(today, faults);
      if pick.Err? {
        return Err(pick.msg);
      }
      r := DrawDuty(pick.value, today, now, faults);
    }

    /** Creates the drawn user's duty and, when that worked, takes a day off the queue it came from. */
    method DrawDuty(pick: Pick, today: Date, now: int, faults: Faults) returns (r: Result<Duty>)
      requires store.Valid()
      modifies store
      ensures store.Valid()
      ensures (r, store.Snapshot()) == Draw(old(store.Snapshot()), pick, today, now, faults)
    {
      var user := pick.user;
      r := CreateDutyFor(user, today, pick.kind, now, faults.create);
      if r.Ok? {
        // The outcome of the decrement is not looked at.
        if pick.kind == Voluntary {
          var _ := store.DecrementVolunteerQueue(user.id, faults.decrement);
        } else if pick.kind == Admin {
          var _ := store.DecrementAdminQueue(user.id, faults.decrement);
        }
      }
    }

    /** The cascade of the daily assignment: who is drawn, and from which queue. */
    method ChooseUser(today: Date, faults: Faults) returns (r: Result<Pick>)
      ensures r == Choose(store.Snapshot(), today, faults)
    {
      var completed := if faults.completedRange then None
                       else Some(CompletedInRange(store.duties, today - FairnessWindow, today));
      var off := OffDutyIds(store.users, today) - faults.offDutyLookup;

      // 1. The volunteer queue.
      if faults.volunteerList {
        return Err(VolunteersFailedMsg);
      }
      var volunteers := FilterOffDutyUsers(VolunteerQueue(store.users), off);
      if |volunteers| > 0 {
        var user := SelectUserWithBalancing(volunteers, completed);
        assert volunteers[0] in volunteers;
        BalancedChoiceIsMaximal(volunteers, completed);
        return Ok(Pick(user.value, Voluntary));
      }

      // 2. The admin queue.
      if faults.adminList {
        return Err(AdminsFailedMsg);
      }
      var admins := FilterOffDutyUsers(AdminQueue(store.users), off);
      if |admins| > 0 {
        var user := SelectUserWithBalancing(admins, completed);
        assert admins[0] in admins;
        BalancedChoiceIsMaximal(admins, completed);
        return Ok(Pick(user.value, Admin));
      }

      // 3. The fairness draw over every active user, admins included.
      if faults.activeList {
        return Err(ActiveFailedMsg);
      }
      var all := FilterOffDutyUsers(ActiveUsers(store.users), off);
      if |all| == 0 {
        return Err(NoUsersMsg);
      }
      var user := SelectRoundRobinUser(all, completed);
      RoundRobinChoiceInPool(all, completed);
      r := Ok(Pick(user.value, RoundRobin));
    }

    /** Creates the duty record of `u` for `date`. */
    method CreateDutyFor(u: User, date: Date, kind: AssignmentType, now: int, fail: bool) returns (r: Result<Duty>)
      requires store.Valid()
      modifies store
      ensures store.Valid() && store.users == old(store.users)
      ensures r.Ok? <==> !fail && date !in old(store.duties)
      ensures r.Ok? ==> (r.value == Duty(old(store.nextDutyId), u.id, date, kind, now, None, None)
                         && store.duties == old(store.duties)[date := r.value]
                         && store.nextDutyId == old(store.nextDutyId) + 1)
      ensures r.Err? ==> r == Err(CreateFailedMsg) && store.Snapshot() == old(store.Snapshot())
    {
      var created := store.CreateDuty(Duty(0, u.id, date, kind, now, None, None), fail);
      r := if created.Ok? then created else Err(CreateFailedMsg);
    }

    /** Marks today's duty completed (the scheduled trigger runs it at 21:00 Berlin time). */
    method CompleteTodaysDuty(today: Date, now: int, fail: bool) returns (r: Outcome)
      requires store.Valid()
      modifies store
      ensures store.Valid()
      ensures (r, store.Snapshot()) == CompleteStep(old(store.Snapshot()), today, now, fail)
    {
      var done := store.CompleteDuty(today, now, fail);
      r := if done.Pass? then Pass else Fail(StoreFailedMsg);
    }

    /** Gives the duty of `date` (today or later) to another user. */
    method ChangeDutyUser(date: Date, newUserId: UserId, today: Date, lookupFail: bool, updateFail: bool)
      returns (r: Result<Duty>)
      requires store.Valid()
      modifies store
      ensures store.Valid()
      ensures (r, store.Snapshot()) == ChangeStep(old(store.Snapshot()), date, newUserId, today, lookupFail, updateFail)
    {
      if date < today {
        return Err(PastMsg);
      }
      var found := store.GetDutyByDate(date, lookupFail);
      if found.Err? || found.value.None? {
        return Err(NoDutyMsg);
      }
      var existing := found.value.value.(userId := newUserId);
      var ok := store.UpdateDuty(existing, updateFail);
      if !ok {
        return Err(UpdateFailedMsg);
      }
      r := Ok(existing);
    }

    // -- adapter.go: the interface the chat front-end calls --------------

    /** Adds days to the admin queue of `user`. */
    method AssignDuty(user: User, days: int, fail: bool) returns (r: Outcome)
      modifies store
      ensures (r, store.Snapshot()) == AddQueueStep(old(store.Snapshot()), user.id, days, Admin, fail)
    {
      r := AddToAdminQueue(user.id, days, fail);
    }

    /** Adds days to the volunteer queue of `user`. */
    method VolunteerForDuty(user: User, days: int, fail: bool) returns (r: Outcome)
      modifies store
      ensures (r, store.Snapshot()) == AddQueueStep(old(store.Snapshot()), user.id, days, Voluntary, fail)
    {
      r := AddToVolunteerQueue(user.id, days, fail);
    }

    /** Runs the daily assignment; the `date` argument is not used. */
    method AutoAssignDuty(date: Date, today: Date, berlinHour: int, now: int, faults: Faults) returns (r: Result<Duty>)
      requires store.Valid()
      modifies store
      ensures store.Valid()
      ensures (r, store.Snapshot()) == AssignStep(old(store.Snapshot()), today, berlinHour, now, faults)
    {
      r := AssignTodaysDuty(today, berlinHour, now, faults);
    }
  }
}
