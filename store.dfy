/**
 * The data model of the duty roster (users, duties, the three assignment
 * types) and the persistence contract that the scheduler and the HTTP
 * handlers work against.
 *
 * The ledger is a map from date to duty: the `duties` table declares
 * `duty_date` UNIQUE, so at most one duty exists per date.  Dates are day
 * numbers (days since 1970-01-01).  Every store call that can fail takes a
 * `fail` flag: the outcome of the database call is an input of the model.
 */
module Store {
  import opened Civil

  /** A value or an error message, for the source's `(T, error)` returns. */
  datatype Result<+T> = Ok(value: T) | Err(msg: string)

  /** An error-only return, for the source's plain `error` returns. */
  datatype Outcome = Pass | Fail(msg: string)

  /** A calendar date, as the number of days since 1970-01-01. */
  type Date = int
  type UserId = int

  datatype AssignmentType = RoundRobin | Voluntary | Admin

  /** An inclusive off-duty period. */
  datatype Window = Window(start: Date, end: Date)

  datatype User = User(
    id: UserId,
    telegramUserId: int,
    firstName: string,
    isAdmin: bool,
    isActive: bool,
    volunteerQueueDays: int,
    adminQueueDays: int,
    offDuty: Option<Window>)

  /**
   * A duty record.  `user` is not a column of the duties table: a read
   * fills it in by joining the user row (see `DutyByDate`); the ledger
   * itself always holds `None` there.
   */
  datatype Duty = Duty(
    id: int,
    userId: UserId,
    date: Date,
    assignmentType: AssignmentType,
    createdAt: int,
    completedAt: Option<int>,
    user: Option<User>)

  /** The whole persistent state, as a value. */
  datatype State = State(duties: map<Date, Duty>, users: seq<User>, nextDutyId: int)

  /** Every ledger entry is filed under its own date and carries no joined user. */
  ghost predicate LedgerValid(duties: map<Date, Duty>)
  {
    forall d :: d in duties ==> duties[d].date == d && duties[d].user.None?
  }

  ghost predicate StateValid(s: State)
  {
    LedgerValid(s.duties)
  }

  // ---------------------------------------------------------------------
  // User queries (the store's SELECTs over the user table)
  // ---------------------------------------------------------------------

  /** `xs` is `ys` with some users left out, the rest kept in their order. */
  predicate Subsequence(xs: seq<User>, ys: seq<User>)
    decreases |ys|
  {
    if |xs| == 0 then true
    else if |ys| == 0 then false
    else if xs[|xs| - 1] == ys[|ys| - 1] then Subsequence(xs[..|xs| - 1], ys[..|ys| - 1])
    else Subsequence(xs, ys[..|ys| - 1])
  }

  /**
   * Keeping or dropping the next user of the table keeps a subsequence; a
   * dropped user must not be among those kept.
   */
  lemma SubsequenceAppend(xs: seq<User>, ys: seq<User>, y: User, keep: bool)
    requires Subsequence(xs, ys)
    requires !keep ==> y !in xs
    ensures Subsequence(xs + (if keep then [y] else []), ys + [y])
  {
    if keep {
      assert (xs + [y])[..|xs|] == xs;
    } else {
      assert xs + [] == xs;
      assert |xs| == 0 || xs[|xs| - 1] in xs;
    }
    assert (ys + [y])[..|ys|] == ys;
  }

  /** Active users with a positive volunteer counter, in table order. */
  function VolunteerQueue(users: seq<User>): (r: seq<User>)
    ensures Subsequence(r, users)
    ensures forall u :: u in r <==> u in users && u.isActive && u.volunteerQueueDays > 0
  {
    if |users| == 0 then []
    else
      var last, q := users[|users| - 1], VolunteerQueue(users[..|users| - 1]);
      SubsequenceAppend(q, users[..|users| - 1], last, last.isActive && last.volunteerQueueDays > 0);
      q + (if last.isActive && last.volunteerQueueDays > 0 then [last] else [])
  }

  /** Active users with a positive admin counter, in table order. */
  function AdminQueue(users: seq<User>): (r: seq<User>)
    ensures Subsequence(r, users)
    ensures forall u :: u in r <==> u in users && u.isActive && u.adminQueueDays > 0
  {
    if |users| == 0 then []
    else
      var last, q := users[|users| - 1], AdminQueue(users[..|users| - 1]);
      SubsequenceAppend(q, users[..|users| - 1], last, last.isActive && last.adminQueueDays > 0);
      q + (if last.isActive && last.adminQueueDays > 0 then [last] else [])
  }

  /** All active users, admins included, in table order. */
  function ActiveUsers(users: seq<User>): (r: seq<User>)
    ensures Subsequence(r, users)
    ensures forall u :: u in r <==> u in users && u.isActive
  {
    if |users| == 0 then []
    else
      var last, q := users[|users| - 1], ActiveUsers(users[..|users| - 1]);
      SubsequenceAppend(q, users[..|users| - 1], last, last.isActive);
      q + (if last.isActive then [last] else [])
  }

  /** The first user row with id `id`, if any. */
  function FindUser(users: seq<User>, id: UserId): (r: Option<User>)
    ensures r.Some? ==> r.value in users && r.value.id == id
    ensures r.None? <==> forall u :: u in users ==> u.id != id
  {
    if |users| == 0 then None
    else if users[0].id == id then Some(users[0])
    else FindUser(users[1..], id)
  }

  /**
   * The user columns a duty query selects (id, Telegram id, first name and
   * the two flags); the queue counters and the off-duty window are left at
   * their zero values.
   */
  function JoinedUser(u: User): User
  {
    User(u.id, u.telegramUserId, u.firstName, u.isAdmin, u.isActive, 0, 0, None)
  }

  /** The duty columns a duty query selects: the completion and the joined user are left out. */
  function Row(d: Duty): Duty
  {
    d.(completedAt := None, user := None)
  }

  /**
   * The read of the duty filed under `date`, joined with its user row.  The
   * join is an inner join: a duty whose user row is missing is not found.
   */
  function DutyByDate(s: State, date: Date): (r: Option<Duty>)
    ensures r.Some? <==> date in s.duties && exists u :: u in s.users && u.id == s.duties[date].userId
    ensures r.Some? ==> && Row(r.value) == Row(s.duties[date]) && r.value.completedAt.None?
                        && exists u :: u in s.users && u.id == s.duties[date].userId && r.value.user == Some(JoinedUser(u))
  {
    if date !in s.duties then None
    else match FindUser(s.users, s.duties[date].userId)
      case None => None
      case Some(u) => Some(Row(s.duties[date]).(user := Some(JoinedUser(u))))
  }

  /** Whether the user's off-duty window contains `date` (both ends inclusive). */
  predicate OffDutyOn(u: User, date: Date)
  {
    u.offDuty.Some? && u.offDuty.value.start <= date <= u.offDuty.value.end
  }

  /** The ids the store reports as off duty on `date`. */
  function OffDutyIds(users: seq<User>, date: Date): set<UserId>
  {
    set u | u in users && OffDutyOn(u, date) :: u.id
  }

  /** The completed duties dated in [lo, hi], in date order. */
  function CompletedInRange(duties: map<Date, Duty>, lo: Date, hi: Date): (r: seq<Duty>)
    decreases hi - lo + 1
  {
    if hi < lo then []
    else
      CompletedInRange(duties, lo, hi - 1)
        + (if hi in duties && duties[hi].completedAt.Some? then [duties[hi]] else [])
  }

  // ---------------------------------------------------------------------
  // User updates (the store's UPDATEs of the user table), as values
  // ---------------------------------------------------------------------

  /** Applies `f` to every user whose id is `id`. */
  function UpdateUsers(users: seq<User>, id: UserId, f: User -> User): (r: seq<User>)
    ensures |r| == |users|
    ensures forall i :: 0 <= i < |users| ==> r[i] == if users[i].id == id then f(users[i]) else users[i]
  {
    seq(|users|, i requires 0 <= i < |users| => if users[i].id == id then f(users[i]) else users[i])
  }

  function AddVolunteerDays(users: seq<User>, id: UserId, days: int): seq<User>
  {
    UpdateUsers(users, id, (u: User) => u.(volunteerQueueDays := u.volunteerQueueDays + days))
  }

  function AddAdminDays(users: seq<User>, id: UserId, days: int): seq<User>
  {
    UpdateUsers(users, id, (u: User) => u.(adminQueueDays := u.adminQueueDays + days))
  }

  /** Consumes one volunteer day; a counter never goes below zero. */
  function DecrementVolunteer(users: seq<User>, id: UserId): seq<User>
  {
    UpdateUsers(users, id, (u: User) => if u.volunteerQueueDays > 0 then u.(volunteerQueueDays := u.volunteerQueueDays - 1) else u)
  }

  /** Consumes one admin day; a counter never goes below zero. */
  function DecrementAdmin(users: seq<User>, id: UserId): seq<User>
  {
    UpdateUsers(users, id, (u: User) => if u.adminQueueDays > 0 then u.(adminQueueDays := u.adminQueueDays - 1) else u)
  }

  function SetWindow(users: seq<User>, id: UserId, w: Option<Window>): seq<User>
  {
    UpdateUsers(users, id, (u: User) => u.(offDuty := w))
  }

  /**
   * The store: the duty ledger, the user table and the auto-increment
   * counter of duty ids.
   */
  class Store {
    var duties: map<Date, Duty>
    var users: seq<User>
    var nextDutyId: int

    ghost predicate Valid()
      reads this
    {
      LedgerValid(duties)
    }

    function Snapshot(): State
      reads this
    {
      State(duties, users, nextDutyId)
    }

    constructor (users: seq<User>)
      ensures Valid() && Snapshot() == State(map[], users, 1)
    {
      this.duties := map[];
      this.users := users;
      this.nextDutyId := 1;
    }

    /**
     * INSERT of a duty: refused when the date is taken (UNIQUE) or the call
     * fails.  The caller's record gets the new id; the stored row keeps no user.
     */
    method CreateDuty(d: Duty, fail: bool) returns (r: Result<Duty>)
      requires Valid()
      modifies this
      ensures Valid() && users == old(users)
      ensures r.Ok? <==> !fail && d.date !in old(duties)
      ensures r.Ok? ==> (r.value == d.(id := old(nextDutyId))
                         && duties == old(duties)[d.date := r.value.(user := None)]
                         && nextDutyId == old(nextDutyId) + 1)
      ensures r.Err? ==> duties == old(duties) && nextDutyId == old(nextDutyId)
    {
      if fail || d.date in duties {
        return Err("could not insert duty");
      }
      var created := d.(id := nextDutyId);
      duties := duties[d.date := created.(user := None)];
      nextDutyId := nextDutyId + 1;
      r := Ok(created);
    }

    /** SELECT of the duty filed under `date`, joined with its user row; changes nothing. */
    method GetDutyByDate(date: Date, fail: bool) returns (r: Result<Option<Duty>>)
      ensures fail ==> r.Err?
      ensures !fail ==> r == Ok(DutyByDate(Snapshot(), date))
    {
      if fail {
        return Err("could not query duty by date");
      }
      if date !in duties {
        return Ok(None);
      }
      var u := FindUser(users, duties[date].userId);
      if u.None? {
        return Ok(None);
      }
      r := Ok(Some(Row(duties[date]).(user := Some(JoinedUser(u.value)))));
    }

    /** UPDATE of user and type of the duty filed under `d.date`, if any. */
    method UpdateDuty(d: Duty, fail: bool) returns (ok: bool)
      requires Valid()
      modifies this`duties
      ensures Valid()
      ensures ok == !fail
      ensures duties == if !fail && d.date in old(duties)
                        then old(duties)[d.date := old(duties)[d.date].(userId := d.userId, assignmentType := d.assignmentType)]
                        else old(duties)
    {
      if fail {
        return false;
      }
      if d.date in duties {
        duties := duties[d.date := duties[d.date].(userId := d.userId, assignmentType := d.assignmentType)];
      }
      ok := true;
    }

    /** DELETE of the duty filed under `date`; deleting nothing is not an error. */
    method DeleteDuty(date: Date, fail: bool) returns (ok: bool)
      requires Valid()
      modifies this`duties
      ensures Valid()
      ensures ok == !fail
      ensures duties == if fail then old(duties) else old(duties) - {date}
    {
      if fail {
        return false;
      }
      duties := duties - {date};
      ok := true;
    }

    /** Marks the duty filed under `date` completed at `now`. */
    method CompleteDuty(date: Date, now: int, fail: bool) returns (r: Outcome)
      requires Valid()
      modifies this`duties
      ensures Valid()
      ensures r.Pass? <==> !fail && date in old(duties)
      ensures duties == if r.Pass? then old(duties)[date := old(duties)[date].(completedAt := Some(now))] else old(duties)
    {
      if fail || date !in duties {
        return Fail("could not complete duty");
      }
      duties := duties[date := duties[date].(completedAt := Some(now))];
      r := Pass;
    }

    method AddToVolunteerQueue(id: UserId, days: int, fail: bool) returns (ok: bool)
      modifies this`users
      ensures ok == !fail
      ensures users == if fail then old(users) else AddVolunteerDays(old(users), id, days)
    {
      if fail {
        return false;
      }
      users := AddVolunteerDays(users, id, days);
      ok := true;
    }

    method AddToAdminQueue(id: UserId, days: int, fail: bool) returns (ok: bool)
      modifies this`users
      ensures ok == !fail
      ensures users == if fail then old(users) else AddAdminDays(old(users), id, days)
    {
      if fail {
        return false;
      }
      users := AddAdminDays(users, id, days);
      ok := true;
    }

    method DecrementVolunteerQueue(id: UserId, fail: bool) returns (ok: bool)
      modifies this`users
      ensures ok == !fail
      ensures users == if fail then old(users) else DecrementVolunteer(old(users), id)
    {
      if fail {
        return false;
      }
      users := DecrementVolunteer(users, id);
      ok := true;
    }

    method DecrementAdminQueue(id: UserId, fail: bool) returns (ok: bool)
      modifies this`users
      ensures ok == !fail
      ensures users == if fail then old(users) else DecrementAdmin(old(users), id)
    {
      if fail {
        return false;
      }
      users := DecrementAdmin(users, id);
      ok := true;
    }

    method SetOffDuty(id: UserId, start: Date, end: Date, fail: bool) returns (ok: bool)
      modifies this`users
      ensures ok == !fail
      ensures users == if fail then old(users) else SetWindow(old(users), id, Some(Window(start, end)))
    {
      if fail {
        return false;
      }
      users := SetWindow(users, id, Some(Window(start, end)));
      ok := true;
    }

    method ClearOffDuty(id: UserId, fail: bool) returns (ok: bool)
      modifies this`users
      ensures ok == !fail
      ensures users == if fail then old(users) else SetWindow(old(users), id, None)
    {
      if fail {
        return false;
      }
      users := SetWindow(users, id, None);
      ok := true;
    }
  }
}
