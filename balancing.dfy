/**
 * How the scheduler picks one user out of a pool of candidates: the
 * off-duty filter, the "highest queue first" rule for queue draws and the
 * "fewest recent duties, first in list order" rule of the fairness draw.
 *
 * The three selection routines only read the store.  They are modelled as
 * methods over the values they read: the candidate list, the ids the store
 * reports off duty, and the completed duties of the trailing window (or
 * `None` when that query fails).
 */
module Balancing {
  import opened Civil
  import opened Store

  // ---------------------------------------------------------------------
  // Specification functions
  // ---------------------------------------------------------------------

  /** The users whose id is not in `off`, in their original order. */
  function Without(users: seq<User>, off: set<UserId>): (r: seq<User>)
    ensures |r| <= |users|
    ensures forall u :: u in r <==> u in users && u.id !in off
  {
    if |users| == 0 then []
    else
      var last := users[|users| - 1];
      Without(users[..|users| - 1], off) + (if last.id !in off then [last] else [])
  }

  /** How many of the `completed` duties belong to `id` and are not admin duties. */
  function NonAdminCount(completed: seq<Duty>, id: UserId): nat
  {
    if |completed| == 0 then 0
    else
      var last := completed[|completed| - 1];
      NonAdminCount(completed[..|completed| - 1], id)
        + (if last.assignmentType != Admin && last.userId == id then 1 else 0)
  }

  /** The queue level balancing compares: the larger of the two counters. */
  function Level(u: User): int
  {
    if u.adminQueueDays > u.volunteerQueueDays then u.adminQueueDays else u.volunteerQueueDays
  }

  /** The largest level in the pool, where the running maximum starts at 0. */
  function MaxLevel(users: seq<User>): int
  {
    if |users| == 0 then 0
    else
      var m := MaxLevel(users[..|users| - 1]);
      var l := Level(users[|users| - 1]);
      if l > m then l else m
  }

  /** The users whose level is exactly `m`, in their original order. */
  function AtLevel(users: seq<User>, m: int): (r: seq<User>)
    ensures forall u :: u in r <==> u in users && Level(u) == m
  {
    if |users| == 0 then []
    else
      var last := users[|users| - 1];
      AtLevel(users[..|users| - 1], m) + (if Level(last) == m then [last] else [])
  }

  /**
   * The index the fairness scan settles on: scanning left to right, a user
   * replaces the current pick only with a strictly smaller count.
   */
  function FirstMin(users: seq<User>, completed: seq<Duty>): (k: nat)
    requires |users| > 0
    ensures k < |users|
  {
    if |users| == 1 then 0
    else
      var k := FirstMin(users[..|users| - 1], completed);
      if NonAdminCount(completed, users[|users| - 1].id) < NonAdminCount(completed, users[k].id)
      then |users| - 1
      else k
  }

  /** The user of a fairness draw; the first user when the duty query failed. */
  function RoundRobinChoice(users: seq<User>, completed: Option<seq<Duty>>): Option<User>
  {
    if |users| == 0 then None
    else if completed.None? then Some(users[0])
    else Some(users[FirstMin(users, completed.value)])
  }

  /** The user of a queue draw: highest level; ties go to the fairness draw among them. */
  function BalancedChoice(users: seq<User>, completed: Option<seq<Duty>>): Option<User>
  {
    if |users| == 0 then None
    else
      var top := AtLevel(users, MaxLevel(users));
      if |top| == 1 then Some(top[0]) else RoundRobinChoice(top, completed)
  }

  /** `k` is a position of least count, and no earlier position has that count. */
  ghost predicate IsFirstMinimum(users: seq<User>, completed: seq<Duty>, k: int)
  {
    && 0 <= k < |users|
    && (forall j :: 0 <= j < |users| ==> NonAdminCount(completed, users[k].id) <= NonAdminCount(completed, users[j].id))
    && (forall j :: 0 <= j < k ==> NonAdminCount(completed, users[j].id) > NonAdminCount(completed, users[k].id))
  }

  // ---------------------------------------------------------------------
  // Properties of the specification
  // ---------------------------------------------------------------------

  /** The fairness scan returns the first user with the fewest counted duties, and only that one. */
  lemma {:induction false} FirstMinIsFirstMinimum(users: seq<User>, completed: seq<Duty>)
    requires |users| > 0
    ensures IsFirstMinimum(users, completed, FirstMin(users, completed))
    ensures forall k :: IsFirstMinimum(users, completed, k) ==> k == FirstMin(users, completed)
  {
    if |users| > 1 {
      var front := users[..|users| - 1];
      FirstMinIsFirstMinimum(front, completed);
      var k := FirstMin(front, completed);
      assert forall j :: 0 <= j < |front| ==> front[j] == users[j];
    }
  }

  /** MaxLevel bounds every level and is reached as soon as some level is not negative. */
  lemma {:induction false} MaxLevelIsMaximum(users: seq<User>)
    ensures MaxLevel(users) >= 0
    ensures forall u :: u in users ==> Level(u) <= MaxLevel(users)
    ensures MaxLevel(users) > 0 ==> exists u :: u in users && Level(u) == MaxLevel(users)
    ensures (exists u :: u in users && Level(u) >= 0) ==> exists u :: u in users && Level(u) == MaxLevel(users)
  {
    if |users| > 0 {
      var front := users[..|users| - 1];
      var last := users[|users| - 1];
      MaxLevelIsMaximum(front);
      assert users == front + [last];
      if Level(last) > MaxLevel(front) {
        assert Level(last) == MaxLevel(users);
      } else if MaxLevel(front) > 0 {
        var u :| u in front && Level(u) == MaxLevel(front);
        assert u in users;
      } else if exists u :: u in users && Level(u) >= 0 {
        var u :| u in users && Level(u) >= 0;
        assert Level(u) == 0;
      }
    }
  }

  /** A fairness draw over a non-empty pool returns a member of the pool. */
  lemma RoundRobinChoiceInPool(users: seq<User>, completed: Option<seq<Duty>>)
    requires |users| > 0
    ensures RoundRobinChoice(users, completed).Some?
    ensures RoundRobinChoice(users, completed).value in users
  {
  }

  /**
   * When some candidate has a non-negative level (every candidate of a
   * queue draw has a positive counter), the queue draw picks a candidate
   * whose level is the largest in the pool.
   */
  lemma BalancedChoiceIsMaximal(users: seq<User>, completed: Option<seq<Duty>>)
    requires exists u :: u in users && Level(u) >= 0
    ensures BalancedChoice(users, completed).Some?
    ensures BalancedChoice(users, completed).value in users
    ensures Level(BalancedChoice(users, completed).value) == MaxLevel(users)
    ensures forall u :: u in users ==> Level(u) <= Level(BalancedChoice(users, completed).value)
  {
    MaxLevelIsMaximum(users);
    var top := AtLevel(users, MaxLevel(users));
    var u :| u in users && Level(u) == MaxLevel(users);
    assert u in top;
    if |top| != 1 {
      RoundRobinChoiceInPool(top, completed);
    }
  }

  /** A candidate alone at the highest level is picked directly. */
  lemma BalancedChoiceUniqueTop(users: seq<User>, completed: Option<seq<Duty>>, u: User)
    requires u in users && Level(u) == MaxLevel(users)
    requires forall v :: v in users && Level(v) == MaxLevel(users) ==> v == u
    ensures BalancedChoice(users, completed) == Some(u)
  {
    var top := AtLevel(users, MaxLevel(users));
    assert u in top;
    if |top| != 1 {
      RoundRobinChoiceInPool(top, completed);
    }
  }

  /**
   * Among several candidates tied at the highest level, the pick is the
   * first of them with the fewest counted duties.
   */
  lemma BalancedChoiceTieBreak(users: seq<User>, completed: seq<Duty>)
    requires |AtLevel(users, MaxLevel(users))| > 1
    ensures var top := AtLevel(users, MaxLevel(users));
            exists k :: IsFirstMinimum(top, completed, k) && BalancedChoice(users, Some(completed)) == Some(top[k])
  {
    var top := AtLevel(users, MaxLevel(users));
    FirstMinIsFirstMinimum(top, completed);
  }

  // ---------------------------------------------------------------------
  // The selection routines
  // ---------------------------------------------------------------------

  /** Drops the users the store reports off duty; the list keeps its order. */
  method FilterOffDutyUsers(users: seq<User>, off: set<UserId>) returns (available: seq<User>)
    ensures available == Without(users, off)
  {
    available := [];
    for i := 0 to |users|
      invariant available == Without(users[..i], off)
    {
      assert users[..i + 1][..i] == users[..i];
      if users[i].id !in off {
        available := available + [users[i]];
      }
    }
    assert users[..|users|] == users;
  }

  /** Counts, per user, the non-admin duties among `completed`. */
  method CountDuties(completed: seq<Duty>) returns (counts: map<UserId, nat>)
    ensures forall id :: (if id in counts then counts[id] else 0) == NonAdminCount(completed, id)
  {
    counts := map[];
    for i := 0 to |completed|
      invariant forall id :: (if id in counts then counts[id] else 0) == NonAdminCount(completed[..i], id)
    {
      assert completed[..i + 1][..i] == completed[..i];
      var duty := completed[i];
      if duty.assignmentType != Admin {
        var c := if duty.userId in counts then counts[duty.userId] else 0;
        counts := counts[duty.userId := c + 1];
      }
    }
    assert completed[..|completed|] == completed;
  }

  /** The fairness draw: the first user with the fewest non-admin duties in the window. */
  method SelectRoundRobinUser(users: seq<User>, completed: Option<seq<Duty>>) returns (r: Option<User>)
    ensures r == RoundRobinChoice(users, completed)
  {
    if |users| == 0 {
      return None;
    }
    if completed.None? {
      return Some(users[0]);
    }
    var counts := CountDuties(completed.value);
    // `found == false` plays the role of the source's "max int" starting minimum.
    var found := false;
    var minCount := 0;
    var k := 0;
    for i := 0 to |users|
      invariant found <==> i > 0
      invariant found ==> k == FirstMin(users[..i], completed.value)
      invariant found ==> minCount == NonAdminCount(completed.value, users[k].id)
    {
      assert users[..i + 1][..i] == users[..i];
      assert found ==> users[..i + 1][k] == users[k];
      var count := if users[i].id in counts then counts[users[i].id] else 0;
      if !found || count < minCount {
        minCount := count;
        k := i;
        found := true;
      }
    }
    assert users[..|users|] == users;
    r := Some(users[k]);
  }

  /** The queue draw: the highest queue level; ties go to the fairness draw. */
  method SelectUserWithBalancing(users: seq<User>, completed: Option<seq<Duty>>) returns (r: Option<User>)
    ensures r == BalancedChoice(users, completed)
  {
    if |users| == 0 {
      return None;
    }
    var maxQueue := 0;
    for i := 0 to |users|
      invariant maxQueue == MaxLevel(users[..i])
    {
      assert users[..i + 1][..i] == users[..i];
      var queue := users[i].volunteerQueueDays;
      if users[i].adminQueueDays > queue {
        queue := users[i].adminQueueDays;
      }
      if queue > maxQueue {
        maxQueue := queue;
      }
    }
    assert users[..|users|] == users;
    var maxQueueUsers := [];
    for i := 0 to |users|
      invariant maxQueueUsers == AtLevel(users[..i], maxQueue)
    {
      assert users[..i + 1][..i] == users[..i];
      var queue := users[i].volunteerQueueDays;
      if users[i].adminQueueDays > queue {
        queue := users[i].adminQueueDays;
      }
      if queue == maxQueue {
        maxQueueUsers := maxQueueUsers + [users[i]];
      }
    }
    assert users[..|users|] == users;
    if |maxQueueUsers| == 1 {
      return Some(maxQueueUsers[0]);
    }
    r := SelectRoundRobinUser(maxQueueUsers, completed);
  }
}
