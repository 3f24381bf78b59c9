/**
 * The month calendar of the chat front-end (telegram/keyboard/keyboard.go):
 * a grid of buttons, one row per week, Monday first, each day labelled
 * with the number of the user on duty, followed by a legend that lists
 * every user once with the kinds of duty they hold and their queue
 * counters.  A button is its text and its callback data.
 */
module Keyboard {
  import opened Civil
  import opened Store

  datatype Button = Button(text: string, data: string)

  const ActionPrevMonth := "prev_month"
  const ActionNextMonth := "next_month"
  const ActionSelectDay := "select_day"
  const ActionIgnore := "ignore"

  const NumberCircles: seq<string> := ["①", "②", "③", "④", "⑤", "⑥", "⑦", "⑧", "⑨", "⑩"]
  const VolunteerMark := "🟢"
  const AdminMark := "🔵"
  const AutoMark := "⚪"
  const TodayMark := "·"
  const LegendTypes := "🟢=Volunteer 🔵=Admin ⚪=Auto"

  /** An empty cell of the grid. */
  const Blank := Button(" ", ActionIgnore)

  // ---------------------------------------------------------------------
  // Users, numbered by first appearance
  // ---------------------------------------------------------------------

  /** The day of month a duty is filed under. */
  function DayOf(d: Duty): int
  {
    CivilFromDays(d.date).day
  }

  /** The duties filed under their keys; of two duties with the same key the later one stays. */
  function Filed(duties: seq<Duty>, key: Duty -> int): (m: map<int, Duty>)
    ensures forall k :: k in m ==> m[k] in duties && key(m[k]) == k
    ensures forall d :: d in duties ==> key(d) in m
  {
    if |duties| == 0 then map[]
    else
      var last := duties[|duties| - 1];
      Filed(duties[..|duties| - 1], key)[key(last) := last]
  }

  /** Day of month to duty. */
  function DayMap(duties: seq<Duty>): map<int, Duty>
  {
    Filed(duties, DayOf)
  }

  function Ids(duties: seq<Duty>): set<UserId>
  {
    set d | d in duties :: d.userId
  }

  /** The first duty of each user, in order of appearance. */
  function Firsts(duties: seq<Duty>): (r: seq<Duty>)
    ensures forall d :: d in r ==> d in duties
    ensures Ids(r) == Ids(duties)
    ensures forall j, k :: 0 <= j < k < |r| ==> r[j].userId != r[k].userId
  {
    if |duties| == 0 then []
    else
      var front := Firsts(duties[..|duties| - 1]);
      var last := duties[|duties| - 1];
      IdsAppend(duties[..|duties| - 1], last);
      assert duties == duties[..|duties| - 1] + [last];
      IdsAppend(front, last);
      assert forall j :: 0 <= j < |front| ==> front[j] in front;
      if last.userId in Ids(front) then front else front + [last]
  }

  lemma IdsAppend(s: seq<Duty>, d: Duty)
    ensures Ids(s + [d]) == Ids(s) + {d.userId}
  {
    assert forall e :: e in s + [d] <==> e in s || e == d;
  }

  /** A user none of whose duties is in `s` is not among its ids. */
  lemma NotInIds(s: seq<Duty>, id: UserId)
    requires forall k :: 0 <= k < |s| ==> s[k].userId != id
    ensures id !in Ids(s)
  {
    forall d | d in s
      ensures d.userId != id
    {
      var k :| 0 <= k < |s| && s[k] == d;
    }
  }

  /** The position of `id` among the first duties, or |r| when absent. */
  function IndexOfId(r: seq<Duty>, id: UserId): (k: nat)
    ensures k <= |r|
    ensures k < |r| ==> r[k].userId == id && forall j :: 0 <= j < k ==> r[j].userId != id
    ensures k == |r| ==> id !in Ids(r)
  {
    if |r| == 0 then 0
    else if r[0].userId == id then 0
    else
      var k := IndexOfId(r[1..], id);
      assert forall d :: d in r[1..] ==> d in r;
      assert id !in Ids(r[1..]) ==> id !in Ids(r) by {
        if id !in Ids(r[1..]) {
          forall d | d in r ensures d.userId != id {
            var j :| 0 <= j < |r| && r[j] == d;
            if j > 0 { assert r[1..][j - 1] == d; }
          }
        }
      }
      k + 1
  }

  /** The number of a user: 1 for the first to appear, 2 for the next, …; 0 if absent. */
  function Number(duties: seq<Duty>, id: UserId): int
  {
    NumberAmong(Firsts(duties), id)
  }

  /** One more than the position of `id` among the first duties `r`, or 0. */
  function NumberAmong(r: seq<Duty>, id: UserId): int
  {
    var k := IndexOfId(r, id);
    if k < |r| then k + 1 else 0
  }

  lemma NumberAmongMember(r: seq<Duty>, id: UserId)
    requires id in Ids(r)
    ensures 1 <= NumberAmong(r, id) <= |r| && r[NumberAmong(r, id) - 1].userId == id
  {
    var k := IndexOfId(r, id);
    assert k < |r|;
  }

  /** A user of the month has a number, and it leads back to that user's first duty. */
  lemma NumberOfMember(duties: seq<Duty>, id: UserId)
    requires id in Ids(duties)
    ensures 1 <= Number(duties, id) <= |Firsts(duties)|
    ensures Firsts(duties)[Number(duties, id) - 1].userId == id
  {
    var r := Firsts(duties);
    assert id in Ids(r);
    NumberAmongMember(r, id);
    var k := NumberAmong(r, id);
    assert Number(duties, id) == k && r[k - 1].userId == id;
  }

  /** The kinds of duty `id` holds. */
  function Kinds(duties: seq<Duty>, id: UserId): set<AssignmentType>
  {
    set d | d in duties && d.userId == id :: d.assignmentType
  }

  // ---------------------------------------------------------------------
  // Properties of the numbering
  // ---------------------------------------------------------------------

  /**
   * Every user of the month gets exactly one number; the numbers are
   * 1, 2, 3, … in order of first appearance.
   */
  lemma NumberingByFirstAppearance(duties: seq<Duty>, i: int, j: int)
    requires 0 <= i < |duties| && 0 <= j < |duties|
    requires forall k :: 0 <= k < i ==> duties[k].userId != duties[i].userId
    requires forall k :: 0 <= k < j ==> duties[k].userId != duties[j].userId
    ensures 1 <= Number(duties, duties[i].userId) <= |Firsts(duties)|
    ensures i < j ==> Number(duties, duties[i].userId) < Number(duties, duties[j].userId)
  {
    FirstAppearanceOrder(duties, i, j);
  }

  lemma {:induction false} FirstAppearanceOrder(duties: seq<Duty>, i: int, j: int)
    requires 0 <= i < |duties| && 0 <= j < |duties|
    requires forall k :: 0 <= k < i ==> duties[k].userId != duties[i].userId
    requires forall k :: 0 <= k < j ==> duties[k].userId != duties[j].userId
    ensures IndexOfId(Firsts(duties), duties[i].userId) < |Firsts(duties)|
    ensures i < j ==> IndexOfId(Firsts(duties), duties[i].userId) < IndexOfId(Firsts(duties), duties[j].userId)
  {
    var n := |duties| - 1;
    var front := duties[..n];
    var r := Firsts(duties);
    assert duties[i] in duties;
    assert duties[i].userId in Ids(duties);
    if i < j {
      if j < n {
        FirstAppearanceOrder(front, i, j);
        PrefixIndex(duties, duties[i].userId);
        PrefixIndex(duties, duties[j].userId);
      } else {
        // duties[j] is the last duty and appears for the first time: it is appended.
        assert forall k :: 0 <= k < n ==> front[k] == duties[k];
        NotInIds(front, duties[j].userId);
        FirstAppearanceOrder(front, i, i);
        PrefixIndex(duties, duties[i].userId);
        assert r == Firsts(front) + [duties[j]];
        assert IndexOfId(r, duties[j].userId) == |Firsts(front)| by {
          IndexOfAppended(Firsts(front), duties[j]);
        }
      }
    }
  }

  /** Appending a duty of a new user gives that user the next index. */
  lemma IndexOfAppended(r: seq<Duty>, d: Duty)
    requires d.userId !in Ids(r)
    ensures IndexOfId(r + [d], d.userId) == |r|
  {
    assert forall j :: 0 <= j < |r| ==> (r + [d])[j] == r[j] && r[j] in r;
    assert (r + [d])[|r|] == d;
  }

  /** The index of a user already seen in a prefix does not change when the list grows. */
  lemma PrefixIndex(duties: seq<Duty>, id: UserId)
    requires |duties| > 0 && id in Ids(duties[..|duties| - 1])
    ensures IndexOfId(Firsts(duties), id) == IndexOfId(Firsts(duties[..|duties| - 1]), id)
    ensures IndexOfId(Firsts(duties), id) < |Firsts(duties[..|duties| - 1])|
  {
    var front := Firsts(duties[..|duties| - 1]);
    var k := IndexOfId(front, id);
    IndexOfPrefix(front, Firsts(duties), id);
  }

  lemma IndexOfPrefix(r: seq<Duty>, s: seq<Duty>, id: UserId)
    requires |r| <= |s| && r == s[..|r|] && id in Ids(r)
    ensures IndexOfId(s, id) == IndexOfId(r, id) < |r|
  {
    assert forall j :: 0 <= j < |r| ==> r[j] == s[j];
  }

  // ---------------------------------------------------------------------
  // Collecting the users of the month
  // ---------------------------------------------------------------------

  /** What the first pass over the duties has gathered so far. */
  datatype Tally = Tally(
    dayMap: map<int, Duty>,
    userAssignments: map<UserId, set<AssignmentType>>,
    userNumbers: map<UserId, int>,
    userList: seq<Option<User>>,
    userCounter: int)

  /** The kinds recorded for `id`, none when it has no entry. */
  function KindsIn(m: map<UserId, set<AssignmentType>>, id: UserId): set<AssignmentType>
  {
    if id in m then m[id] else {}
  }

  /** One step of the first pass: file the duty under its day, its kind under its user, and number a new user. */
  function Record(t: Tally, duty: Duty): Tally
  {
    var dayMap := t.dayMap[DayOf(duty) := duty];
    var userAssignments := t.userAssignments[duty.userId := KindsIn(t.userAssignments, duty.userId) + {duty.assignmentType}];
    if duty.userId in t.userNumbers then Tally(dayMap, userAssignments, t.userNumbers, t.userList, t.userCounter)
    else Tally(dayMap, userAssignments, t.userNumbers[duty.userId := t.userCounter], t.userList + [duty.user], t.userCounter + 1)
  }

  /** The first pass over a list of duties. */
  function TallyOf(duties: seq<Duty>): Tally
  {
    if |duties| == 0 then Tally(map[], map[], map[], [], 1)
    else Record(TallyOf(duties[..|duties| - 1]), duties[|duties| - 1])
  }

  /** The users of the first duties, in the same order (a duty without its user gives `None`). */
  function UsersOf(r: seq<Duty>): (users: seq<Option<User>>)
    ensures |users| == |r| && forall k :: 0 <= k < |r| ==> users[k] == r[k].user
  {
    if |r| == 0 then [] else UsersOf(r[..|r| - 1]) + [r[|r| - 1].user]
  }

  /** The first pass files every duty under its day, the later one winning. */
  lemma {:induction false} TallyDays(duties: seq<Duty>)
    ensures TallyOf(duties).dayMap == DayMap(duties)
  {
    if |duties| > 0 {
      TallyDays(duties[..|duties| - 1]);
    }
  }

  /** The first pass records every kind of duty each user holds, and no other. */
  lemma {:induction false} TallyKinds(duties: seq<Duty>)
    ensures forall id :: KindsIn(TallyOf(duties).userAssignments, id) == Kinds(duties, id)
  {
    if |duties| > 0 {
      var n := |duties| - 1;
      var d := duties[n];
      TallyKinds(duties[..n]);
      assert duties[..n + 1] == duties;
      KindsStep(duties, n);
      var before := TallyOf(duties[..n]).userAssignments;
      var after := before[d.userId := KindsIn(before, d.userId) + {d.assignmentType}];
      assert TallyOf(duties).userAssignments == after;
      forall id
        ensures KindsIn(after, id) == Kinds(duties, id)
      {
        if id == d.userId {
          assert KindsIn(after, id) == KindsIn(before, id) + {d.assignmentType};
        } else {
          assert KindsIn(after, id) == KindsIn(before, id);
        }
      }
    } else {
      forall id
        ensures Kinds(duties, id) == {}
      {
      }
    }
  }

  /**
   * The first pass numbers exactly the users of the month, each by the
   * position of its first duty, and lists their users in that order.
   */
  lemma {:induction false} TallyNumbers(duties: seq<Duty>)
    ensures forall id :: (id in TallyOf(duties).userNumbers <==> id in Ids(duties))
    ensures forall id :: id in TallyOf(duties).userNumbers ==> TallyOf(duties).userNumbers[id] == Number(duties, id)
    ensures TallyOf(duties).userList == UsersOf(Firsts(duties))
    ensures TallyOf(duties).userCounter == |Firsts(duties)| + 1
  {
    if |duties| > 0 {
      var n := |duties| - 1;
      TallyNumbers(duties[..n]);
      assert duties[..n + 1] == duties;
      NumbersStep(duties, n);
      UsersStep(duties, n);
    }
  }

  /**
   * The first pass over the duties: the day map, the kinds of duty per
   * user, the user numbers and the list of users in numbering order.
   */
  method CollectUsers(duties: seq<Duty>) returns (t: Tally)
    ensures t == TallyOf(duties)
    ensures t.dayMap == DayMap(duties)
    ensures forall id :: KindsIn(t.userAssignments, id) == Kinds(duties, id)
    ensures forall id :: (id in t.userNumbers <==> id in Ids(duties))
    ensures forall id :: id in t.userNumbers ==> t.userNumbers[id] == Number(duties, id)
    ensures t.userList == UsersOf(Firsts(duties))
  {
    var dayMap: map<int, Duty> := map[];
    var userAssignments: map<UserId, set<AssignmentType>> := map[];
    var userNumbers: map<UserId, int> := map[];
    var userList: seq<Option<User>> := [];
    var userCounter := 1;
    for i := 0 to |duties|
      invariant Tally(dayMap, userAssignments, userNumbers, userList, userCounter) == TallyOf(duties[..i])
    {
      assert duties[..i + 1][..i] == duties[..i];
      var duty := duties[i];
      dayMap := dayMap[DayOf(duty) := duty];
      var kinds := if duty.userId in userAssignments then userAssignments[duty.userId] else {};
      userAssignments := userAssignments[duty.userId := kinds + {duty.assignmentType}];
      if duty.userId !in userNumbers {
        userNumbers := userNumbers[duty.userId := userCounter];
        userList := userList + [duty.user];
        userCounter := userCounter + 1;
      }
    }
    assert duties[..|duties|] == duties;
    t := Tally(dayMap, userAssignments, userNumbers, userList, userCounter);
    TallyDays(duties);
    TallyKinds(duties);
    TallyNumbers(duties);
  }

  lemma UsersStep(duties: seq<Duty>, i: int)
    requires 0 <= i < |duties|
    ensures UsersOf(Firsts(duties[..i + 1]))
            == UsersOf(Firsts(duties[..i])) + (if duties[i].userId in Ids(duties[..i]) then [] else [duties[i].user])
  {
    NumbersStep(duties, i);
    var f := Firsts(duties[..i]);
    if duties[i].userId !in Ids(duties[..i]) {
      assert (f + [duties[i]])[..|f|] == f;
    }
  }

  lemma KindsStep(duties: seq<Duty>, i: int)
    requires 0 <= i < |duties|
    ensures forall id :: Kinds(duties[..i + 1], id)
                         == Kinds(duties[..i], id) + (if duties[i].userId == id then {duties[i].assignmentType} else {})
  {
    assert duties[..i + 1] == duties[..i] + [duties[i]];
  }

  lemma NumbersStep(duties: seq<Duty>, i: int)
    requires 0 <= i < |duties|
    ensures Ids(duties[..i + 1]) == Ids(duties[..i]) + {duties[i].userId}
    ensures forall id :: id in Ids(duties[..i]) ==> Number(duties[..i + 1], id) == Number(duties[..i], id)
    ensures duties[i].userId !in Ids(duties[..i]) ==>
              Firsts(duties[..i + 1]) == Firsts(duties[..i]) + [duties[i]]
              && Number(duties[..i + 1], duties[i].userId) == |Firsts(duties[..i])| + 1
    ensures duties[i].userId in Ids(duties[..i]) ==> Firsts(duties[..i + 1]) == Firsts(duties[..i])
  {
    var p := duties[..i + 1];
    assert p[..i] == duties[..i];
    assert p == duties[..i] + [duties[i]];
    forall id | id in Ids(duties[..i])
      ensures Number(p, id) == Number(duties[..i], id)
    {
      PrefixIndex(p, id);
    }
    if duties[i].userId !in Ids(duties[..i]) {
      IndexOfAppended(Firsts(duties[..i]), duties[i]);
    }
  }

  // ---------------------------------------------------------------------
  // The grid of days
  // ---------------------------------------------------------------------

  /** The column of a weekday (0 = Sunday) in a week that starts on Monday. */
  function MondayColumn(w: int): (c: int)
    requires 0 <= w < 7
    ensures 0 <= c < 7 && c == (w + 6) % 7
  {
    if w == 0 then 6 else w - 1
  }

  /** The label of user number `n`: a circled digit up to ten, the decimal number beyond. */
  function Label(n: int): string
  {
    if 0 < n <= |NumberCircles| then NumberCircles[n - 1] else IntToString(n)
  }

  /** The number a map gives a user, zero when it has none. */
  function NumberIn(m: map<UserId, int>, id: UserId): int
  {
    if id in m then m[id] else 0
  }

  /** What the grid of one month needs to know. */
  datatype Grid = Grid(year: int, month: int, offset: int, lastDay: int, today: Ymd, tally: Tally)

  predicate GridValid(g: Grid)
  {
    1 <= g.month <= 12 && 0 <= g.offset < 7 && g.lastDay == DaysInMonth(g.year, g.month)
  }

  /** The grid of the month of `t`: its first day goes under its own weekday. */
  function GridOf(t: Ymd, today: Ymd, tally: Tally): (g: Grid)
    requires 1 <= t.month <= 12
    ensures GridValid(g) && g.year == t.year && g.month == t.month && g.today == today && g.tally == tally
  {
    var first := DaysFromCivil(Ymd(t.year, t.month, 1));
    Grid(t.year, t.month, MondayColumn(Weekday(first)), DaysInMonth(t.year, t.month), today, tally)
  }

  /** The button of day `day`: its number, marked when it is today, with the label of its user. */
  function DayButton(g: Grid, day: int): Button
  {
    var date := Ymd(g.year, g.month, day);
    var mark := if date == g.today then TodayMark else "";
    var circle := if day in g.tally.dayMap then Label(NumberIn(g.tally.userNumbers, g.tally.dayMap[day].userId)) else "";
    Button(mark + IntToString(day) + circle, ActionSelectDay + ":" + FormatIso(date))
  }

  /** The day shown in column `i` of week `w`, when it lies in 1..lastDay. */
  function CellDay(g: Grid, w: int, i: int): int
  {
    7 * w + i - g.offset + 1
  }

  function Cell(g: Grid, w: int, i: int): Button
  {
    var day := CellDay(g, w, i);
    if 1 <= day <= g.lastDay then DayButton(g, day) else Blank
  }

  function WeekRow(g: Grid, w: int): (row: seq<Button>)
    ensures |row| == 7 && forall i :: 0 <= i < 7 ==> row[i] == Cell(g, w, i)
  {
    seq(7, i => Cell(g, w, i))
  }

  /** Enough weeks to reach the last day of the month. */
  function WeekCount(g: Grid): int
  {
    (g.offset + g.lastDay + 6) / 7
  }

  function Weeks(g: Grid, n: nat): (rows: seq<seq<Button>>)
    ensures |rows| == n && forall w :: 0 <= w < n ==> rows[w] == WeekRow(g, w)
  {
    if n == 0 then [] else Weeks(g, n - 1) + [WeekRow(g, n - 1)]
  }

  /** Where day `day` sits: its week and its column. */
  function Position(g: Grid, day: int): (p: (int, int))
    requires GridValid(g) && 1 <= day <= g.lastDay
    ensures 0 <= p.0 < WeekCount(g) && 0 <= p.1 < 7
  {
    ((day - 1 + g.offset) / 7, (day - 1 + g.offset) % 7)
  }

  // ---------------------------------------------------------------------
  // Properties of the grid
  // ---------------------------------------------------------------------

  /**
   * Every day of the month has exactly one cell: the one at its position,
   * which lies inside the grid; every other cell shows another day or is
   * blank.
   */
  lemma EachDayOnce(g: Grid, day: int)
    requires GridValid(g) && 1 <= day <= g.lastDay
    ensures var (w, i) := Position(g, day);
            && 0 <= w < WeekCount(g) && 0 <= i < 7
            && CellDay(g, w, i) == day
            && Weeks(g, WeekCount(g))[w][i] == DayButton(g, day)
    ensures forall w, i :: 0 <= i < 7 && CellDay(g, w, i) == day ==> (w, i) == Position(g, day)
  {
    var x := day - 1 + g.offset;
    var p := Position(g, day);
    DivUnique(x, p.0, p.1);
    var weeks := Weeks(g, WeekCount(g));
    assert weeks[p.0] == WeekRow(g, p.0);
    forall w, i | 0 <= i < 7 && CellDay(g, w, i) == day
      ensures (w, i) == p
    {
      DivUnique(x, w, i);
    }
  }

  /** Week and column are the quotient and remainder by seven. */
  lemma DivUnique(x: int, w: int, i: int)
    requires 0 <= i < 7 && x == 7 * w + i
    ensures w == x / 7 && i == x % 7
  {
  }

  /** A day's number in the calendar is the first day's number plus its distance from it. */
  lemma DaysOfMonth(year: int, month: int, day: int)
    ensures DaysFromCivil(Ymd(year, month, day)) == DaysFromCivil(Ymd(year, month, 1)) + day - 1
  {
  }

  /** Every day of the month stands in the column of its own weekday, Monday first. */
  lemma DayUnderItsWeekday(t: Ymd, today: Ymd, tally: Tally, day: int)
    requires 1 <= t.month <= 12
    requires 1 <= day <= DaysInMonth(t.year, t.month)
    ensures Position(GridOf(t, today, tally), day).1
            == MondayColumn(Weekday(DaysFromCivil(Ymd(t.year, t.month, day))))
  {
    var first := DaysFromCivil(Ymd(t.year, t.month, 1));
    DaysOfMonth(t.year, t.month, day);
    ColumnOfDay(first, day);
  }

  /** Counting `day - 1` columns on from the first day's column gives the column of the later day. */
  lemma ColumnOfDay(first: int, day: int)
    ensures (day - 1 + MondayColumn(Weekday(first))) % 7 == MondayColumn(Weekday(first + day - 1))
  {
    ModSevenShift(first + 4, 6);
    ModSevenShift(first + day - 1 + 4, 6);
    ModSevenShift(first + 10, day - 1);
  }

  /** Week `w` shows at least one day of the month. */
  predicate ShowsDay(g: Grid, w: int)
  {
    exists i :: 0 <= i < 7 && 1 <= CellDay(g, w, i) <= g.lastDay
  }

  lemma ModSevenShift(a: int, b: int)
    ensures ((a % 7) + b) % 7 == (a + b) % 7
  {
    var q := a / 7;
    assert a == 7 * q + a % 7;
    assert (a % 7) + b == (a + b) - 7 * q;
  }

  /** The grid has the fewest weeks that hold the month: its first and its last week each show a day. */
  lemma WeeksAreTight(g: Grid)
    requires GridValid(g)
    ensures 1 <= WeekCount(g) <= 6
    ensures ShowsDay(g, 0) && ShowsDay(g, WeekCount(g) - 1)
  {
    assert 1 <= CellDay(g, 0, g.offset) <= g.lastDay;
    var w := WeekCount(g) - 1;
    var pos := Position(g, g.lastDay);
    assert pos.0 == w && CellDay(g, pos.0, pos.1) == g.lastDay;
  }

  /** Weeks before the week count have a day still to show; the count itself does not. */
  lemma ClampStep(g: Grid, w: int, i: int)
    requires GridValid(g) && 0 <= w && 0 <= i < 7
    ensures (w == 0 && i < g.offset) ==> CellDay(g, w, i) < 1
    ensures !(w == 0 && i < g.offset) ==> CellDay(g, w, i) >= 1
  {
  }

  /** `x` held into 1..last+1: the next day the filling loop would write. */
  function Clamp(x: int, last: int): int
  {
    if x < 1 then 1 else if x > last + 1 then last + 1 else x
  }

  /** The week in which the filling loop is about to write day `day` is still inside the grid. */
  lemma WeekBoundary(g: Grid, w: int)
    requires GridValid(g) && 0 <= w
    ensures Clamp(7 * w - g.offset + 1, g.lastDay) <= g.lastDay <==> w < WeekCount(g)
  {
  }

  /** The button of day `day`, its text built as the grid shows it. */
  method DayCell(g: Grid, day: int) returns (b: Button)
    ensures b == DayButton(g, day)
  {
    var date := Ymd(g.year, g.month, day);
    var dayText;
    var isToday := date.year == g.today.year && date.month == g.today.month && date.day == g.today.day;
    assert isToday == (date == g.today);
    if day in g.tally.dayMap {
      var duty := g.tally.dayMap[day];
      var userNum := if duty.userId in g.tally.userNumbers then g.tally.userNumbers[duty.userId] else 0;
      var numberCircle;
      if userNum > 0 && userNum <= |NumberCircles| {
        numberCircle := NumberCircles[userNum - 1];
      } else {
        numberCircle := IntToString(userNum);
      }
      assert numberCircle == Label(NumberIn(g.tally.userNumbers, duty.userId));
      if isToday {
        dayText := TodayMark + IntToString(day) + numberCircle;
      } else {
        dayText := IntToString(day) + numberCircle;
        assert dayText == "" + IntToString(day) + numberCircle;
      }
    } else {
      if isToday {
        dayText := TodayMark + IntToString(day);
        assert dayText == TodayMark + IntToString(day) + "";
      } else {
        dayText := IntToString(day);
        assert dayText == "" + IntToString(day) + "";
      }
    }
    b := Button(dayText, ActionSelectDay + ":" + FormatIso(date));
  }

  /**
   * Appends the week rows to the header rows, filling a row of seven
   * cells one at a time: blanks before the first day and after the last.
   */
  method FillWeeks(g: Grid, head: seq<seq<Button>>) returns (keyboard: seq<seq<Button>>)
    requires GridValid(g) && |head| == 2
    ensures keyboard == head + Weeks(g, WeekCount(g))
  {
    keyboard := head;
    var row := new Button[7](_ => Blank);
    var day := 1;
    ghost var w := 0;
    WeekBoundary(g, 0);
    while day <= g.lastDay
      invariant 0 <= w <= WeekCount(g)
      invariant keyboard == head + Weeks(g, w)
      invariant day == Clamp(7 * w - g.offset + 1, g.lastDay)
      invariant fresh(row) && row.Length == 7
      decreases WeekCount(g) - w
    {
      WeekBoundary(g, w);
      day := FillRow(g, row, w, |keyboard| == 2, day);
      keyboard := keyboard + [row[..]];
      w := w + 1;
      WeekBoundary(g, w);
      row := new Button[7](_ => Blank);
    }
  }

  /**
   * Fills the seven cells of week `w`, from day `start` on: blanks before
   * the first day (only in the first row) and after the last.
   */
  method FillRow(g: Grid, row: array<Button>, ghost w: int, firstRow: bool, start: int) returns (day: int)
    requires GridValid(g) && row.Length == 7 && 0 <= w && (firstRow <==> w == 0)
    requires start == Clamp(7 * w - g.offset + 1, g.lastDay)
    modifies row
    ensures row[..] == WeekRow(g, w)
    ensures day == Clamp(7 * w + 7 - g.offset + 1, g.lastDay)
  {
    day := start;
    for i := 0 to 7
      invariant day == Clamp(7 * w + i - g.offset + 1, g.lastDay)
      invariant forall j :: 0 <= j < i ==> row[j] == Cell(g, w, j)
    {
      ClampStep(g, w, i);
      if (firstRow && i < g.offset) || day > g.lastDay {
        row[i] := Blank;
      } else {
        row[i] := DayCell(g, day);
        day := day + 1;
      }
    }
    assert row[..] == WeekRow(g, w);
  }

  // ---------------------------------------------------------------------
  // The legend
  // ---------------------------------------------------------------------

  /** The parts joined with `sep` between neighbours. */
  function Join(parts: seq<string>, sep: string): string
  {
    if |parts| == 0 then ""
    else if |parts| == 1 then parts[0]
    else Join(parts[..|parts| - 1], sep) + sep + parts[|parts| - 1]
  }

  /** The marks of the kinds of duty a user holds: volunteer, then admin, then automatic. */
  function Marks(kinds: set<AssignmentType>): seq<string>
  {
    (if Voluntary in kinds then [VolunteerMark] else [])
    + (if Admin in kinds then [AdminMark] else [])
    + (if RoundRobin in kinds then [AutoMark] else [])
  }

  /** The positive queue counters of a user, volunteer first. */
  function QueueParts(u: User): seq<string>
  {
    (if u.volunteerQueueDays > 0 then ["V:" + IntToString(u.volunteerQueueDays)] else [])
    + (if u.adminQueueDays > 0 then ["A:" + IntToString(u.adminQueueDays)] else [])
  }

  /** The queue counters in parentheses after a space, or nothing when there are none. */
  function QueueSuffix(u: User): string
  {
    var queue := QueueParts(u);
    if |queue| > 0 then " (" + Join(queue, " ") + ")" else ""
  }

  /** The legend line of user number `n`. */
  function LegendEntry(n: int, u: User, kinds: set<AssignmentType>): string
  {
    Label(n) + " " + Join(Marks(kinds), "") + u.firstName + QueueSuffix(u)
  }

  function LegendRow(t: Tally, k: int): seq<Button>
    requires 0 <= k < |t.userList| && t.userList[k].Some?
  {
    var u := t.userList[k].value;
    [Button(LegendEntry(k + 1, u, KindsIn(t.userAssignments, u.id)), ActionIgnore)]
  }

  /** One legend row per listed user, in numbering order. */
  function Legend(t: Tally, n: nat): (rows: seq<seq<Button>>)
    requires n <= |t.userList| && forall k :: 0 <= k < n ==> t.userList[k].Some?
    ensures |rows| == n
  {
    if n == 0 then [] else Legend(t, n - 1) + [LegendRow(t, n - 1)]
  }

  /** Row `k` of the legend is the row of listed user `k`. */
  lemma {:induction false} LegendRows(t: Tally, n: nat, k: nat)
    requires n <= |t.userList| && forall j :: 0 <= j < n ==> t.userList[j].Some?
    requires k < n
    ensures Legend(t, n)[k] == LegendRow(t, k)
  {
    if k < n - 1 {
      LegendRows(t, n - 1, k);
    }
  }

  lemma JoinTwo(a: string, b: string, sep: string)
    ensures Join([a, b], sep) == a + sep + b
  {
    assert [a, b][..1] == [a];
  }

  lemma JoinThree(a: string, b: string, c: string, sep: string)
    ensures Join([a, b, c], sep) == a + sep + b + sep + c
  {
    assert [a, b, c][..2] == [a, b];
    JoinTwo(a, b, sep);
  }

  /** The three marks come out in a fixed order, each only for a kind the user holds. */
  lemma MarksInOrder(kinds: set<AssignmentType>)
    ensures Join(Marks(kinds), "")
            == (if Voluntary in kinds then VolunteerMark else "")
               + (if Admin in kinds then AdminMark else "")
               + (if RoundRobin in kinds then AutoMark else "")
  {
    var v, a, r := Voluntary in kinds, Admin in kinds, RoundRobin in kinds;
    var m := Marks(kinds);
    if v && a && r {
      JoinThree(VolunteerMark, AdminMark, AutoMark, "");
      assert m == [VolunteerMark, AdminMark, AutoMark];
    } else if v && a {
      JoinTwo(VolunteerMark, AdminMark, "");
      assert m == [VolunteerMark, AdminMark];
    } else if v && r {
      JoinTwo(VolunteerMark, AutoMark, "");
      assert m == [VolunteerMark, AutoMark];
    } else if a && r {
      JoinTwo(AdminMark, AutoMark, "");
      assert m == [AdminMark, AutoMark];
    } else if v {
      assert m == [VolunteerMark];
    } else if a {
      assert m == [AdminMark];
    } else if r {
      assert m == [AutoMark];
    } else {
      assert m == [];
    }
  }

  /** The queue counters appear, in parentheses, exactly when one of them is positive. */
  lemma QueueInfoShown(u: User)
    ensures u.volunteerQueueDays <= 0 && u.adminQueueDays <= 0 ==> QueueSuffix(u) == ""
    ensures u.volunteerQueueDays > 0 && u.adminQueueDays <= 0 ==>
              QueueSuffix(u) == " (V:" + IntToString(u.volunteerQueueDays) + ")"
    ensures u.volunteerQueueDays <= 0 && u.adminQueueDays > 0 ==>
              QueueSuffix(u) == " (A:" + IntToString(u.adminQueueDays) + ")"
    ensures u.volunteerQueueDays > 0 && u.adminQueueDays > 0 ==>
              QueueSuffix(u)
              == " (V:" + IntToString(u.volunteerQueueDays) + " A:" + IntToString(u.adminQueueDays) + ")"
  {
    var vs, as_ := IntToString(u.volunteerQueueDays), IntToString(u.adminQueueDays);
    if u.volunteerQueueDays > 0 && u.adminQueueDays > 0 {
      BothCountersShown(u);
    } else if u.volunteerQueueDays > 0 {
      assert QueueParts(u) == ["V:" + vs];
      assert " (" + "V:" == " (V:";
      assert QueueSuffix(u) == " (" + ("V:" + vs) + ")";
    } else if u.adminQueueDays > 0 {
      assert QueueParts(u) == ["A:" + as_];
      assert " (" + "A:" == " (A:";
      assert QueueSuffix(u) == " (" + ("A:" + as_) + ")";
    }
  }

  /** With both counters positive, both appear, the volunteer one first. */
  lemma BothCountersShown(u: User)
    requires u.volunteerQueueDays > 0 && u.adminQueueDays > 0
    ensures QueueSuffix(u)
            == " (V:" + IntToString(u.volunteerQueueDays) + " A:" + IntToString(u.adminQueueDays) + ")"
  {
    var v, a := "V:" + IntToString(u.volunteerQueueDays), "A:" + IntToString(u.adminQueueDays);
    JoinTwo(v, a, " ");
    assert QueueParts(u) == [v, a];
    assert QueueSuffix(u) == " (" + (v + " " + a) + ")";
    assert " (" + "V:" == " (V:" && " " + "A:" == " A:";
  }

  /** The legend button of listed user `idx`, its entry built as the legend shows it. */
  method LegendButton(t: Tally, idx: int) returns (b: Button)
    requires 0 <= idx < |t.userList| && t.userList[idx].Some?
    ensures [b] == LegendRow(t, idx)
  {
    var user := t.userList[idx].value;
    var userNum := idx + 1;
    var numberCircle := NumberCircle(userNum);
    var emojis := MarksOf(KindsIn(t.userAssignments, user.id));
    var legendEntry := numberCircle + " " + Join(emojis, "") + user.firstName;
    legendEntry := AppendQueueInfo(legendEntry, user);
    assert legendEntry == LegendEntry(userNum, user, KindsIn(t.userAssignments, user.id));
    b := Button(legendEntry, ActionIgnore);
  }

  /** The label of a positive user number, as the legend computes it. */
  method NumberCircle(userNum: int) returns (numberCircle: string)
    requires userNum > 0
    ensures numberCircle == Label(userNum)
  {
    if userNum <= |NumberCircles| {
      numberCircle := NumberCircles[userNum - 1];
    } else {
      numberCircle := IntToString(userNum);
    }
  }

  /** Appends a user's queue counters, in parentheses, when there are any. */
  method AppendQueueInfo(entry: string, user: User) returns (legendEntry: string)
    ensures legendEntry == entry + QueueSuffix(user)
  {
    legendEntry := entry;
    var queueInfo := QueueInfo(user);
    if |queueInfo| > 0 {
      legendEntry := legendEntry + " (" + Join(queueInfo, " ") + ")";
    }
    SuffixJoined(entry, user);
  }

  /** The marks of a user's kinds of duty, collected in the legend's order. */
  method MarksOf(kinds: set<AssignmentType>) returns (emojis: seq<string>)
    ensures emojis == Marks(kinds)
  {
    emojis := [];
    if Voluntary in kinds {
      emojis := emojis + [VolunteerMark];
    }
    if Admin in kinds {
      emojis := emojis + [AdminMark];
    }
    if RoundRobin in kinds {
      emojis := emojis + [AutoMark];
    }
  }

  /** A user's positive queue counters, collected volunteer first. */
  method QueueInfo(user: User) returns (queueInfo: seq<string>)
    ensures queueInfo == QueueParts(user)
  {
    queueInfo := [];
    if user.volunteerQueueDays > 0 {
      queueInfo := queueInfo + ["V:" + IntToString(user.volunteerQueueDays)];
    }
    if user.adminQueueDays > 0 {
      queueInfo := queueInfo + ["A:" + IntToString(user.adminQueueDays)];
    }
  }

  lemma SuffixJoined(entry: string, u: User)
    ensures |QueueParts(u)| > 0 ==> entry + " (" + Join(QueueParts(u), " ") + ")" == entry + QueueSuffix(u)
    ensures |QueueParts(u)| == 0 ==> entry == entry + QueueSuffix(u)
  {
  }

  /** Appends one legend row per listed user, in numbering order. */
  method FillLegend(t: Tally, head: seq<seq<Button>>) returns (keyboard: seq<seq<Button>>)
    requires forall k :: 0 <= k < |t.userList| ==> t.userList[k].Some?
    ensures keyboard == head + Legend(t, |t.userList|)
  {
    keyboard := head;
    for idx := 0 to |t.userList|
      invariant keyboard == head + Legend(t, idx)
    {
      var legendButton := LegendButton(t, idx);
      assert head + Legend(t, idx + 1) == head + Legend(t, idx) + [LegendRow(t, idx)];
      keyboard := keyboard + [[legendButton]];
    }
  }

  // ---------------------------------------------------------------------
  // The whole calendar
  // ---------------------------------------------------------------------

  /** Back, the month and year, forward; both arrows carry the date shown. */
  function Header(t: Ymd): seq<Button>
    requires 1 <= t.month <= 12
  {
    [ Button("«", ActionPrevMonth + ":" + FormatIso(t)),
      Button(FormatMonthYear(t.year, t.month), ActionIgnore),
      Button("»", ActionNextMonth + ":" + FormatIso(t)) ]
  }

  const DaysOfWeek: seq<Button> :=
    [ Button("Mo", ActionIgnore), Button("Tu", ActionIgnore), Button("We", ActionIgnore),
      Button("Th", ActionIgnore), Button("Fr", ActionIgnore), Button("Sa", ActionIgnore),
      Button("Su", ActionIgnore) ]

  /** Every listed user is known: the legend reads each of them. */
  predicate UsersPresent(duties: seq<Duty>)
  {
    forall k :: 0 <= k < |Firsts(duties)| ==> Firsts(duties)[k].user.Some?
  }

  /** The rows above the legend: header, weekdays, weeks and the key to the marks. */
  function Top(t: Ymd, g: Grid): (rows: seq<seq<Button>>)
    requires 1 <= t.month <= 12 && GridValid(g)
    ensures |rows| == 3 + WeekCount(g)
    ensures rows[0] == Header(t) && rows[1] == DaysOfWeek
    ensures forall w :: 0 <= w < WeekCount(g) ==> rows[2 + w] == WeekRow(g, w)
    ensures rows[2 + WeekCount(g)] == [Button(LegendTypes, ActionIgnore)]
  {
    [Header(t), DaysOfWeek] + Weeks(g, WeekCount(g)) + [[Button(LegendTypes, ActionIgnore)]]
  }

  /** The calendar of the month of `t`, as rows of buttons. */
  function CalendarOf(t: Ymd, today: Ymd, duties: seq<Duty>): (kb: seq<seq<Button>>)
    requires 1 <= t.month <= 12 && UsersPresent(duties)
    ensures var g := GridOf(t, today, TallyOf(duties));
            && |kb| == 3 + WeekCount(g) + |Firsts(duties)|
            && kb[0] == Header(t) && kb[1] == DaysOfWeek
            && (forall w :: 0 <= w < WeekCount(g) ==> kb[2 + w] == WeekRow(g, w))
            && kb[2 + WeekCount(g)] == [Button(LegendTypes, ActionIgnore)]
  {
    var tally := TallyOf(duties);
    ListedUsers(duties);
    var g := GridOf(t, today, tally);
    var top := Top(t, g);
    var legend := Legend(tally, |tally.userList|);
    AppendRows(top, legend);
    top + legend
  }

  /** Below the key to the marks, row `k` of the calendar is legend row `k`. */
  lemma CalendarLegendRow(t: Ymd, today: Ymd, duties: seq<Duty>, k: int)
    requires 1 <= t.month <= 12 && UsersPresent(duties)
    requires 0 <= k < |Firsts(duties)|
    ensures var tally := TallyOf(duties);
            && |tally.userList| == |Firsts(duties)|
            && tally.userList[k].Some?
            && CalendarOf(t, today, duties)[3 + WeekCount(GridOf(t, today, tally)) + k] == LegendRow(tally, k)
  {
    var tally := TallyOf(duties);
    ListedUsers(duties);
    var g := GridOf(t, today, tally);
    var top := Top(t, g);
    var legend := Legend(tally, |tally.userList|);
    AppendRows(top, legend);
    LegendRows(tally, |tally.userList|, k);
  }

  /** The legend lists one known user per first duty. */
  lemma ListedUsers(duties: seq<Duty>)
    requires UsersPresent(duties)
    ensures |TallyOf(duties).userList| == |Firsts(duties)|
    ensures forall k :: 0 <= k < |TallyOf(duties).userList| ==> TallyOf(duties).userList[k].Some?
  {
    TallyNumbers(duties);
  }

  lemma AppendRows<T>(top: seq<T>, rest: seq<T>)
    ensures forall i :: 0 <= i < |top| ==> (top + rest)[i] == top[i]
    ensures forall k :: 0 <= k < |rest| ==> (top + rest)[|top| + k] == rest[k]
  {
  }

  /** The inline keyboard of a month: header, weekdays, week rows, legend. */
  method Calendar(t: Ymd, today: Ymd, duties: seq<Duty>) returns (keyboard: seq<seq<Button>>)
    requires 1 <= t.month <= 12 && UsersPresent(duties)
    ensures keyboard == CalendarOf(t, today, duties)
  {
    var tally := CollectUsers(duties);
    TallyNumbers(duties);
    var g := GridOf(t, today, tally);
    keyboard := FillWeeks(g, [Header(t), DaysOfWeek]);
    keyboard := keyboard + [[Button(LegendTypes, ActionIgnore)]];
    assert keyboard == Top(t, g);
    keyboard := FillLegend(tally, keyboard);
  }

  // ---------------------------------------------------------------------
  // Properties of the calendar
  // ---------------------------------------------------------------------

  /** A key with several duties keeps the last of them. */
  lemma {:induction false} FiledLastWins(duties: seq<Duty>, key: Duty -> int, j: int)
    requires 0 <= j < |duties|
    requires forall k :: j < k < |duties| ==> key(duties[k]) != key(duties[j])
    ensures key(duties[j]) in Filed(duties, key) && Filed(duties, key)[key(duties[j])] == duties[j]
  {
    var n := |duties| - 1;
    var front := duties[..n];
    if j < n {
      assert front[j] == duties[j];
      forall k | j < k < n
        ensures key(front[k]) != key(front[j])
      {
        assert front[k] == duties[k];
      }
      FiledLastWins(front, key, j);
    }
  }

  /** A day with several duties shows the last of them. */
  lemma DayMapLastWins(duties: seq<Duty>, j: int)
    requires 0 <= j < |duties|
    requires forall k :: j < k < |duties| ==> DayOf(duties[k]) != DayOf(duties[j])
    ensures DayOf(duties[j]) in DayMap(duties) && DayMap(duties)[DayOf(duties[j])] == duties[j]
  {
    FiledLastWins(duties, DayOf, j);
  }

  /**
   * The rows of the calendar: the header, whose arrows carry the date
   * shown, the weekdays, the weeks, the key to the marks, and one legend
   * row per user of the month.
   */
  lemma CalendarShape(t: Ymd, today: Ymd, duties: seq<Duty>)
    requires 1 <= t.month <= 12 && UsersPresent(duties)
    ensures var kb := CalendarOf(t, today, duties);
            var weeks := WeekCount(GridOf(t, today, TallyOf(duties)));
            && 1 <= weeks <= 6
            && (forall w :: 2 <= w < 2 + weeks ==> |kb[w]| == 7)
            && kb[0][0].data[..|ActionPrevMonth| + 1] == ActionPrevMonth + ":"
            && kb[0][2].data[..|ActionNextMonth| + 1] == ActionNextMonth + ":"
    ensures ValidYmd(t) && 0 <= t.year <= 9999 ==>
              && ParseIso(CalendarOf(t, today, duties)[0][0].data[(|ActionPrevMonth| + 1)..]) == Some(t)
              && ParseIso(CalendarOf(t, today, duties)[0][2].data[(|ActionNextMonth| + 1)..]) == Some(t)
  {
    var kb: seq<seq<Button>> := CalendarOf(t, today, duties);
    var g := GridOf(t, today, TallyOf(duties));
    WeeksAreTight(g);
    forall w | 2 <= w < 2 + WeekCount(g)
      ensures |kb[w]| == 7
    {
      assert kb[2 + (w - 2)] == WeekRow(g, w - 2);
    }
    HeaderCarriesMonth(t);
    assert kb[0] == Header(t);
  }

  /** The arrows of the header carry the shown month's date after their action prefix. */
  lemma HeaderCarriesMonth(t: Ymd)
    requires 1 <= t.month <= 12
    ensures Header(t)[0].data[..|ActionPrevMonth| + 1] == ActionPrevMonth + ":"
    ensures Header(t)[2].data[..|ActionNextMonth| + 1] == ActionNextMonth + ":"
    ensures ValidYmd(t) && 0 <= t.year <= 9999 ==>
              && ParseIso(Header(t)[0].data[(|ActionPrevMonth| + 1)..]) == Some(t)
              && ParseIso(Header(t)[2].data[(|ActionNextMonth| + 1)..]) == Some(t)
  {
    var prev := ActionPrevMonth + ":";
    var next := ActionNextMonth + ":";
    assert Header(t)[0].data == prev + FormatIso(t);
    assert Header(t)[2].data == next + FormatIso(t);
    assert Header(t)[0].data[|prev|..] == FormatIso(t);
    assert Header(t)[2].data[|next|..] == FormatIso(t);
    if ValidYmd(t) && 0 <= t.year <= 9999 {
      ParseFormatIso(t);
    }
  }

  /** The button of a day shows the today mark, the day and the number of the user on duty that day. */
  lemma DayButtonMeaning(t: Ymd, today: Ymd, duties: seq<Duty>, day: int)
    requires 1 <= t.month <= 12
    ensures var date := Ymd(t.year, t.month, day);
            DayButton(GridOf(t, today, TallyOf(duties)), day)
            == Button((if date == today then TodayMark else "") + IntToString(day)
                        + (if day in DayMap(duties) then Label(Number(duties, DayMap(duties)[day].userId)) else ""),
                      ActionSelectDay + ":" + FormatIso(date))
  {
    var tally := TallyOf(duties);
    TallyDays(duties);
    TallyNumbers(duties);
    if day in DayMap(duties) {
      var d := DayMap(duties)[day];
      assert d in duties;
      assert d.userId in Ids(duties);
      assert NumberIn(tally.userNumbers, d.userId) == Number(duties, d.userId);
    }
  }

  /**
   * The number shown on a day with a duty is that of the duty's user, and
   * the legend row of that number is that user's.
   */
  lemma DayLabelNamesLegendUser(duties: seq<Duty>, day: int)
    requires day in DayMap(duties)
    ensures var n := Number(duties, DayMap(duties)[day].userId);
            1 <= n <= |Firsts(duties)| && Firsts(duties)[n - 1].userId == DayMap(duties)[day].userId
  {
    var d := DayMap(duties)[day];
    assert d in duties;
    assert d.userId in Ids(duties);
    NumberOfMember(duties, d.userId);
  }

  /**
   * Every day of the month has its button in the calendar, in the week row
   * and column the grid gives it (the column is that of its weekday, by
   * `DayUnderItsWeekday`; the button's contents are given by `DayButtonMeaning`).
   */
  lemma CalendarShowsEveryDay(t: Ymd, today: Ymd, duties: seq<Duty>, day: int)
    requires 1 <= t.month <= 12 && UsersPresent(duties)
    requires 1 <= day <= DaysInMonth(t.year, t.month)
    ensures var g := GridOf(t, today, TallyOf(duties));
            var pos := Position(g, day);
            && 2 + pos.0 < |CalendarOf(t, today, duties)|
            && |CalendarOf(t, today, duties)[2 + pos.0]| == 7
            && CalendarOf(t, today, duties)[2 + pos.0][pos.1] == DayButton(g, day)
  {
    var tally := TallyOf(duties);
    WeekRowsShowDays(CalendarOf(t, today, duties), GridOf(t, today, tally), day);
  }

  /** Rows that hold the weeks of a grid from row 2 on show every day of it at its position. */
  lemma WeekRowsShowDays(kb: seq<seq<Button>>, g: Grid, day: int)
    requires GridValid(g) && 1 <= day <= g.lastDay
    requires |kb| >= 2 + WeekCount(g)
    requires forall w :: 0 <= w < WeekCount(g) ==> kb[2 + w] == WeekRow(g, w)
    ensures var pos := Position(g, day);
            2 + pos.0 < |kb| && |kb[2 + pos.0]| == 7 && kb[2 + pos.0][pos.1] == DayButton(g, day)
  {
    var pos := Position(g, day);
    EachDayOnce(g, day);
    assert kb[2 + pos.0] == WeekRow(g, pos.0);
  }

  /** Legend row `k` names the `k+1`-th user to appear, with every kind of duty that user holds. */
  lemma CalendarLegend(t: Ymd, today: Ymd, duties: seq<Duty>, k: int)
    requires 1 <= t.month <= 12 && UsersPresent(duties)
    requires 0 <= k < |Firsts(duties)|
    ensures var weeks := WeekCount(GridOf(t, today, TallyOf(duties)));
            var u := Firsts(duties)[k].user.value;
            CalendarOf(t, today, duties)[3 + weeks + k]
            == [Button(LegendEntry(k + 1, u, Kinds(duties, u.id)), ActionIgnore)]
  {
    TallyKinds(duties);
    TallyNumbers(duties);
    CalendarLegendRow(t, today, duties, k);
    var tally := TallyOf(duties);
    var u := Firsts(duties)[k].user.value;
    assert tally.userList[k] == Some(u);
    assert KindsIn(tally.userAssignments, u.id) == Kinds(duties, u.id);
  }
}
