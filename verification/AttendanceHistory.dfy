/** The attendance tables as a function of what has happened: whatever the order of clock-ins, daily jobs,
    requests, approvals and holidays, every record is what the history of its day says. */
module AttendanceHistory {
  import opened Attendance
  import opened Options

  // ---------- one approval ----------

  /** The days an approval is about. */
  predicate InLeave(l: Leave, k: Key) { l.employee == k.0 && l.range.from <= k.1 <= l.range.to }

  /** An approval of a pending request changes the status of that request, gives every day of its range
      without a clock-in a record that is holiday or excused, pardons an absence with one, and touches no
      other day. */
  lemma ApproveExact(b: Book, id: nat)
    requires id in b.leaves && b.leaves[id].status == Pending
    ensures var l, n := b.leaves[id], AfterApprove(b, id);
      && n.holidays == b.holidays
      && n.leaves == b.leaves[id := Leave(l.employee, l.range, Approved)]
      && (forall k :: InLeave(l, k) && !(k in b.records && b.records[k].clockedIn) ==>
            k in n.records && n.records[k] == Record(false, if IsHoliday(b.holidays, k.1) then Holiday else Excused))
      && (forall k :: InLeave(l, k) && k in b.records && b.records[k].clockedIn ==>
            k in n.records && n.records[k] ==
                              Record(true, if b.records[k].status == Absent then Excused else b.records[k].status))
      && (forall k :: !InLeave(l, k) ==>
            (k in n.records <==> k in b.records) && (k in b.records ==> n.records[k] == b.records[k]))
  {
    var l, n := b.leaves[id], AfterApprove(b, id);
    forall k | InLeave(l, k) ensures k in LeaveDays(l.employee, l.range, l.range.to) {
    }
  }

  /** A request that is not pending, or does not exist, cannot be approved. */
  lemma ApproveRefused(b: Book, id: nat)
    requires id in b.leaves ==> b.leaves[id].status != Pending
    ensures AfterApprove(b, id) == b
  {
  }

  // ---------- what the history says ----------

  /** The employee and the days of the request, as it was made. */
  function Request(steps: seq<Step>, id: nat): Option<(nat, Range)> {
    if steps == [] then None
    else
      var before, s := Request(steps[..|steps| - 1], id), steps[|steps| - 1];
      if before == None && s.RequestLeave? && s.id == id then Some((s.employee, s.range)) else before
  }

  /** An approval came after the request was made. */
  predicate ApprovedIn(steps: seq<Step>, id: nat) {
    steps != [] &&
    (ApprovedIn(steps[..|steps| - 1], id) ||
     (steps[|steps| - 1] == ApproveLeave(id) && Request(steps[..|steps| - 1], id).Some?))
  }

  /** The holiday as it was saved last, unless it has been deleted since. */
  function HolidayNow(steps: seq<Step>, id: nat): Option<Range> {
    if steps == [] then None
    else
      match steps[|steps| - 1]
      case SaveHoliday(i, r) => if i == id then Some(r) else HolidayNow(steps[..|steps| - 1], id)
      case DeleteHoliday(i) => if i == id then None else HolidayNow(steps[..|steps| - 1], id)
      case _ => HolidayNow(steps[..|steps| - 1], id)
  }

  /** Whether the first clock-in of the day was late. */
  function FirstClockIn(steps: seq<Step>, k: Key): Option<bool> {
    if steps == [] then None
    else
      var before, s := FirstClockIn(steps[..|steps| - 1], k), steps[|steps| - 1];
      if before == None && s.ClockIn? && (s.employee, s.day) == k then Some(s.late) else before
  }

  /** The daily job of that day was due to look at the employee. */
  predicate LookedAt(steps: seq<Step>, k: Key) {
    exists i :: 0 <= i < |steps| && steps[i].MarkAbsent? && steps[i].day == k.1 && k.0 in steps[i].due
  }

  predicate LeaveOf(steps: seq<Step>, k: Key, id: nat) {
    ApprovedIn(steps, id) && Request(steps, id).Some? &&
    var r := Request(steps, id).value;
    r.0 == k.0 && r.1.from <= k.1 <= r.1.to
  }

  predicate HolidayOf(steps: seq<Step>, day: int, id: nat) {
    HolidayNow(steps, id).Some? && HolidayNow(steps, id).value.from <= day <= HolidayNow(steps, id).value.to
  }

  ghost predicate Leaves(steps: seq<Step>, k: Key) { exists id :: LeaveOf(steps, k, id) }

  ghost predicate Holidays(steps: seq<Step>, day: int) { exists id :: HolidayOf(steps, day, id) }

  /** The record of a day: from its first clock-in; or, if the job has looked or a leave covers it, holiday
      before leave before absence. */
  ghost function Told(steps: seq<Step>, k: Key): Option<Record> {
    match FirstClockIn(steps, k)
    case Some(late) => Some(Record(true, if late then Late else Present))
    case None =>
      if !LookedAt(steps, k) && !Leaves(steps, k) then None
      else Some(Record(false, if Holidays(steps, k.1) then Holiday else if Leaves(steps, k) then Excused else Absent))
  }

  // ---------- the tables say the same ----------

  const NEW := Book(map[], map[], map[])

  lemma {:induction false} ApprovedWasMade(steps: seq<Step>, id: nat)
    ensures ApprovedIn(steps, id) ==> Request(steps, id).Some?
  {
    if steps != [] { ApprovedWasMade(steps[..|steps| - 1], id); }
  }

  function Decided(l: Leave, approval: bool): Leave {
    if approval && l.status == Pending then Leave(l.employee, l.range, Approved) else l
  }

  lemma LeaveStep(b: Book, s: Step, id: nat)
    ensures var n := Do(b, s);
      && (id in n.leaves <==> id in b.leaves || (s.RequestLeave? && s.id == id))
      && (id in n.leaves && id !in b.leaves ==> n.leaves[id] == Leave(s.employee, s.range, Pending))
      && (id in b.leaves ==> n.leaves[id] == Decided(b.leaves[id], s == ApproveLeave(id)))
  {
  }

  /** A request is approved at the end if and only if an approval came after it was made. */
  lemma {:induction false} LeavesTold(steps: seq<Step>, id: nat)
    ensures var leaves := DoAll(NEW, steps).leaves;
      && (id in leaves <==> Request(steps, id).Some?)
      && (id in leaves ==> var r := Request(steps, id).value;
            leaves[id] == Leave(r.0, r.1, if ApprovedIn(steps, id) then Approved else Pending))
  {
    if steps != [] {
      LeavesTold(steps[..|steps| - 1], id);
      ApprovedWasMade(steps[..|steps| - 1], id);
      LeaveStep(DoAll(NEW, steps[..|steps| - 1]), steps[|steps| - 1], id);
    }
  }

  lemma HolidayStep(b: Book, s: Step, id: nat)
    ensures Do(b, s).holidays ==
            match s
            case SaveHoliday(i, r) => b.holidays[i := r]
            case DeleteHoliday(i) => b.holidays - {i}
            case _ => b.holidays
  {
  }

  lemma {:induction false} HolidaysTold(steps: seq<Step>, id: nat)
    ensures var holidays := DoAll(NEW, steps).holidays;
      && (id in holidays <==> HolidayNow(steps, id).Some?)
      && (id in holidays ==> HolidayNow(steps, id) == Some(holidays[id]))
  {
    if steps != [] {
      HolidaysTold(steps[..|steps| - 1], id);
      HolidayStep(DoAll(NEW, steps[..|steps| - 1]), steps[|steps| - 1], id);
    }
  }

  lemma ClockStep(b: Book, s: Step, k: Key)
    requires Agrees(b)
    ensures var n := Do(b, s);
      var had := k in b.records && b.records[k].clockedIn;
      && (k in n.records && n.records[k].clockedIn <==> had || (s.ClockIn? && (s.employee, s.day) == k))
      && (had ==> n.records[k] == b.records[k])
      && (k in n.records && n.records[k].clockedIn && !had ==>
            n.records[k] == Record(true, if s.late then Late else Present))
  {
    StepKeeps(b, s);
    if s.ApproveLeave? && s.id in b.leaves && b.leaves[s.id].status == Pending {
      ApproveExact(b, s.id);
      assert k in b.records ==> RecordAgrees(b, k);
    }
  }

  lemma {:induction false} ClockInsTold(steps: seq<Step>, k: Key)
    ensures var records := DoAll(NEW, steps).records;
      && (k in records && records[k].clockedIn <==> FirstClockIn(steps, k).Some?)
      && (k in records && records[k].clockedIn ==>
            records[k] == Record(true, if FirstClockIn(steps, k).value then Late else Present))
  {
    if steps != [] {
      ClockInsTold(steps[..|steps| - 1], k);
      EveryRunAgrees(steps[..|steps| - 1], 0);
      ClockStep(DoAll(NEW, steps[..|steps| - 1]), steps[|steps| - 1], k);
    }
  }

  /** The step asks for a record of the day. */
  predicate Asks(b: Book, s: Step, k: Key) {
    match s
    case ClockIn(e, day, _) => (e, day) == k
    case MarkAbsent(day, due) => day == k.1 && k.0 in due
    case ApproveLeave(id) => id in b.leaves && b.leaves[id].status == Pending && InLeave(b.leaves[id], k)
    case _ => false
  }

  lemma RecordStep(b: Book, s: Step, k: Key)
    requires Agrees(b)
    ensures k in Do(b, s).records <==> k in b.records || Asks(b, s, k)
  {
    match s
    case ApproveLeave(id) =>
      if id in b.leaves && b.leaves[id].status == Pending { ApproveExact(b, id); }
    case _ =>
  }

  lemma LookedAtStep(before: seq<Step>, s: Step, k: Key)
    ensures LookedAt(before + [s], k) <==>
            LookedAt(before, k) || (s.MarkAbsent? && s.day == k.1 && k.0 in s.due)
  {
    var all := before + [s];
    if i :| 0 <= i < |before| && before[i].MarkAbsent? && before[i].day == k.1 && k.0 in before[i].due {
      assert all[i] == before[i];
    }
    if s.MarkAbsent? && s.day == k.1 && k.0 in s.due { assert all[|before|] == s; }
  }

  lemma LeaveOfStep(steps: seq<Step>, k: Key, id: nat)
    requires steps != []
    ensures var before, s := steps[..|steps| - 1], steps[|steps| - 1];
      LeaveOf(steps, k, id) <==>
      LeaveOf(before, k, id) || (s == ApproveLeave(id) && Asks(DoAll(NEW, before), s, k))
  {
    var before := steps[..|steps| - 1];
    LeavesTold(before, id);
    ApprovedWasMade(before, id);
  }

  lemma LeavesStep(steps: seq<Step>, k: Key)
    requires steps != []
    ensures var before, s := steps[..|steps| - 1], steps[|steps| - 1];
      Leaves(steps, k) <==> Leaves(before, k) || (s.ApproveLeave? && Asks(DoAll(NEW, before), s, k))
  {
    var before, s := steps[..|steps| - 1], steps[|steps| - 1];
    if id :| LeaveOf(steps, k, id) { LeaveOfStep(steps, k, id); }
    if id :| LeaveOf(before, k, id) { LeaveOfStep(steps, k, id); }
    if s.ApproveLeave? { LeaveOfStep(steps, k, s.id); }
  }

  lemma {:induction false} RecordsTold(steps: seq<Step>, k: Key)
    ensures k in DoAll(NEW, steps).records <==>
            FirstClockIn(steps, k).Some? || LookedAt(steps, k) || Leaves(steps, k)
  {
    if steps != [] {
      var before, s := steps[..|steps| - 1], steps[|steps| - 1];
      RecordsTold(before, k);
      EveryRunAgrees(before, 0);
      RecordStep(DoAll(NEW, before), s, k);
      LookedAtStep(before, s, k);
      assert before + [s] == steps;
      LeavesStep(steps, k);
    } else {
      assert forall id :: !LeaveOf(steps, k, id);
    }
  }

  lemma ExpectedTold(steps: seq<Step>, k: Key)
    ensures IsHoliday(DoAll(NEW, steps).holidays, k.1) <==> Holidays(steps, k.1)
    ensures OnLeave(DoAll(NEW, steps).leaves, k.0, k.1) <==> Leaves(steps, k)
  {
    var b := DoAll(NEW, steps);
    forall id ensures id in b.holidays && Covers(b.holidays[id], k.1) <==> HolidayOf(steps, k.1, id) {
      HolidaysTold(steps, id);
    }
    forall id
      ensures LeaveOf(steps, k, id) <==>
                id in b.leaves && b.leaves[id].employee == k.0 && b.leaves[id].status == Approved
                && Covers(b.leaves[id].range, k.1)
    {
      LeavesTold(steps, id);
      ApprovedWasMade(steps, id);
    }
  }

  /** Over every run, each record is exactly what the history of its day says, and no other exists. */
  lemma TableTold(steps: seq<Step>, k: Key)
    ensures var records := DoAll(NEW, steps).records;
      && (k in records <==> Told(steps, k).Some?)
      && (k in records ==> Told(steps, k) == Some(records[k]))
  {
    RecordsTold(steps, k);
    ClockInsTold(steps, k);
    ExpectedTold(steps, k);
    EveryRunAgrees(steps, 0);
    if k in DoAll(NEW, steps).records { assert RecordAgrees(DoAll(NEW, steps), k); }
  }
}
