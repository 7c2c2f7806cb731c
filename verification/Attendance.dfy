/** Attendance reconciliation: hr/signals.py with the services it calls (holiday_service.py,
    leave_service.py and the daily job and clock-in of attendance_service.py).

    The tables are maps.  The class is the code, loops and bulk updates included; each method is
    proved to do what a function of the tables says, and the invariant is proved about those
    functions. */
module Attendance {

  type Key = (nat, int)             // employee, day

  datatype Status = Present | Late | Absent | Excused | Holiday

  datatype Record = Record(clockedIn: bool, status: Status)

  datatype Range = Range(from: int, to: int)

  datatype LeaveStatus = Pending | Approved | Rejected | Cancelled

  datatype Leave = Leave(employee: nat, range: Range, status: LeaveStatus)

  type Records = map<Key, Record>

  datatype Book = Book(records: Records, holidays: map<nat, Range>, leaves: map<nat, Leave>)

  predicate Covers(r: Range, day: int) { r.from <= day <= r.to }

  predicate IsHoliday(holidays: map<nat, Range>, day: int) {
    exists h :: h in holidays && Covers(holidays[h], day)
  }

  predicate OnLeave(leaves: map<nat, Leave>, employee: nat, day: int) {
    exists l :: l in leaves && leaves[l].employee == employee && leaves[l].status == Approved
                && Covers(leaves[l].range, day)
  }

  /** What a day without attendance should be marked as. */
  function Expected(b: Book, k: Key): Status {
    if IsHoliday(b.holidays, k.1) then Holiday
    else if OnLeave(b.leaves, k.0, k.1) then Excused
    else Absent
  }

  predicate RecordAgrees(b: Book, k: Key)
    requires k in b.records
  {
    var r := b.records[k];
    if r.clockedIn then r.status in {Present, Late} else r.status == Expected(b, k)
  }

  predicate Agrees(b: Book) {
    forall k :: k in b.records ==> RecordAgrees(b, k)
  }

  /** No record is lost, and a record with a clock-in is left exactly as it is. */
  predicate Untouched(before: Records, after: Records) {
    forall k :: k in before ==> k in after && (before[k].clockedIn ==> after[k] == before[k])
  }

  // ---------- the effect of each handler on the records ----------

  /** apply_holiday: absent and excused days without attendance become holidays. */
  function Applied(records: Records, r: Range): Records {
    map k | k in records ::
      if Covers(r, k.1) && !records[k].clockedIn && records[k].status in {Absent, Excused}
      then records[k].(status := Holiday) else records[k]
  }

  /** unapply_holiday, up to and including `last`: holiday days without attendance that no holiday
      covers any more become leave or absence. */
  function Unapplied(b: Book, r: Range, last: int): Records {
    map k | k in b.records ::
      if Covers(r, k.1) && k.1 <= last && !IsHoliday(b.holidays, k.1)
         && !b.records[k].clockedIn && b.records[k].status == Holiday
      then b.records[k].(status := if OnLeave(b.leaves, k.0, k.1) then Excused else Absent)
      else b.records[k]
  }

  function LeaveDays(employee: nat, r: Range, last: int): set<Key> {
    set day | r.from <= day <= last && day <= r.to :: (employee, day)
  }

  /** mark_leave_days_excused, up to and including `last`: days without attendance become holidays
      or leave, and missing records are created. */
  function Marked(records: Records, holidays: map<nat, Range>, employee: nat, r: Range, last: int): Records {
    map k | k in records.Keys + LeaveDays(employee, r, last) ::
      if k in LeaveDays(employee, r, last) && (k in records ==> !records[k].clockedIn)
      then Record(false, if IsHoliday(holidays, k.1) then Holiday else Excused)
      else records[k]
  }

  /** The bulk update that ends an approval. */
  function Pardoned(records: Records, employee: nat, r: Range): Records {
    map k | k in records ::
      if k.0 == employee && Covers(r, k.1) && records[k].status == Absent
      then records[k].(status := Excused) else records[k]
  }

  // ---------- the tables after each operation ----------

  function AfterSaveLeave(b: Book, id: nat, l: Leave): Book {
    var records := if l.status == Approved
                   then Marked(b.records, b.holidays, l.employee, l.range, l.range.to) else b.records;
    Book(records, b.holidays, b.leaves[id := l])
  }

  /** A deleted request: no handler looks at the days it excused. */
  function AfterDeleteLeave(b: Book, id: nat): Book { b.(leaves := b.leaves - {id}) }

  function AfterApprove(b: Book, id: nat): Book {
    if id !in b.leaves || b.leaves[id].status != Pending then b
    else
      var l := b.leaves[id];
      var b' := AfterSaveLeave(b, id, l.(status := Approved));
      b'.(records := Pardoned(b'.records, l.employee, l.range))
  }

  function AfterSaveHoliday(b: Book, id: nat, r: Range): Book {
    var b1 := b.(holidays := b.holidays[id := r]);
    var old' := if id in b.holidays && b.holidays[id] != r
                then Unapplied(b1, b.holidays[id], b.holidays[id].to) else b.records;
    b1.(records := Applied(old', r))
  }

  function AfterDeleteHoliday(b: Book, id: nat): Book {
    if id !in b.holidays then b
    else
      var b1 := b.(holidays := b.holidays - {id});
      b1.(records := Unapplied(b1, b.holidays[id], b.holidays[id].to))
  }

  /** The daily job: `due` are the active employees with a shift on that day. */
  function AfterMarkAbsent(b: Book, day: int, due: set<nat>): Book {
    var missing := set e | e in due && (e, day) !in b.records :: (e, day);
    b.(records := map k | k in b.records.Keys + missing ::
        if k in b.records then b.records[k] else Record(false, Expected(b, k)))
  }

  /** A second clock-in on the same day is refused. */
  function AfterClockIn(b: Book, employee: nat, day: int, late: bool): Book {
    var k := (employee, day);
    if k in b.records && b.records[k].clockedIn then b
    else b.(records := b.records[k := Record(true, if late then Late else Present)])
  }

  // ---------- the code ----------

  class HrOffice {
    var records: Records
    var holidays: map<nat, Range>
    var leaves: map<nat, Leave>

    constructor ()
      ensures Contents() == Book(map[], map[], map[])
    {
      records, holidays, leaves := map[], map[], map[];
    }

    ghost function Contents(): Book
      reads this
    {
      Book(records, holidays, leaves)
    }

    /** Afterwards no day of the range without a clock-in is absent or excused; `fixed` records became
        holidays, and no other record changed. */
    method ApplyHoliday(r: Range) returns (fixed: nat)
      modifies this`records
      ensures records == Applied(old(records), r)
      ensures Untouched(old(records), records) && records.Keys == old(records).Keys
      ensures forall k :: k in records && Covers(r, k.1) && !records[k].clockedIn ==>
                records[k].status !in {Absent, Excused}
      ensures forall k :: k in records && records[k] != old(records)[k] ==>
                Covers(r, k.1) && old(records)[k].status in {Absent, Excused} && records[k] == Record(false, Holiday)
      ensures fixed == |set k | k in records && records[k] != old(records)[k]|
    {
      var days := set k | k in records && Covers(r, k.1) && !records[k].clockedIn &&
                          records[k].status in {Absent, Excused};
      fixed := |days|;
      records := map k | k in records :: if k in days then records[k].(status := Holiday) else records[k];
      assert days == set k | k in records && records[k] != old(records)[k];
    }

    /** Day by day, skipping days another holiday still covers. */
    method UnapplyHoliday(r: Range)
      modifies this`records
      ensures records == Unapplied(old(Contents()), r, r.to)
    {
      ghost var before := Contents();
      var day := r.from;
      assert records == Unapplied(before, r, day - 1);
      while day <= r.to
        invariant r.from <= day && (day <= r.to + 1 || day == r.from)
        invariant records == Unapplied(before, r, day - 1)
        invariant holidays == before.holidays && leaves == before.leaves
        decreases r.to - day
      {
        if !IsHoliday(holidays, day) {
          records := map k | k in records ::
            if k.1 == day && !records[k].clockedIn && records[k].status == Holiday
            then records[k].(status := if OnLeave(leaves, k.0, day) then Excused else Absent)
            else records[k];
        }
        day := day + 1;
      }
    }

    /** The signal handler of a saved leave request. */
    method MarkLeaveDaysExcused(l: Leave)
      modifies this`records
      ensures records == if l.status == Approved
                         then Marked(old(records), holidays, l.employee, l.range, l.range.to)
                         else old(records)
    {
      if l.status != Approved { return; }
      ghost var before := records;
      var current := l.range.from;
      while current <= l.range.to
        invariant l.range.from <= current && (current <= l.range.to + 1 || current == l.range.from)
        invariant records == MarkedDaily(before, holidays, l.employee, l.range.from, current - 1)
        decreases l.range.to - current
      {
        var k := (l.employee, current);
        if k !in records || !records[k].clockedIn {
          records := records[k := Record(false, if IsHoliday(holidays, current) then Holiday else Excused)];
        }
        current := current + 1;
      }
      MarkedEachDay(before, holidays, l.employee, l.range);
    }

    method SaveLeave(id: nat, l: Leave)
      modifies this
      ensures Contents() == AfterSaveLeave(old(Contents()), id, l)
    {
      leaves := leaves[id := l];
      MarkLeaveDaysExcused(l);
    }

    method DeleteLeave(id: nat)
      modifies this`leaves
      ensures Contents() == AfterDeleteLeave(old(Contents()), id)
    {
      leaves := leaves - {id};
    }

    /** False when the request is not pending. */
    method ApproveLeave(id: nat) returns (ok: bool)
      modifies this
      ensures ok <==> id in old(leaves) && old(leaves)[id].status == Pending
      ensures Contents() == AfterApprove(old(Contents()), id)
      ensures ok ==> leaves == old(leaves)[id := old(leaves)[id].(status := Approved)]
    {
      ok := id in leaves && leaves[id].status == Pending;
      if ok {
        var l := leaves[id];
        SaveLeave(id, l.(status := Approved));
        records := Pardoned(records, l.employee, l.range);
      }
    }

    /** A missing end date means a single day. */
    method SaveHoliday(id: nat, from: int, to: seq<int>)
      requires |to| <= 1
      modifies this
      ensures Contents() == AfterSaveHoliday(old(Contents()), id, Range(from, if to == [] then from else to[0]))
    {
      var r := Range(from, if to == [] then from else to[0]);
      var oldRange := if id in holidays then [holidays[id]] else [];
      holidays := holidays[id := r];
      if oldRange != [] && oldRange[0] != r {
        UnapplyHoliday(oldRange[0]);
      }
      var _ := ApplyHoliday(r);
    }

    method DeleteHoliday(id: nat)
      modifies this
      ensures Contents() == AfterDeleteHoliday(old(Contents()), id)
    {
      if id in holidays {
        var r := holidays[id];
        holidays := holidays - {id};
        UnapplyHoliday(r);
      }
    }

    method MarkAbsentEmployees(day: int, due: set<nat>)
      modifies this`records
      ensures Contents() == AfterMarkAbsent(old(Contents()), day, due)
    {
      var before := records;
      var holiday := IsHoliday(holidays, day);
      var left := due;
      ghost var b := Contents();
      while left != {}
        invariant left <= due
        invariant records == AfterMarkAbsent(b, day, due - left).records
        decreases left
      {
        var e :| e in left;
        MarkOneEmployee(b, day, due - left, e);
        assert due - (left - {e}) == (due - left) + {e};
        if (e, day) !in before {
          var status := if holiday then Holiday else if OnLeave(leaves, e, day) then Excused else Absent;
          records := records[(e, day) := Record(false, status)];
        }
        left := left - {e};
      }
      assert due - {} == due;
    }

    /** False when the employee has already clocked in that day. */
    method ClockIn(employee: nat, day: int, late: bool) returns (ok: bool)
      modifies this`records
      ensures ok <==> !((employee, day) in old(records) && old(records)[(employee, day)].clockedIn)
      ensures Contents() == AfterClockIn(old(Contents()), employee, day, late)
    {
      var k := (employee, day);
      ok := !(k in records && records[k].clockedIn);
      if ok {
        records := records[k := Record(true, if late then Late else Present)];
      }
    }
  }

  /** The same day by day, from `day` to `last`. */
  function MarkedDaily(records: Records, holidays: map<nat, Range>, employee: nat, day: int, last: int): Records
    decreases last - day
  {
    if last < day then records
    else
      var before, k := MarkedDaily(records, holidays, employee, day, last - 1), (employee, last);
      if k in before && before[k].clockedIn then before
      else before[k := Record(false, if IsHoliday(holidays, last) then Holiday else Excused)]
  }

  lemma {:induction false} MarkedUpTo(records: Records, holidays: map<nat, Range>, employee: nat, r: Range, last: int)
    requires r.from - 1 <= last <= r.to
    ensures MarkedDaily(records, holidays, employee, r.from, last) == Marked(records, holidays, employee, r, last)
    decreases last - r.from
  {
    if last < r.from {
      assert LeaveDays(employee, r, last) == {};
    } else {
      MarkedUpTo(records, holidays, employee, r, last - 1);
      MarkOneDay(records, holidays, employee, r, last);
    }
  }

  lemma MarkedEachDay(records: Records, holidays: map<nat, Range>, employee: nat, r: Range)
    ensures MarkedDaily(records, holidays, employee, r.from, if r.from <= r.to then r.to else r.from - 1)
         == Marked(records, holidays, employee, r, r.to)
  {
    if r.from <= r.to {
      MarkedUpTo(records, holidays, employee, r, r.to);
    } else {
      assert LeaveDays(employee, r, r.to) == {};
    }
  }

  /** One turn of the loop over the days of a leave. */
  lemma MarkOneDay(records: Records, holidays: map<nat, Range>, employee: nat, r: Range, day: int)
    requires Covers(r, day)
    ensures var before, k := Marked(records, holidays, employee, r, day - 1), (employee, day);
      && (k in before <==> k in records)
      && (k in records ==> before[k] == records[k])
      && Marked(records, holidays, employee, r, day)
         == if k in records && records[k].clockedIn then before
            else before[k := Record(false, if IsHoliday(holidays, day) then Holiday else Excused)]
  {
    var k := (employee, day);
    assert LeaveDays(employee, r, day) == LeaveDays(employee, r, day - 1) + {k};
    assert k !in LeaveDays(employee, r, day - 1);
  }

  /** One turn of the loop over the employees of a day. */
  lemma MarkOneEmployee(b: Book, day: int, done: set<nat>, e: nat)
    requires e !in done
    ensures var before := AfterMarkAbsent(b, day, done).records;
      AfterMarkAbsent(b, day, done + {e}).records
      == if (e, day) in b.records then before else before[(e, day) := Record(false, Expected(b, (e, day)))]
  {
    var before, after := AfterMarkAbsent(b, day, done).records, AfterMarkAbsent(b, day, done + {e}).records;
    assert after.Keys == if (e, day) in b.records then before.Keys else before.Keys + {(e, day)};
  }

  // ---------- every operation keeps the agreement ----------

  /** Saving a leave request, approved or not, moved or withdrawn: what it covered before and no
      approved leave covers now. */
  predicate LeftBehind(b: Book, id: nat, l: Leave, k: Key) {
    var after := b.leaves[id := l];
    && k in b.records && !b.records[k].clockedIn && !IsHoliday(b.holidays, k.1)
    && OnLeave(b.leaves, k.0, k.1) && !OnLeave(after, k.0, k.1)
  }

  lemma OnLeaveAfter(leaves: map<nat, Leave>, id: nat, l: Leave, k: Key)
    requires l.status == Approved && l.employee == k.0 && Covers(l.range, k.1)
    ensures OnLeave(leaves[id := l], k.0, k.1)
  {
    assert leaves[id := l][id] == l;
  }

  lemma OnLeaveOnly(leaves: map<nat, Leave>, id: nat, l: Leave, k: Key)
    requires !(l.status == Approved && l.employee == k.0 && Covers(l.range, k.1))
    requires OnLeave(leaves[id := l], k.0, k.1)
    ensures OnLeave(leaves, k.0, k.1)
  {
    var after := leaves[id := l];
    var i :| i in after && after[i].employee == k.0 && after[i].status == Approved && Covers(after[i].range, k.1);
    assert i != id && leaves[i] == after[i];
  }

  /** Exactly: the tables agree after a leave request is saved if and only if no day it used to
      excuse is left behind. */
  lemma SaveLeaveExact(b: Book, id: nat, l: Leave)
    requires Agrees(b)
    ensures Untouched(b.records, AfterSaveLeave(b, id, l).records)
    ensures Agrees(AfterSaveLeave(b, id, l)) <==> forall k :: !LeftBehind(b, id, l, k)
  {
    var b' := AfterSaveLeave(b, id, l);
    forall k | k in b'.records
      ensures k in b.records && LeftBehind(b, id, l, k) ==> !RecordAgrees(b', k)
      ensures !LeftBehind(b, id, l, k) ==> RecordAgrees(b', k)
    {
      SaveLeaveOne(b, id, l, k);
    }
  }

  /** Deleting a leave request: a day without a clock-in that no holiday covers loses its last approved
      leave. */
  predicate LosesLeave(b: Book, id: nat, k: Key) {
    && k in b.records && !b.records[k].clockedIn && !IsHoliday(b.holidays, k.1)
    && OnLeave(b.leaves, k.0, k.1) && !OnLeave(b.leaves - {id}, k.0, k.1)
  }

  lemma FewerLeaves(leaves: map<nat, Leave>, id: nat, k: Key)
    ensures OnLeave(leaves - {id}, k.0, k.1) ==> OnLeave(leaves, k.0, k.1)
  {
    var less := leaves - {id};
    if i :| i in less && less[i].employee == k.0 && less[i].status == Approved && Covers(less[i].range, k.1) {
      assert leaves[i] == less[i];
    }
  }

  /** Exactly: the tables agree after a leave request is deleted if and only if no day loses its last
      approved leave. */
  lemma DeleteLeaveExact(b: Book, id: nat)
    requires Agrees(b)
    ensures Agrees(AfterDeleteLeave(b, id)) <==> forall k :: !LosesLeave(b, id, k)
  {
    var b' := AfterDeleteLeave(b, id);
    forall k | k in b.records ensures RecordAgrees(b', k) <==> !LosesLeave(b, id, k) {
      assert RecordAgrees(b, k);
      FewerLeaves(b.leaves, id, k);
    }
  }

  /** An approved leave with its excused day that is deleted: the day stays excused. */
  lemma DeletedLeave() returns (b: Book)
    ensures Agrees(b) && b.leaves.Keys == {0} && !Agrees(AfterDeleteLeave(b, 0))
  {
    b := Book(map[(1, 5) := Record(false, Excused)], map[], map[0 := Leave(1, Range(5, 5), Approved)]);
    assert OnLeave(b.leaves, 1, 5) by { assert b.leaves[0] == Leave(1, Range(5, 5), Approved); }
    DeleteLeaveExact(b, 0);
    assert LosesLeave(b, 0, (1, 5));
  }

  /** An approved leave with its excused day, and the same leave withdrawn: the day stays excused. */
  lemma WithdrawnLeave() returns (b: Book, l: Leave)
    ensures Agrees(b) && b.leaves.Keys == {0} && l == b.leaves[0].(status := Cancelled)
    ensures !Agrees(AfterSaveLeave(b, 0, l))
  {
    var approved := Leave(1, Range(5, 5), Approved);
    b := Book(map[(1, 5) := Record(false, Excused)], map[], map[0 := approved]);
    l := approved.(status := Cancelled);
    assert OnLeave(b.leaves, 1, 5) by { assert b.leaves[0] == approved; }
    SaveLeaveExact(b, 0, l);
    assert LeftBehind(b, 0, l, (1, 5));
  }

  lemma SaveLeaveOne(b: Book, id: nat, l: Leave, k: Key)
    requires Agrees(b) && k in AfterSaveLeave(b, id, l).records
    ensures RecordAgrees(AfterSaveLeave(b, id, l), k) <==> !LeftBehind(b, id, l, k)
  {
    assert k in b.records ==> RecordAgrees(b, k);
    if l.status == Approved && l.employee == k.0 && Covers(l.range, k.1) {
      assert k in LeaveDays(l.employee, l.range, l.range.to);
      OnLeaveAfter(b.leaves, id, l, k);
    } else {
      assert k in b.records && AfterSaveLeave(b, id, l).records[k] == b.records[k];
      if OnLeave(b.leaves[id := l], k.0, k.1) { OnLeaveOnly(b.leaves, id, l, k); }
    }
  }

  /** Approving a pending request leaves no day behind, and the bulk update finds nothing to do. */
  lemma ApproveKeeps(b: Book, id: nat)
    requires Agrees(b)
    ensures Agrees(AfterApprove(b, id)) && Untouched(b.records, AfterApprove(b, id).records)
  {
    if id in b.leaves && b.leaves[id].status == Pending {
      var l := b.leaves[id].(status := Approved);
      var b' := AfterSaveLeave(b, id, l);
      forall k ensures !LeftBehind(b, id, l, k) {
        if OnLeave(b.leaves, k.0, k.1) {
          var i :| i in b.leaves && b.leaves[i].employee == k.0 && b.leaves[i].status == Approved
                   && Covers(b.leaves[i].range, k.1);
          assert b.leaves[id := l][i] == b.leaves[i];
        }
      }
      SaveLeaveExact(b, id, l);
      forall k | k in b'.records && k.0 == l.employee && Covers(l.range, k.1)
        ensures b'.records[k].status != Absent
      {
        assert RecordAgrees(b', k);
        OnLeaveAfter(b.leaves, id, l, k);
      }
      assert Pardoned(b'.records, l.employee, l.range) == b'.records;
    }
  }

  lemma SaveHolidayKeeps(b: Book, id: nat, r: Range)
    requires Agrees(b)
    ensures Agrees(AfterSaveHoliday(b, id, r)) && Untouched(b.records, AfterSaveHoliday(b, id, r).records)
  {
    var b' := AfterSaveHoliday(b, id, r);
    forall k | k in b'.records ensures RecordAgrees(b', k) {
      assert RecordAgrees(b, k);
      HolidayMoved(b.holidays, id, r, k.1);
    }
  }

  /** A day changes between holiday and working day only inside the old or the new range. */
  lemma HolidayMoved(holidays: map<nat, Range>, id: nat, r: Range, day: int)
    ensures var after := holidays[id := r];
      && (Covers(r, day) ==> IsHoliday(after, day))
      && (!Covers(r, day) && !(id in holidays && holidays[id] != r && Covers(holidays[id], day)) ==>
            (IsHoliday(after, day) <==> IsHoliday(holidays, day)))
  {
    var after := holidays[id := r];
    assert after[id] == r;
    if IsHoliday(holidays, day) {
      var h :| h in holidays && Covers(holidays[h], day);
      assert h != id ==> after[h] == holidays[h];
    }
    if IsHoliday(after, day) {
      var h :| h in after && Covers(after[h], day);
      assert h != id ==> after[h] == holidays[h];
    }
  }

  lemma DeleteHolidayKeeps(b: Book, id: nat)
    requires Agrees(b)
    ensures Agrees(AfterDeleteHoliday(b, id)) && Untouched(b.records, AfterDeleteHoliday(b, id).records)
  {
    if id in b.holidays {
      var b', after := AfterDeleteHoliday(b, id), b.holidays - {id};
      forall k | k in b'.records ensures RecordAgrees(b', k) {
        assert RecordAgrees(b, k);
        if IsHoliday(b.holidays, k.1) && !Covers(b.holidays[id], k.1) {
          var h :| h in b.holidays && Covers(b.holidays[h], k.1);
          assert after[h] == b.holidays[h];
        }
      }
    }
  }

  lemma MarkAbsentKeeps(b: Book, day: int, due: set<nat>)
    requires Agrees(b)
    ensures Agrees(AfterMarkAbsent(b, day, due)) && Untouched(b.records, AfterMarkAbsent(b, day, due).records)
  {
    forall k | k in b.records ensures RecordAgrees(b, k) { }
  }

  // ---------- runs ----------

  datatype Step =
    | RequestLeave(id: nat, employee: nat, range: Range)
    | ApproveLeave(id: nat)
    | SaveHoliday(id: nat, range: Range)
    | DeleteHoliday(id: nat)
    | MarkAbsent(day: int, due: set<nat>)
    | ClockIn(employee: nat, day: int, late: bool)

  /** A request gets a number of its own. */
  function Do(b: Book, s: Step): Book {
    match s
    case RequestLeave(id, e, r) => if id in b.leaves then b else AfterSaveLeave(b, id, Leave(e, r, Pending))
    case ApproveLeave(id) => AfterApprove(b, id)
    case SaveHoliday(id, r) => AfterSaveHoliday(b, id, r)
    case DeleteHoliday(id) => AfterDeleteHoliday(b, id)
    case MarkAbsent(day, due) => AfterMarkAbsent(b, day, due)
    case ClockIn(e, day, late) => AfterClockIn(b, e, day, late)
  }

  function DoAll(b: Book, steps: seq<Step>): Book {
    if steps == [] then b else Do(DoAll(b, steps[..|steps| - 1]), steps[|steps| - 1])
  }

  lemma StepKeeps(b: Book, s: Step)
    requires Agrees(b)
    ensures Agrees(Do(b, s)) && Untouched(b.records, Do(b, s).records)
  {
    match s
    case RequestLeave(id, e, r) => if id !in b.leaves { RequestKeeps(b, id, Leave(e, r, Pending)); }
    case ApproveLeave(id) => ApproveKeeps(b, id);
    case SaveHoliday(id, r) => SaveHolidayKeeps(b, id, r);
    case DeleteHoliday(id) => DeleteHolidayKeeps(b, id);
    case MarkAbsent(day, due) => MarkAbsentKeeps(b, day, due);
    case ClockIn(e, day, late) => ClockInKeeps(b, e, day, late);
  }

  lemma ClockInKeeps(b: Book, employee: nat, day: int, late: bool)
    requires Agrees(b)
    ensures Agrees(AfterClockIn(b, employee, day, late))
    ensures Untouched(b.records, AfterClockIn(b, employee, day, late).records)
  {
    forall k | k in b.records ensures RecordAgrees(b, k) { }
  }

  lemma RequestKeeps(b: Book, id: nat, l: Leave)
    requires Agrees(b) && id !in b.leaves
    ensures Agrees(AfterSaveLeave(b, id, l))
    ensures Untouched(b.records, AfterSaveLeave(b, id, l).records)
  {
    forall k ensures !LeftBehind(b, id, l, k) {
      if OnLeave(b.leaves, k.0, k.1) {
        var i :| i in b.leaves && b.leaves[i].employee == k.0 && b.leaves[i].status == Approved
                 && Covers(b.leaves[i].range, k.1);
        assert b.leaves[id := l][i] == b.leaves[i];
      }
    }
    SaveLeaveExact(b, id, l);
  }

  /** Over every run, a stored day without attendance says what the holidays and approved leaves
      of the moment say, and nothing ever changes or loses a day with a clock-in. */
  lemma {:induction false} EveryRunAgrees(steps: seq<Step>, earlier: nat)
    requires earlier <= |steps|
    ensures Agrees(DoAll(Book(map[], map[], map[]), steps))
    ensures Untouched(DoAll(Book(map[], map[], map[]), steps[..earlier]).records,
                      DoAll(Book(map[], map[], map[]), steps).records)
  {
    var start := Book(map[], map[], map[]);
    if steps != [] {
      var before, last := steps[..|steps| - 1], steps[|steps| - 1];
      EveryRunAgrees(before, if earlier == |steps| then 0 else earlier);
      StepKeeps(DoAll(start, before), last);
      if earlier < |steps| { assert steps[..earlier] == before[..earlier]; }
    }
    if earlier == |steps| { assert steps[..earlier] == steps; }
  }
}
