/**
 * The attendance ledger behind `/attendance/in` and `/attendance/out`. The
 * `attendance` table is a sequence of records in table order; the clock is
 * passed in as the day (shared by both handlers) and the time of day in
 * seconds since midnight.
 */
module Attendance {
  import opened Wrappers
  import opened TimeOfDay
  import opened WorkingHours

  /** A row of the `attendance` table; out_time and working_hours stay NULL until a clock-out. */
  datatype Record = Record(
    employeeId: int,
    date: string,
    inTime: string,
    outTime: Option<string>,
    workingHours: Option<string>)

  /** Status 404, or status 200 with the working-hours text. */
  datatype ClockOutOutcome = InNotFound | OutMarked(workingHours: string)

  /** The WHERE clause of both clock-out queries: this employee, this day. */
  predicate OnDay(r: Record, employeeId: int, day: string) {
    r.employeeId == employeeId && r.date == day
  }

  /** A record as a clock-in writes it and a clock-out completes it. */
  predicate WellFormed(r: Record) {
    && Parse(r.inTime).Some?
    && (r.outTime.Some? <==> r.workingHours.Some?)
    && (r.outTime.Some? ==> Parse(r.outTime.value).Some?)
  }

  /** Every record of the table is well formed. */
  predicate AllWellFormed(rows: seq<Record>) {
    forall i | 0 <= i < |rows| :: WellFormed(rows[i])
  }

  /** The in_time column of the rows for this employee and day, in table order (the SELECT). */
  function InTimes(rows: seq<Record>, employeeId: int, day: string): (r: seq<string>)
    ensures |r| <= |rows|
    ensures r == [] <==> forall i | 0 <= i < |rows| :: !OnDay(rows[i], employeeId, day)
  {
    if rows == [] then []
    else
      var rest := InTimes(rows[1..], employeeId, day);
      assert forall i | 1 <= i < |rows| :: rows[i] == rows[1..][i - 1];
      if OnDay(rows[0], employeeId, day) then [rows[0].inTime] + rest else rest
  }

  /** The first in_time of the lookup is that of the earliest record for this employee and day. */
  lemma {:induction false} InTimesFirst(rows: seq<Record>, employeeId: int, day: string)
    requires InTimes(rows, employeeId, day) != []
    ensures exists i | 0 <= i < |rows| ::
      && OnDay(rows[i], employeeId, day)
      && rows[i].inTime == InTimes(rows, employeeId, day)[0]
      && forall j | 0 <= j < i :: !OnDay(rows[j], employeeId, day)
  {
    if !OnDay(rows[0], employeeId, day) {
      var tail := rows[1..];
      InTimesFirst(tail, employeeId, day);
      var k :| 0 <= k < |tail| && OnDay(tail[k], employeeId, day)
        && tail[k].inTime == InTimes(tail, employeeId, day)[0]
        && forall j | 0 <= j < k :: !OnDay(tail[j], employeeId, day);
      assert rows[k + 1] == tail[k];
      forall j | 0 <= j < k + 1 ensures !OnDay(rows[j], employeeId, day) {
        if j > 0 { assert rows[j] == tail[j - 1]; }
      }
    }
  }

  /** Every in_time the lookup finds is that of a record for this employee and day. */
  lemma {:induction false} InTimesFrom(rows: seq<Record>, employeeId: int, day: string, t: string)
    requires t in InTimes(rows, employeeId, day)
    ensures exists i | 0 <= i < |rows| :: OnDay(rows[i], employeeId, day) && rows[i].inTime == t
  {
    var tail := rows[1..];
    if !(OnDay(rows[0], employeeId, day) && rows[0].inTime == t) {
      InTimesFrom(tail, employeeId, day, t);
      var k :| 0 <= k < |tail| && OnDay(tail[k], employeeId, day) && tail[k].inTime == t;
      assert rows[k + 1] == tail[k];
    }
  }

  /**
   * The table after the UPDATE of a clock-out: every row for this employee
   * and day gets the out_time and working_hours, and nothing else changes.
   */
  function Close(rows: seq<Record>, employeeId: int, day: string, outTime: string, hours: string): (r: seq<Record>)
    ensures |r| == |rows|
    ensures forall i | 0 <= i < |rows| ::
      && r[i].employeeId == rows[i].employeeId
      && r[i].date == rows[i].date
      && r[i].inTime == rows[i].inTime
    ensures forall i | 0 <= i < |rows| :: OnDay(rows[i], employeeId, day) ==>
      r[i].outTime == Some(outTime) && r[i].workingHours == Some(hours)
    ensures forall i | 0 <= i < |rows| :: !OnDay(rows[i], employeeId, day) ==> r[i] == rows[i]
  {
    if rows == [] then []
    else
      var first := if OnDay(rows[0], employeeId, day)
        then rows[0].(outTime := Some(outTime), workingHours := Some(hours))
        else rows[0];
      var rest := Close(rows[1..], employeeId, day, outTime, hours);
      assert forall i | 1 <= i < |rows| :: ([first] + rest)[i] == rest[i - 1] && rows[i] == rows[1..][i - 1];
      [first] + rest
  }

  /** A second clock-out on the same day overwrites what the first one wrote. */
  lemma CloseOverwrites(rows: seq<Record>, employeeId: int, day: string,
                        out1: string, hours1: string, out2: string, hours2: string)
    ensures Close(Close(rows, employeeId, day, out1, hours1), employeeId, day, out2, hours2)
         == Close(rows, employeeId, day, out2, hours2)
  {
    var once := Close(rows, employeeId, day, out1, hours1);
    assert forall i | 0 <= i < |rows| :: OnDay(once[i], employeeId, day) == OnDay(rows[i], employeeId, day);
  }

  /** A clock-out leaves every employee's and day's in_time lookup as it was. */
  lemma {:induction false} InTimesAfterClose(rows: seq<Record>, employeeId: int, day: string,
                                             outTime: string, hours: string, otherId: int, otherDay: string)
    ensures InTimes(Close(rows, employeeId, day, outTime, hours), otherId, otherDay)
         == InTimes(rows, otherId, otherDay)
  {
    if rows != [] {
      var closed := Close(rows, employeeId, day, outTime, hours);
      assert closed[1..] == Close(rows[1..], employeeId, day, outTime, hours);
      InTimesAfterClose(rows[1..], employeeId, day, outTime, hours, otherId, otherDay);
    }
  }

  /** An appended record shows up last in the lookup for its employee and day, and nowhere else. */
  lemma {:induction false} InTimesAfterAppend(rows: seq<Record>, rec: Record, employeeId: int, day: string)
    ensures InTimes(rows + [rec], employeeId, day)
         == InTimes(rows, employeeId, day) + (if OnDay(rec, employeeId, day) then [rec.inTime] else [])
  {
    if rows != [] {
      assert (rows + [rec])[1..] == rows[1..] + [rec];
      InTimesAfterAppend(rows[1..], rec, employeeId, day);
    } else {
      assert ([] + [rec])[1..] == [];
    }
  }

  /** A clock-out with a readable out_time keeps every record well formed. */
  lemma CloseWellFormed(rows: seq<Record>, employeeId: int, day: string, outTime: string, hours: string)
    requires AllWellFormed(rows) && Parse(outTime).Some?
    ensures AllWellFormed(Close(rows, employeeId, day, outTime, hours))
  {
    var closed := Close(rows, employeeId, day, outTime, hours);
    forall i | 0 <= i < |closed| ensures WellFormed(closed[i]) {
      assert WellFormed(rows[i]);
    }
  }

  /** Every in_time a lookup finds in a well-formed table reads as a time of day. */
  lemma InTimesReadable(rows: seq<Record>, employeeId: int, day: string)
    requires AllWellFormed(rows) && InTimes(rows, employeeId, day) != []
    ensures Parse(InTimes(rows, employeeId, day)[0]).Some?
  {
    var found := InTimes(rows, employeeId, day);
    InTimesFrom(rows, employeeId, day, found[0]);
    var i :| 0 <= i < |rows| && OnDay(rows[i], employeeId, day) && rows[i].inTime == found[0];
    assert WellFormed(rows[i]);
  }

  /**
   * What a clock-out from a readable in_time guarantees: the hours it
   * reports are measured from that in_time, and the closed table stays well formed.
   */
  lemma ClockOutFacts(rows: seq<Record>, employeeId: int, day: string, clock: nat, inTime: string)
    requires AllWellFormed(rows) && clock < SecondsPerDay && Parse(inTime).Some?
    ensures ParseFixed2(HoursText(inTime, Format(clock))) == Some(CentiHours(clock - Parse(inTime).value))
    ensures AllWellFormed(Close(rows, employeeId, day, Format(clock), HoursText(inTime, Format(clock))))
  {
    HoursTextAtClock(inTime, clock);
    ParseFormat(clock);
    CloseWellFormed(rows, employeeId, day, Format(clock), HoursText(inTime, Format(clock)));
  }

  /** The ledger: the rows of the `attendance` table, updated in place by the two handlers. */
  class Ledger {
    var rows: seq<Record>

    ghost predicate Valid()
      reads this
    {
      AllWellFormed(rows)
    }

    constructor ()
      ensures Valid() && rows == []
    {
      rows := [];
    }

    /** Record the start of a shift; an earlier record for the same day is not looked for. */
    method ClockIn(employeeId: int, today: string, clock: nat)
      requires Valid() && clock < SecondsPerDay
      modifies this
      ensures Valid()
      ensures rows == old(rows) + [Record(employeeId, today, Format(clock), None, None)]
    {
      ParseFormat(clock);
      rows := rows + [Record(employeeId, today, Format(clock), None, None)];
    }

    /**
     * Record the end of a shift: the first in_time of the day decides the
     * hours, and every record of the day is closed with the same figures.
     */
    method ClockOut(employeeId: int, today: string, clock: nat) returns (r: ClockOutOutcome)
      requires Valid() && clock < SecondsPerDay
      modifies this
      ensures Valid()
      ensures InTimes(old(rows), employeeId, today) == [] ==> r == InNotFound && rows == old(rows)
      ensures InTimes(old(rows), employeeId, today) != [] ==>
        && r == OutMarked(HoursText(InTimes(old(rows), employeeId, today)[0], Format(clock)))
        && rows == Close(old(rows), employeeId, today, Format(clock), r.workingHours)
      ensures InTimes(old(rows), employeeId, today) != [] ==>
        && Parse(InTimes(old(rows), employeeId, today)[0]).Some?
        && ParseFixed2(r.workingHours)
           == Some(CentiHours(clock - Parse(InTimes(old(rows), employeeId, today)[0]).value))
    {
      var outTime := Format(clock);
      var found := InTimes(rows, employeeId, today);
      if found == [] {
        return InNotFound;
      }
      var inTime := found[0];
      InTimesReadable(rows, employeeId, today);
      var hours := HoursText(inTime, outTime);
      ClockOutFacts(rows, employeeId, today, clock, inTime);
      rows := Close(rows, employeeId, today, outTime, hours);
      r := OutMarked(hours);
      assert InTimes(old(rows), employeeId, today)[0] == inTime && r.workingHours == hours;
    }
  }

  /**
   * Clocking in twice on a day with no record leaves two records, and the
   * lookup of a later clock-out finds the first in_time ahead of the second.
   */
  lemma TwoClockIns(rows: seq<Record>, employeeId: int, day: string, first: string, second: string)
    requires InTimes(rows, employeeId, day) == []
    ensures var once := rows + [Record(employeeId, day, first, None, None)];
      InTimes(once + [Record(employeeId, day, second, None, None)], employeeId, day) == [first, second]
  {
    var once := rows + [Record(employeeId, day, first, None, None)];
    InTimesAfterAppend(rows, Record(employeeId, day, first, None, None), employeeId, day);
    InTimesAfterAppend(once, Record(employeeId, day, second, None, None), employeeId, day);
  }

  /**
   * On the ledger: after two clock-ins, one clock-out writes the hours
   * measured from the first in_time on the second record too.
   */
  method TwoClockInsOneDay(employeeId: int, today: string, first: nat, second: nat, out: nat)
    requires first < SecondsPerDay && second < SecondsPerDay && out < SecondsPerDay
  {
    var ledger := new Ledger();
    ledger.ClockIn(employeeId, today, first);
    ledger.ClockIn(employeeId, today, second);
    TwoClockIns([], employeeId, today, Format(first), Format(second));
    assert InTimes(ledger.rows, employeeId, today)[0] == Format(first);
    var r := ledger.ClockOut(employeeId, today, out);
    HoursTextOfClock(first, out);
    assert r == OutMarked(ToFixed2(out - first));
    assert ledger.rows[1].inTime == Format(second);
    assert ledger.rows[1].workingHours == Some(ToFixed2(out - first));
  }
}
