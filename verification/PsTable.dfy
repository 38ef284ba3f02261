/** inspectLocalGitHubGroup: what the probe learns from one `ps` table. */
module PsTable {
  import opened Decimal
  import opened ProcessGroup

  datatype GroupState = GroupState(anchored: bool, leaderRunning: bool, writersRunning: bool)

  datatype Inspection = Ok(state: GroupState) | Unreadable

  /** A line of the table, split at blanks. */
  type Fields = seq<string>

  datatype Row = Blank | Bad | Row(pid: int, ppid: int, pgid: int, running: bool)

  predicate ZombieStat(stat: string) {
    stat != "" && stat[0] == 'Z'
  }

  /** A line is blank, or four columns of which three are integers, or bad. */
  function ReadLine(line: Fields): Row {
    if line == [] then Blank
    else if |line| != 4 then Bad
    else
      match (Atoi(line[0]), Atoi(line[1]), Atoi(line[2]))
      case (Some(pid), Some(ppid), Some(pgid)) => Row(pid, ppid, pgid, !ZombieStat(line[3]))
      case _ => Bad
  }

  /** The text of a number that a process id may have. */
  predicate IdText(s: string) {
    IntegerText(s) && -MAX_INT - 1 <= IntegerValue(s) <= MAX_INT
  }

  /** A line is refused exactly when it is not blank and does not have four columns,
      the first three of them numbers; otherwise it says what its columns say. */
  lemma LineIsReadIff(line: Fields)
    ensures ReadLine(line) == Bad <==>
              line != [] && !(|line| == 4 && IdText(line[0]) && IdText(line[1]) && IdText(line[2]))
    ensures ReadLine(line) == Blank <==> line == []
    ensures ReadLine(line).Row? ==>
              ReadLine(line) == Row(IntegerValue(line[0]), IntegerValue(line[1]), IntegerValue(line[2]), !("Z" <= line[3]))
  {
    if |line| == 4 {
      AtoiIff(line[0]);
      AtoiIff(line[1]);
      AtoiIff(line[2]);
      hide Atoi;
    }
  }

  function Rows(lines: seq<Fields>): seq<Row> {
    seq(|lines|, i requires 0 <= i < |lines| => ReadLine(lines[i]))
  }

  /** The state the group is really in. */
  function Truth(w: World, group: nat): GroupState {
    GroupState(
      group in w.procs && w.procs[group].pgid == group && w.procs[group].ppid == w.self,
      Runs(w, group) && w.procs[group].pgid == group,
      !Quiet(w, group))
  }

  function RowOf(pid: nat, p: Process): Row {
    Row(pid, p.ppid, p.pgid, p.live)
  }

  predicate FromWorld(row: Row, w: World) {
    row.Blank? || (row.Row? && row.pid >= 0 && row.pid in w.procs && row == RowOf(row.pid, w.procs[row.pid]))
  }

  /** An atomic table: blank lines aside, every line shows a process as it is
      and every process has a line. The order is free. */
  predicate Describes(rows: seq<Row>, w: World) {
    && (forall i | 0 <= i < |rows| :: FromWorld(rows[i], w))
    && (forall pid | pid in w.procs :: RowOf(pid, w.procs[pid]) in rows)
  }

  /** The line that `ps` prints for a process reads back as that process. */
  lemma PrintedRowReadsBack(pid: nat, p: Process, stat: string)
    requires pid <= MAX_INT && p.ppid <= MAX_INT && p.pgid <= MAX_INT
    requires ZombieStat(stat) <==> !p.live
    ensures ReadLine([Print(pid), Print(p.ppid), Print(p.pgid), stat]) == RowOf(pid, p)
  {
    AtoiOfPrint(pid);
    AtoiOfPrint(p.ppid);
    AtoiOfPrint(p.pgid);
  }

  /** What the loop body makes of one readable row. */
  function Absorb(s: GroupState, row: Row, group: nat, self: nat): GroupState {
    if !row.Row? || row.pgid != group then s
    else
      var led := if row.pid != group then s
                 else s.(anchored := row.ppid == self, leaderRunning := row.running);
      led.(writersRunning := led.writersRunning || row.running)
  }

  function Scan(rows: seq<Row>, group: nat, self: nat): GroupState {
    if rows == [] then GroupState(false, false, false)
    else Absorb(Scan(rows[..|rows| - 1], group, self), rows[|rows| - 1], group, self)
  }

  ghost predicate ShowsWriter(rows: seq<Row>, w: World, group: nat) {
    exists q | q in w.procs ::
      w.procs[q].pgid == group && w.procs[q].live && RowOf(q, w.procs[q]) in rows
  }

  predicate ShowsLeader(rows: seq<Row>, w: World, group: nat) {
    group in w.procs && w.procs[group].pgid == group && RowOf(group, w.procs[group]) in rows
  }

  /** After any part of a table the scan knows exactly what that part shows. */
  lemma {:induction false} ScanOfPart(rows: seq<Row>, w: World, group: nat)
    requires forall i | 0 <= i < |rows| :: FromWorld(rows[i], w)
    ensures var s := Scan(rows, group, w.self);
            var led := ShowsLeader(rows, w, group);
            && s.anchored == (led && w.procs[group].ppid == w.self)
            && s.leaderRunning == (led && w.procs[group].live)
            && (s.writersRunning <==> ShowsWriter(rows, w, group))
  {
    if rows != [] {
      var front, row := rows[..|rows| - 1], rows[|rows| - 1];
      ScanOfPart(front, w, group);
      assert rows == front + [row];
      assert FromWorld(rows[|rows| - 1], w);
      assert forall q | q in w.procs && RowOf(q, w.procs[q]) in front :: RowOf(q, w.procs[q]) in rows;
    }
  }

  lemma ScanIsTruth(rows: seq<Row>, w: World, group: nat)
    requires Describes(rows, w)
    ensures Scan(rows, group, w.self) == Truth(w, group)
  {
    ScanOfPart(rows, w, group);
  }

  /** The table is refused exactly when some line cannot be read. A table taken
      atomically is never refused and yields the true state of the group. */
  method InspectLocalGitHubGroup(lines: seq<Fields>, group: nat, self: nat) returns (r: Inspection)
    ensures r.Unreadable? <==> Bad in Rows(lines)
    ensures forall w | Describes(Rows(lines), w) && w.self == self :: r == Ok(Truth(w, group))
  {
    ghost var rows := Rows(lines);
    var state := GroupState(false, false, false);
    var n := 0;
    while n < |lines|
      invariant 0 <= n <= |lines|
      invariant Bad !in rows[..n]
      invariant state == Scan(rows[..n], group, self)
    {
      var row := ReadLine(lines[n]);
      assert rows[n] == row;
      assert rows[..n + 1] == rows[..n] + [row];
      if row.Bad? {
        return Unreadable;
      }
      if row.Row? && row.pgid == group {
        if row.pid == group {
          state := state.(anchored := row.ppid == self, leaderRunning := row.running);
        }
        state := state.(writersRunning := state.writersRunning || row.running);
      }
      n := n + 1;
    }
    assert rows[..n] == rows;
    forall w | Describes(rows, w) && w.self == self ensures state == Truth(w, group) {
      ScanIsTruth(rows, w, group);
    }
    r := Ok(state);
  }

  /** `ps -axo pid=,ppid=,pgid=,stat=`: one line for every process, in an order
      the caller cannot predict. */
  method ReadTable(w: World) returns (lines: seq<Fields>)
    requires IdsFit(w)
    ensures Describes(Rows(lines), w)
  {
    hide ReadLine, Print, Rows;
    lines := [];
    ghost var rows := [];
    assert rows == Rows(lines) by {
      RowsOfNone();
    }
    var left := w.procs.Keys;
    while left != {}
      invariant left <= w.procs.Keys
      invariant rows == Rows(lines)
      invariant forall i | 0 <= i < |rows| :: FromWorld(rows[i], w)
      invariant forall pid | pid in w.procs && pid !in left :: RowOf(pid, w.procs[pid]) in rows
      decreases left
    {
      var pid :| pid in left;
      var p := w.procs[pid];
      var stat := if p.live then "S" else "Z";
      var line := [Print(pid), Print(p.ppid), Print(p.pgid), stat];
      PrintedRowReadsBack(pid, p, stat);
      RowsAppend(lines, line);
      lines, rows := lines + [line], rows + [RowOf(pid, p)];
      left := left - {pid};
    }
  }

  lemma RowsOfNone()
    ensures Rows([]) == []
  {
  }

  lemma RowsAppend(lines: seq<Fields>, line: Fields)
    ensures Rows(lines + [line]) == Rows(lines) + [ReadLine(line)]
  {
  }
}
