/** Grouping of the doors by Mark and the sorted report of the groups
    (CmdListMarks.Execute, the read-only first half). */
module MarkIndex {
  import opened Wrappers
  import opened Collections
  import opened Ordinal
  import opened Elements

  /** Every door carries a readable Mark string. */
  predicate AllMarked(doors: seq<Element>)
  {
    forall i | 0 <= i < |doors| :: doors[i].mark.Value?
  }

  /** The distinct Mark strings carried by the doors. */
  function MarkSet(doors: seq<Element>): set<string>
  {
    set i | 0 <= i < |doors| && doors[i].mark.Value? :: doors[i].mark.text
  }

  /** The doors whose Mark is the given string, in input order. */
  function Members(doors: seq<Element>, mark: string): seq<Element>
  {
    if |doors| == 0 then []
    else
      var last := doors[|doors| - 1];
      Members(doors[..|doors| - 1], mark) + (if last.mark == Value(mark) then [last] else [])
  }

  /** The input positions of the doors whose Mark is the given string, in
      increasing order. */
  function Positions(doors: seq<Element>, mark: string): seq<nat>
  {
    if |doors| == 0 then []
    else
      Positions(doors[..|doors| - 1], mark)
        + (if doors[|doors| - 1].mark == Value(mark) then [|doors| - 1] else [])
  }

  /** The fault raised while reading one door's Mark, if any. */
  function ReadFault(door: Element): Option<Fault>
  {
    match door.mark
    case NoMarkParameter => Some(NullReference)
    case Unset => Some(ArgumentNull)
    case Value(_) => None
  }

  /** The fault of the first door whose Mark cannot be read. */
  function FirstFault(doors: seq<Element>): (r: Option<Fault>)
    ensures r.None? <==> AllMarked(doors)
    ensures r.Some? ==> exists i | 0 <= i < |doors| ::
      AllMarked(doors[..i]) && ReadFault(doors[i]) == r
  {
    if |doors| == 0 then None
    else if ReadFault(doors[0]).Some? then
      assert AllMarked(doors[..0]);
      ReadFault(doors[0])
    else
      var r := FirstFault(doors[1..]);
      if r.Some? then
        var i :| 0 <= i < |doors[1..]| && AllMarked(doors[1..][..i]) && ReadFault(doors[1..][i]) == r;
        assert AllMarked(doors[..i + 1]) by {
          forall j | 0 <= j < i + 1 ensures doors[j].mark.Value? {
            if j > 0 {
              assert doors[j] == doors[1..][..i][j - 1];
            }
          }
        }
        assert ReadFault(doors[i + 1]) == r;
        r
      else
        assert forall j | 0 < j < |doors| :: doors[j] == doors[1..][j - 1];
        r
  }

  /** The dictionary the command fills: the keys in the order they were
      first added, and each key's list of doors. */
  datatype MarkTable = MarkTable(keys: seq<string>, groups: map<string, seq<Element>>)

  /** One step of the grouping loop: a key is added on its first occurrence
      only, and the door is appended to its key's list. */
  function AddDoor(table: MarkTable, door: Element): MarkTable
    requires door.mark.Value?
  {
    var mark := door.mark.text;
    if mark !in table.groups then
      MarkTable(table.keys + [mark], table.groups[mark := [door]])
    else
      MarkTable(table.keys, table.groups[mark := table.groups[mark] + [door]])
  }

  lemma MarkSetSnoc(doors: seq<Element>)
    requires |doors| > 0
    ensures var last := doors[|doors| - 1];
      MarkSet(doors) == MarkSet(doors[..|doors| - 1]) + (if last.mark.Value? then {last.mark.text} else {})
  {
    var front := doors[..|doors| - 1];
    assert forall i | 0 <= i < |front| :: front[i] == doors[i];
  }

  /** A string that no door carries has no members. */
  lemma {:induction false} MembersOfAbsentMark(doors: seq<Element>, mark: string)
    requires mark !in MarkSet(doors)
    ensures Members(doors, mark) == []
  {
    if |doors| > 0 {
      MarkSetSnoc(doors);
      MembersOfAbsentMark(doors[..|doors| - 1], mark);
    }
  }

  /** Builds the mark dictionary door by door. The keys are the distinct
      Marks, each added once; each key's list holds exactly the doors with
      that Mark, in input order. */
  function BuildTable(doors: seq<Element>): (table: MarkTable)
    requires AllMarked(doors)
    ensures Distinct(table.keys)
    ensures SetOf(table.keys) == table.groups.Keys == MarkSet(doors)
    ensures forall k | k in table.groups :: table.groups[k] == Members(doors, k)
  {
    if |doors| == 0 then MarkTable([], map[])
    else
      var front := doors[..|doors| - 1];
      var last := doors[|doors| - 1];
      assert AllMarked(front) by {
        assert forall i | 0 <= i < |front| :: front[i] == doors[i];
      }
      var table := BuildTable(front);
      MarkSetSnoc(doors);
      if last.mark.text !in table.groups then
        MembersOfAbsentMark(front, last.mark.text);
        assert Distinct(table.keys + [last.mark.text]) by {
          assert last.mark.text !in SetOf(table.keys);
        }
        assert SetOf(table.keys + [last.mark.text]) == SetOf(table.keys) + {last.mark.text};
        AddDoor(table, last)
      else
        AddDoor(table, last)
  }

  /** The number of distinct Marks: one dictionary key per distinct Mark. */
  lemma KeyCountIsDistinctMarks(doors: seq<Element>)
    requires AllMarked(doors)
    ensures |BuildTable(doors).keys| == |MarkSet(doors)|
  {
    DistinctCardinality(BuildTable(doors).keys);
  }

  /** A group keeps the input order: its j-th door is the door at the j-th
      position carrying its Mark, positions increase, and a position is
      listed exactly when the door there carries that Mark. No door is
      dropped, repeated or moved. */
  lemma {:induction false} MembersKeepInputOrder(doors: seq<Element>, mark: string)
    ensures var p := Positions(doors, mark);
      var g := Members(doors, mark);
      && |p| == |g|
      && (forall j | 0 <= j < |p| :: p[j] < |doors| && g[j] == doors[p[j]])
      && (forall j1, j2 | 0 <= j1 < j2 < |p| :: p[j1] < p[j2])
      && (forall i | 0 <= i < |doors| :: i in p <==> doors[i].mark == Value(mark))
  {
    if |doors| > 0 {
      var front := doors[..|doors| - 1];
      MembersKeepInputOrder(front, mark);
      assert forall i | 0 <= i < |front| :: front[i] == doors[i];
    }
  }

  /** One report line: a Mark and the number of doors carrying it. */
  datatype ReportLine = ReportLine(mark: string, count: nat)

  /** The per-Mark part of the report: the number of distinct Marks and one
      line per Mark. */
  datatype MarkSummary = MarkSummary(markCount: nat, lines: seq<ReportLine>)

  /** The report: the door count, always printed, and the per-Mark part,
      printed only when there is at least one door. */
  datatype Report = Report(doorCount: nat, summary: Option<MarkSummary>)

  function Lines(groups: map<string, seq<Element>>, keys: seq<string>): seq<ReportLine>
    requires forall k | k in keys :: k in groups
  {
    if |keys| == 0 then []
    else [ReportLine(keys[0], |groups[keys[0]]|)] + Lines(groups, keys[1..])
  }

  function LineMarks(lines: seq<ReportLine>): seq<string>
  {
    if |lines| == 0 then [] else [lines[0].mark] + LineMarks(lines[1..])
  }

  function TotalCount(lines: seq<ReportLine>): nat
  {
    if |lines| == 0 then 0 else lines[0].count + TotalCount(lines[1..])
  }

  /** Sorts the dictionary keys and reports each key's group size. */
  function Summarize(table: MarkTable): MarkSummary
    requires SetOf(table.keys) == table.groups.Keys
  {
    var keys := SortStrings(table.keys);
    assert forall k | k in keys :: k in table.keys by {
      forall k | k in keys ensures k in table.keys {
        assert k in multiset(keys);
      }
    }
    MarkSummary(|keys|, Lines(table.groups, keys))
  }

  /** The report phase of the command. An empty door list yields only the
      door count; otherwise every Mark is read, and the first unreadable one
      stops the command with its fault. */
  function ListMarks(doors: seq<Element>): (r: Result<Report, Fault>)
    ensures |doors| == 0 ==> r == Success(Report(0, None))
    ensures r.Success? <==> AllMarked(doors)
    ensures r.Success? ==> r.value.doorCount == |doors|
    ensures r.Success? ==> (r.value.summary.Some? <==> |doors| > 0)
    ensures r.Failure? ==> exists i | 0 <= i < |doors| ::
      AllMarked(doors[..i]) && ReadFault(doors[i]) == Some(r.error)
  {
    if |doors| == 0 then Success(Report(0, None))
    else
      match FirstFault(doors)
      case Some(f) => Failure(f)
      case None => Success(Report(|doors|, Some(Summarize(BuildTable(doors)))))
  }

  lemma {:induction false} LinesShape(groups: map<string, seq<Element>>, keys: seq<string>)
    requires forall k | k in keys :: k in groups
    ensures |Lines(groups, keys)| == |keys|
    ensures LineMarks(Lines(groups, keys)) == keys
    ensures forall i | 0 <= i < |keys| :: Lines(groups, keys)[i] == ReportLine(keys[i], |groups[keys[i]]|)
  {
    if |keys| > 0 {
      LinesShape(groups, keys[1..]);
      assert keys == [keys[0]] + keys[1..];
    }
  }

  /** The number of input doors whose Mark is the given string. */
  function CarrierCount(doors: seq<Element>, mark: string): nat
  {
    |set i | 0 <= i < |doors| && doors[i].mark == Value(mark)|
  }

  /** A group holds one entry per door carrying its Mark. */
  lemma GroupSizeIsCarrierCount(doors: seq<Element>, mark: string)
    ensures |Members(doors, mark)| == CarrierCount(doors, mark)
  {
    MembersKeepInputOrder(doors, mark);
    var p := Positions(doors, mark);
    assert Distinct(p);
    DistinctCardinality(p);
    assert SetOf(p) == set i | 0 <= i < |doors| && doors[i].mark == Value(mark);
  }

  /** The report lists every distinct Mark exactly once, in strictly
      ascending ordinal order; the Mark count equals the number of lines and
      of distinct Marks. */
  lemma ReportIsSortedAndComplete(doors: seq<Element>)
    requires AllMarked(doors) && |doors| > 0
    ensures var s := ListMarks(doors).value.summary.value;
      && StrictlyAscending(LineMarks(s.lines))
      && SetOf(LineMarks(s.lines)) == MarkSet(doors)
      && s.markCount == |s.lines| == |MarkSet(doors)|
  {
    var table := BuildTable(doors);
    var keys := SortStrings(table.keys);
    SortDistinct(table.keys);
    KeyCountIsDistinctMarks(doors);
    LinesShape(table.groups, keys);
  }

  /** Each report line counts exactly the doors carrying its Mark. */
  lemma ReportLineCounts(doors: seq<Element>)
    requires AllMarked(doors) && |doors| > 0
    ensures var s := ListMarks(doors).value.summary.value;
      forall i | 0 <= i < |s.lines| :: s.lines[i].count == CarrierCount(doors, s.lines[i].mark)
  {
    var table := BuildTable(doors);
    var keys := SortStrings(table.keys);
    SortDistinct(table.keys);
    LinesShape(table.groups, keys);
    forall k | k in table.groups ensures |table.groups[k]| == CarrierCount(doors, k) {
      GroupSizeIsCarrierCount(doors, k);
    }
  }

  function Tally(doors: seq<Element>, keys: seq<string>): nat
  {
    if |keys| == 0 then 0 else |Members(doors, keys[0])| + Tally(doors, keys[1..])
  }

  lemma TallyOfNoDoors(keys: seq<string>)
    ensures Tally([], keys) == 0
  {
  }

  lemma {:induction false} TallySnoc(doors: seq<Element>, door: Element, keys: seq<string>)
    requires Distinct(keys)
    ensures Tally(doors + [door], keys)
      == Tally(doors, keys) + (if door.mark.Value? && door.mark.text in keys then 1 else 0)
  {
    if |keys| > 0 {
      assert (doors + [door])[..|doors|] == doors;
      assert Distinct(keys[1..]) by {
        assert forall i | 0 <= i < |keys[1..]| :: keys[1..][i] == keys[i + 1];
      }
      assert keys[0] !in keys[1..] by {
        assert forall i | 0 <= i < |keys[1..]| :: keys[1..][i] == keys[i + 1];
      }
      assert keys == [keys[0]] + keys[1..];
      TallySnoc(doors, door, keys[1..]);
    }
  }

  lemma {:induction false} TallyCovers(doors: seq<Element>, keys: seq<string>)
    requires Distinct(keys) && AllMarked(doors) && MarkSet(doors) <= SetOf(keys)
    ensures Tally(doors, keys) == |doors|
  {
    if |doors| == 0 {
      TallyOfNoDoors(keys);
    } else {
      var front := doors[..|doors| - 1];
      var last := doors[|doors| - 1];
      MarkSetSnoc(doors);
      assert AllMarked(front) by {
        assert forall i | 0 <= i < |front| :: front[i] == doors[i];
      }
      TallyCovers(front, keys);
      assert front + [last] == doors;
      TallySnoc(front, last, keys);
    }
  }

  lemma {:induction false} TotalCountIsTally(doors: seq<Element>, groups: map<string, seq<Element>>, keys: seq<string>)
    requires forall k | k in keys :: k in groups && groups[k] == Members(doors, k)
    ensures TotalCount(Lines(groups, keys)) == Tally(doors, keys)
  {
    if |keys| > 0 {
      TotalCountIsTally(doors, groups, keys[1..]);
      assert keys == [keys[0]] + keys[1..];
    }
  }

  /** The groups partition the input: the line counts add up to the door
      count. */
  lemma ReportCountsSumToDoorCount(doors: seq<Element>)
    requires AllMarked(doors) && |doors| > 0
    ensures TotalCount(ListMarks(doors).value.summary.value.lines) == |doors|
  {
    var table := BuildTable(doors);
    var keys := SortStrings(table.keys);
    SortDistinct(table.keys);
    TotalCountIsTally(doors, table.groups, keys);
    TallyCovers(doors, keys);
  }

  /** The order of the report lines depends on nothing but the set of Marks:
      door lists carrying the same Marks, in any order and with any
      multiplicities, report their Marks in the same sequence. */
  lemma ReportOrderDetermined(doors1: seq<Element>, doors2: seq<Element>)
    requires AllMarked(doors1) && |doors1| > 0
    requires AllMarked(doors2) && |doors2| > 0
    requires MarkSet(doors1) == MarkSet(doors2)
    ensures var marks1 := LineMarks(ListMarks(doors1).value.summary.value.lines);
      var marks2 := LineMarks(ListMarks(doors2).value.summary.value.lines);
      |marks1| == |marks2| && forall i | 0 <= i < |marks1| :: marks1[i] == marks2[i]
  {
    ReportIsSortedAndComplete(doors1);
    ReportIsSortedAndComplete(doors2);
    AscendingUnique(LineMarks(ListMarks(doors1).value.summary.value.lines),
                    LineMarks(ListMarks(doors2).value.summary.value.lines));
  }
}
