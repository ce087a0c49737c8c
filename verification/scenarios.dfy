/** Worked examples of the command on small inputs. */
module Scenarios {
  import opened Wrappers
  import opened Elements
  import opened MarkIndex
  import opened MutationBatch
  import Ordinal

  function Door(id: ElementId, mark: string): Element
  {
    Element(id, FamilyInstance, Some(DoorsCategoryId), Value(mark))
  }

  const A1: Element := Door(1, "A")
  const B2: Element := Door(2, "B")
  const A3: Element := Door(3, "A")

  lemma TableOfOneDoor()
    ensures BuildTable([A1]) == MarkTable(["A"], map["A" := [A1]])
  {
    assert [A1][..0] == [];
  }

  lemma AddSecondDoor()
    ensures AddDoor(MarkTable(["A"], map["A" := [A1]]), B2)
      == MarkTable(["A", "B"], map["A" := [A1], "B" := [B2]])
  {
  }

  lemma TableOfTwoDoors()
    ensures BuildTable([A1, B2]) == MarkTable(["A", "B"], map["A" := [A1], "B" := [B2]])
  {
    assert [A1, B2][..1] == [A1];
    TableOfOneDoor();
    AddSecondDoor();
  }

  lemma AddThirdDoor()
    ensures AddDoor(MarkTable(["A", "B"], map["A" := [A1], "B" := [B2]]), A3)
      == MarkTable(["A", "B"], map["A" := [A1, A3], "B" := [B2]])
  {
    assert [A1] + [A3] == [A1, A3];
  }

  lemma TableOfThreeDoors()
    ensures BuildTable([A1, B2, A3]) == MarkTable(["A", "B"], map["A" := [A1, A3], "B" := [B2]])
  {
    assert [A1, B2, A3][..2] == [A1, B2];
    TableOfTwoDoors();
    AddThirdDoor();
  }

  lemma SortOfTwoMarks()
    ensures Ordinal.SortStrings(["A", "B"]) == ["A", "B"]
  {
    assert ["A", "B"][1..] == ["B"];
    assert ["B"][1..] == [];
    assert !Ordinal.Less("B", "A");
  }

  lemma SummaryOfTwoGroups()
    ensures Summarize(MarkTable(["A", "B"], map["A" := [A1, A3], "B" := [B2]]))
      == MarkSummary(2, [ReportLine("A", 2), ReportLine("B", 1)])
  {
    SortOfTwoMarks();
    var groups := map["A" := [A1, A3], "B" := [B2]];
    assert ["A", "B"][1..] == ["B"];
    assert ["B"][1..] == [];
    assert Lines(groups, []) == [];
    assert Lines(groups, ["B"]) == [ReportLine("B", 1)];
    assert Lines(groups, ["A", "B"]) == [ReportLine("A", 2), ReportLine("B", 1)];
  }

  /** Three doors marked A, B, A: two groups, reported A before B. */
  lemma ReportOfThreeDoors()
    ensures ListMarks([A1, B2, A3])
      == Success(Report(3, Some(MarkSummary(2, [ReportLine("A", 2), ReportLine("B", 1)]))))
  {
    assert AllMarked([A1, B2, A3]);
    TableOfThreeDoors();
    SummaryOfTwoGroups();
  }

  /** A selected door and a selected wall: only the door is written. */
  lemma DoorAndWallSelected()
    ensures var wall := Element(2, OtherElement, Some(-2000011), Value("W"));
      var doc := map[1 := Door(1, "A"), 2 := wall];
      ApplyMarks(doc, [1, 2]) == Committed(doc[1 := Door(1, TheAnswer)], 1)
  {
    var wall := Element(2, OtherElement, Some(-2000011), Value("W"));
    var doc := map[1 := Door(1, "A"), 2 := wall];
    assert [1, 2][1..] == [2];
    assert [2][1..] == [];
    var after := doc[1 := Door(1, TheAnswer)];
    assert ApplyFrom(after, [2], 1) == Committed(after, 1);
  }
}
