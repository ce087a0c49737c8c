# CmdListMarks — a Dafny model

This project models the logic of the Building Coder external command
`CmdListMarks.Execute`, with the Revit API stripped away. The command does two independent things:

1. **Report door marks** (`MarkIndex`). It takes the door instances found in the document and groups them by the string value of their Mark parameter. A key is added to the dictionary on its first occurrence, and each door is appended to its key's list. The keys are then sorted. The report is the door count, then, only when there is at least one door, the number of distinct Marks and one (Mark, count) line per Mark in sorted order.
2. **Overwrite selected door marks** (`MutationBatch`). Inside one transaction, every selected id that resolves to a family instance whose category is present and equals the doors category has its Mark set to the constant `"42"`. A counter is incremented for each such write. Other ids are skipped silently. The transaction commits whatever the count, and the command returns `Succeeded`. A static toggle, on by default, decides whether this phase runs.

`ListMarksCommand.Execute` composes the two phases. Its outcome records the command result, the report, the resulting document, the transaction's final state and the number of writes. The host sees only the result, the report and the document. The write counter is a local variable that the command neither prints nor returns, so the model records it only to state what the loop counts.

Modules:

- `Wrappers`: `Option` and `Result`.
- `Collections`: the set of a sequence, and repetition-free sequences.
- `Ordinal`: ordinal string order, insertion sort, and uniqueness of the ascending arrangement.
- `Elements`: elements, the document as `map<ElementId, Element>`, the door predicate, and the faults.
- `MarkIndex`: grouping and the report.
- `MutationBatch`: the Mark overwrite.
- `ListMarksCommand`: the whole command.
- `Scenarios`: worked examples.

Modelling choices:

- The Mark parameter is `NoMarkParameter | Unset | Value(text)`.
  - Reading a missing parameter dereferences null, giving the `NullReference` fault.
  - A parameter that was never assigned reads as a null string. Using that string as a dictionary key gives the `ArgumentNull` fault.
  - These faults are modelled as results, not excluded by preconditions. The command stops at the first door whose Mark cannot be read.
- Setting the Mark of a selected door that has no Mark parameter raises `NullReference` inside the transaction. The host then rolls the transaction back, so the document is unchanged.
- The selection is the sequence of ids in the order the host enumerates them. The host's collection holds each id once, and the count lemmas assume this.
- The transaction is represented only by its final state: not started, committed or rolled back.

An empty door list does not silence the report entirely. The code still prints the door count ("0 doors found") and omits only the per-Mark part. So `Report` always carries `doorCount`, and its `summary` is absent exactly when there are no doors.

## Model

| member | source | states |
|---|---|---|
| MarkIndex.FirstFault | BuildingCoder/BuildingCoder/CmdListMarks.cs:58-64 | no fault exactly when every door has a readable Mark; otherwise the fault is that of the first door whose Mark cannot be read, all earlier doors being readable |
| MarkIndex.BuildTable | BuildingCoder/BuildingCoder/CmdListMarks.cs:55-69 | the dictionary's keys are repetition-free and are exactly the distinct Marks of the input; each key's list is exactly the input doors carrying that Mark (`Members`) |
| MarkIndex.KeyCountIsDistinctMarks | BuildingCoder/BuildingCoder/CmdListMarks.cs:64-76 | a key is created only on first occurrence, so the number of keys equals the number of distinct Marks |
| MarkIndex.MembersKeepInputOrder | BuildingCoder/BuildingCoder/CmdListMarks.cs:64-68 | each group lists the doors at the increasing input positions that carry its Mark, one for one: no reordering, no deduplication, no omission |
| MarkIndex.ListMarks | BuildingCoder/BuildingCoder/CmdListMarks.cs:48-89 | an empty door list yields the door count 0 and no per-Mark report; the phase succeeds exactly when every Mark is readable; the door count is the input length, and the per-Mark part is present exactly for non-empty input |
| MarkIndex.ReportIsSortedAndComplete | BuildingCoder/BuildingCoder/CmdListMarks.cs:71-88 | the report lines name every distinct Mark exactly once, in strictly ascending ordinal order; the Mark count equals the number of lines and the number of distinct Marks |
| MarkIndex.ReportLineCounts | BuildingCoder/BuildingCoder/CmdListMarks.cs:82-88 | each report line's count is the number of input doors carrying that line's Mark |
| MarkIndex.GroupSizeIsCarrierCount | BuildingCoder/BuildingCoder/CmdListMarks.cs:64-68 | a Mark's group holds exactly as many entries as there are input doors carrying that Mark |
| MarkIndex.ReportCountsSumToDoorCount | BuildingCoder/BuildingCoder/CmdListMarks.cs:48-88 | the line counts add up to the door count, so the groups partition the input |
| MarkIndex.ReportOrderDetermined | BuildingCoder/BuildingCoder/CmdListMarks.cs:71-74 | inputs with the same set of Marks report their Marks in the same sequence, whatever the door order and however often each Mark occurs |
| Ordinal.Insert | BuildingCoder/BuildingCoder/CmdListMarks.cs:74 | inserting into a sorted sequence keeps it sorted and adds exactly the one element |
| Ordinal.SortStrings | BuildingCoder/BuildingCoder/CmdListMarks.cs:74 | the sorted key list is in ordinal order and is a permutation of the keys |
| Ordinal.SortDistinct | BuildingCoder/BuildingCoder/CmdListMarks.cs:71-74 | sorting repetition-free keys gives a strictly ascending list of the same keys and the same length |
| Ordinal.AscendingUnique | BuildingCoder/BuildingCoder/CmdListMarks.cs:74 | two strictly ascending sequences with the same elements are equal, so the sorted key order is unique |
| MutationBatch.ApplyMarksMeaning | BuildingCoder/BuildingCoder/CmdListMarks.cs:101-121 | the per-id loop faults exactly when a selected door instance has no Mark parameter; otherwise it commits the document with exactly the selected door instances overwritten, counting one write per selected position that denotes one |
| MutationBatch.ChangedCountIsEligibleSelection | BuildingCoder/BuildingCoder/CmdListMarks.cs:101-121 | with each id selected once, the count equals the number of selected ids resolving to a family instance in the doors category; unresolved or ineligible ids count 0 |
| MutationBatch.OnlySelectedDoorsChange | BuildingCoder/BuildingCoder/CmdListMarks.cs:108-119 | selected door instances get the Mark "42", with their id, kind and category kept; every other element is unchanged, and the set of ids is unchanged |
| MutationBatch.ApplyMarksIdempotent | BuildingCoder/BuildingCoder/CmdListMarks.cs:108-119 | re-applying the batch to its own result gives the same document and the same count |
| MutationBatch.SelectionOrderIrrelevant | BuildingCoder/BuildingCoder/CmdListMarks.cs:101-106 | any two enumerations of the same selection give the same outcome |
| ListMarksCommand.Execute | BuildingCoder/BuildingCoder/CmdListMarks.cs:31-137 | the command succeeds exactly when no Mark read or write faults, whatever the count; a fault leaves the document unchanged; with the toggle off nothing is written, the count is 0 and no transaction is opened; with it on, a success means a committed transaction whose document and count are the batch's |
| ListMarksCommand.EmptySelectionCommits | BuildingCoder/BuildingCoder/CmdListMarks.cs:91-136 | with nothing selected, the transaction still commits, the count is 0, the document is unchanged and the command succeeds |
| ListMarksCommand.ExecuteIdempotent | BuildingCoder/BuildingCoder/CmdListMarks.cs:91-124 | running the command again on the document it produced, with a freshly collected door list whose Marks are all readable, succeeds again, commits, leaves that document unchanged and counts the same writes; the report may differ, since selected doors now carry "42" |
| Scenarios.ReportOfThreeDoors | BuildingCoder/BuildingCoder/CmdListMarks.cs:48-89 | doors marked A, B, A give 3 doors, 2 Marks and the lines (A, 2), (B, 1) in that order |
| Scenarios.DoorAndWallSelected | BuildingCoder/BuildingCoder/CmdListMarks.cs:101-121 | a selected door and a selected non-door: only the door's Mark becomes "42" and the count is 1 |

## Left out

- Revit API calls. The element collector, the selection query, `doc.GetElement` and `get_Parameter`/`Set` are external. The door list and the id sequence are inputs. The document is a map. The Mark parameter is a field of the element.
- The cast in `foreach (FamilyInstance door in doors)`. The collector already returns family instances of the doors category, so the invalid-cast fault is not modelled.
- Output formatting. `Debug.Print`, `Util.PluralSuffix` and `Util.DotOrColon` are I/O or helpers whose code is not part of this model. The report is data: a door count, a Mark count and (Mark, count) lines.
- A partial report. If the command faults while reading Marks, the door-count line has already been printed, but the model produces no report.
- Culture-sensitive collation. `List<string>.Sort` uses the current culture's comparer by default. The model sorts in ordinal order, comparing character codes, with a proper prefix first.
- MarkIndex.ReportIsSortedAndComplete: the order is stated for ordinal comparison, not for the culture's collation.
- Transaction mechanics. Start and commit failures, and the transient "started" state, are host behaviour. Only the final state is modelled.
- Host validation of writes. A read-only or rejected Mark value is host behaviour and is not modelled. Only the missing-parameter fault is.
- The static toggle. The mutable `_modify_existing_marks` is an explicit parameter of `Execute`.
- The commented-out legacy `Execute` and `GetElementsWithParameter`. This code is dead and targets a removed API.
- MutationBatch.ChangedCountIsEligibleSelection: requires each id to appear once in the selection, as the host's selection collection guarantees. For a sequence with repeats, `ApplyMarksMeaning` gives the count as the number of selected positions that denote door instances.
- The counter. The source's 32-bit `int` counter is a `nat`, because a selection cannot approach 2^31 elements.
- The doors category's integer value. `DoorsCategoryId` is the host enumeration's value for `OST_Doors` (-2000023). The source only compares against this enumeration member.
