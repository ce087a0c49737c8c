/** The whole external command: the report phase followed, when the toggle
    is on, by the Mark overwrite inside one transaction. */
module ListMarksCommand {
  import opened Wrappers
  import opened Elements
  import opened MarkIndex
  import MutationBatch

  /** Where the command leaves its transaction: never opened (the toggle is
      off, or the report phase faulted first), committed, or abandoned on a
      fault and rolled back by the host. */
  datatype TxState = NotStarted | Committed | RolledBack

  /** What the host sees: success, or a fault that escaped the command. */
  datatype CommandResult = Succeeded | Faulted(fault: Fault)

  /** The observable outcome of one invocation: the result, the report (if
      the report phase finished), the document afterwards, the number of
      Marks written and the transaction's final state. */
  datatype Invocation = Invocation(result: CommandResult, report: Option<Report>, doc: Document, changed: nat, tx: TxState)

  /** One run of the command. The doors are the door instances the host's
      collector found; the selection is the user's selected ids in the
      order the host enumerates them; modifyExistingMarks is the toggle,
      on by default. */
  function Execute(modifyExistingMarks: bool, doors: seq<Element>, selection: seq<ElementId>, doc: Document): (o: Invocation)
    ensures o.result.Succeeded? <==>
      AllMarked(doors) && !(modifyExistingMarks && MutationBatch.Faulty(doc, selection))
    ensures o.report.Some? <==> AllMarked(doors)
    ensures o.report.Some? ==> ListMarks(doors) == Success(o.report.value)
    ensures o.result.Faulted? ==> o.doc == doc && o.changed == 0 && o.tx != Committed
    ensures !modifyExistingMarks ==> o.doc == doc && o.changed == 0 && o.tx == NotStarted
    ensures modifyExistingMarks && o.result.Succeeded? ==>
      && o.tx == Committed
      && MutationBatch.ApplyMarks(doc, selection) == MutationBatch.Committed(o.doc, o.changed)
  {
    MutationBatch.ApplyMarksMeaning(doc, selection);
    match ListMarks(doors)
    case Failure(f) => Invocation(Faulted(f), None, doc, 0, NotStarted)
    case Success(report) =>
      if !modifyExistingMarks then Invocation(Succeeded, Some(report), doc, 0, NotStarted)
      else
        match MutationBatch.ApplyMarks(doc, selection)
        case RolledBack(f) => Invocation(Faulted(f), Some(report), doc, 0, RolledBack)
        case Committed(after, n) => Invocation(Succeeded, Some(report), after, n, Committed)
  }

  /** The transaction commits and the command succeeds whatever the count,
      including when nothing is selected and nothing changes. */
  lemma EmptySelectionCommits(doors: seq<Element>, doc: Document)
    requires AllMarked(doors)
    ensures Execute(true, doors, [], doc) == Invocation(Succeeded, Some(ListMarks(doors).value), doc, 0, Committed)
  {
  }

  /** Running the command a second time on the document it produced
      writes nothing new: it succeeds again, leaves that document as it is,
      reports the same count and commits again. The second run reads its
      doors afresh from that document, so its report may differ (selected
      doors now carry the constant Mark); any door list whose Marks are all
      readable is allowed. */
  lemma ExecuteIdempotent(doors: seq<Element>, selection: seq<ElementId>, doc: Document, doorsAgain: seq<Element>)
    requires Execute(true, doors, selection, doc).result.Succeeded?
    requires AllMarked(doorsAgain)
    ensures var first := Execute(true, doors, selection, doc);
      var second := Execute(true, doorsAgain, selection, first.doc);
      && second.result == first.result
      && second.doc == first.doc
      && second.changed == first.changed
      && second.tx == first.tx
  {
    MutationBatch.ApplyMarksIdempotent(doc, selection);
  }
}
