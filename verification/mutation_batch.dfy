/** Overwriting the Mark of the selected doors inside one transaction
    (CmdListMarks.Execute, the writing second half). */
module MutationBatch {
  import opened Wrappers
  import opened Collections
  import opened Elements

  /** The value written to every eligible selected door's Mark. */
  const TheAnswer: string := "42"

  /** An element after its Mark has been set to the constant. */
  function Stamp(e: Element): Element
  {
    e.(mark := Value(TheAnswer))
  }

  /** How the transaction ends: committed with the new document and the
      number of writes, or abandoned on a fault, in which case the host
      discards every write made so far. */
  datatype BatchOutcome = Committed(doc: Document, changed: nat) | RolledBack(fault: Fault)

  /** The loop over the selected ids: each id is looked up in the current
      document; a door instance has its Mark set and the counter
      incremented; any other id is skipped. Setting the Mark of a door that
      has no Mark parameter raises a fault that ends the loop. */
  function ApplyFrom(cur: Document, ids: seq<ElementId>, changed: nat): BatchOutcome
  {
    if |ids| == 0 then Committed(cur, changed)
    else
      match GetElement(cur, ids[0])
      case None => ApplyFrom(cur, ids[1..], changed)
      case Some(e) =>
        if !IsDoorInstance(e) then ApplyFrom(cur, ids[1..], changed)
        else if e.mark.NoMarkParameter? then RolledBack(NullReference)
        else ApplyFrom(cur[ids[0] := Stamp(e)], ids[1..], changed + 1)
  }

  /** The batch with its counter starting at zero. */
  function ApplyMarks(doc: Document, ids: seq<ElementId>): BatchOutcome
  {
    ApplyFrom(doc, ids, 0)
  }

  // ----- Reference description of the batch, independent of loop order -----

  /** The id denotes a live door instance of the document. */
  predicate IsTarget(doc: Document, id: ElementId)
  {
    id in doc && IsDoorInstance(doc[id])
  }

  /** The selected ids that denote door instances. */
  function Targets(doc: Document, ids: seq<ElementId>): set<ElementId>
  {
    set id | id in ids && IsTarget(doc, id)
  }

  /** Some selected door instance lacks a Mark parameter. */
  predicate Faulty(doc: Document, ids: seq<ElementId>)
  {
    exists id | id in ids :: IsTarget(doc, id) && doc[id].mark.NoMarkParameter?
  }

  /** The number of positions of the selection that denote door instances. */
  function Hits(doc: Document, ids: seq<ElementId>): nat
  {
    if |ids| == 0 then 0
    else (if IsTarget(doc, ids[0]) then 1 else 0) + Hits(doc, ids[1..])
  }

  /** The document with the Mark of every element in s overwritten. */
  function Overwritten(doc: Document, s: set<ElementId>): Document
  {
    map id | id in doc :: if id in s then Stamp(doc[id]) else doc[id]
  }

  lemma OverwrittenNothing(doc: Document)
    ensures Overwritten(doc, {}) == doc
  {
  }

  /** Processing the rest of the selection from a partially written
      document, where every id in done is a door instance with a Mark
      parameter. */
  lemma {:induction false} ApplyFromOverwritten(doc: Document, done: set<ElementId>, ids: seq<ElementId>, changed: nat)
    requires forall id | id in done :: IsTarget(doc, id) && !doc[id].mark.NoMarkParameter?
    ensures ApplyFrom(Overwritten(doc, done), ids, changed)
      == if Faulty(doc, ids) then RolledBack(NullReference)
         else Committed(Overwritten(doc, done + Targets(doc, ids)), changed + Hits(doc, ids))
    decreases |ids|
  {
    var cur := Overwritten(doc, done);
    if |ids| == 0 {
      assert Targets(doc, ids) == {};
      assert done + Targets(doc, ids) == done;
    } else {
      var x := ids[0];
      var rest := ids[1..];
      assert ids == [x] + rest;
      assert forall id :: id in ids <==> id == x || id in rest;
      if x in doc && IsDoorInstance(doc[x]) {
        assert IsDoorInstance(cur[x]);
        if doc[x].mark.NoMarkParameter? {
          assert x !in done;
          assert Faulty(doc, ids);
        } else {
          assert !cur[x].mark.NoMarkParameter?;
          assert cur[x := Stamp(cur[x])] == Overwritten(doc, done + {x});
          ApplyFromOverwritten(doc, done + {x}, rest, changed + 1);
          assert Targets(doc, ids) == {x} + Targets(doc, rest);
          assert Faulty(doc, ids) == Faulty(doc, rest);
          assert done + {x} + Targets(doc, rest) == done + Targets(doc, ids);
        }
      } else {
        assert GetElement(cur, x).None? || !IsDoorInstance(cur[x]);
        ApplyFromOverwritten(doc, done, rest, changed);
        assert Targets(doc, ids) == Targets(doc, rest);
        assert Faulty(doc, ids) == Faulty(doc, rest);
      }
    }
  }

  /** What the batch does, whatever the order of the selection: it faults
      exactly when a selected door instance has no Mark parameter; otherwise
      it commits the document with the Mark of exactly the selected door
      instances overwritten, counting one write per selected position that
      denotes one. */
  lemma ApplyMarksMeaning(doc: Document, ids: seq<ElementId>)
    ensures ApplyMarks(doc, ids)
      == if Faulty(doc, ids) then RolledBack(NullReference)
         else Committed(Overwritten(doc, Targets(doc, ids)), Hits(doc, ids))
  {
    OverwrittenNothing(doc);
    ApplyFromOverwritten(doc, {}, ids, 0);
    assert {} + Targets(doc, ids) == Targets(doc, ids);
  }

  /** With every id selected once, the number of positions that denote door
      instances is the number of such ids. */
  lemma {:induction false} HitsOfDistinct(doc: Document, ids: seq<ElementId>)
    requires Distinct(ids)
    ensures Hits(doc, ids) == |Targets(doc, ids)|
  {
    if |ids| == 0 {
      assert Targets(doc, ids) == {};
    } else {
      var rest := ids[1..];
      assert Distinct(rest) by {
        assert forall i | 0 <= i < |rest| :: rest[i] == ids[i + 1];
      }
      assert ids[0] !in rest by {
        assert forall i | 0 <= i < |rest| :: rest[i] == ids[i + 1];
      }
      HitsOfDistinct(doc, rest);
      assert ids == [ids[0]] + rest;
      assert forall id :: id in ids <==> id == ids[0] || id in rest;
      if IsTarget(doc, ids[0]) {
        assert Targets(doc, ids) == {ids[0]} + Targets(doc, rest);
      } else {
        assert Targets(doc, ids) == Targets(doc, rest);
      }
    }
  }

  /** The batch commits unless a selected door instance lacks its Mark
      parameter, and the count it reports is the number of selected ids
      that resolve to a door instance; unresolved and ineligible ids
      contribute nothing. */
  lemma ChangedCountIsEligibleSelection(doc: Document, ids: seq<ElementId>)
    requires Distinct(ids)
    ensures ApplyMarks(doc, ids).Committed? <==> !Faulty(doc, ids)
    ensures ApplyMarks(doc, ids).Committed? ==>
      ApplyMarks(doc, ids).changed == |set id | id in ids && id in doc && IsDoorInstance(doc[id])|
  {
    ApplyMarksMeaning(doc, ids);
    HitsOfDistinct(doc, ids);
    assert Targets(doc, ids) == set id | id in ids && id in doc && IsDoorInstance(doc[id]);
  }

  /** Only the selected door instances change, and of those only the Mark,
      which becomes the constant; every other element is left as it was and
      no element appears or disappears. */
  lemma OnlySelectedDoorsChange(doc: Document, ids: seq<ElementId>)
    ensures ApplyMarks(doc, ids).Committed? ==>
      var after := ApplyMarks(doc, ids).doc;
      && after.Keys == doc.Keys
      && (forall id | id in doc && id in ids && IsDoorInstance(doc[id]) ::
            && after[id].mark == Value(TheAnswer)
            && after[id].id == doc[id].id
            && after[id].kind == doc[id].kind
            && after[id].category == doc[id].category)
      && (forall id | id in doc && (id !in ids || !IsDoorInstance(doc[id])) :: after[id] == doc[id])
  {
    ApplyMarksMeaning(doc, ids);
  }

  /** Running the batch again on its own result changes nothing and reports
      the same count. */
  lemma ApplyMarksIdempotent(doc: Document, ids: seq<ElementId>)
    requires ApplyMarks(doc, ids).Committed?
    ensures ApplyMarks(ApplyMarks(doc, ids).doc, ids) == ApplyMarks(doc, ids)
  {
    ApplyMarksMeaning(doc, ids);
    var after := ApplyMarks(doc, ids).doc;
    ApplyMarksMeaning(after, ids);
    assert forall id | id in doc :: IsTarget(after, id) == IsTarget(doc, id);
    assert Targets(after, ids) == Targets(doc, ids);
    assert !Faulty(after, ids);
    HitsUnchanged(doc, after, ids);
    assert Overwritten(after, Targets(doc, ids)) == after;
  }

  /** Documents that agree on which ids are door instances give the same
      count. */
  lemma {:induction false} HitsUnchanged(doc1: Document, doc2: Document, ids: seq<ElementId>)
    requires forall id | id in ids :: IsTarget(doc1, id) == IsTarget(doc2, id)
    ensures Hits(doc1, ids) == Hits(doc2, ids)
  {
    if |ids| > 0 {
      assert ids[0] in ids;
      assert forall id | id in ids[1..] :: id in ids;
      HitsUnchanged(doc1, doc2, ids[1..]);
    }
  }

  /** The order in which the selection is enumerated does not matter: two
      enumerations of the same set of ids give the same outcome. */
  lemma SelectionOrderIrrelevant(doc: Document, ids1: seq<ElementId>, ids2: seq<ElementId>)
    requires Distinct(ids1) && Distinct(ids2)
    requires SetOf(ids1) == SetOf(ids2)
    ensures ApplyMarks(doc, ids1) == ApplyMarks(doc, ids2)
  {
    assert forall id :: id in ids1 <==> id in ids2 by {
      forall id ensures id in ids1 <==> id in ids2 {
        assert id in ids1 <==> id in SetOf(ids1);
        assert id in ids2 <==> id in SetOf(ids2);
      }
    }
    ApplyMarksMeaning(doc, ids1);
    ApplyMarksMeaning(doc, ids2);
    HitsOfDistinct(doc, ids1);
    HitsOfDistinct(doc, ids2);
    assert Targets(doc, ids1) == Targets(doc, ids2);
    assert Faulty(doc, ids1) == Faulty(doc, ids2);
  }
}
