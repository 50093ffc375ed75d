/**
 * What the storage engine keeps true. Starting from `Initial` and admitting
 * parts, every approved part sits in exactly the box its admission order
 * puts it in; removal keeps or breaks that picture depending on where the
 * part was.
 */
module StorageProperties {
  import opened Optional
  import opened Parts
  import opened Boxes
  import opened Text
  import opened Storage

  // ---------------------------------------------------------------- full boxes

  predicate FullBoxes(boxes: seq<Box>)
  {
    forall b :: 0 <= b < |boxes| ==> |boxes[b].parts| == Capacity
  }

  /** Full boxes, laid end to end, hold ten parts each, box `b` at positions 10b..10b+9. */
  lemma {:induction false} FlattenFull(boxes: seq<Box>)
    requires FullBoxes(boxes)
    ensures |Flatten(boxes)| == Capacity * |boxes|
    ensures forall b :: 0 <= b < |boxes| ==> Flatten(boxes)[Capacity * b..Capacity * b + Capacity] == boxes[b].parts
  {
    if boxes != [] {
      var init := boxes[..|boxes| - 1];
      FlattenFull(init);
      var f := Flatten(boxes);
      assert f == Flatten(init) + boxes[|boxes| - 1].parts;
      forall b | 0 <= b < |boxes| ensures f[Capacity * b..Capacity * b + Capacity] == boxes[b].parts {
        if b < |boxes| - 1 {
          assert f[Capacity * b..Capacity * b + Capacity] == Flatten(init)[Capacity * b..Capacity * b + Capacity];
        }
      }
    }
  }

  /** A part found among the flattened boxes is found in one of the boxes. */
  lemma {:induction false} FlattenHasId(boxes: seq<Box>, id: string)
    requires HasId(Flatten(boxes), id)
    ensures exists b :: 0 <= b < |boxes| && HasId(boxes[b].parts, id)
  {
    var init := boxes[..|boxes| - 1];
    var last := boxes[|boxes| - 1];
    var k :| 0 <= k < |Flatten(boxes)| && Flatten(boxes)[k].id == id;
    if k < |Flatten(init)| {
      assert Flatten(init)[k].id == id;
      FlattenHasId(init, id);
      var b :| 0 <= b < |init| && HasId(init[b].parts, id);
      assert boxes[b] == init[b];
    } else {
      assert last.parts[k - |Flatten(init)|].id == id;
      assert HasId(boxes[|boxes| - 1].parts, id);
    }
  }

  // ---------------------------------------------------------------- the invariant

  /**
   * The picture that admission maintains: the active box is open and not
   * full and carries the counter's number, closed box `b` is number `b + 1`,
   * marked closed and full, and the boxes hold exactly the approved parts, in
   * order of admission.
   */
  predicate WellFormed(s: State)
  {
    && !s.activeBox.closed
    && |s.activeBox.parts| < Capacity
    && s.boxCounter == |s.closedBoxes| + 1
    && s.activeBox.id == s.boxCounter
    && (forall b :: 0 <= b < |s.closedBoxes| ==>
          s.closedBoxes[b].id == b + 1 && s.closedBoxes[b].closed && |s.closedBoxes[b].parts| == Capacity)
    && Boxed(s) == s.approved
    && (forall k :: 0 <= k < |s.approved| ==> s.approved[k].approved)
  }

  lemma InitialWellFormed()
    ensures WellFormed(Initial())
  {
  }

  /** Admission, whether the part is accepted or refused, keeps the picture. */
  lemma AddPreservesWellFormed(s: State, p: Part)
    requires WellFormed(s)
    ensures WellFormed(Admit(s, p))
  {
  }

  /** In a well-formed record the box layout is fixed by the number of approved parts. */
  lemma WellFormedLayout(s: State)
    requires WellFormed(s)
    ensures |s.closedBoxes| == |s.approved| / Capacity
    ensures |s.activeBox.parts| == |s.approved| % Capacity
    ensures s.boxCounter == |s.approved| / Capacity + 1
    ensures s.activeBox.parts == s.approved[Capacity * |s.closedBoxes|..]
    ensures forall b :: 0 <= b < |s.closedBoxes| ==>
              s.closedBoxes[b].parts == s.approved[Capacity * b..Capacity * b + Capacity]
  {
    FlattenFull(s.closedBoxes);
  }

  /** The record after admitting `ps`, one after another, into `s`. */
  function AddAll(s: State, ps: seq<Part>): State
  {
    if ps == [] then s else Admit(AddAll(s, ps[..|ps| - 1]), ps[|ps| - 1])
  }

  /** One admission of an approved part into a well-formed record. */
  lemma AdmitOne(s: State, p: Part)
    requires WellFormed(s) && p.approved
    ensures WellFormed(Admit(s, p))
    ensures Admit(s, p).approved == s.approved + [p]
    ensures Admit(s, p).rejected == s.rejected
  {
    AddPreservesWellFormed(s, p);
  }

  /** Admitting only approved parts into a fresh system keeps them all, in order, and the picture holds. */
  lemma {:induction false} AdmitApproved(ps: seq<Part>)
    requires forall k :: 0 <= k < |ps| ==> ps[k].approved
    ensures WellFormed(AddAll(Initial(), ps))
    ensures AddAll(Initial(), ps).approved == ps
    ensures AddAll(Initial(), ps).rejected == []
  {
    if ps == [] {
      InitialWellFormed();
    } else {
      var init, last := ps[..|ps| - 1], ps[|ps| - 1];
      AdmitApproved(init);
      var prev := AddAll(Initial(), init);
      AdmitOne(prev, last);
      assert init + [last] == ps;
    }
  }

  /**
   * After `n` approved parts: `n / 10` closed boxes, numbered from 1, box `b`
   * holding the parts admitted in positions 10b..10b+9; the remaining
   * `n % 10` parts in the active box; and the counter at `n / 10 + 1`.
   */
  lemma AdmittedLayout(ps: seq<Part>)
    requires forall k :: 0 <= k < |ps| ==> ps[k].approved
    ensures var s := AddAll(Initial(), ps);
            && |s.closedBoxes| == |ps| / Capacity
            && s.boxCounter == |ps| / Capacity + 1
            && s.activeBox == Box(|ps| / Capacity + 1, ps[Capacity * (|ps| / Capacity)..], false)
            && (forall b :: 0 <= b < |s.closedBoxes| ==>
                  s.closedBoxes[b] == Box(b + 1, ps[Capacity * b..Capacity * b + Capacity], true))
  {
    AdmitApproved(ps);
    WellFormedLayout(AddAll(Initial(), ps));
  }

  // ---------------------------------------------------------------- removal

  predicate UniqueIds(parts: seq<Part>)
  {
    forall i, j :: 0 <= i < j < |parts| ==> parts[i].id != parts[j].id
  }

  /** With distinct identifiers, taking out a part takes out its identifier. */
  lemma RemoveAtUnique(parts: seq<Part>, i: nat)
    requires UniqueIds(parts) && i < |parts|
    ensures !HasId(RemoveAt(parts, i), parts[i].id)
  {
    var r := RemoveAt(parts, i);
    forall k | 0 <= k < |r| ensures r[k].id != parts[i].id {
      if k < i {
        assert r[k] == parts[k];
      } else {
        assert r[k] == parts[k + 1];
      }
    }
  }

  /** When identifiers are distinct across both lists, a second removal of the same identifier fails. */
  lemma RemoveTwice(s: State, id: string)
    requires UniqueIds(s.approved + s.rejected)
    ensures !Found(Removal(s, id), id)
  {
    var all := s.approved + s.rejected;
    var next := Removal(s, id);
    assert UniqueIds(s.approved) by {
      forall i, j | 0 <= i < j < |s.approved| ensures s.approved[i].id != s.approved[j].id {
        assert all[i] == s.approved[i] && all[j] == s.approved[j];
      }
    }
    assert UniqueIds(s.rejected) by {
      forall i, j | 0 <= i < j < |s.rejected| ensures s.rejected[i].id != s.rejected[j].id {
        assert all[|s.approved| + i] == s.rejected[i] && all[|s.approved| + j] == s.rejected[j];
      }
    }
    if HasId(s.approved, id) {
      var i := FindPart(s.approved, id).value;
      RemoveAtUnique(s.approved, i);
      forall k | 0 <= k < |s.rejected| ensures s.rejected[k].id != id {
        assert all[i] == s.approved[i] && all[|s.approved| + k] == s.rejected[k];
      }
    } else if HasId(s.rejected, id) {
      RemoveAtUnique(s.rejected, FindPart(s.rejected, id).value);
    }
  }

  /**
   * Removal takes a part out of at most one box: the active box when it holds
   * the identifier, otherwise only the first closed box holding it, and no box
   * at all when no approved part carries the identifier.
   */
  lemma RemovalTouchesAtMostOneBox(s: State, id: string)
    ensures !HasId(s.approved, id) ==>
              Removal(s, id).activeBox == s.activeBox && Removal(s, id).closedBoxes == s.closedBoxes
    ensures Removal(s, id).activeBox != s.activeBox ==> Removal(s, id).closedBoxes == s.closedBoxes
    ensures forall b :: 0 <= b < |s.closedBoxes| && Removal(s, id).closedBoxes[b] != s.closedBoxes[b] ==>
              !HasId(s.activeBox.parts, id) && FindBox(s.closedBoxes, id) == Some(b)
  {
    var next := Removal(s, id);
    if HasId(s.approved, id) && !HasId(s.activeBox.parts, id) {
      match FindBox(s.closedBoxes, id)
      case Some(b) =>
        forall c | 0 <= c < |s.closedBoxes| && next.closedBoxes[c] != s.closedBoxes[c] ensures c == b {
        }
      case None =>
    }
  }

  /**
   * Where removal takes the part out of a box: the first match in the active
   * box; failing that, the first match in the first closed box holding the
   * identifier; failing that, no box at all.
   */
  lemma RemovalFromBoxes(s: State, id: string)
    ensures HasId(s.approved, id) && HasId(s.activeBox.parts, id) ==>
              && Removal(s, id).activeBox.parts == RemoveAt(s.activeBox.parts, FindPart(s.activeBox.parts, id).value)
              && Removal(s, id).closedBoxes == s.closedBoxes
    ensures HasId(s.approved, id) && !HasId(s.activeBox.parts, id) && FindBox(s.closedBoxes, id).Some? ==>
              var b := FindBox(s.closedBoxes, id).value;
              var box := s.closedBoxes[b];
              && Removal(s, id).activeBox == s.activeBox
              && Removal(s, id).closedBoxes == s.closedBoxes[b := box.(parts := RemoveAt(box.parts, FindPart(box.parts, id).value))]
    ensures HasId(s.approved, id) && !HasId(s.activeBox.parts, id) && FindBox(s.closedBoxes, id).None? ==>
              Removal(s, id).activeBox == s.activeBox && Removal(s, id).closedBoxes == s.closedBoxes
  {
  }

  /** In a well-formed record every approved part is in a box, so removing one always names its box. */
  lemma ApprovedPartsAreBoxed(s: State, id: string)
    requires WellFormed(s) && HasId(s.approved, id)
    ensures HasId(s.activeBox.parts, id) || FindBox(s.closedBoxes, id).Some?
  {
    var flat := Flatten(s.closedBoxes);
    var k :| 0 <= k < |s.approved| && s.approved[k].id == id;
    if k < |flat| {
      assert flat[k].id == id;
      FlattenHasId(s.closedBoxes, id);
    } else {
      assert s.activeBox.parts[k - |flat|].id == id;
    }
  }

  /** Removing a part of the active box keeps the picture, when identifiers are distinct. */
  lemma RemoveFromActiveKeepsWellFormed(s: State, id: string)
    requires WellFormed(s) && UniqueIds(s.approved) && HasId(s.activeBox.parts, id)
    ensures WellFormed(Removal(s, id))
  {
    var flat := Flatten(s.closedBoxes);
    var active := s.activeBox.parts;
    var j := FindPart(active, id).value;
    assert s.approved[|flat| + j] == active[j];
    assert HasId(s.approved, id);
    var i := FindPart(s.approved, id).value;
    assert i == |flat| + j;
    assert RemoveAt(s.approved, i) == flat + RemoveAt(active, j);
  }

  /**
   * Removing a part that sits in a closed box leaves that box marked closed
   * with one part short of capacity, so the picture no longer holds.
   */
  lemma RemoveFromClosedBox(s: State, id: string)
    requires WellFormed(s) && HasId(s.approved, id) && !HasId(s.activeBox.parts, id)
    ensures FindBox(s.closedBoxes, id).Some?
    ensures var b := FindBox(s.closedBoxes, id).value;
            && Removal(s, id).closedBoxes[b].closed
            && |Removal(s, id).closedBoxes[b].parts| == Capacity - 1
    ensures !WellFormed(Removal(s, id))
  {
    ApprovedPartsAreBoxed(s, id);
  }

  // ---------------------------------------------------------------- messages

  /**
   * The admission message: the fixed refusal for a part that is not
   * approved; otherwise it opens with the part's identifier, says "FECHADA"
   * when the box filled, and gives the fill "n/10" when it did not.
   */
  lemma AdmissionMessage(s: State, p: Part)
    ensures !p.approved ==> AddMessage(s, p) == OnlyApprovedMessage
    ensures p.approved ==> StartsWith(AddMessage(s, p), PartWord + p.id + AddedWord)
    ensures Fills(s, p) ==> Contains(AddMessage(s, p), FullWord)
    ensures p.approved && !Fills(s, p) ==>
              Contains(AddMessage(s, p), IntText(|s.activeBox.parts| + 1) + "/" + IntText(Capacity))
  {
    if p.approved {
      var head := PartWord + p.id + AddedWord;
      var o := AddOutcome(s, p);
      assert AddMessage(s, p)[..|head|] == head;
      AdmissionOutcome(s, p);
      if Fills(s, p) {
        ContainsSuffix(head, o, FullWord);
      } else {
        ContainsSuffix(head, o, IntText(|s.activeBox.parts| + 1) + "/" + IntText(Capacity));
      }
    }
  }

  /** What follows "adicionada" in the admission message: "FECHADA" when the box fills, the fill otherwise. */
  lemma AdmissionOutcome(s: State, p: Part)
    ensures |s.activeBox.parts| + 1 >= Capacity ==> Contains(AddOutcome(s, p), FullWord)
    ensures |s.activeBox.parts| + 1 < Capacity ==>
              Contains(AddOutcome(s, p), IntText(|s.activeBox.parts| + 1) + "/" + IntText(Capacity))
  {
    var n := |s.activeBox.parts| + 1;
    var o := AddOutcome(s, p);
    if n >= Capacity {
      var before := ". 📦 Caixa #" + IntText(n - 1) + " ";
      var after := " (10 peças completas). 🆕 Caixa #" + IntText(s.boxCounter + 1) + " iniciada";
      assert o == before + FullWord + after;
      Infix(before, FullWord, after);
    } else {
      var before := " à Caixa #" + IntText(s.activeBox.id) + " (";
      var fill := IntText(n) + "/" + IntText(Capacity);
      assert o == before + fill + " peças)";
      Infix(before, fill, " peças)");
    }
  }

  /**
   * The removal message names the identifier right after "Peça ", and goes
   * on with " removida" exactly when the part was found; otherwise it says
   * the part was not found.
   */
  lemma RemovalMessage(s: State, id: string)
    ensures HasAt(RemoveMessage(s, id), id, |PartWord|)
    ensures Found(s, id) <==> HasAt(RemoveMessage(s, id), RemovedWord, |PartWord| + |id|)
    ensures !Found(s, id) ==> HasAt(RemoveMessage(s, id), NotFoundWord, |PartWord| + |id|)
  {
    var o := RemoveOutcome(s, id);
    RemovalOutcome(s, id);
    Infix(PartWord, id, o);
    HasAtAfter(PartWord + id, o, RemovedWord);
    HasAtAfter(PartWord + id, o, NotFoundWord);
    if !Found(s, id) {
      NotRemoved(o);
    }
  }

  /** A part taken from a closed box is reported with that box's number. */
  lemma ClosedBoxRemovalMessage(s: State, id: string)
    requires HasId(s.approved, id) && !HasId(s.activeBox.parts, id) && FindBox(s.closedBoxes, id).Some?
    ensures Contains(RemoveMessage(s, id), BoxWord + IntText(s.closedBoxes[FindBox(s.closedBoxes, id).value].id))
  {
    RemovalOutcome(s, id);
    ContainsSuffix(PartWord + id, RemoveOutcome(s, id), BoxWord + IntText(s.closedBoxes[FindBox(s.closedBoxes, id).value].id));
  }

  /** The not-found text does not begin the way a removal does. */
  lemma NotRemoved(o: string)
    requires o == NotFoundWord
    ensures !StartsWith(o, RemovedWord)
  {
    assert |RemovedWord| <= |o| && o[1] == 'n';
    assert o[..|RemovedWord|][1] == 'n' != RemovedWord[1];
  }

  /** What follows the identifier in the removal message, case by case. */
  lemma RemovalOutcome(s: State, id: string)
    ensures Found(s, id) ==> StartsWith(RemoveOutcome(s, id), RemovedWord)
    ensures !Found(s, id) ==> RemoveOutcome(s, id) == NotFoundWord
    ensures HasId(s.approved, id) && !HasId(s.activeBox.parts, id) && FindBox(s.closedBoxes, id).Some? ==>
              Contains(RemoveOutcome(s, id), BoxWord + IntText(s.closedBoxes[FindBox(s.closedBoxes, id).value].id))
  {
    var o := RemoveOutcome(s, id);
    if Found(s, id) {
      var rest := o[|RemovedWord|..];
      if HasId(s.approved, id) {
        if HasId(s.activeBox.parts, id) {
          assert o == RemovedWord + " da caixa atual";
        } else if FindBox(s.closedBoxes, id).Some? {
          assert o == RemovedWord + (" da " + (BoxWord + IntText(s.closedBoxes[FindBox(s.closedBoxes, id).value].id)));
        } else {
          assert o == RemovedWord + " (aprovada)";
        }
      } else {
        assert o == RemovedWord + " (reprovada)";
      }
      assert o[..|RemovedWord|] == RemovedWord;
    }
    if HasId(s.approved, id) && !HasId(s.activeBox.parts, id) && FindBox(s.closedBoxes, id).Some? {
      var named := BoxWord + IntText(s.closedBoxes[FindBox(s.closedBoxes, id).value].id);
      assert o == RemovedWord + " da " + named + [];
      Infix(RemovedWord + " da ", named, []);
    }
  }
}
