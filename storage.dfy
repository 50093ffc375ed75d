/**
 * The storage engine (services/armazenamento.py): approved parts are packed
 * into the active box, which is closed and replaced when it reaches capacity;
 * parts are removed by identifier from wherever they are first found.
 *
 * Pure functions on a `State` value specify the two operations: the new
 * record (`Admit`, `Removal`), the flag (`Fills`, `Found`) and the message
 * (`AddMessage`, `RemoveMessage`). The class `StorageSystem` holds the record
 * that the source mutates in place, and its methods are proved to follow
 * those functions.
 */
module Storage {
  import opened Optional
  import opened Text
  import opened Parts
  import opened Boxes

  /** The system record: approved parts, rejected parts, closed boxes, the active box and the box counter. */
  datatype State = State(
    approved: seq<Part>,
    rejected: seq<Part>,
    closedBoxes: seq<Box>,
    activeBox: Box,
    boxCounter: int)

  /** The record `inicializar_sistema` builds: nothing stored, box 1 open, counter 1. */
  function Initial(): State
  {
    State([], [], [], NewBox(1), 1)
  }

  // ---------------------------------------------------------------- sequences

  function RemoveAt<T>(s: seq<T>, i: nat): (r: seq<T>)
    requires i < |s|
    ensures |r| == |s| - 1
    ensures forall k :: 0 <= k < i ==> r[k] == s[k]
    ensures forall k :: i <= k < |r| ==> r[k] == s[k + 1]
  {
    s[..i] + s[i + 1..]
  }

  predicate HasId(parts: seq<Part>, id: string)
  {
    exists k :: 0 <= k < |parts| && parts[k].id == id
  }

  /** The position of the first part carrying `id`, the way the source's `enumerate` loops find it. */
  function FindPart(parts: seq<Part>, id: string): (r: Option<nat>)
    ensures r.Some? ==> r.value < |parts| && parts[r.value].id == id
    ensures r.Some? ==> forall k :: 0 <= k < r.value ==> parts[k].id != id
    ensures r.None? <==> !HasId(parts, id)
  {
    if parts == [] then None
    else if parts[0].id == id then Some(0)
    else
      match FindPart(parts[1..], id)
      case None => None
      case Some(i) => Some(i + 1)
  }

  /** A position holding `id` with none before it is the one `FindPart` finds. */
  lemma {:induction false} FindPartFirst(parts: seq<Part>, id: string, i: nat)
    requires i < |parts| && parts[i].id == id
    requires forall k :: 0 <= k < i ==> parts[k].id != id
    ensures FindPart(parts, id) == Some(i)
  {
    if i > 0 {
      FindPartFirst(parts[1..], id, i - 1);
    }
  }

  /** The position of the first box holding a part that carries `id`. */
  function FindBox(boxes: seq<Box>, id: string): (r: Option<nat>)
    ensures r.Some? ==> r.value < |boxes| && HasId(boxes[r.value].parts, id)
    ensures r.Some? ==> forall b :: 0 <= b < r.value ==> !HasId(boxes[b].parts, id)
    ensures r.None? <==> forall b :: 0 <= b < |boxes| ==> !HasId(boxes[b].parts, id)
  {
    if boxes == [] then None
    else if FindPart(boxes[0].parts, id).Some? then Some(0)
    else
      match FindBox(boxes[1..], id)
      case None => None
      case Some(b) => Some(b + 1)
  }

  /** A box holding `id` with none before it is the one `FindBox` finds. */
  lemma {:induction false} FindBoxFirst(boxes: seq<Box>, id: string, b: nat)
    requires b < |boxes| && HasId(boxes[b].parts, id)
    requires forall c :: 0 <= c < b ==> !HasId(boxes[c].parts, id)
    ensures FindBox(boxes, id) == Some(b)
  {
    if b > 0 {
      FindBoxFirst(boxes[1..], id, b - 1);
    }
  }

  /** All parts held by the given boxes, box after box. */
  function Flatten(boxes: seq<Box>): seq<Part>
  {
    if boxes == [] then [] else Flatten(boxes[..|boxes| - 1]) + boxes[|boxes| - 1].parts
  }

  /** Every part held in a box, closed boxes first, then the active box. */
  function Boxed(s: State): seq<Part>
  {
    Flatten(s.closedBoxes) + s.activeBox.parts
  }

  // ---------------------------------------------------------------- admission

  const OnlyApprovedMessage: string := "Apenas peças aprovadas podem ser armazenadas em caixas"

  // The fixed pieces of the messages, named so that lemmas can say where they appear.
  const PartWord: string := "Peça "
  const AddedWord: string := " adicionada"
  const FullWord: string := "FECHADA"
  const RemovedWord: string := " removida"
  const BoxWord: string := "Caixa #"
  const NotFoundWord: string := " não encontrada no sistema"

  /** Whether admitting `p` fills the active box: the flag `adicionar_peca_em_caixa` returns. */
  predicate Fills(s: State, p: Part)
  {
    p.approved && |s.activeBox.parts| + 1 >= Capacity
  }

  /**
   * The record after `adicionar_peca_em_caixa`: a rejected part changes
   * nothing; an approved part is appended to the active box and to the
   * approved list, and a box that reaches capacity is closed, filed, and
   * replaced by a new empty box numbered by the incremented counter.
   */
  function Admit(s: State, p: Part): (next: State)
    ensures !p.approved ==> next == s
    ensures p.approved ==> next.approved == s.approved + [p] && next.rejected == s.rejected
    ensures p.approved ==> Boxed(next) == Boxed(s) + [p]
    ensures |s.closedBoxes| <= |next.closedBoxes| && next.closedBoxes[..|s.closedBoxes|] == s.closedBoxes
    ensures |next.closedBoxes| == |s.closedBoxes| + (if Fills(s, p) then 1 else 0)
    ensures Fills(s, p) ==> next.closedBoxes[|s.closedBoxes|] == Box(s.activeBox.id, s.activeBox.parts + [p], true)
    ensures Fills(s, p) ==> next.boxCounter == s.boxCounter + 1 && next.activeBox == NewBox(next.boxCounter)
    ensures !Fills(s, p) ==> next.boxCounter == s.boxCounter && next.activeBox.id == s.activeBox.id
    ensures !Fills(s, p) ==> next.activeBox.closed == s.activeBox.closed
    ensures |s.activeBox.parts| < Capacity ==> |next.activeBox.parts| < Capacity
  {
    if !p.approved then s
    else
      var box := s.activeBox.(parts := s.activeBox.parts + [p]);
      var approved := s.approved + [p];
      if |box.parts| >= Capacity then
        var counter := s.boxCounter + 1;
        var next := State(approved, s.rejected, s.closedBoxes + [box.(closed := true)], NewBox(counter), counter);
        assert Flatten(next.closedBoxes) == Flatten(s.closedBoxes) + box.parts by {
          assert next.closedBoxes[..|next.closedBoxes| - 1] == s.closedBoxes;
        }
        next
      else
        State(approved, s.rejected, s.closedBoxes, box, s.boxCounter)
  }

  /**
   * The message `adicionar_peca_em_caixa` returns. On closing, the box
   * number it prints is the part count minus one (9), not the number of the
   * box that closed.
   */
  function AddMessage(s: State, p: Part): string
  {
    if !p.approved then OnlyApprovedMessage else PartWord + p.id + AddedWord + AddOutcome(s, p)
  }

  /** What the admission message says after the part: the box that closed and opened, or the fill. */
  function AddOutcome(s: State, p: Part): string
  {
    var n := |s.activeBox.parts| + 1;
    if n >= Capacity then
      ". 📦 Caixa #" + IntText(n - 1) + " " + FullWord
      + " (10 peças completas). 🆕 Caixa #" + IntText(s.boxCounter + 1) + " iniciada"
    else
      " à Caixa #" + IntText(s.activeBox.id) + " (" + (IntText(n) + "/" + IntText(Capacity)) + " peças)"
  }

  // ---------------------------------------------------------------- removal

  /** Whether some approved or rejected part carries `id`: the flag `remover_peca_por_id` returns. */
  predicate Found(s: State, id: string)
  {
    HasId(s.approved, id) || HasId(s.rejected, id)
  }

  /**
   * The record after `remover_peca_por_id`: the first approved part carrying
   * `id` is removed, together with the first such part in the active box or,
   * failing that, in the first closed box holding one (which stays marked
   * closed); otherwise the first rejected part carrying `id` is removed;
   * otherwise nothing changes.
   */
  function Removal(s: State, id: string): (next: State)
    ensures !Found(s, id) ==> next == s
    ensures |next.approved| + |next.rejected| == |s.approved| + |s.rejected| - (if Found(s, id) then 1 else 0)
    ensures HasId(s.approved, id) ==>
              next.approved == RemoveAt(s.approved, FindPart(s.approved, id).value) && next.rejected == s.rejected
    ensures !HasId(s.approved, id) && HasId(s.rejected, id) ==>
              next.rejected == RemoveAt(s.rejected, FindPart(s.rejected, id).value)
    ensures !HasId(s.approved, id) ==> next.approved == s.approved && Boxed(next) == Boxed(s)
    ensures next.boxCounter == s.boxCounter && next.activeBox.id == s.activeBox.id
    ensures next.activeBox.closed == s.activeBox.closed
    ensures |next.closedBoxes| == |s.closedBoxes|
    ensures forall b :: 0 <= b < |s.closedBoxes| ==>
              next.closedBoxes[b].id == s.closedBoxes[b].id && next.closedBoxes[b].closed == s.closedBoxes[b].closed
  {
    match FindPart(s.approved, id)
    case Some(i) =>
      var approved := RemoveAt(s.approved, i);
      (match FindPart(s.activeBox.parts, id)
       case Some(j) =>
         s.(approved := approved, activeBox := s.activeBox.(parts := RemoveAt(s.activeBox.parts, j)))
       case None =>
         match FindBox(s.closedBoxes, id)
         case Some(b) =>
           var box := s.closedBoxes[b];
           s.(approved := approved, closedBoxes := s.closedBoxes[b := box.(parts := RemoveAt(box.parts, FindPart(box.parts, id).value))])
         case None =>
           s.(approved := approved))
    case None =>
      match FindPart(s.rejected, id)
      case Some(i) => s.(rejected := RemoveAt(s.rejected, i))
      case None => s
  }

  /** The message `remover_peca_por_id` returns: the part, then where it was found or that it was not. */
  function RemoveMessage(s: State, id: string): string
  {
    PartWord + id + RemoveOutcome(s, id)
  }

  function RemoveOutcome(s: State, id: string): string
  {
    if HasId(s.approved, id) then
      if HasId(s.activeBox.parts, id) then RemovedWord + " da caixa atual"
      else match FindBox(s.closedBoxes, id)
        case Some(b) => RemovedWord + " da " + (BoxWord + IntText(s.closedBoxes[b].id))
        case None => RemovedWord + " (aprovada)"
    else if HasId(s.rejected, id) then RemovedWord + " (reprovada)"
    else NotFoundWord
  }

  // ---------------------------------------------------------------- the mutable record

  /** The record that `inicializar_sistema` creates and the two operations mutate in place. */
  class StorageSystem {
    var approved: seq<Part>
    var rejected: seq<Part>
    var closedBoxes: seq<Box>
    var activeBox: Box
    var boxCounter: int

    function Value(): State
      reads this
    {
      State(approved, rejected, closedBoxes, activeBox, boxCounter)
    }

    /** `inicializar_sistema` */
    constructor ()
      ensures Value() == Initial()
    {
      approved := [];
      rejected := [];
      closedBoxes := [];
      activeBox := NewBox(1);
      boxCounter := 1;
    }

    /** `adicionar_peca_em_caixa` */
    method AddPartToBox(p: Part) returns (closed: bool, message: string)
      modifies this
      ensures Value() == Admit(old(Value()), p)
      ensures closed == Fills(old(Value()), p)
      ensures message == AddMessage(old(Value()), p)
    {
      ghost var s := Value();
      if !p.approved {
        return false, OnlyApprovedMessage;
      }
      activeBox := activeBox.(parts := activeBox.parts + [p]);
      approved := approved + [p];
      var n := |activeBox.parts|;
      if n >= Capacity {
        activeBox := activeBox.(closed := true);
        closedBoxes := closedBoxes + [activeBox];
        boxCounter := boxCounter + 1;
        activeBox := NewBox(boxCounter);
        message := PartWord + p.id + AddedWord + (". 📦 Caixa #" + IntText(n - 1)
                   + " " + FullWord + " (10 peças completas). 🆕 Caixa #" + IntText(boxCounter) + " iniciada");
        assert Value() == State(s.approved + [p], s.rejected,
                                s.closedBoxes + [Box(s.activeBox.id, s.activeBox.parts + [p], true)],
                                NewBox(s.boxCounter + 1), s.boxCounter + 1);
        return true, message;
      }
      message := PartWord + p.id + AddedWord + (" à Caixa #" + IntText(activeBox.id)
                 + " (" + (IntText(n) + "/" + IntText(Capacity)) + " peças)");
      assert Value() == State(s.approved + [p], s.rejected, s.closedBoxes,
                              s.activeBox.(parts := s.activeBox.parts + [p]), s.boxCounter);
      return false, message;
    }

    /** `remover_peca_por_id` */
    method RemovePartById(id: string) returns (found: bool, message: string)
      modifies this
      ensures Value() == Removal(old(Value()), id)
      ensures found == Found(old(Value()), id)
      ensures message == RemoveMessage(old(Value()), id)
    {
      var i := 0;
      while i < |approved|
        invariant 0 <= i <= |approved|
        invariant Value() == old(Value())
        invariant forall k :: 0 <= k < i ==> approved[k].id != id
      {
        if approved[i].id == id {
          approved := RemoveAt(approved, i);
          var j := 0;
          while j < |activeBox.parts|
            invariant 0 <= j <= |activeBox.parts|
            invariant activeBox == old(activeBox) && closedBoxes == old(closedBoxes)
            invariant forall k :: 0 <= k < j ==> activeBox.parts[k].id != id
          {
            if activeBox.parts[j].id == id {
              FindPartFirst(old(approved), id, i);
              FindPartFirst(activeBox.parts, id, j);
              activeBox := activeBox.(parts := RemoveAt(activeBox.parts, j));
              return true, PartWord + id + (RemovedWord + " da caixa atual");
            }
            j := j + 1;
          }
          var b := 0;
          while b < |closedBoxes|
            invariant 0 <= b <= |closedBoxes|
            invariant closedBoxes == old(closedBoxes)
            invariant forall c :: 0 <= c < b ==> !HasId(closedBoxes[c].parts, id)
          {
            var box := closedBoxes[b];
            j := 0;
            while j < |box.parts|
              invariant 0 <= j <= |box.parts|
              invariant forall k :: 0 <= k < j ==> box.parts[k].id != id
            {
              if box.parts[j].id == id {
                FindPartFirst(old(approved), id, i);
                FindPartFirst(box.parts, id, j);
                assert HasId(box.parts, id);
                assert FindBox(closedBoxes, id) == Some(b) by {
                  FindBoxFirst(closedBoxes, id, b);
                }
                closedBoxes := closedBoxes[b := box.(parts := RemoveAt(box.parts, j))];
                return true, PartWord + id + (RemovedWord + " da " + (BoxWord + IntText(box.id)));
              }
              j := j + 1;
            }
            b := b + 1;
          }
          return true, PartWord + id + (RemovedWord + " (aprovada)");
        }
        i := i + 1;
      }
      i := 0;
      while i < |rejected|
        invariant 0 <= i <= |rejected|
        invariant Value() == old(Value())
        invariant forall k :: 0 <= k < i ==> rejected[k].id != id
      {
        if rejected[i].id == id {
          FindPartFirst(rejected, id, i);
          rejected := RemoveAt(rejected, i);
          return true, PartWord + id + (RemovedWord + " (reprovada)");
        }
        i := i + 1;
      }
      return false, PartWord + id + NotFoundWord;
    }
  }
}
