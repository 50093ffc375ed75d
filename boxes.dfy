/** A fixed-capacity container of approved parts (models/caixa.py). */
module Boxes {
  import opened Parts

  /** How many parts a box holds before it is closed. */
  const Capacity: nat := 10

  /** A box: its number, the parts in arrival order, and whether it was closed. */
  datatype Box = Box(id: int, parts: seq<Part>, closed: bool)

  /** The box factory: a new box with the given number is empty and open. */
  function NewBox(id: int): (b: Box)
    ensures b.id == id && b.parts == [] && !b.closed
  {
    Box(id, [], false)
  }
}
