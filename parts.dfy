/** A manufactured part and its inspection outcome (models/peca.py). */
module Parts {
  import opened Optional

  /**
   * One inspected unit: identifier, weight in grams, colour, length in
   * centimetres, the approval flag and the ordered rejection reasons.
   */
  datatype Part = Part(
    id: string,
    weight: real,
    colour: string,
    length: real,
    approved: bool,
    reasons: seq<string>)

  /**
   * The part factory: the four measurements are stored as given, the approval
   * flag defaults to false and a missing reason list becomes the empty list.
   */
  function NewPart(id: string, weight: real, colour: string, length: real,
                   approved: bool := false, reasons: Option<seq<string>> := None): (p: Part)
    ensures p.id == id && p.weight == weight && p.colour == colour && p.length == length
    ensures p.approved == approved
    ensures reasons.None? ==> p.reasons == []
    ensures reasons.Some? ==> p.reasons == reasons.value
  {
    Part(id, weight, colour, length, approved,
         if reasons.Some? && reasons.value != [] then reasons.value else [])
  }
}
