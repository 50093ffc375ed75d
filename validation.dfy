/**
 * The quality criteria (services/validacao.py): a part is approved when its
 * weight, colour and length are all acceptable; every failed criterion
 * contributes one reason, in the order weight, colour, length.
 */
module Validation {
  import opened Text
  import opened Parts

  const WeightMin: real := 95.0
  const WeightMax: real := 105.0
  const AcceptedColours: seq<string> := ["azul", "verde"]
  const LengthMin: real := 10.0
  const LengthMax: real := 20.0

  const WeightPrefix: string := "Peso fora do intervalo"
  const ColourPrefix: string := "Cor inadequada"
  const LengthPrefix: string := "Comprimento fora do intervalo"

  /** The verdict of one criterion: whether it holds, and the message when it does not. */
  datatype Check = Check(valid: bool, message: string)

  // ---------------------------------------------------------------- reasons

  /** The rejection message for a weight outside [95.0, 105.0]. */
  function WeightReason(weight: real): (r: string)
    ensures StartsWith(r, WeightPrefix)
  {
    WeightPrefix + " (95.0-105.0g): " + RealText(weight) + "g"
  }

  /** The rejection message for an unaccepted colour; it quotes the colour exactly as given. */
  function ColourReason(colour: string): (r: string)
    ensures StartsWith(r, ColourPrefix)
    ensures |colour| <= |r| && r[|r| - |colour|..] == colour
  {
    ColourPrefix + " (esperado: " + Join(AcceptedColours, " ou ") + "): " + colour
  }

  /** The rejection message for a length outside [10.0, 20.0]. */
  function LengthReason(length: real): (r: string)
    ensures StartsWith(r, LengthPrefix)
  {
    LengthPrefix + " (10.0-20.0cm): " + RealText(length) + "cm"
  }

  /** The accepted colours as the colour rejection lists them. */
  lemma AcceptedColoursText()
    ensures Join(AcceptedColours, " ou ") == "azul ou verde"
  {
    assert AcceptedColours[1..] == ["verde"];
  }

  /** The colour rejection names both accepted colours and quotes the colour. */
  lemma ColourReasonNamesAcceptedColours(colour: string)
    ensures ColourReason(colour) == ColourPrefix + " (esperado: " + "azul ou verde" + "): " + colour
  {
    AcceptedColoursText();
  }

  // ---------------------------------------------------------------- criteria

  /** `validar_peso` */
  function CheckWeight(weight: real): (r: Check)
    ensures r.valid <==> WeightMin <= weight <= WeightMax
    ensures r.message == "" <==> r.valid
    ensures !r.valid ==> r.message == WeightReason(weight)
  {
    if WeightMin <= weight <= WeightMax then Check(true, "")
    else Check(false, WeightReason(weight))
  }

  /** The colour as it is compared: `cor.lower().strip()`. */
  function NormalColour(colour: string): string
  {
    Strip(Lower(colour))
  }

  /** `validar_cor` */
  function CheckColour(colour: string): (r: Check)
    ensures r.valid <==> NormalColour(colour) == "azul" || NormalColour(colour) == "verde"
    ensures r.message == "" <==> r.valid
    ensures !r.valid ==> r.message == ColourReason(colour)
  {
    if NormalColour(colour) in AcceptedColours then Check(true, "")
    else Check(false, ColourReason(colour))
  }

  /** `validar_comprimento` */
  function CheckLength(length: real): (r: Check)
    ensures r.valid <==> LengthMin <= length <= LengthMax
    ensures r.message == "" <==> r.valid
    ensures !r.valid ==> r.message == LengthReason(length)
  {
    if LengthMin <= length <= LengthMax then Check(true, "")
    else Check(false, LengthReason(length))
  }

  // ---------------------------------------------------------------- the whole part

  /** The three criteria, in the order in which they are checked. */
  datatype Criterion = WeightCriterion | ColourCriterion | LengthCriterion

  /** Whether a part meets one criterion, stated directly on its measurements. */
  predicate Meets(p: Part, c: Criterion)
  {
    match c
    case WeightCriterion => 95.0 <= p.weight <= 105.0
    case ColourCriterion => NormalColour(p.colour) == "azul" || NormalColour(p.colour) == "verde"
    case LengthCriterion => 10.0 <= p.length <= 20.0
  }

  /** The message that a failed criterion contributes. */
  function ReasonFor(p: Part, c: Criterion): string
  {
    match c
    case WeightCriterion => WeightReason(p.weight)
    case ColourCriterion => ColourReason(p.colour)
    case LengthCriterion => LengthReason(p.length)
  }

  /** The position of a criterion in the checking order. */
  function Rank(c: Criterion): nat
  {
    match c
    case WeightCriterion => 0
    case ColourCriterion => 1
    case LengthCriterion => 2
  }

  predicate InCheckingOrder(cs: seq<Criterion>)
  {
    forall i, j :: 0 <= i < j < |cs| ==> Rank(cs[i]) < Rank(cs[j])
  }

  /** The criteria whose flag is false, in checking order. */
  function Unmet(weightOk: bool, colourOk: bool, lengthOk: bool): (fs: seq<Criterion>)
    ensures WeightCriterion in fs <==> !weightOk
    ensures ColourCriterion in fs <==> !colourOk
    ensures LengthCriterion in fs <==> !lengthOk
    ensures InCheckingOrder(fs)
  {
    (if weightOk then [] else [WeightCriterion])
    + (if colourOk then [] else [ColourCriterion])
    + (if lengthOk then [] else [LengthCriterion])
  }

  /** The criteria a part fails, in checking order. */
  function Failed(p: Part): (fs: seq<Criterion>)
    ensures WeightCriterion in fs <==> !Meets(p, WeightCriterion)
    ensures ColourCriterion in fs <==> !Meets(p, ColourCriterion)
    ensures LengthCriterion in fs <==> !Meets(p, LengthCriterion)
    ensures InCheckingOrder(fs)
  {
    Unmet(Meets(p, WeightCriterion), Meets(p, ColourCriterion), Meets(p, LengthCriterion))
  }

  /** The messages whose flag is false, in checking order: how `validar_peca` collects its reasons. */
  function Collect(weightOk: bool, colourOk: bool, lengthOk: bool,
                   weightMsg: string, colourMsg: string, lengthMsg: string): seq<string>
  {
    (if weightOk then [] else [weightMsg])
    + (if colourOk then [] else [colourMsg])
    + (if lengthOk then [] else [lengthMsg])
  }

  /** Picks the message that belongs to a criterion. */
  function Pick(c: Criterion, weightMsg: string, colourMsg: string, lengthMsg: string): string
  {
    match c
    case WeightCriterion => weightMsg
    case ColourCriterion => colourMsg
    case LengthCriterion => lengthMsg
  }

  /** Collecting messages lines up, position by position, with the unmet criteria. */
  lemma CollectLinesUp(w: bool, c: bool, l: bool, mw: string, mc: string, ml: string)
    ensures |Collect(w, c, l, mw, mc, ml)| == |Unmet(w, c, l)|
    ensures forall i :: 0 <= i < |Unmet(w, c, l)| ==>
              Collect(w, c, l, mw, mc, ml)[i] == Pick(Unmet(w, c, l)[i], mw, mc, ml)
  {
  }

  /** The result of `validar_peca`: the approval flag and the reasons, in order. */
  datatype Verdict = Verdict(approved: bool, reasons: seq<string>)

  /** `validar_peca`: approval exactly when every criterion holds, and then no reasons. */
  function Validate(p: Part): (v: Verdict)
    ensures v.approved <==> v.reasons == []
    ensures v.approved <==> Meets(p, WeightCriterion) && Meets(p, ColourCriterion) && Meets(p, LengthCriterion)
  {
    var weight := CheckWeight(p.weight);
    var colour := CheckColour(p.colour);
    var length := CheckLength(p.length);
    var reasons := Collect(weight.valid, colour.valid, length.valid,
                           weight.message, colour.message, length.message);
    Verdict(|reasons| == 0, reasons)
  }

  /**
   * The reasons of `validar_peca` are one message per failed criterion, in the
   * checking order weight, colour, length.
   */
  lemma ReasonsFollowFailedCriteria(p: Part)
    ensures |Validate(p).reasons| == |Failed(p)|
    ensures forall i :: 0 <= i < |Failed(p)| ==> Validate(p).reasons[i] == ReasonFor(p, Failed(p)[i])
  {
    var weight := CheckWeight(p.weight);
    var colour := CheckColour(p.colour);
    var length := CheckLength(p.length);
    var reasons := Validate(p).reasons;
    assert reasons == Collect(weight.valid, colour.valid, length.valid,
                              weight.message, colour.message, length.message);
    assert Failed(p) == Unmet(weight.valid, colour.valid, length.valid);
    CollectLinesUp(weight.valid, colour.valid, length.valid,
                   weight.message, colour.message, length.message);
    forall i | 0 <= i < |Failed(p)| ensures reasons[i] == ReasonFor(p, Failed(p)[i]) {
      var c := Failed(p)[i];
      assert c in Failed(p);
      match c
      case WeightCriterion => assert weight.message == WeightReason(p.weight);
      case ColourCriterion => assert colour.message == ColourReason(p.colour);
      case LengthCriterion => assert length.message == LengthReason(p.length);
    }
  }

  // ---------------------------------------------------------------- colour normalisation

  /** Whitespace around the colour never changes its verdict. */
  lemma ColourIgnoresPadding(a: string, colour: string, b: string)
    requires AllSpace(a) && AllSpace(b)
    ensures CheckColour(a + colour + b).valid == CheckColour(colour).valid
  {
    LowerAppend(a + colour, b);
    LowerAppend(a, colour);
    LowerSpaces(a);
    LowerSpaces(b);
    StripPadding(a, Lower(colour), b);
  }

  /** The verdict on a colour depends only on its lower-case form. */
  lemma ColourIgnoresCase(colour: string)
    ensures CheckColour(Lower(colour)).valid == CheckColour(colour).valid
  {
    LowerIdempotent(colour);
  }

  /** Case and surrounding whitespace do not matter to the colour check. */
  lemma AcceptedSpellings(upper: string, padded: string)
    requires upper == "AZUL" && padded == "  Verde  "
    ensures CheckColour(upper).valid && CheckColour(padded).valid
  {
    CapitalisedSpelling(upper, "azul");
    var word := "Verde";
    assert padded == "  " + word + "  ";
    ColourIgnoresPadding("  ", word, "  ");
    CapitalisedSpelling(word, "verde");
  }

  /** The two capitalised spellings the colour tests use normalise to the accepted words. */
  lemma CapitalisedSpelling(colour: string, word: string)
    requires (colour == "AZUL" && word == "azul") || (colour == "Verde" && word == "verde")
    ensures NormalColour(colour) == word
  {
    LowerChars(colour);
    if colour == "AZUL" {
      assert Lower(colour) == "azul";
    } else {
      assert Lower(colour) == "verde";
    }
    StripUnpadded(word);
  }

  /** Other names, plural forms and blank colours are rejected. */
  lemma RejectedSpellings(english: string, plural: string, blank: string)
    requires english == "blue" && plural == "azuis" && blank == "   "
    ensures !CheckColour(english).valid && !CheckColour(plural).valid
    ensures !CheckColour("").valid && !CheckColour(blank).valid
  {
    PlainColourIsNormal(english);
    PlainColourIsNormal(plural);
    LowerSpaces(blank);
    StripAllSpace(blank);
  }

  /** A lower-case word without surrounding whitespace is compared as it is. */
  lemma PlainColourIsNormal(colour: string)
    requires forall c | c in colour :: !IsUpper(c)
    requires colour != [] && !IsSpace(colour[0]) && !IsSpace(colour[|colour| - 1])
    ensures NormalColour(colour) == colour
  {
    NoUpperLower(colour);
    StripUnpadded(colour);
  }
}
