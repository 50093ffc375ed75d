/**
 * What the report promises: the counters add up, the classifier files every
 * reason that validation produces under its own criterion (with one
 * exception, spelled out below), and the report's sections appear exactly
 * when the record calls for them.
 */
module ReportProperties {
  import opened Text
  import opened Parts
  import opened Storage
  import opened Validation
  import opened Report

  // ---------------------------------------------------------------- counting

  lemma {:induction false} CountAppend(a: seq<string>, b: seq<string>, c: Category)
    ensures CountOf(a + b, c) == CountOf(a, c) + CountOf(b, c)
  {
    if b == [] {
      assert a + b == a;
    } else {
      var init := b[..|b| - 1];
      assert (a + b)[..|a + b| - 1] == a + init;
      assert (a + b)[|a + b| - 1] == b[|b| - 1];
      CountAppend(a, init, c);
    }
  }

  lemma {:induction false} AllReasonsAppend(ps: seq<Part>, qs: seq<Part>)
    ensures AllReasons(ps + qs) == AllReasons(ps) + AllReasons(qs)
  {
    if qs == [] {
      assert ps + qs == ps;
    } else {
      var init, last := qs[..|qs| - 1], qs[|qs| - 1];
      assert (ps + qs)[..|ps + qs| - 1] == ps + init;
      assert (ps + qs)[|ps + qs| - 1] == last;
      calc {
        AllReasons(ps + qs);
        AllReasons(ps + init) + last.reasons;
        { AllReasonsAppend(ps, init); }
        (AllReasons(ps) + AllReasons(init)) + last.reasons;
        AllReasons(ps) + (AllReasons(init) + last.reasons);
        AllReasons(ps) + AllReasons(qs);
      }
    }
  }

  /** Counting the reasons of two groups of parts is counting each group and adding up. */
  lemma TallyAdditive(ps: seq<Part>, qs: seq<Part>)
    ensures TallyOf(AllReasons(ps + qs)).weight == TallyOf(AllReasons(ps)).weight + TallyOf(AllReasons(qs)).weight
    ensures TallyOf(AllReasons(ps + qs)).colour == TallyOf(AllReasons(ps)).colour + TallyOf(AllReasons(qs)).colour
    ensures TallyOf(AllReasons(ps + qs)).length == TallyOf(AllReasons(ps)).length + TallyOf(AllReasons(qs)).length
  {
    AllReasonsAppend(ps, qs);
    var a, b := AllReasons(ps), AllReasons(qs);
    CountAppend(a, b, WeightCategory);
    CountAppend(a, b, ColourCategory);
    CountAppend(a, b, LengthCategory);
  }

  /** Every reason lands in exactly one category. */
  lemma {:induction false} CategoriesPartition(rs: seq<string>)
    ensures CountOf(rs, WeightCategory) + CountOf(rs, ColourCategory) + CountOf(rs, LengthCategory)
            + CountOf(rs, Uncounted) == |rs|
  {
    if rs != [] {
      CategoriesPartition(rs[..|rs| - 1]);
    }
  }

  /** Each reason increments at most one counter, so the counters never exceed the number of reasons. */
  lemma TallyBounded(rs: seq<string>)
    ensures TallyOf(rs).weight + TallyOf(rs).colour + TallyOf(rs).length == |rs| - CountOf(rs, Uncounted)
    ensures TallyOf(rs).weight + TallyOf(rs).colour + TallyOf(rs).length <= |rs|
  {
    CategoriesPartition(rs);
  }

  /** No rejected parts, no counts. */
  lemma TallyOfNothing()
    ensures TallyOf(AllReasons([])) == Tally(0, 0, 0)
  {
  }

  // ---------------------------------------------------------------- the classifier

  /** Classification looks only at the lower-cased text. */
  lemma ClassifyIgnoresCase(reason: string)
    ensures Classify(Lower(reason)) == Classify(reason)
  {
    LowerIdempotent(reason);
  }

  /** How the classifier decides, stated on the lower-cased text. */
  lemma ClassifyByKeywords(reason: string, lowered: string)
    requires Lower(reason) == lowered
    ensures Contains(lowered, "peso") ==> Classify(reason) == WeightCategory
    ensures !Contains(lowered, "peso") && Contains(lowered, "cor") ==> Classify(reason) == ColourCategory
    ensures !Contains(lowered, "peso") && !Contains(lowered, "cor") && Contains(lowered, "comprimento")
            ==> Classify(reason) == LengthCategory
    ensures !Contains(lowered, "peso") && !Contains(lowered, "cor") && !Contains(lowered, "comprimento")
            ==> Classify(reason) == Uncounted
  {
  }

  lemma UpperCaseWeight(r: string)
    requires r == "PESO fora..."
    ensures Classify(r) == WeightCategory
  {
    LowerChars(r);
    assert Lower(r)[..4] == "peso";
    StartsWithContains(Lower(r), "peso");
    ClassifyByKeywords(r, Lower(r));
  }

  lemma UpperCaseColour(r: string)
    requires r == "COR inadequada..."
    ensures Classify(r) == ColourCategory
  {
    AbsentLower(r, 'p');
    AbsentChar(Lower(r), "peso", 0);
    LowerChars(r);
    assert Lower(r)[..3] == "cor";
    StartsWithContains(Lower(r), "cor");
    ClassifyByKeywords(r, Lower(r));
  }

  lemma UpperCaseLength(r: string)
    requires r == "Comprimento FORA..."
    ensures Classify(r) == LengthCategory
  {
    UpperCaseLengthLacksWeightKeyword(r);
    UpperCaseLengthLacksColourKeyword(r, "Co", "m", "primento FORA...");
    UpperCaseLengthNamesLength(r);
    ClassifyByKeywords(r, Lower(r));
  }

  lemma UpperCaseLengthLacksWeightKeyword(r: string)
    requires r == "Comprimento FORA..."
    ensures !Contains(Lower(r), "peso")
  {
    AbsentLower(r, 's');
    AbsentChar(Lower(r), "peso", 2);
  }

  lemma UpperCaseLengthNamesLength(r: string)
    requires r == "Comprimento FORA..."
    ensures Contains(Lower(r), "comprimento")
  {
    LowerChars(r);
    assert Lower(r)[..11] == "comprimento";
    StartsWithContains(Lower(r), "comprimento");
  }

  lemma UpperCaseLengthLacksColourKeyword(r: string, a: string, b: string, c: string)
    requires a == "Co" && b == "m" && c == "primento FORA..." && r == a + b + c
    ensures !Contains(Lower(r), "cor")
  {
    LowerAppend(a + b, c);
    LowerAppend(a, b);
    LowerChars(b);
    AbsentLower(c, 'c');
    AbsentChar(Lower(c), "cor", 0);
    NoMatchAround(Lower(a), Lower(b), Lower(c), "cor");
  }

  lemma UpperCaseKeywords(w: string, c: string, l: string)
    requires w == "PESO fora..." && c == "COR inadequada..." && l == "Comprimento FORA..."
    ensures Classify(w) == WeightCategory
    ensures Classify(c) == ColourCategory
    ensures Classify(l) == LengthCategory
  {
    UpperCaseWeight(w);
    UpperCaseColour(c);
    UpperCaseLength(l);
  }

  lemma WeightReasonCounted(weight: real)
    ensures Classify(WeightReason(weight)) == WeightCategory
  {
    var r := WeightReason(weight);
    LowerChars(r);
    assert Lower(r)[..4] == "peso";
    StartsWithContains(Lower(r), "peso");
    ClassifyByKeywords(r, Lower(r));
  }

  // The reasons validation produces are classified in the lemmas below. Lower-casing
  // and searching a long string literal in one step is more than the solver can do
  // within its budget, so the literals are cut into short pieces passed as
  // parameters (`LengthHeadPieces`, `LengthWordPieces`, `ColourPieces`), and the
  // pieces are regrouped by lemmas on plain variables (`Regroup`, `LengthTextSplit`,
  // `ColourRegroup`, `ColourHeadRegroup`). These helpers state only how the pieces
  // fit together; the facts about the model are `LowerLengthReason`,
  // `LengthReasonCounted`, `LowerColourReason` and `ColourReasonCounted`.

  /** Lower-casing a capitalised text lower-cases its initial only, when the rest has no capitals. */
  lemma LowerInitial(initial: string, lowered: string, rest: string)
    requires initial == "C" && lowered == "c"
    requires Lower(rest) == rest
    ensures Lower(initial + rest) == lowered + rest
  {
    LowerAppend(initial, rest);
    LowerChars(initial);
  }

  lemma LengthTailLower(a: string, b: string, n: string, u: string)
    requires a == "omprimento fora do intervalo" && b == " (10.0-20.0cm): " && u == "cm"
    requires forall k :: 0 <= k < |n| ==> IsNumeral(n[k])
    ensures Lower(a + b + n + u) == a + b + n + u
  {
    NoUpperLower(a + b + n + u);
  }

  lemma Regroup(c: string, o: string, b: string, n: string, u: string)
    ensures (c + o) + b + n + u == c + (o + b + n + u)
  {
  }

  lemma LowerLengthReason(length: real)
    ensures Lower(LengthReason(length))
            == "c" + ("omprimento fora do intervalo" + " (10.0-20.0cm): " + RealText(length) + "cm")
  {
    var o, b, u := "omprimento fora do intervalo", " (10.0-20.0cm): ", "cm";
    var n := RealText(length);
    assert LengthPrefix == "C" + o;
    Regroup("C", o, b, n, u);
    LengthTailLower(o, b, n, u);
    LowerInitial("C", "c", o + b + n + u);
  }

  lemma LengthTextSplit(c: string, o: string, b: string, n: string, u: string,
                        oo: string, co: string, m: string, p1: string, p2: string, p3: string)
    requires o == oo + m + p1 && b == p2 + p3 && co == c + oo
    ensures c + (o + b + n + u) == co + m + (p1 + p2 + (p3 + n + u))
  {
  }

  lemma LengthHeadPieces(o: string, b: string)
    requires o == "omprimento fora do intervalo" && b == " (10.0-20.0cm): "
    ensures o == "o" + "m" + "primento fora do intervalo"
    ensures b == " (10.0-20.0" + "cm): "
  {
  }

  predicate LengthText(lowered: string, n: string)
  {
    && lowered == "c" + ("omprimento fora do intervalo" + " (10.0-20.0cm): " + n + "cm")
    && forall k :: 0 <= k < |n| ==> IsNumeral(n[k])
  }

  lemma LengthTextLacksWeight(lowered: string, n: string)
    requires LengthText(lowered, n)
    ensures !Contains(lowered, "peso")
  {
    assert 's' !in n;
    AbsentChar(lowered, "peso", 2);
  }

  lemma LengthTextLacksColour(lowered: string, n: string)
    requires LengthText(lowered, n)
    ensures !Contains(lowered, "cor")
  {
    var o, b := "omprimento fora do intervalo", " (10.0-20.0cm): ";
    LengthHeadPieces(o, b);
    LengthTextSplit("c", o, b, n, "cm", "o", "co", "m", "primento fora do intervalo", " (10.0-20.0", "cm): ");
    LengthTailLacksColour(n);
    assert !Contains("co", "cor") by {
      forall i: nat ensures !HasAt("co", "cor", i) { }
    }
    NoMatchAround("co", "m", "primento fora do intervalo" + " (10.0-20.0" + ("cm): " + n + "cm"), "cor");
  }

  lemma LengthTailLacksColour(n: string)
    requires forall k :: 0 <= k < |n| ==> IsNumeral(n[k])
    ensures !Contains("primento fora do intervalo" + " (10.0-20.0" + ("cm): " + n + "cm"), "cor")
  {
    var tail := "cm): " + n + "cm";
    assert 'o' !in n;
    AbsentChar("primento fora do intervalo", "cor", 0);
    AbsentChar(tail, "cor", 1);
    NoMatchAround("primento fora do intervalo", " (10.0-20.0", tail, "cor");
  }

  lemma LengthTextNamesLength(lowered: string, n: string)
    requires LengthText(lowered, n)
    ensures Contains(lowered, "comprimento")
  {
    var o, b, u := "omprimento fora do intervalo", " (10.0-20.0cm): ", "cm";
    var rest := " fora do intervalo";
    LengthWordPieces("c", o, rest);
    assert lowered == ("c" + o) + (b + n + u);
    assert lowered == "comprimento" + (rest + b + n + u);
    StartsWithContains(lowered, "comprimento");
  }

  lemma LengthWordPieces(c: string, o: string, rest: string)
    requires c == "c" && o == "omprimento fora do intervalo" && rest == " fora do intervalo"
    ensures c + o == "comprimento" + rest
  {
  }

  lemma LengthReasonCounted(length: real)
    ensures Classify(LengthReason(length)) == LengthCategory
  {
    var lowered := Lower(LengthReason(length));
    LowerLengthReason(length);
    LengthTextLacksWeight(lowered, RealText(length));
    LengthTextLacksColour(lowered, RealText(length));
    LengthTextNamesLength(lowered, RealText(length));
    ClassifyByKeywords(LengthReason(length), lowered);
  }

  /** The lower-cased fixed part of a colour rejection, cut where the keyword checks need it. */
  const ColourHead: string := "cor" + " inadequada" + " (" + ("espe" + "r" + ("ado: " + "azul ou verde" + "): "))

  lemma ColourPieces(prefix: string, a: string, b: string, lc: string)
    requires prefix == ColourPrefix && a == "or inadequada" && b == " (esperado: " && lc == "c"
    ensures prefix == "C" + a
    ensures lc + a == "cor" + " inadequada"
    ensures b == " (" + "espe" + "r" + "ado: "
  {
  }

  lemma ColourTailLower(a: string, b: string, j: string, e: string)
    requires a == "or inadequada" && b == " (esperado: " && j == "azul ou verde" && e == "): "
    ensures Lower(a + b + j + e) == a + b + j + e
  {
    NoUpperLower(a + b + j + e);
  }

  lemma ColourRegroup(c: string, a: string, b: string, j: string, e: string, colour: string)
    ensures c + a + b + j + e + colour == c + (a + b + j + e) + colour
  {
  }

  lemma ColourHeadRegroup(lc: string, a: string, b: string, j: string, e: string,
                          k: string, i: string, o: string, q1: string, q2: string, q3: string)
    requires lc + a == k + i && b == o + q1 + q2 + q3
    ensures lc + (a + b + j + e) == k + i + o + (q1 + q2 + (q3 + j + e))
  {
  }

  lemma LowerColourReason(colour: string)
    ensures Lower(ColourReason(colour)) == ColourHead + Lower(colour)
  {
    var a, b, j, e := "or inadequada", " (esperado: ", "azul ou verde", "): ";
    AcceptedColoursText();
    ColourPieces(ColourPrefix, a, b, "c");
    ColourRegroup("C", a, b, j, e, colour);
    ColourTailLower(a, b, j, e);
    LowerInitial("C", "c", a + b + j + e);
    LowerAppend("C" + (a + b + j + e), colour);
    ColourHeadRegroup("c", a, b, j, e, "cor", " inadequada", " (", "espe", "r", "ado: ");
  }

  /** The fixed part of a colour rejection names colour and not weight. */
  lemma ColourHeadKeywords()
    ensures !Contains(ColourHead, "peso")
    ensures ColourHead[|ColourHead| - 1] !in "peso"
    ensures StartsWith(ColourHead, "cor")
  {
    var quoted := "espe" + "r" + ("ado: " + "azul ou verde" + "): ");
    AbsentChar("espe", "peso", 3);
    AbsentChar("ado: " + "azul ou verde" + "): ", "peso", 0);
    NoMatchAround("espe", "r", "ado: " + "azul ou verde" + "): ", "peso");
    AbsentChar("cor" + " inadequada", "peso", 0);
    NoMatchAround("cor" + " inadequada", " (", quoted, "peso");
  }

  /**
   * A colour rejection is counted as colour unless the quoted colour itself
   * contains "peso" in any case, in which case it is counted as weight.
   */
  lemma ColourReasonCounted(colour: string)
    ensures Classify(ColourReason(colour)) ==
            if Contains(Lower(colour), "peso") then WeightCategory else ColourCategory
  {
    var lowered := ColourHead + Lower(colour);
    LowerColourReason(colour);
    ColourHeadKeywords();
    ContainsAfter(ColourHead, Lower(colour), "peso");
    StartsWithContains(ColourHead, "cor");
    assert lowered[..|ColourHead|] == ColourHead;
    assert lowered[..3] == "cor";
    StartsWithContains(lowered, "cor");
    ClassifyByKeywords(ColourReason(colour), lowered);
  }

  /** The misfiling in action: a rejected colour named "peso" is counted as a weight problem. */
  lemma ColourNamedPesoCountsAsWeight(colour: string)
    requires colour == "peso"
    ensures Classify(ColourReason(colour)) == WeightCategory
  {
    NoUpperLower(colour);
    StartsWithContains(colour, "peso");
    ColourReasonCounted(colour);
  }

  function Indicator(b: bool): nat
  {
    if b then 1 else 0
  }

  lemma CountOfAtMostOne(ms: seq<string>, c: Category)
    requires |ms| <= 1
    ensures CountOf(ms, c) == Indicator(ms != [] && Classify(ms[0]) == c)
  {
    if ms != [] {
      assert ms[..0] == [];
    }
  }

  /** Counting collected messages: each message whose flag is false counts in its own category. */
  lemma CollectedCount(w: bool, c: bool, l: bool, mw: string, mc: string, ml: string, cat: Category)
    ensures CountOf(Collect(w, c, l, mw, mc, ml), cat)
            == Indicator(!w && Classify(mw) == cat)
             + Indicator(!c && Classify(mc) == cat)
             + Indicator(!l && Classify(ml) == cat)
  {
    var ws := if w then [] else [mw];
    var cs := if c then [] else [mc];
    var ls := if l then [] else [ml];
    assert Collect(w, c, l, mw, mc, ml) == ws + cs + ls;
    CountAppend(ws + cs, ls, cat);
    CountAppend(ws, cs, cat);
    CountOfAtMostOne(ws, cat);
    CountOfAtMostOne(cs, cat);
    CountOfAtMostOne(ls, cat);
  }

  /** The counters of collected messages whose categories are known. */
  lemma CollectedTally(w: bool, c: bool, l: bool, mw: string, mc: string, ml: string, misfiled: bool)
    requires !w ==> Classify(mw) == WeightCategory
    requires !c ==> Classify(mc) == if misfiled then WeightCategory else ColourCategory
    requires !l ==> Classify(ml) == LengthCategory
    ensures TallyOf(Collect(w, c, l, mw, mc, ml))
            == Tally(Indicator(!w) + Indicator(!c && misfiled), Indicator(!c && !misfiled), Indicator(!l))
  {
    CollectedCount(w, c, l, mw, mc, ml, WeightCategory);
    CollectedCount(w, c, l, mw, mc, ml, ColourCategory);
    CollectedCount(w, c, l, mw, mc, ml, LengthCategory);
  }

  /** The message of each failed check is counted under its criterion, colour aside. */
  lemma FailedChecksCounted(p: Part)
    ensures !CheckWeight(p.weight).valid ==> Classify(CheckWeight(p.weight).message) == WeightCategory
    ensures !CheckColour(p.colour).valid ==>
              Classify(CheckColour(p.colour).message)
              == if Contains(Lower(p.colour), "peso") then WeightCategory else ColourCategory
    ensures !CheckLength(p.length).valid ==> Classify(CheckLength(p.length).message) == LengthCategory
  {
    WeightReasonCounted(p.weight);
    ColourReasonCounted(p.colour);
    LengthReasonCounted(p.length);
  }

  /**
   * The counters for one validated part: one per failed criterion, in that
   * criterion's counter, except a failed colour whose text contains "peso".
   */
  lemma ValidatedPartTally(p: Part)
    ensures var t := TallyOf(Validate(p).reasons);
            var misfiled := Contains(Lower(p.colour), "peso");
            && t.weight == Indicator(!Meets(p, WeightCriterion)) + Indicator(!Meets(p, ColourCriterion) && misfiled)
            && t.colour == Indicator(!Meets(p, ColourCriterion) && !misfiled)
            && t.length == Indicator(!Meets(p, LengthCriterion))
  {
    var w := CheckWeight(p.weight);
    var c := CheckColour(p.colour);
    var l := CheckLength(p.length);
    FailedChecksCounted(p);
    CollectedTally(w.valid, c.valid, l.valid, w.message, c.message, l.message,
                   Contains(Lower(p.colour), "peso"));
  }

  // ---------------------------------------------------------------- the report

  /** The report has fourteen lines, nineteen with the rejection detail, framed by rules of forty '='. */
  lemma ReportFrame(s: State)
    ensures |ReportLines(s)| == if |s.rejected| > 0 then 19 else 14
    ensures ReportLines(s)[0] == Rule && ReportLines(s)[2] == Rule
    ensures ReportLines(s)[|ReportLines(s)| - 1] == Rule
    ensures |Rule| == 40 && forall k :: 0 <= k < 40 ==> Rule[k] == '='
    ensures |ReportLines(s)[1]| == 40
  {
    var m := Summarize(s);
    assert ReportLines(s) == Banner() + (SummaryLines(m) + StorageLines(m) + DetailLines(m) + [Rule]);
  }

  /**
   * The active-box line reads "vazia" exactly when the active box holds no
   * part, and otherwise gives the fill as "n/10".
   */
  lemma ActiveBoxLineEmptyIff(s: State)
    ensures ReportLines(s)[11] == EmptyBoxLine <==> s.activeBox.parts == []
    ensures s.activeBox.parts != [] ==>
              ReportLines(s)[11] == "  Caixa em preenchimento: 1 (" + NatText(|s.activeBox.parts|) + "/10 peças)"
  {
    var n := |s.activeBox.parts|;
    assert ReportLines(s)[11] == ActiveBoxLine(n);
    if n > 0 {
      assert ActiveBoxLine(n)[26] == '1' && EmptyBoxLine[26] == 'v';
    }
  }

  /** The rejection detail appears exactly when some part was rejected. */
  lemma DetailIffRejected(s: State)
    ensures DetailHeader in ReportLines(s) <==> |s.rejected| > 0
  {
    var m := Summarize(s);
    var before := Banner() + SummaryLines(m) + StorageLines(m);
    assert ReportLines(s) == before + DetailLines(m) + [Rule];
    if |s.rejected| > 0 {
      assert ReportLines(s)[13] == DetailHeader;
    } else {
      SectionsLackDetailHeader(m);
      assert Rule[0] != DetailHeader[0];
      assert ReportLines(s) == Banner() + SummaryLines(m) + StorageLines(m) + [Rule];
    }
  }

  lemma SectionsLackDetailHeader(m: Summary)
    requires 0.0 <= m.approvedPercent && 0.0 <= m.rejectedPercent
    ensures DetailHeader !in Banner()
    ensures DetailHeader !in SummaryLines(m)
    ensures DetailHeader !in StorageLines(m)
  {
    BannerLacksDetailHeader();
    SummaryLacksDetailHeader(m);
    StorageLacksDetailHeader(m);
  }

  lemma BannerLacksDetailHeader()
    ensures DetailHeader !in Banner()
  {
    NoDetailHeader(Banner());
  }

  lemma SummaryLacksDetailHeader(m: Summary)
    requires 0.0 <= m.approvedPercent && 0.0 <= m.rejectedPercent
    ensures DetailHeader !in SummaryLines(m)
  {
    NoDetailHeader(SummaryLines(m));
  }

  lemma StorageLacksDetailHeader(m: Summary)
    ensures DetailHeader !in StorageLines(m)
  {
    NoDetailHeader(StorageLines(m));
  }

  /** Lines that are empty or start differently from the detail header do not include it. */
  lemma NoDetailHeader(lines: seq<string>)
    requires forall k :: 0 <= k < |lines| ==> lines[k] == [] || lines[k][0] != '❌'
    ensures DetailHeader !in lines
  {
    assert DetailHeader[0] == '❌';
  }

  /** The detail lines report the counters of `analisar_motivos_reprovacao` over the rejected parts. */
  lemma DetailCounts(s: State)
    requires |s.rejected| > 0
    ensures var t := TallyOf(AllReasons(s.rejected));
            && ReportLines(s)[14] == "  Por peso inadequado: " + NatText(t.weight) + " peças"
            && ReportLines(s)[15] == "  Por cor inadequada: " + NatText(t.colour) + " peças"
            && ReportLines(s)[16] == "  Por comprimento inadequado: " + NatText(t.length) + " peças"
  {
    var m := Summarize(s);
    var before := Banner() + SummaryLines(m) + StorageLines(m);
    assert ReportLines(s) == before + DetailLines(m) + [Rule];
    assert |before| == 13;
  }

  /** With nothing processed, both percentages read 0.0. */
  lemma EmptyReportPercentages(s: State)
    requires s.approved == [] && s.rejected == []
    ensures ReportLines(s)[5] == "  Total de peças processadas: 0"
    ensures ReportLines(s)[6] == "  ✅ Peças aprovadas: 0 (0.0%)"
    ensures ReportLines(s)[7] == "  ❌ Peças reprovadas: 0 (0.0%)"
  {
    var m := Summarize(s);
    assert ReportLines(s) == Banner() + SummaryLines(m) + (StorageLines(m) + DetailLines(m) + [Rule]);
    EmptySummary(m);
  }

  lemma EmptySummary(m: Summary)
    requires m.total == 0 && m.approved == 0 && m.rejected == 0
    requires m.approvedPercent == 0.0 && m.rejectedPercent == 0.0
    ensures SummaryLines(m)[1] == "  Total de peças processadas: 0"
    ensures SummaryLines(m)[2] == "  ✅ Peças aprovadas: 0 (0.0%)"
    ensures SummaryLines(m)[3] == "  ❌ Peças reprovadas: 0 (0.0%)"
  {
    Fixed1Exact(0.0, 0, 0);
  }
}
