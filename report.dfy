/**
 * The consolidated report (services/relatorio.py): totals and percentages of
 * approved and rejected parts, the box situation, and the rejection reasons
 * counted per criterion by a case-insensitive keyword classifier.
 */
module Report {
  import opened Text
  import opened Parts
  import opened Boxes
  import opened Storage

  // ---------------------------------------------------------------- reason counting

  /** The counter a rejection reason increments, if any. */
  datatype Category = WeightCategory | ColourCategory | LengthCategory | Uncounted

  /**
   * The first of "peso", "cor", "comprimento" that the lower-cased reason
   * contains decides its counter; a reason containing none is not counted.
   */
  function Classify(reason: string): Category
  {
    var lowered := Lower(reason);
    if Contains(lowered, "peso") then WeightCategory
    else if Contains(lowered, "cor") then ColourCategory
    else if Contains(lowered, "comprimento") then LengthCategory
    else Uncounted
  }

  /** Every reason of the given parts, part after part. */
  function AllReasons(parts: seq<Part>): seq<string>
  {
    if parts == [] then [] else AllReasons(parts[..|parts| - 1]) + parts[|parts| - 1].reasons
  }

  /** How many of the reasons fall in category `c`. */
  function CountOf(reasons: seq<string>, c: Category): nat
  {
    if reasons == [] then 0
    else CountOf(reasons[..|reasons| - 1], c) + (if Classify(reasons[|reasons| - 1]) == c then 1 else 0)
  }

  /** The three counters `peso`, `cor` and `comprimento`. */
  datatype Tally = Tally(weight: nat, colour: nat, length: nat)

  function TallyOf(reasons: seq<string>): Tally
  {
    Tally(CountOf(reasons, WeightCategory), CountOf(reasons, ColourCategory), CountOf(reasons, LengthCategory))
  }

  /** One more reason adds one to its own counter, if it has one. */
  lemma TallyStep(rs: seq<string>, r: string)
    ensures TallyOf(rs + [r]) == Tally(
              TallyOf(rs).weight + (if Classify(r) == WeightCategory then 1 else 0),
              TallyOf(rs).colour + (if Classify(r) == ColourCategory then 1 else 0),
              TallyOf(rs).length + (if Classify(r) == LengthCategory then 1 else 0))
  {
    assert (rs + [r])[..|rs|] == rs;
  }

  lemma TallyNext(done: seq<string>, reasons: seq<string>, j: nat)
    requires j < |reasons|
    ensures TallyOf(done + reasons[..j + 1]) == Tally(
              TallyOf(done + reasons[..j]).weight + (if Classify(reasons[j]) == WeightCategory then 1 else 0),
              TallyOf(done + reasons[..j]).colour + (if Classify(reasons[j]) == ColourCategory then 1 else 0),
              TallyOf(done + reasons[..j]).length + (if Classify(reasons[j]) == LengthCategory then 1 else 0))
  {
    assert done + reasons[..j + 1] == done + reasons[..j] + [reasons[j]];
    TallyStep(done + reasons[..j], reasons[j]);
  }

  /** `analisar_motivos_reprovacao`: one pass over every reason of every rejected part. */
  method AnalyzeReasons(rejected: seq<Part>) returns (t: Tally)
    ensures t == TallyOf(AllReasons(rejected))
  {
    t := Tally(0, 0, 0);
    var i := 0;
    while i < |rejected|
      invariant 0 <= i <= |rejected|
      invariant t == TallyOf(AllReasons(rejected[..i]))
    {
      var reasons := rejected[i].reasons;
      var done := AllReasons(rejected[..i]);
      var j := 0;
      assert done + reasons[..j] == done;
      while j < |reasons|
        invariant 0 <= j <= |reasons|
        invariant t == TallyOf(done + reasons[..j])
      {
        var lowered := Lower(reasons[j]);
        TallyNext(done, reasons, j);
        if Contains(lowered, "peso") {
          t := t.(weight := t.weight + 1);
        } else if Contains(lowered, "cor") {
          t := t.(colour := t.colour + 1);
        } else if Contains(lowered, "comprimento") {
          t := t.(length := t.length + 1);
        }
        j := j + 1;
      }
      assert rejected[..i + 1][..i] == rejected[..i];
      assert reasons[..j] == reasons;
      assert AllReasons(rejected[..i + 1]) == done + reasons;
      i := i + 1;
    }
    assert rejected[..i] == rejected;
  }

  // ---------------------------------------------------------------- the report

  const Width: nat := 40
  const Rule: string := Repeat('=', Width)
  const Title: string := "RELATÓRIO FINAL"
  const DetailHeader: string := "❌ DETALHAMENTO DE REPROVAÇÕES:"
  const EmptyBoxLine: string := "  Caixa em preenchimento: vazia"

  /** `count` as a percentage of `total`; 0.0 when there is nothing to divide by. */
  function Percent(count: nat, total: nat): real
  {
    if total > 0 then count as real / total as real * 100.0 else 0.0
  }

  /** A share of a positive total is a percentage between 0 and 100 that scales back to the share. */
  lemma PercentOfTotal(count: nat, total: nat)
    requires count <= total && total > 0
    ensures Percent(count, total) * total as real == count as real * 100.0
    ensures 0.0 <= Percent(count, total) <= 100.0
  {
    var q := count as real / total as real;
    assert q * total as real == count as real;
    assert Percent(count, total) * total as real == (q * total as real) * 100.0;
    assert 0.0 <= q <= 1.0;
  }

  /** The two shares of a positive total add up to 100%. */
  lemma PercentsAddUp(a: nat, b: nat)
    requires a + b > 0
    ensures Percent(a, a + b) + Percent(b, a + b) == 100.0
  {
    var t := (a + b) as real;
    assert a as real / t + b as real / t == 1.0;
    assert Percent(a, a + b) + Percent(b, a + b) == (a as real / t + b as real / t) * 100.0;
  }

  /** The figures the report is made of. */
  datatype Summary = Summary(
    total: nat,
    approved: nat,
    rejected: nat,
    approvedPercent: real,
    rejectedPercent: real,
    closedBoxes: nat,
    activeParts: nat,
    reasons: Tally)

  /** The counts and percentages computed by `gerar_relatorio_completo`. */
  function Summarize(s: State): (m: Summary)
    ensures m.approved == |s.approved| && m.rejected == |s.rejected|
    ensures m.total == m.approved + m.rejected
    ensures m.total == 0 ==> m.approvedPercent == 0.0 && m.rejectedPercent == 0.0
    ensures m.total > 0 ==> m.approvedPercent * m.total as real == m.approved as real * 100.0
    ensures m.total > 0 ==> m.rejectedPercent * m.total as real == m.rejected as real * 100.0
    ensures 0.0 <= m.approvedPercent <= 100.0 && 0.0 <= m.rejectedPercent <= 100.0
    ensures m.total > 0 ==> m.approvedPercent + m.rejectedPercent == 100.0
    ensures m.closedBoxes == |s.closedBoxes| && m.activeParts == |s.activeBox.parts|
    ensures m.reasons == TallyOf(AllReasons(s.rejected))
  {
    var approved := |s.approved|;
    var rejected := |s.rejected|;
    var total := approved + rejected;
    if total > 0 then
      PercentOfTotal(approved, total);
      PercentOfTotal(rejected, total);
      PercentsAddUp(approved, rejected);
      Summary(total, approved, rejected, Percent(approved, total), Percent(rejected, total),
              |s.closedBoxes|, |s.activeBox.parts|, TallyOf(AllReasons(s.rejected)))
    else
      Summary(total, approved, rejected, 0.0, 0.0,
              |s.closedBoxes|, |s.activeBox.parts|, TallyOf(AllReasons(s.rejected)))
  }

  /** The line describing the active box. */
  function ActiveBoxLine(activeParts: nat): string
  {
    if activeParts > 0 then "  Caixa em preenchimento: 1 (" + NatText(activeParts) + "/10 peças)"
    else EmptyBoxLine
  }

  /** The title between two rules, and a blank line. */
  function Banner(): (r: seq<string>)
    ensures |r| == 4
  {
    [Rule, Center(Title, Width), Rule, ""]
  }

  /** The totals and the two percentages, to one decimal place. */
  function SummaryLines(m: Summary): (r: seq<string>)
    requires 0.0 <= m.approvedPercent && 0.0 <= m.rejectedPercent
    ensures |r| == 5
  {
    ["📊 RESUMO GERAL:",
     "  Total de peças processadas: " + NatText(m.total),
     "  ✅ Peças aprovadas: " + NatText(m.approved) + " (" + Fixed1(m.approvedPercent) + "%)",
     "  ❌ Peças reprovadas: " + NatText(m.rejected) + " (" + Fixed1(m.rejectedPercent) + "%)",
     ""]
  }

  /** The closed-box count and the active box. */
  function StorageLines(m: Summary): (r: seq<string>)
    ensures |r| == 4
  {
    ["📦 ARMAZENAMENTO:",
     "  Caixas fechadas: " + NatText(m.closedBoxes),
     ActiveBoxLine(m.activeParts),
     ""]
  }

  /** The per-criterion detail, present only when some part was rejected. */
  function DetailLines(m: Summary): (r: seq<string>)
    ensures |r| == if m.rejected > 0 then 5 else 0
  {
    if m.rejected > 0 then
      [DetailHeader,
       "  Por peso inadequado: " + NatText(m.reasons.weight) + " peças",
       "  Por cor inadequada: " + NatText(m.reasons.colour) + " peças",
       "  Por comprimento inadequado: " + NatText(m.reasons.length) + " peças",
       ""]
    else []
  }

  /** The lines of `gerar_relatorio_completo`, before they are joined. */
  function ReportLines(s: State): seq<string>
  {
    var m := Summarize(s);
    Banner() + SummaryLines(m) + StorageLines(m) + DetailLines(m) + [Rule]
  }

  /** `gerar_relatorio_completo`: the lines joined by newlines. */
  function ReportText(s: State): string
  {
    Join(ReportLines(s), "\n")
  }
}
