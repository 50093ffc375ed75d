# Quality control of industrial parts: a verified model

This project models the quality-control engine of *sistema-gestao-pecas-industriais*. That engine covers four things:

- It validates a manufactured part against three tolerances: weight, colour and length.
- It packs approved parts into boxes of ten. A box closes automatically when full and a new box is opened.
- It removes a part by identifier.
- It condenses the system record into a final report.

The Dafny modules follow the Python files:

| module | file | models |
|---|---|---|
| `Parts` | parts.dfy | `models/peca.py`: the `Peca` record and `criar_peca` |
| `Boxes` | boxes.dfy | `models/caixa.py`: the capacity 10, the `Caixa` record and `criar_caixa` |
| `Validation` | validation.dfy | `services/validacao.py`: the three criteria and `validar_peca` |
| `Storage` | storage.dfy | `services/armazenamento.py`: the system record, admission, removal and initialisation |
| `StorageProperties` | storage_props.dfy | what admission and removal keep true |
| `Report` | report.dfy | `services/relatorio.py`: `analisar_motivos_reprovacao` and `gerar_relatorio_completo` |
| `ReportProperties` | report_props.dfy | what the reason counters and the report lines say |
| `Optional`, `Text` | text.dfy | the Python string operations the core relies on: `lower`, `strip`, `in`, `join`, `center`, `str(int)`, `str(float)`, `:.1f` |

The storage engine mutates one shared record in place, so it is a class, `Storage.StorageSystem`. Its fields hold the approved list, the rejected list, the closed boxes, the active box and the box counter.

Pure functions on a `State` value specify each operation:

- `Admit` and `Removal` give the new record.
- `Fills` and `Found` give the returned flag.
- `AddMessage` and `RemoveMessage` give the returned message.

Each method is proved to produce exactly what those functions describe. `RemovePartById` keeps the source's nested search loops with their early returns. The lemmas in `StorageProperties` are stated on the functions. The main one is the invariant admission maintains, `WellFormed`:

- the active box is open, not full, and carries the counter's number;
- closed box `b` is number `b + 1`, closed, and holds ten parts;
- the boxes, read in order, hold exactly the approved parts.

Validation and the report are pure in the source and are functions here. The reason counter `analisar_motivos_reprovacao` is a nested loop in the source. It is the method `Report.AnalyzeReasons`, proved against the counting function `TallyOf`.

Measurements are `real`: the source only compares them with `<=` and renders them as text. Python's `float()` also accepts NaN and ±infinity, which a `real` cannot represent (see "## Left out").

The model follows the code as written; in particular:

- A box closes when its size reaches *at least* ten (`>=`, services/armazenamento.py:55).
- The closing message names box number "total − 1" (always 9), not the number of the box that closed (services/armazenamento.py:66). `Storage.AddMessage` reproduces this.
- `inicializar_sistema` does not load from persistence (services/armazenamento.py:123-136).
- A part failing all three criteria does not always add one to each counter. If the colour text contains "peso", its colour reason is counted as a weight reason, because the classifier tests "peso" first. `ReportProperties.ColourNamedPesoCountsAsWeight` and `ReportProperties.ValidatedPartTally` state this.

## Model

| member | source | states |
|---|---|---|
| Parts.NewPart | models/peca.py:28-56 | the factory stores the id and the three measurements unchanged; the approval flag defaults to false; a missing reason list becomes `[]`, a given one is kept |
| Boxes.NewBox | models/caixa.py:28-42 | a new box carries the given number, has no parts and is open |
| Validation.CheckWeight | services/validacao.py:18-32 | valid iff 95.0 ≤ weight ≤ 105.0, both bounds included; the message is empty iff valid, and otherwise is the weight reason |
| Validation.CheckColour | services/validacao.py:35-51 | valid iff the lower-cased, stripped colour is "azul" or "verde"; the message is empty iff valid, and otherwise is the colour reason |
| Validation.CheckLength | services/validacao.py:54-68 | valid iff 10.0 ≤ length ≤ 20.0, both bounds included; the message is empty iff valid, and otherwise is the length reason |
| Validation.WeightReason | services/validacao.py:32 | the weight reason starts with "Peso fora do intervalo" |
| Validation.ColourReason | services/validacao.py:50-51 | the colour reason starts with "Cor inadequada" and ends with the colour exactly as given, not normalised |
| Validation.LengthReason | services/validacao.py:68 | the length reason starts with "Comprimento fora do intervalo" |
| Validation.ColourReasonNamesAcceptedColours | services/validacao.py:50-51 | the colour reason lists the accepted colours as "azul ou verde", then quotes the colour |
| Validation.Failed | services/validacao.py:88-100 | a criterion is among the failed ones iff the part does not meet it; failed criteria come in the order weight, colour, length |
| Validation.Validate | services/validacao.py:71-103 | the part is approved iff the reason list is empty, iff it meets all three criteria |
| Validation.ReasonsFollowFailedCriteria | services/validacao.py:88-100 | there is one reason per failed criterion, in checking order, and the i-th reason is the message of the i-th failed criterion |
| Validation.CollectLinesUp | services/validacao.py:88-100 | conditionally appending the three messages yields exactly the messages of the unmet criteria, in order |
| Validation.ColourIgnoresPadding | services/validacao.py:47-48 | surrounding whitespace never changes the colour verdict |
| Validation.ColourIgnoresCase | services/validacao.py:47-48 | lower-casing the colour first never changes the verdict |
| Validation.NormalColour | services/validacao.py:47 | `cor.lower().strip()`: whitespace around the colour and its letter case do not matter (`Validation.ColourIgnoresPadding`, `Validation.ColourIgnoresCase`, `Validation.CapitalisedSpelling`) |
| Validation.CapitalisedSpelling | services/validacao.py:47 | "AZUL" normalises to "azul" and "Verde" to "verde" |
| Validation.AcceptedSpellings | services/validacao.py:47-49 | "AZUL" and "  Verde  " are accepted |
| Validation.RejectedSpellings | services/validacao.py:47-51 | "blue", "azuis", "" and "   " are rejected |
| Validation.PlainColourIsNormal | services/validacao.py:47 | a colour with no capitals and no whitespace at either end is its own normal form |
| Storage.Initial | services/armazenamento.py:130-136 | the initial record: no parts, no closed boxes, box 1 open and empty, counter 1; it satisfies the admission invariant (`StorageProperties.InitialWellFormed`) |
| Storage.Fills | services/armazenamento.py:55 | the flag `adicionar_peca_em_caixa` returns: the part is approved and the box reaches ten with it; `Storage.Admit` closes the box exactly then |
| Storage.Found | services/armazenamento.py:95-96 | the flag `remover_peca_por_id` returns: some approved or rejected part carries the id; `Storage.Removal` changes nothing exactly when it is false |
| Storage.AddMessage | services/armazenamento.py:64-74 | the message `adicionar_peca_em_caixa` returns; what it says is stated by `StorageProperties.AdmissionMessage` |
| Storage.RemoveMessage | services/armazenamento.py:103-120 | the message `remover_peca_por_id` returns; what it says is stated by `StorageProperties.RemovalMessage` |
| Storage.FindPart | services/armazenamento.py:95-96 | the position found holds the id and no earlier position does; nothing is found iff no part carries the id |
| Storage.FindBox | services/armazenamento.py:106-108 | the box found holds the id and no earlier box does; nothing is found iff no box holds it |
| Storage.Admit | services/armazenamento.py:45-69 | a part that is not approved changes nothing; an approved part is appended to the approved list and to the boxes; rejected parts and earlier closed boxes are untouched; exactly when the box fills, it is filed closed with the part, the counter goes up by one and a new empty open box with the new number takes its place; otherwise the counter, box number and closed flag stay; an active box below capacity stays below capacity |
| Storage.Removal | services/armazenamento.py:94-120 | an id in neither list changes nothing; otherwise exactly one part leaves the lists: the first approved match, or else the first rejected match; box numbers, closed flags, the counter and the number of closed boxes never change; a removal from the rejected list leaves the approved list and the boxed parts, read in order, as they were |
| Storage.RemoveAt | services/armazenamento.py:97 | `pop(i)` keeps the elements before `i` and shifts those after it down by one |
| Storage.StorageSystem.constructor | services/armazenamento.py:123-136 | the new record is the initial one: nothing stored, box 1 open, counter 1 |
| Storage.StorageSystem.AddPartToBox | services/armazenamento.py:28-75 | the record afterwards is `Admit` of the record before; the flag says whether the box filled (`Fills`); the message is `AddMessage`, box number total − 1 included |
| Storage.StorageSystem.RemovePartById | services/armazenamento.py:78-120 | the record afterwards is `Removal` of the record before; the flag says whether either list held the id (`Found`); the message is `RemoveMessage`, naming where the part was found |
| StorageProperties.InitialWellFormed | services/armazenamento.py:123-136 | the initial record satisfies the admission invariant |
| StorageProperties.AddPreservesWellFormed | services/armazenamento.py:45-69 | admission, accepted or refused, preserves the invariant: active box open, below capacity and numbered by the counter; closed boxes full, closed and numbered 1, 2, …; boxes holding exactly the approved parts |
| StorageProperties.WellFormedLayout | services/armazenamento.py:55-62 | under the invariant, with n approved parts there are n/10 closed boxes and n%10 parts in the active box; the counter is n/10 + 1; closed box b holds approved parts 10b to 10b+9 |
| StorageProperties.AdmitApproved | services/armazenamento.py:49-50 | admitting approved parts one by one into a fresh record keeps them all, in order; the rejected list stays empty and the invariant holds |
| StorageProperties.AdmitOne | services/armazenamento.py:49-50 | one admission of an approved part keeps the invariant and appends the part to the approved list only |
| StorageProperties.AdmittedLayout | services/armazenamento.py:55-62 | after N approved admissions from the initial record there are N/10 closed boxes; closed box i is number i+1, closed, with the parts admitted at positions 10i to 10i+9; the active box is number N/10 + 1, open, holding the last N%10 parts; the counter is N/10 + 1 |
| StorageProperties.RemoveAtUnique | services/armazenamento.py:97 | with distinct ids, popping a part removes its id from the list |
| StorageProperties.RemoveTwice | services/armazenamento.py:94-120 | with distinct ids, a second removal of the same id finds nothing |
| StorageProperties.RemovalFromBoxes | services/armazenamento.py:99-112 | when an approved part carries the id, removal pops the first match from the active box and leaves closed boxes alone; failing that, it pops the first match from the first closed box holding the id and leaves the active box alone; failing that, it changes no box |
| StorageProperties.RemovalTouchesAtMostOneBox | services/armazenamento.py:99-110 | removal changes no box when no approved part carries the id; when it changes the active box it leaves every closed box alone; the only closed box it may change is the first holding the id, and only when the active box does not hold it |
| StorageProperties.ApprovedPartsAreBoxed | services/armazenamento.py:99-112 | under the invariant, an approved id is always in the active box or in some closed box, so the "removida (aprovada)" branch is unreachable |
| StorageProperties.RemoveFromActiveKeepsWellFormed | services/armazenamento.py:99-103 | with distinct ids, removing a part of the active box keeps the invariant |
| StorageProperties.RemoveFromClosedBox | services/armazenamento.py:105-110 | removing a part from a closed box leaves that box marked closed with 9 parts, so the invariant is broken |
| StorageProperties.AdmissionMessage | services/armazenamento.py:45-74 | a refused part gets the fixed "Apenas peças aprovadas…" message; an admitted one gets a message that opens "Peça <id> adicionada", contains "FECHADA" when the box filled, and contains the fill "n/10" otherwise |
| StorageProperties.RemovalMessage | services/armazenamento.py:103-120 | the removal message names the id right after "Peça "; " removida" follows it exactly when the part was found; otherwise " não encontrada no sistema" follows it |
| StorageProperties.ClosedBoxRemovalMessage | services/armazenamento.py:106-110 | a part taken from a closed box is reported with "Caixa #" and that box's number |
| Report.Classify | services/relatorio.py:97-103 | the first of "peso", "cor", "comprimento" found in the lower-cased reason picks its counter, and none leaves it uncounted (`ReportProperties.ClassifyByKeywords`); the case of the reason does not matter (`ReportProperties.ClassifyIgnoresCase`) |
| Report.TallyOf | services/relatorio.py:89-103 | the three counters as counts of the reasons in each category; they start at zero (`ReportProperties.TallyOfNothing`), add up over groups of parts (`ReportProperties.TallyAdditive`) and never exceed the number of reasons (`ReportProperties.TallyBounded`) |
| Report.AnalyzeReasons | services/relatorio.py:79-105 | the loop's three counters equal the per-category counts of all reasons of all rejected parts |
| Report.Summarize | services/relatorio.py:27-44 | total = approved + rejected; with total 0 both percentages are 0.0; otherwise each percentage times the total is 100 times its count, both lie in [0, 100] and they add up to 100; box figures and counters come from the record |
| Report.PercentOfTotal | services/relatorio.py:32-34 | in exact arithmetic, a share of a positive total, as a percentage, lies between 0 and 100 and scales back to the share |
| Report.PercentsAddUp | services/relatorio.py:32-34 | in exact arithmetic, the approved and rejected percentages of a positive total add up to 100 |
| Report.ReportLines | services/relatorio.py:47-74 | the report's lines; their shape is stated by `ReportProperties.ReportFrame`, `ReportProperties.ActiveBoxLineEmptyIff`, `ReportProperties.DetailIffRejected`, `ReportProperties.DetailCounts` and `ReportProperties.EmptyReportPercentages` |
| Report.ReportText | services/relatorio.py:76 | the report lines joined by newlines |
| ReportProperties.TallyOfNothing | services/relatorio.py:89-93 | with no rejected parts, all three counters are 0 |
| ReportProperties.TallyAdditive | services/relatorio.py:95-96 | each counter over two groups of parts is the sum of the counters over each group |
| ReportProperties.CountAppend | services/relatorio.py:96-103 | counting a category over concatenated reasons adds the two counts |
| ReportProperties.AllReasonsAppend | services/relatorio.py:95-96 | the reasons of two groups of parts are the first group's reasons followed by the second's |
| ReportProperties.CategoriesPartition | services/relatorio.py:98-103 | every reason falls in exactly one category: weight, colour, length or uncounted |
| ReportProperties.TallyBounded | services/relatorio.py:95-103 | the three counters add up to the number of reasons minus the uncounted ones, so never more than the number of reasons |
| ReportProperties.ClassifyIgnoresCase | services/relatorio.py:97 | classifying a lower-cased reason gives the same category |
| ReportProperties.ClassifyByKeywords | services/relatorio.py:97-103 | "peso" wins over "cor", and "cor" over "comprimento"; a reason with none of the three is uncounted |
| ReportProperties.UpperCaseKeywords | services/relatorio.py:97-103 | "PESO fora...", "COR inadequada..." and "Comprimento FORA..." each count in their own category |
| ReportProperties.WeightReasonCounted | services/relatorio.py:98-99 | every weight reason from validation counts as weight |
| ReportProperties.LengthReasonCounted | services/relatorio.py:102-103 | every length reason from validation counts as length |
| ReportProperties.ColourReasonCounted | services/relatorio.py:98-101 | a colour reason counts as colour unless the quoted colour contains "peso", in which case it counts as weight |
| ReportProperties.ColourNamedPesoCountsAsWeight | services/relatorio.py:98-101 | rejecting the colour "peso" produces a reason counted as weight |
| ReportProperties.LowerLengthReason | services/relatorio.py:97 | the lower-cased length reason starts with "comprimento fora do intervalo" and keeps the number |
| ReportProperties.LowerColourReason | services/relatorio.py:97 | the lower-cased colour reason is "cor inadequada (esperado: azul ou verde): " followed by the lower-cased colour |
| ReportProperties.ValidatedPartTally | services/relatorio.py:95-103 | a validated part adds one weight, colour and length count per failed criterion, except that a colour containing "peso" moves its count from colour to weight |
| ReportProperties.FailedChecksCounted | services/relatorio.py:98-103 | the message of each failed check is classified under its own criterion, the "peso" colour excepted |
| ReportProperties.CollectedTally | services/relatorio.py:95-103 | counting the messages collected by validation adds one per unmet criterion to that criterion's counter |
| ReportProperties.ReportFrame | services/relatorio.py:47-76 | the report has 19 lines when some part was rejected and 14 otherwise; it opens with a rule, a 40-column title line and a rule, and ends with a rule of 40 "=" |
| ReportProperties.ActiveBoxLineEmptyIff | services/relatorio.py:61-64 | the active-box line reads "vazia" iff the active box is empty, and otherwise reads "Caixa em preenchimento: 1 (n/10 peças)" with n the active box's part count |
| ReportProperties.DetailIffRejected | services/relatorio.py:67-72 | the rejection-detail header appears iff some part was rejected |
| ReportProperties.DetailCounts | services/relatorio.py:67-71 | the three detail lines give the weight, colour and length counters of the rejected parts' reasons |
| ReportProperties.EmptyReportPercentages | services/relatorio.py:32-56 | with nothing processed, the report shows a total of 0 and "0 (0.0%)" for both approved and rejected |
| Text.Lower | services/validacao.py:47 | `str.lower` on ASCII letters: same length, character by character (`Text.LowerChars`), idempotent (`Text.LowerIdempotent`) |
| Text.Strip | services/validacao.py:47 | `str.strip`: the text between the leading and the trailing whitespace (`Text.StripBetween`), unaffected by padding (`Text.StripPadding`) |
| Text.Contains | services/relatorio.py:98-102 | Python's substring test `p in s`: `p` occurs at some position of `s` |
| Text.Join | services/validacao.py:50 | `" ou ".join(...)`: the two accepted colours give "azul ou verde" (`Validation.AcceptedColoursText`) |
| Text.RealText | services/validacao.py:32 | stands in for `str(float)`: only numeral characters; a value with one decimal digit prints as its integer part, "." and that digit (`Text.RealTextExact`), which matches Python for magnitudes below 10^14 |
| Text.Fixed1 | services/relatorio.py:55-56 | `:.1f` on a non-negative value: only numeral characters; a value with one decimal digit prints as its integer part, "." and that digit (`Text.Fixed1Exact`), which matches Python for magnitudes below 10^14 |
| Text.Center | services/relatorio.py:49 | `center` leaves text at least as wide as the width unchanged; otherwise it pads to exactly the width, the two margins differing by at most one; the left margin is half the padding, plus the odd space when both the padding and the width are odd (CPython's rule) |
| Text.Repeat | services/relatorio.py:48 | `"=" * 40` is 40 characters, all "=" |
| Text.NatTextRoundTrip | services/relatorio.py:54 | the decimal rendering of a count reads back as the count |
| Text.StripPadding | services/validacao.py:47 | whitespace around a string never changes its `strip` |
| Text.LowerIdempotent | services/validacao.py:47 | lower-casing twice is lower-casing once |

## Left out

- SQLite persistence (services/database.py) is not modelled: it is I/O against a foreign library. Neither are the save calls that front ends make after each operation.
- The front ends are not modelled: the line menu, the text UI, the web dashboard and their styling. They only read input and render the record.
- Id uniqueness is not enforced by admission, because the core does not enforce it: the front ends check it before building a part. Lemmas that need distinct ids (`RemoveTwice`, `RemoveFromActiveKeepsWellFormed`) take it as a precondition.
- Storage.StorageSystem: parts and boxes are values, not shared objects. The core never mutates a part after admission. A closing box is filed and then replaced as the active box, so the source's aliasing is not observable.
- Text.RealText: `str(float)` prints the shortest repr of a binary double. The model prints the sign, the integer part and one truncated decimal of an exact real. It matches Python for values with one decimal digit and magnitude below 10^14 (`Text.RealTextExact`). Beyond that a double loses digits and Python switches notation: `str(1e16)` is "1e+16", where the model prints "10000000000000000.0".
- Text.Fixed1: `:.1f` rounds the binary double. The model rounds the exact real half to even. It matches Python for values with one decimal digit and magnitude below 10^14 (`Text.Fixed1Exact`). Beyond that the double is not the decimal written: `format(999999999999999.3, '.1f')` is "999999999999999.2", where the model gives "999999999999999.3". The model only applies it to percentages between 0 and 100.
- Measurements: NaN and ±infinity, which Python's `float()` accepts, are not modelled, because `real` has no such values. Every comparison with NaN is false, so such a weight or length would fail its check.
- Report.Summarize: percentages are exact reals, not IEEE division.
- Report.PercentOfTotal: "the percentage times the total gives back 100 times the count" holds only in exact arithmetic. With doubles, (1/3)·100·3 is 99.99999999999999.
- Report.PercentsAddUp: "the two percentages add up to 100" holds only in exact arithmetic. With doubles, 1 approved and 2 rejected give 33.33333333333333 + 66.66666666666666 = 99.99999999999999.
- Text.Lower: lower-cases ASCII letters only, where Python's `str.lower` covers all of Unicode.
- `gerar_estatisticas_reprovacao` is not part of this model: the tests import it, but the repository's `services/relatorio.py` does not define it.
- `validar_peca` cannot modify its argument in this model, because Dafny functions have no side effects.
- The records' exact field sets (six fields for a part, three for a box) are the datatype declarations themselves and need no lemma.
