/**
 * The per-group reconciliation of `processar` (src/.gui.py): for each
 * spreadsheet group (one CT-e number and its rows) look up the key and the
 * PDF, keep the rows with a positive amount and a known operation, check
 * their sum against the XML total with a one-cent tolerance, and build the
 * overlay label. The run keeps its counters and error lists as it goes.
 *
 * The folders, the spreadsheet groups, the first-page texts and the XML
 * totals are inputs; the PDF merge and the unified output are left out.
 */
module Pipeline {
  import opened Wrappers
  import opened Text
  import opened Currency
  import opened Operation
  import opened Rounding
  import opened FiscalKey
  import opened Files
  import opened XmlIndex

  /** One spreadsheet row: its "Vlr Contabil" cell and its `str` of "Operação". */
  datatype Row = Row(amount: Cell, operation: string)

  /** One `groupby("N° CT-e")` group: the CT-e number and its rows in order. */
  datatype Group = Group(number: int, rows: seq<Row>)

  /**
   * What the run reads besides the spreadsheet: whether the XML field is
   * filled in, the listing of the XML folder (`None` when that path is not
   * a directory), the listing of the folder the PDFs are looked up in, the
   * text of each PDF's first page, and the `vTPrest` value of each XML
   * that has one.
   */
  datatype Inputs = Inputs(
    xmlConfigured: bool,
    xmls: Option<seq<string>>,
    pdfs: Option<seq<string>>,
    firstPageText: map<string, string>,
    totals: map<string, Decimal>)

  /** The label written for a group: source PDF, output name, lines and their texts. */
  datatype Label = Label(pdf: string, output: string, lines: seq<Line>, text: seq<string>)

  /**
   * How a group ends: no key for its number, no PDF for its key, a
   * difference above one cent, no line to print, a Python exception that
   * ends the whole run, or a label written.
   */
  datatype Outcome = KeyMissing | PdfMissing | Divergent(diff: int) | NoLines | Fault | Written(written: Label)

  /** The outcome, and the PDF name when the first page says COMPLEMENTO. */
  datatype GroupResult = GroupResult(outcome: Outcome, complement: Option<string>)

  // ---------------------------------------------------------------------
  // Rows to lines
  // ---------------------------------------------------------------------

  /**
   * The line of one row: none when the amount is unreadable, zero or
   * negative, or when the operation has no prefix; otherwise the amount
   * rounded half-up to cents.
   */
  function RowLine(row: Row): (r: seq<Line>)
    ensures |r| <= 1
    ensures r != [] ==> r[0].value >= 0
  {
    var base := ParseMoney(row.amount);
    if base.None? || base.value.mant <= 0 then []
    else
      var prefix := OperationPrefix(Some(row.operation));
      if prefix.None? then [] else [Line(prefix.value, RoundHalfUpOfPositive(base.value))]
  }

  /** Half-up rounding of a positive amount is not negative. */
  function RoundHalfUpOfPositive(d: Decimal): (c: nat)
    requires d.mant > 0
  {
    RoundHalfUpNonNegative(d);
    RoundHalfUp(d)
  }

  lemma RoundHalfUpNonNegative(d: Decimal)
    requires d.mant >= 0
    ensures RoundHalfUp(d) >= 0
  {
  }

  /** The lines of the rows, in row order. */
  function LinesOf(rows: seq<Row>): (r: seq<Line>)
    ensures |r| <= |rows|
    ensures forall i :: 0 <= i < |r| ==> r[i].value >= 0
  {
    if rows == [] then [] else LinesOf(rows[..|rows| - 1]) + RowLine(rows[|rows| - 1])
  }

  // ---------------------------------------------------------------------
  // Reconciliation against the XML total
  // ---------------------------------------------------------------------

  /** The result of checking the lines against the total. */
  datatype Reconciled = Kept(lines: seq<Line>) | Diverged(diff: int) | SumOfNothing

  /**
   * No check without a non-zero total. With one, no lines is the `sum([])`
   * fault; a difference of one cent goes to the first smallest line; a
   * larger one skips the group.
   */
  function Reconcile(lines: seq<Line>, total: Option<int>): Reconciled
  {
    if total.None? || total.value == 0 then Kept(lines)
    else if lines == [] then SumOfNothing
    else
      var diff := total.value - Sum(lines);
      if diff == 0 then Kept(lines)
      else if Abs(diff) <= 1 then Kept(Adjusted(lines, diff).0)
      else Diverged(diff)
  }

  /**
   * After the check the lines add up exactly to the total, or the group
   * is skipped; only a difference of more than one cent is refused.
   */
  lemma ReconcileSumsToTotal(lines: seq<Line>, total: int)
    requires total != 0 && lines != []
    ensures Reconcile(lines, Some(total)).Kept? ==> Sum(Reconcile(lines, Some(total)).lines) == total
    ensures Reconcile(lines, Some(total)).Diverged? <==> Abs(total - Sum(lines)) > 1
    ensures Reconcile(lines, Some(total)).Diverged? ==> Reconcile(lines, Some(total)).diff == total - Sum(lines)
  {
    AdjustedSum(lines, total - Sum(lines));
  }

  /** The check never adds, drops or reorders lines, and changes at most one value. */
  lemma ReconcileKeepsLines(lines: seq<Line>, total: Option<int>)
    requires Reconcile(lines, total).Kept?
    ensures var r := Reconcile(lines, total).lines;
      && |r| == |lines|
      && (forall i :: 0 <= i < |lines| ==> r[i].prefix == lines[i].prefix)
      && (forall i, j :: 0 <= i < j < |lines| && r[i] != lines[i] ==> r[j] == lines[j])
  {
    var r := Reconcile(lines, total).lines;
    if r != lines {
      var diff := total.value - Sum(lines);
      AdjustedChangesOneValue(lines, diff);
    }
  }

  // ---------------------------------------------------------------------
  // The label
  // ---------------------------------------------------------------------

  /** `f"{prefix}: R$ {formato_brl(value)}"`, the value in cents. */
  function LabelLine(line: Line): string
  {
    Letter(line.prefix) + ": R$ " + FormatBrlHalfEven(Some(Decimal(line.value, 2)))
  }

  function LabelText(lines: seq<Line>): (r: seq<string>)
    ensures |r| == |lines|
    ensures forall i :: 0 <= i < |lines| ==> r[i] == LabelLine(lines[i])
  {
    if lines == [] then []
    else
      var rest := LabelText(lines[1..]);
      assert forall i :: 0 <= i < |rest| ==> rest[i] == LabelLine(lines[i + 1]);
      [LabelLine(lines[0])] + rest
  }

  /** Python's `s.replace(pat, rep)` for a non-empty pattern: left to right, without overlap. */
  function ReplaceAll(s: string, pat: string, rep: string): string
    requires |pat| > 0
    decreases |s|
  {
    if |s| < |pat| then s
    else if s[..|pat|] == pat then rep + ReplaceAll(s[|pat|..], pat, rep)
    else [s[0]] + ReplaceAll(s[1..], pat, rep)
  }

  /** `os.path.basename(pdf).replace(".pdf", "_rateado.pdf")`. */
  function OutputName(pdf: string): string
  {
    ReplaceAll(pdf, ".pdf", "_rateado.pdf")
  }

  // ---------------------------------------------------------------------
  // One group
  // ---------------------------------------------------------------------

  /** The total of an XML: `vTPrest` rounded half-up to cents, `None` when it cannot be read. */
  function TotalOf(inputs: Inputs, xml: string): Option<int>
  {
    if xml in inputs.totals then Some(RoundHalfUp(inputs.totals[xml])) else None
  }

  /** What the loop body of `processar` does with one group. */
  function GroupSpec(index: map<string, string>, inputs: Inputs, g: Group): GroupResult
  {
    var number := IntToString(g.number);
    if number !in index then GroupResult(KeyMissing, None)
    else
      var key := index[number];
      match LocatePdf(inputs.pdfs, key)
      case None => GroupResult(PdfMissing, None)
      case Some(pdf) =>
        if pdf !in inputs.firstPageText then GroupResult(Fault, None)
        else
          var complement := if IsComplement(Some(inputs.firstPageText[pdf])) then Some(pdf) else None;
          match LocateXml(key, inputs.xmls)
          case None => GroupResult(Fault, complement)
          case Some(xml) =>
            match Reconcile(LinesOf(g.rows), TotalOf(inputs, xml))
            case SumOfNothing => GroupResult(Fault, complement)
            case Diverged(d) => GroupResult(Divergent(d), complement)
            case Kept(lines) =>
              if lines == [] then GroupResult(NoLines, complement)
              else GroupResult(Written(Label(pdf, OutputName(pdf), lines, LabelText(lines))), complement)
  }

  /** The rows loop of `processar`: append the line of each kept row. */
  method CollectLines(rows: seq<Row>) returns (lines: seq<Line>)
    ensures lines == LinesOf(rows)
  {
    lines := [];
    var k := 0;
    while k < |rows|
      invariant 0 <= k <= |rows|
      invariant lines == LinesOf(rows[..k])
    {
      assert rows[..k + 1][..k] == rows[..k];
      var base := ParseMoney(rows[k].amount);
      if base.Some? && base.value.mant > 0 {
        var prefix := OperationPrefix(Some(rows[k].operation));
        if prefix.Some? {
          lines := lines + [Line(prefix.value, RoundHalfUp(base.value))];
        }
      }
      k := k + 1;
    }
    assert rows[..k] == rows;
  }

  /** The reconciliation step of `processar`, adjusting the smallest line in place. */
  method ReconcileLines(lines: seq<Line>, total: Option<int>) returns (r: Reconciled)
    ensures r == Reconcile(lines, total)
  {
    if total.None? || total.value == 0 {
      return Kept(lines);
    }
    if lines == [] {
      return SumOfNothing;
    }
    var diff := total.value - Sum(lines);
    if diff == 0 {
      return Kept(lines);
    }
    if Abs(diff) > 1 {
      return Diverged(diff);
    }
    var a := new Line[|lines|](i requires 0 <= i < |lines| => lines[i]);
    assert a[..] == lines;
    var _ := AdjustByRounding(a, diff);
    return Kept(a[..]);
  }

  /** The loop body of `processar` for one group. */
  method ProcessGroup(index: map<string, string>, inputs: Inputs, g: Group) returns (result: GroupResult)
    ensures result == GroupSpec(index, inputs, g)
  {
    var number := IntToString(g.number);
    if number !in index {
      return GroupResult(KeyMissing, None);
    }
    var key := index[number];
    var pdf := LocatePdf(inputs.pdfs, key);
    if pdf.None? {
      return GroupResult(PdfMissing, None);
    }
    if pdf.value !in inputs.firstPageText {
      return GroupResult(Fault, None);
    }
    var complement := if IsComplement(Some(inputs.firstPageText[pdf.value])) then Some(pdf.value) else None;
    var xml := LocateXml(key, inputs.xmls);
    if xml.None? {
      return GroupResult(Fault, complement);
    }
    var lines := CollectLines(g.rows);
    var checked := ReconcileLines(lines, TotalOf(inputs, xml.value));
    match checked
    case SumOfNothing =>
      return GroupResult(Fault, complement);
    case Diverged(d) =>
      return GroupResult(Divergent(d), complement);
    case Kept(kept) =>
      if kept == [] {
        return GroupResult(NoLines, complement);
      }
      return GroupResult(Written(Label(pdf.value, OutputName(pdf.value), kept, LabelText(kept))), complement);
  }

  // ---------------------------------------------------------------------
  // The run
  // ---------------------------------------------------------------------

  /**
   * The counters and lists of `processar`. `crashed` marks a run ended by
   * an exception; the groups after it are not processed.
   */
  datatype Report = Report(
    total: nat,
    success: nat,
    keyErrors: nat,
    pdfErrors: nat,
    keyErrorList: seq<string>,
    pdfErrorList: seq<string>,
    complements: seq<(string, string)>,
    outputs: seq<Label>,
    crashed: bool)

  /** What one group's result does to the report. */
  function Record(report: Report, g: Group, result: GroupResult): (r: Report)
    ensures r.total == report.total
    ensures r.success - |r.outputs| == report.success - |report.outputs|
    ensures r.keyErrors - |r.keyErrorList| == report.keyErrors - |report.keyErrorList|
    ensures r.pdfErrors - |r.pdfErrorList| == report.pdfErrors - |report.pdfErrorList|
    ensures report.success <= r.success && report.keyErrors <= r.keyErrors && report.pdfErrors <= r.pdfErrors
    ensures r.success + r.keyErrors + r.pdfErrors <= report.success + report.keyErrors + report.pdfErrors + 1
  {
    var number := IntToString(g.number);
    var report := if result.complement.Some? then report.(complements := report.complements + [(number, result.complement.value)]) else report;
    match result.outcome
    case KeyMissing => report.(keyErrors := report.keyErrors + 1, keyErrorList := report.keyErrorList + [number])
    case PdfMissing => report.(pdfErrors := report.pdfErrors + 1, pdfErrorList := report.pdfErrorList + [number])
    case Fault => report.(crashed := true)
    case Divergent(_) => report
    case NoLines => report
    case Written(l) => report.(success := report.success + 1, outputs := report.outputs + [l])
  }

  /** The report after the first `n` groups; nothing changes once the run has crashed. */
  function RunUpTo(index: map<string, string>, inputs: Inputs, groups: seq<Group>, n: nat): (r: Report)
    requires n <= |groups|
    ensures r.total == |groups|
    ensures r.success == |r.outputs| && r.keyErrors == |r.keyErrorList| && r.pdfErrors == |r.pdfErrorList|
    ensures r.success + r.keyErrors + r.pdfErrors <= n
  {
    if n == 0 then Report(|groups|, 0, 0, 0, [], [], [], [], false)
    else
      var prev := RunUpTo(index, inputs, groups, n - 1);
      if prev.crashed then prev else Record(prev, groups[n - 1], GroupSpec(index, inputs, groups[n - 1]))
  }

  /**
   * A configured XML folder that is not a directory: `os.listdir` raises
   * before the spreadsheet is read.
   */
  predicate ListingFails(inputs: Inputs)
  {
    inputs.xmlConfigured && inputs.xmls.None?
  }

  /** The index of a run: empty when no XML folder is configured. */
  function RunIndex(inputs: Inputs): map<string, string>
  {
    if inputs.xmlConfigured && inputs.xmls.Some? then IndexOfListing(inputs.xmls.value) else map[]
  }

  /** The report of a run ended by an exception before the group loop. */
  const CrashedBeforeGroups: Report := Report(0, 0, 0, 0, [], [], [], [], true)

  /** The whole run: index the XMLs, then every group in order. */
  function RunSpec(inputs: Inputs, groups: seq<Group>): Report
  {
    if ListingFails(inputs) then CrashedBeforeGroups
    else RunUpTo(RunIndex(inputs), inputs, groups, |groups|)
  }

  lemma {:induction false} CrashIsFinal(index: map<string, string>, inputs: Inputs, groups: seq<Group>, m: nat, n: nat)
    requires m <= n <= |groups| && RunUpTo(index, inputs, groups, m).crashed
    ensures RunUpTo(index, inputs, groups, n) == RunUpTo(index, inputs, groups, m)
    decreases n
  {
    if n > m {
      CrashIsFinal(index, inputs, groups, m, n - 1);
    }
  }

  /** `processar` from the index build to the end of the group loop. */
  method Process(inputs: Inputs, groups: seq<Group>) returns (report: Report)
    ensures report == RunSpec(inputs, groups)
  {
    var index: map<string, string> := map[];
    if inputs.xmlConfigured {
      if inputs.xmls.None? {
        return CrashedBeforeGroups;
      }
      index := BuildIndex(inputs.xmls.value);
    }
    report := ProcessGroups(index, inputs, groups);
  }

  /** The group loop of `processar`: every group in order, until one faults. */
  method ProcessGroups(index: map<string, string>, inputs: Inputs, groups: seq<Group>) returns (report: Report)
    ensures report == RunUpTo(index, inputs, groups, |groups|)
  {
    report := Report(|groups|, 0, 0, 0, [], [], [], [], false);
    var i := 0;
    while i < |groups| && !report.crashed
      invariant 0 <= i <= |groups|
      invariant report == RunUpTo(index, inputs, groups, i)
    {
      var result := ProcessGroup(index, inputs, groups[i]);
      RunStep(index, inputs, groups, i);
      report := Record(report, groups[i], result);
      i := i + 1;
    }
    if i < |groups| {
      CrashIsFinal(index, inputs, groups, i, |groups|);
    }
  }

  /** One more group on a run that has not crashed records that group's result. */
  lemma RunStep(index: map<string, string>, inputs: Inputs, groups: seq<Group>, i: nat)
    requires i < |groups| && !RunUpTo(index, inputs, groups, i).crashed
    ensures RunUpTo(index, inputs, groups, i + 1)
      == Record(RunUpTo(index, inputs, groups, i), groups[i], GroupSpec(index, inputs, groups[i]))
  {
  }

  // ---------------------------------------------------------------------
  // What a group's outcome guarantees
  // ---------------------------------------------------------------------

  /** A configured XML folder that cannot be listed ends the run before any group. */
  lemma MissingXmlFolderCrashes(inputs: Inputs, groups: seq<Group>)
    requires inputs.xmlConfigured && inputs.xmls.None?
    ensures RunSpec(inputs, groups).crashed
    ensures RunSpec(inputs, groups).success == 0 && RunSpec(inputs, groups).outputs == []
  {
  }

  /** Without an XML folder the index is empty: every group is a key error. */
  lemma NoXmlFolderIsKeyMissing(inputs: Inputs, g: Group)
    requires !inputs.xmlConfigured
    ensures GroupSpec(RunIndex(inputs), inputs, g).outcome == KeyMissing
  {
  }

  /** A CT-e number of zero or below is never in the index: the group is a key error. */
  lemma NonPositiveNumberIsKeyMissing(inputs: Inputs, g: Group)
    requires g.number <= 0
    ensures GroupSpec(RunIndex(inputs), inputs, g).outcome == KeyMissing
  {
    var index := RunIndex(inputs);
    var number := IntToString(g.number);
    if number in index {
      IndexEntriesValid(inputs.xmls.value);
      LookupMatchesNumber(index[number], g.number);
    }
  }

  /** The key the index holds always leads back to an XML of the same listing. */
  lemma IndexedKeyFindsXml(names: seq<string>, n: string)
    requires n in IndexOfListing(names)
    ensures LocateXml(IndexOfListing(names)[n], Some(names)).Some?
  {
    var key := IndexOfListing(names)[n];
    IndexEntriesValid(names);
    var j :| 0 <= j < |names| && IndexedFrom(names[j], key);
    var i := FirstDigitRun(names[j], 0).value;
    assert OccursAt(names[j], key, i);
    assert NameMatches(names[j], ".xml", key);
  }

  /**
   * With the index built from the same listing, a group faults only when
   * its PDF's first page cannot be read or when a non-zero total meets no
   * line at all (`sum([])`); the missing-XML fault cannot happen.
   */
  lemma FaultCauses(inputs: Inputs, g: Group)
    requires GroupSpec(RunIndex(inputs), inputs, g).outcome == Fault
    ensures var key := RunIndex(inputs)[IntToString(g.number)];
      var pdf := LocatePdf(inputs.pdfs, key).value;
      pdf !in inputs.firstPageText
      || (LinesOf(g.rows) == [] && LocateXml(key, inputs.xmls).Some?
          && var t := TotalOf(inputs, LocateXml(key, inputs.xmls).value); t.Some? && t.value != 0)
  {
    assert IntToString(g.number) in RunIndex(inputs);
    IndexedKeyFindsXml(inputs.xmls.value, IntToString(g.number));
  }

  /** A label line never holds a line break. */
  lemma LabelLineSingle(line: Line)
    ensures '\n' !in LabelLine(line)
  {
    var amount := FormatBrlHalfEven(Some(Decimal(line.value, 2)));
    FormatBrlHalfEvenText(Some(Decimal(line.value, 2)));
    assert '\n' !in Letter(line.prefix) + ": R$ ";
    InConcat(Letter(line.prefix) + ": R$ ", amount, '\n');
  }

  /**
   * A written label has a line per kept line, in order, each drawable on
   * its own; and when the XML has a non-zero total its lines add up to it.
   */
  lemma WrittenLabel(index: map<string, string>, inputs: Inputs, g: Group)
    requires GroupSpec(index, inputs, g).outcome.Written?
    ensures var l := GroupSpec(index, inputs, g).outcome.written;
      && |l.text| == |l.lines| >= 1
      && (forall i :: 0 <= i < |l.text| ==> '\n' !in l.text[i])
      && l.output == OutputName(l.pdf)
    ensures var key := index[IntToString(g.number)];
      var xml := LocateXml(key, inputs.xmls).value;
      var total := TotalOf(inputs, xml);
      total.Some? && total.value != 0 ==>
        Sum(GroupSpec(index, inputs, g).outcome.written.lines) == total.value
  {
    var l := GroupSpec(index, inputs, g).outcome.written;
    forall i | 0 <= i < |l.text| ensures '\n' !in l.text[i] {
      LabelLineSingle(l.lines[i]);
    }
    var key := index[IntToString(g.number)];
    var xml := LocateXml(key, inputs.xmls).value;
    var total := TotalOf(inputs, xml);
    if total.Some? && total.value != 0 {
      ReconcileSumsToTotal(LinesOf(g.rows), total.value);
    }
  }

  /** Lines are kept in row order: the rows of a concatenation give the concatenated lines. */
  lemma {:induction false} LinesOfConcat(a: seq<Row>, b: seq<Row>)
    ensures LinesOf(a + b) == LinesOf(a) + LinesOf(b)
    decreases |b|
  {
    if b != [] {
      var c := a + b;
      var init := b[..|b| - 1];
      var last := b[|b| - 1];
      assert LinesOf(c) == LinesOf(a + init) + RowLine(last) by {
        assert c[..|c| - 1] == a + init;
        assert c[|c| - 1] == last;
      }
      LinesOfConcat(a, init);
      assert LinesOf(b) == LinesOf(init) + RowLine(last);
    } else {
      assert a + b == a;
    }
  }

  /** Each row gives a line exactly when its amount is positive and its operation known. */
  lemma RowKept(row: Row)
    ensures RowLine(row) != [] <==>
      (ParseMoney(row.amount).Some? && ParseMoney(row.amount).value.mant > 0 && OperationPrefix(Some(row.operation)).Some?)
    ensures RowLine(row) != [] ==>
      RowLine(row)[0] == Line(OperationPrefix(Some(row.operation)).value, RoundHalfUp(ParseMoney(row.amount).value))
  {
  }

  /** "150.00" and "0.01" against a total of 150.02: the 0.01 line becomes 0.02. */
  lemma OneCentAdjusted()
    ensures Reconcile([Line(Venda, 15000), Line(Bonificacao, 1)], Some(15002))
      == Kept([Line(Venda, 15000), Line(Bonificacao, 2)])
  {
    var lines := [Line(Venda, 15000), Line(Bonificacao, 1)];
    assert Sum(lines) == 15001 by {
      assert lines[..1] == [Line(Venda, 15000)];
    }
    assert FirstMinIndex(lines) == 1;
  }

  /** "150.00" alone against a total of 150.02: two cents apart, the group is skipped. */
  lemma TwoCentsDiverge()
    ensures Reconcile([Line(Venda, 15000)], Some(15002)) == Diverged(2)
  {
    assert Sum([Line(Venda, 15000)]) == 15000;
  }

  /** `.replace(".pdf", "_rateado.pdf")` on a name whose only `.` is the extension's. */
  lemma {:induction false} OutputNameOfPlainPdf(base: string)
    requires '.' !in base
    ensures OutputName(base + ".pdf") == base + "_rateado.pdf"
    decreases |base|
  {
    var s := base + ".pdf";
    if base == [] {
      assert s == ".pdf";
      assert s[4..] == [];
    } else {
      assert s[..4] != ".pdf" by {
        assert s[0] == base[0];
      }
      assert s[1..] == base[1..] + ".pdf";
      OutputNameOfPlainPdf(base[1..]);
      assert [base[0]] + base[1..] == base;
    }
  }
}
