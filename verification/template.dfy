/**
 * The file served by `GET /template`, as the CSV parser yields it with
 * `trim: true`: a header line and five data lines. The fourth address has
 * only 39 hex digits, so whatever the hash, the template builds four records.
 */
module Template {
  import opened Wrappers
  import opened Bytes
  import opened Text
  import opened Amount
  import opened Address
  import opened Rows

  const Header: seq<string> := ["address", "amount"]
  const Line1: seq<string> := ["0xAb5801a7D398351b8bE11C439e05C5B3259aeC7B", "1000.0"]
  const Line2: seq<string> := ["0x4B0897b0513fdC7C541B6d9D7E929C4e5364D2dB", "500.5"]
  const Line3: seq<string> := ["0x583031D1113aD414F02576BD6afaBfb302140225", "250.25"]
  const Line4: seq<string> := ["0xdD870fA1b7C4700F2BD7f44238821C26f739700", "750.0"]
  const Line5: seq<string> := ["0x14723A09ACff6D2A60DcdF7aA4AFf308FDDC160C", "100.0"]

  /** The fourth line with its address written out in full (40 hex digits). */
  const Line4Corrected: seq<string> := ["0xdD870fA1b7C4700F2BD7f44238821C26f7392148", "750.0"]

  /** The template rows with a given fourth line. */
  function TemplateWith(line4: seq<string>): seq<seq<string>>
  {
    [Header] + ([Line1] + ([Line2] + ([Line3] + ([line4] + ([Line5] + [])))))
  }

  /** The rows of the template as shipped. */
  function TemplateRows(): seq<seq<string>>
  {
    TemplateWith(Line4)
  }

  /** The rows of the corrected template. */
  function CorrectedTemplateRows(): seq<seq<string>>
  {
    TemplateWith(Line4Corrected)
  }

  /** A cell of at most 19 characters never has more than 18 fractional digits. */
  lemma ShortCellWithinPrecision(s: string)
    requires |s| <= EtherDecimals + 1
    ensures WithinEtherPrecision(s)
  {
  }

  /** An amount cell `trim` leaves alone, of the accepted shape and within ether precision. */
  predicate AmountCell(cell: string)
  {
    Trim(cell) == cell && AmountShape(cell) && WithinEtherPrecision(cell)
  }

  /** A cell `whole.frac` with digits on both sides and at most 19 characters. */
  lemma DecimalCell(whole: string, frac: string, cell: string)
    requires cell == whole + "." + frac
    requires |whole| >= 1 && AllDigits(whole) && |frac| >= 1 && AllDigits(frac)
    requires '0' <= cell[0] <= '9' && '0' <= cell[|cell| - 1] <= '9' && |cell| <= EtherDecimals + 1
    ensures AmountCell(cell)
  {
    DecimalShape(whole, frac);
    ShortCellWithinPrecision(cell);
  }

  /** A two-cell line with a well-formed amount whose trimmed address the hash accepts. */
  predicate AcceptedLine(H: Hasher, line: seq<string>)
  {
    |line| == 2 && AmountCell(line[1]) && GetAddress(H, Trim(line[0])).Success?
  }

  /** A two-cell line with a well-formed amount and an address of the wrong shape. */
  predicate MalformedAddressLine(line: seq<string>)
  {
    |line| == 2 && AmountCell(line[1]) && !AddressSyntax(Trim(line[0]))
  }

  /** An accepted line gives one record and no warning. */
  lemma AcceptedLineRecord(H: Hasher, line: seq<string>)
    requires AcceptedLine(H, line)
    ensures WithinEtherPrecision(Trim(line[1]))
    ensures |RowOutcome(H, line).records| == 1 && RowOutcome(H, line).warnings == []
  {
  }

  /** A line with a malformed address gives the warning and no record, whatever the hash. */
  lemma MalformedAddressWarned(H: Hasher, line: seq<string>)
    requires MalformedAddressLine(line)
    ensures WithinEtherPrecision(Trim(line[1]))
    ensures RowOutcome(H, line) == Collected([], [Warning(line, InvalidAddress)])
  {
  }

  /** Prepending a row whose amount is modelled keeps all rows modelled. */
  lemma WithinPrecisionCons(row: seq<string>, rest: seq<seq<string>>)
    requires |row| >= 2 ==> WithinEtherPrecision(Trim(row[1]))
    requires RowsWithinPrecision(rest)
    ensures RowsWithinPrecision([row] + rest)
  {
    forall i | 0 <= i < |[row] + rest| && |([row] + rest)[i]| >= 2
      ensures WithinEtherPrecision(Trim(([row] + rest)[i][1]))
    {
      if i > 0 {
        assert ([row] + rest)[i] == rest[i - 1];
      }
    }
  }

  /** The shape of the template file: a header, then five two-cell lines with well-formed amounts. */
  predicate TemplateShaped(h: seq<string>, l1: seq<string>, l2: seq<string>, l3: seq<string>,
                           l4: seq<string>, l5: seq<string>)
  {
    && |h| == 2 && IsHeaderRow(h) && WithinEtherPrecision(Trim(h[1]))
    && |l1| == 2 && AmountCell(l1[1]) && |l2| == 2 && AmountCell(l2[1]) && |l3| == 2 && AmountCell(l3[1])
    && |l4| == 2 && AmountCell(l4[1]) && |l5| == 2 && AmountCell(l5[1])
  }

  /** A header and five lines: the header is skipped and the lines are processed in order. */
  lemma HeaderThenFive(H: Hasher, h: seq<string>, l1: seq<string>, l2: seq<string>, l3: seq<string>,
                       l4: seq<string>, l5: seq<string>)
    requires TemplateShaped(h, l1, l2, l3, l4, l5)
    ensures RowsWithinPrecision([h] + ([l1] + ([l2] + ([l3] + ([l4] + ([l5] + []))))))
    ensures CollectRecords(H, [h] + ([l1] + ([l2] + ([l3] + ([l4] + ([l5] + []))))))
            == Success(Concat(RowOutcome(H, l1), Concat(RowOutcome(H, l2), Concat(RowOutcome(H, l3),
                 Concat(RowOutcome(H, l4), Concat(RowOutcome(H, l5), Collected([], [])))))))
  {
    var t5 := [l5] + [];
    var t4 := [l4] + t5;
    var t3 := [l3] + t4;
    var t2 := [l2] + t3;
    var t1 := [l1] + t2;
    WithinPrecisionCons(l5, []);
    WithinPrecisionCons(l4, t5);
    WithinPrecisionCons(l3, t4);
    WithinPrecisionCons(l2, t3);
    WithinPrecisionCons(l1, t2);
    WithinPrecisionCons(h, t1);
    assert ([h] + t1)[1..] == t1;
    FirstHeaderRowSkipped(H, [h] + t1);
    ProcessRowsCons(H, l1, t2);
    ProcessRowsCons(H, l2, t3);
    ProcessRowsCons(H, l3, t4);
    ProcessRowsCons(H, l4, t5);
    ProcessRowsCons(H, l5, []);
    assert Outcomes(H, []) == [];
  }

  lemma Line1Amount()
    ensures AmountCell(Line1[1])
  {
    DecimalCell("1000", "0", Line1[1]);
  }

  lemma Line2Amount()
    ensures AmountCell(Line2[1])
  {
    DecimalCell("500", "5", Line2[1]);
  }

  lemma Line3Amount()
    ensures AmountCell(Line3[1])
  {
    DecimalCell("250", "25", Line3[1]);
  }

  lemma Line4Amount()
    ensures AmountCell(Line4[1]) && Line4Corrected[1] == Line4[1]
  {
    DecimalCell("750", "0", Line4[1]);
  }

  lemma Line5Amount()
    ensures AmountCell(Line5[1])
  {
    DecimalCell("100", "0", Line5[1]);
  }

  /** The header is recognised as one, and its second cell is short. */
  lemma HeaderFacts()
    ensures |Header| == 2 && IsHeaderRow(Header) && WithinEtherPrecision(Trim(Header[1]))
  {
    assert Lower("address") == "address";
    assert Trim(Header[1]) == Header[1];
    ShortCellWithinPrecision(Header[1]);
  }

  /** Both templates have the expected shape. */
  lemma TemplateShapes()
    ensures TemplateShaped(Header, Line1, Line2, Line3, Line4, Line5)
    ensures TemplateShaped(Header, Line1, Line2, Line3, Line4Corrected, Line5)
  {
    HeaderFacts();
    Line1Amount();
    Line2Amount();
    Line3Amount();
    Line4Amount();
    Line5Amount();
  }

  /** Whatever the hash, the 39-digit address of the fourth line is malformed. */
  lemma ShortAddressRejected()
    ensures MalformedAddressLine(Line4)
  {
    Line4Amount();
    var a := Line4[0];
    assert Trim(a) == a;
    assert |a| == 41;
  }

  /** The hash accepts the (trimmed) addresses of the first, second, third and fifth lines. */
  predicate AcceptsTemplateAddresses(H: Hasher)
  {
    && GetAddress(H, Trim(Line1[0])).Success?
    && GetAddress(H, Trim(Line2[0])).Success?
    && GetAddress(H, Trim(Line3[0])).Success?
    && GetAddress(H, Trim(Line5[0])).Success?
  }

  lemma OtherLinesAccepted(H: Hasher)
    requires AcceptsTemplateAddresses(H)
    ensures AcceptedLine(H, Line1) && AcceptedLine(H, Line2) && AcceptedLine(H, Line3) && AcceptedLine(H, Line5)
  {
    Line1Amount();
    Line2Amount();
    Line3Amount();
    Line5Amount();
  }

  /** Four accepted lines around a rejected fourth give four records and its warning. */
  lemma FourOfFive(H: Hasher, h: seq<string>, l1: seq<string>, l2: seq<string>, l3: seq<string>,
                   l4: seq<string>, l5: seq<string>)
    requires TemplateShaped(h, l1, l2, l3, l4, l5)
    requires AcceptedLine(H, l1) && AcceptedLine(H, l2) && AcceptedLine(H, l3) && AcceptedLine(H, l5)
    requires MalformedAddressLine(l4)
    ensures RowsWithinPrecision([h] + ([l1] + ([l2] + ([l3] + ([l4] + ([l5] + []))))))
    ensures var c := CollectRecords(H, [h] + ([l1] + ([l2] + ([l3] + ([l4] + ([l5] + []))))));
            c.Success? && |c.value.records| == 4 && c.value.warnings == [Warning(l4, InvalidAddress)]
  {
    HeaderThenFive(H, h, l1, l2, l3, l4, l5);
    AcceptedLineRecord(H, l1);
    AcceptedLineRecord(H, l2);
    AcceptedLineRecord(H, l3);
    MalformedAddressWarned(H, l4);
    AcceptedLineRecord(H, l5);
  }

  /** Five accepted lines give five records and no warning. */
  lemma FiveOfFive(H: Hasher, h: seq<string>, l1: seq<string>, l2: seq<string>, l3: seq<string>,
                   l4: seq<string>, l5: seq<string>)
    requires TemplateShaped(h, l1, l2, l3, l4, l5)
    requires AcceptedLine(H, l1) && AcceptedLine(H, l2) && AcceptedLine(H, l3)
    requires AcceptedLine(H, l4) && AcceptedLine(H, l5)
    ensures RowsWithinPrecision([h] + ([l1] + ([l2] + ([l3] + ([l4] + ([l5] + []))))))
    ensures var c := CollectRecords(H, [h] + ([l1] + ([l2] + ([l3] + ([l4] + ([l5] + []))))));
            c.Success? && |c.value.records| == 5 && c.value.warnings == []
  {
    HeaderThenFive(H, h, l1, l2, l3, l4, l5);
    AcceptedLineRecord(H, l1);
    AcceptedLineRecord(H, l2);
    AcceptedLineRecord(H, l3);
    AcceptedLineRecord(H, l4);
    AcceptedLineRecord(H, l5);
  }

  /**
   * The template as shipped: the header is skipped, the fourth line is
   * warned about, and four records remain even when every checksum matches.
   */
  lemma TemplateBuildsFour(H: Hasher)
    requires AcceptsTemplateAddresses(H)
    ensures RowsWithinPrecision(TemplateRows()) && CollectRecords(H, TemplateRows()).Success?
    ensures |CollectRecords(H, TemplateRows()).value.records| == 4
    ensures CollectRecords(H, TemplateRows()).value.warnings == [Warning(Line4, InvalidAddress)]
  {
    TemplateShapes();
    OtherLinesAccepted(H);
    ShortAddressRejected();
    FourOfFive(H, Header, Line1, Line2, Line3, Line4, Line5);
  }

  /** The corrected template: all five lines become records once the hash accepts the fourth address too. */
  lemma CorrectedTemplateBuildsFive(H: Hasher)
    requires AcceptsTemplateAddresses(H) && GetAddress(H, Trim(Line4Corrected[0])).Success?
    ensures RowsWithinPrecision(CorrectedTemplateRows()) && CollectRecords(H, CorrectedTemplateRows()).Success?
    ensures |CollectRecords(H, CorrectedTemplateRows()).value.records| == 5
    ensures CollectRecords(H, CorrectedTemplateRows()).value.warnings == []
  {
    TemplateShapes();
    OtherLinesAccepted(H);
    Line4Amount();
    FiveOfFive(H, Header, Line1, Line2, Line3, Line4Corrected, Line5);
  }
}
