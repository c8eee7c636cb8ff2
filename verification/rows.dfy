/**
 * From parsed CSV rows to allocation records: `normalizeRow` and the row
 * loop of the upload handler (header skipping, short rows, rejected rows).
 * Rows arrive already split into cells by the CSV parser.
 */
module Rows {
  import opened Wrappers
  import opened Bytes
  import opened Text
  import opened Amount
  import opened Address
  import opened Seqs

  /** A normalised allocation: canonical checksum address and amount in wei. */
  datatype Record = Record(address: string, amount: nat)

  datatype RowError = InvalidAddress | InvalidAmount

  /** A row that had two cells but failed normalisation (`console.warn`). */
  datatype Warning = Warning(row: seq<string>, error: RowError)

  /** What the row loop keeps: the records in row order, and the warnings. */
  datatype Collected = Collected(records: seq<Record>, warnings: seq<Warning>)

  /** `row[0].toLowerCase()` on a first row without cells throws and aborts the upload. */
  datatype CollectError = FirstRowWithoutCells

  /**
   * `normalizeRow(address, amount)`: the address is trimmed and
   * canonicalised (checked first), then the amount is trimmed and parsed.
   */
  function NormalizeRow(H: Hasher, address: string, amount: string): (r: Result<Record, RowError>)
    requires WithinEtherPrecision(Trim(amount))
    ensures r.Success? <==> GetAddress(H, Trim(address)).Success? && AmountShape(Trim(amount))
    ensures r.Failure? ==> (r.error == InvalidAddress <==> GetAddress(H, Trim(address)).Failure?)
    ensures r.Success? ==> IsAddressText(r.value.address)
    ensures r.Success? ==> Lower(r.value.address) == "0x" + Lower(DigitsOf(Trim(address)))
    ensures r.Success? ==> Some(r.value.amount) == ParseAmount(Trim(amount))
    ensures r.Success? ==> r.value.address == GetAddress(H, Trim(address)).value
    ensures r.Success? ==> GetAddress(H, r.value.address) == Success(r.value.address)
  {
    match GetAddress(H, Trim(address))
    case Failure(_) => Failure(InvalidAddress)
    case Success(canonical) =>
      GetAddressIdempotent(H, Trim(address));
      match ParseAmount(Trim(amount))
      case None => Failure(InvalidAmount)
      case Some(wei) => Success(Record(canonical, wei))
  }

  /** No row carries a decimal amount with more fractional digits than `parseEther` is modelled for. */
  predicate RowsWithinPrecision(rows: seq<seq<string>>)
  {
    forall i :: 0 <= i < |rows| && |rows[i]| >= 2 ==> WithinEtherPrecision(Trim(rows[i][1]))
  }

  lemma RowsWithinPrecisionSlice(rows: seq<seq<string>>, a: nat, b: nat)
    requires RowsWithinPrecision(rows) && a <= b <= |rows|
    ensures RowsWithinPrecision(rows[a..b])
  {
    forall i | 0 <= i < b - a && |rows[a..b][i]| >= 2
      ensures WithinEtherPrecision(Trim(rows[a..b][i][1]))
    {
      assert rows[a..b][i] == rows[a + i];
    }
  }

  /** What one row adds: nothing if it has fewer than two cells, else a record or a warning. */
  function RowOutcome(H: Hasher, row: seq<string>): (r: Collected)
    requires |row| >= 2 ==> WithinEtherPrecision(Trim(row[1]))
    ensures |r.records| + |r.warnings| <= 1
    ensures |row| < 2 ==> r == Collected([], [])
  {
    if |row| < 2 then Collected([], [])
    else match NormalizeRow(H, row[0], row[1])
      case Success(rec) => Collected([rec], [])
      case Failure(e) => Collected([], [Warning(row, e)])
  }

  /** A row yields a record exactly when it has two cells and normalises to it. */
  lemma RecordFromRow(H: Hasher, row: seq<string>, rec: Record)
    requires |row| >= 2 ==> WithinEtherPrecision(Trim(row[1]))
    ensures rec in RowOutcome(H, row).records <==> |row| >= 2 && NormalizeRow(H, row[0], row[1]) == Success(rec)
    ensures rec in RowOutcome(H, row).records ==> IsAddressText(rec.address)
  {
  }

  function Concat(a: Collected, b: Collected): Collected
  {
    Collected(a.records + b.records, a.warnings + b.warnings)
  }

  lemma ConcatAssociative(x: Collected, y: Collected, z: Collected)
    ensures Concat(x, Concat(y, z)) == Concat(Concat(x, y), z)
  {
    AppendAssociative(x.records, y.records, z.records);
    AppendAssociative(x.warnings, y.warnings, z.warnings);
  }

  /** The per-row outcomes glued together in order. */
  function Flatten(os: seq<Collected>): Collected
  {
    if |os| == 0 then Collected([], []) else Concat(os[0], Flatten(os[1..]))
  }

  lemma {:induction false} FlattenAppend(a: seq<Collected>, b: seq<Collected>)
    ensures Flatten(a + b) == Concat(Flatten(a), Flatten(b))
  {
    if |a| == 0 {
      assert a + b == b;
    } else {
      var ab := a + b;
      assert ab[0] == a[0];
      assert ab[1..] == a[1..] + b;
      FlattenAppend(a[1..], b);
      assert Flatten(ab) == Concat(a[0], Flatten(a[1..] + b));
      ConcatAssociative(a[0], Flatten(a[1..]), Flatten(b));
    }
  }

  lemma {:induction false} FlattenSize(os: seq<Collected>)
    requires forall i :: 0 <= i < |os| ==> |os[i].records| + |os[i].warnings| <= 1
    ensures |Flatten(os).records| + |Flatten(os).warnings| <= |os|
  {
    if |os| > 0 {
      FlattenSize(os[1..]);
    }
  }

  /** Flattening distributes over any split point. */
  lemma FlattenSplit(os: seq<Collected>, k: nat)
    requires k <= |os|
    ensures Flatten(os) == Concat(Flatten(os[0..k]), Flatten(os[k..|os|]))
  {
    assert os == os[0..k] + os[k..|os|];
    FlattenAppend(os[0..k], os[k..|os|]);
  }

  /** Outcome i sits between the flattened outcomes before and after it. */
  lemma FlattenSplitAround(os: seq<Collected>, i: nat)
    requires i < |os|
    ensures Flatten(os) == Concat(Concat(Flatten(os[0..i]), os[i]), Flatten(os[i + 1..|os|]))
  {
    var before, rest, after := os[0..i], os[i..|os|], os[i + 1..|os|];
    FlattenSplit(os, i);
    assert rest[1..] == after;
    assert Flatten(rest) == Concat(os[i], Flatten(after));
    ConcatAssociative(Flatten(before), os[i], Flatten(after));
  }

  /** A value is among the flattened records exactly when it is among the records of one outcome. */
  lemma {:induction false} FlattenRecords(os: seq<Collected>, rec: Record)
    ensures rec in Flatten(os).records <==> exists i :: 0 <= i < |os| && rec in os[i].records
  {
    if |os| > 0 {
      FlattenRecords(os[1..], rec);
      if rec in Flatten(os[1..]).records {
        var i :| 0 <= i < |os[1..]| && rec in os[1..][i].records;
        assert os[i + 1] == os[1..][i];
      }
      if j :| 0 <= j < |os| && rec in os[j].records {
        if j > 0 {
          assert os[1..][j - 1] == os[j];
        }
      }
    }
  }

  /** The outcome of every row, in row order. */
  function Outcomes(H: Hasher, rows: seq<seq<string>>): (r: seq<Collected>)
    requires RowsWithinPrecision(rows)
    ensures |r| == |rows|
    ensures forall i :: 0 <= i < |rows| ==> r[i] == RowOutcome(H, rows[i])
  {
    seq(|rows|, i requires 0 <= i < |rows| => RowOutcome(H, rows[i]))
  }

  lemma OutcomesSlice(H: Hasher, rows: seq<seq<string>>, a: nat, b: nat)
    requires RowsWithinPrecision(rows) && a <= b <= |rows|
    ensures RowsWithinPrecision(rows[a..b])
    ensures Outcomes(H, rows[a..b]) == Outcomes(H, rows)[a..b]
  {
    RowsWithinPrecisionSlice(rows, a, b);
    var x, y := Outcomes(H, rows[a..b]), Outcomes(H, rows)[a..b];
    forall i | 0 <= i < b - a
      ensures x[i] == y[i]
    {
      assert rows[a..b][i] == rows[a + i];
    }
  }

  /** The loop body applied to every row after the header decision. */
  function ProcessRows(H: Hasher, rows: seq<seq<string>>): (r: Collected)
    requires RowsWithinPrecision(rows)
    ensures |r.records| + |r.warnings| <= |rows|
    ensures forall rec :: rec in r.records ==> IsAddressText(rec.address)
    ensures forall rec :: rec in r.records ==> GetAddress(H, rec.address) == Success(rec.address)
  {
    var os := Outcomes(H, rows);
    FlattenSize(os);
    forall rec | rec in Flatten(os).records
      ensures IsAddressText(rec.address) && GetAddress(H, rec.address) == Success(rec.address)
    {
      FlattenRecords(os, rec);
      var i :| 0 <= i < |os| && rec in os[i].records;
      RecordFromRow(H, rows[i], rec);
    }
    Flatten(os)
  }

  /** Rows are handled independently and in order: processing distributes over concatenation. */
  lemma ProcessRowsAppend(H: Hasher, a: seq<seq<string>>, b: seq<seq<string>>)
    requires RowsWithinPrecision(a + b)
    ensures RowsWithinPrecision(a) && RowsWithinPrecision(b)
    ensures ProcessRows(H, a + b) == Concat(ProcessRows(H, a), ProcessRows(H, b))
  {
    var ab := a + b;
    OutcomesSlice(H, ab, 0, |a|);
    OutcomesSlice(H, ab, |a|, |ab|);
    assert ab[0..|a|] == a;
    assert ab[|a|..|ab|] == b;
    FlattenSplit(Outcomes(H, ab), |a|);
  }

  /** The first row's outcome comes first, then the rest. */
  lemma ProcessRowsCons(H: Hasher, row: seq<string>, rest: seq<seq<string>>)
    requires RowsWithinPrecision([row] + rest)
    ensures |row| >= 2 ==> WithinEtherPrecision(Trim(row[1]))
    ensures RowsWithinPrecision(rest)
    ensures ProcessRows(H, [row] + rest) == Concat(RowOutcome(H, row), ProcessRows(H, rest))
  {
    var rows := [row] + rest;
    assert rows[0] == row;
    OutcomesSlice(H, rows, 1, |rows|);
    assert rows[1..|rows|] == rest;
    var os := Outcomes(H, rows);
    assert os[1..] == os[1..|rows|];
  }

  /**
   * The records are the rows that normalise, in row order: row i
   * contributes its own outcome between those of the rows before and after it.
   */
  lemma RowContributesInPlace(H: Hasher, rows: seq<seq<string>>, i: nat)
    requires RowsWithinPrecision(rows) && i < |rows|
    ensures RowsWithinPrecision(rows[..i]) && RowsWithinPrecision(rows[i + 1..])
    ensures ProcessRows(H, rows)
            == Concat(Concat(ProcessRows(H, rows[..i]), RowOutcome(H, rows[i])), ProcessRows(H, rows[i + 1..]))
  {
    OutcomesSlice(H, rows, 0, i);
    OutcomesSlice(H, rows, i + 1, |rows|);
    assert rows[0..i] == rows[..i];
    assert rows[i + 1..|rows|] == rows[i + 1..];
    FlattenSplitAround(Outcomes(H, rows), i);
  }

  /** Every record comes from some row that normalises to exactly it. */
  lemma RecordsComeFromRows(H: Hasher, rows: seq<seq<string>>, rec: Record)
    requires RowsWithinPrecision(rows) && rec in ProcessRows(H, rows).records
    ensures exists i :: 0 <= i < |rows| && |rows[i]| >= 2 && NormalizeRow(H, rows[i][0], rows[i][1]) == Success(rec)
  {
    var os := Outcomes(H, rows);
    FlattenRecords(os, rec);
    var i :| 0 <= i < |os| && rec in os[i].records;
    RecordFromRow(H, rows[i], rec);
  }

  /** Every row with two cells that normalises yields a record. */
  lemma RowsBecomeRecords(H: Hasher, rows: seq<seq<string>>, i: nat)
    requires RowsWithinPrecision(rows) && i < |rows| && |rows[i]| >= 2
    requires NormalizeRow(H, rows[i][0], rows[i][1]).Success?
    ensures NormalizeRow(H, rows[i][0], rows[i][1]).value in ProcessRows(H, rows).records
  {
    var os := Outcomes(H, rows);
    var rec := NormalizeRow(H, rows[i][0], rows[i][1]).value;
    RecordFromRow(H, rows[i], rec);
    FlattenRecords(os, rec);
  }

  /** `row[0].toLowerCase() === 'address'` */
  predicate IsHeaderRow(row: seq<string>)
  {
    |row| >= 1 && Lower(row[0]) == "address"
  }

  /**
   * The upload loop: the first row alone is skipped when it is a header;
   * every later row, header-like or not, goes through `normalizeRow`.
   */
  function CollectRecords(H: Hasher, rows: seq<seq<string>>): (r: Result<Collected, CollectError>)
    requires RowsWithinPrecision(rows)
    ensures r.Failure? <==> |rows| > 0 && |rows[0]| == 0
    ensures r.Success? ==> exists skip :: 0 <= skip <= 1 && skip <= |rows|
                             && RowsWithinPrecision(rows[skip..]) && r.value == ProcessRows(H, rows[skip..])
    ensures r.Success? && (|rows| == 0 || !IsHeaderRow(rows[0])) ==> r.value == ProcessRows(H, rows)
    ensures r.Success? ==> forall rec :: rec in r.value.records ==> IsAddressText(rec.address)
  {
    if |rows| == 0 then
      assert rows[0..] == rows;
      Success(ProcessRows(H, rows))
    else if |rows[0]| == 0 then Failure(FirstRowWithoutCells)
    else if IsHeaderRow(rows[0]) then
      RowsWithinPrecisionSlice(rows, 1, |rows|);
      Success(ProcessRows(H, rows[1..]))
    else
      assert rows[0..] == rows;
      Success(ProcessRows(H, rows))
  }

  /** A first row whose first cell reads `address` in any casing is skipped, and only it. */
  lemma FirstHeaderRowSkipped(H: Hasher, rows: seq<seq<string>>)
    requires RowsWithinPrecision(rows) && |rows| >= 1 && IsHeaderRow(rows[0])
    ensures RowsWithinPrecision(rows[1..])
    ensures CollectRecords(H, rows) == Success(ProcessRows(H, rows[1..]))
  {
    RowsWithinPrecisionSlice(rows, 1, |rows|);
  }

  /** A header-like row after the first is not skipped: "address" is no address, so it is warned about. */
  lemma LaterHeaderRowWarned(H: Hasher, row: seq<string>)
    requires |row| >= 2 && IsHeaderRow(row) && WithinEtherPrecision(Trim(row[1]))
    ensures RowOutcome(H, row) == Collected([], [Warning(row, InvalidAddress)])
  {
    var s := row[0];
    assert |s| == 7;
    assert LowerChar(s[0]) == 'a' && LowerChar(s[6]) == 's';
    assert Trim(s) == s;
  }
}
