/**
 * The body of `GET /results/csv`: a header line, then one line per entry
 * `root,address,amount,"p1|p2|..."`, joined with newlines and not escaped
 * further. A reader for that text shows that nothing is lost.
 */
module CsvExport {
  import opened Wrappers
  import opened Bytes
  import opened Text
  import opened Hex
  import opened Address
  import opened Dataset

  const CsvHeader: string := "merkle_root,address,amount,proof"

  function HexList(proof: seq<Hash>): (r: seq<string>)
    ensures |r| == |proof|
    ensures forall i :: 0 <= i < |proof| ==> r[i] == HashHex(proof[i])
  {
    seq(|proof|, i requires 0 <= i < |proof| => HashHex(proof[i]))
  }

  /** `"${entry.proof.join('|')}"` */
  function ProofField(proof: seq<Hash>): string
  {
    "\"" + Join('|', HexList(proof)) + "\""
  }

  /** `[root, entry.address, entry.amount, quoted proof].join(',')`; the amount is its decimal string. */
  function CsvLine(root: Hash, e: Entry): string
  {
    Join(',', [HashHex(root), e.address, NatToString(e.amount), ProofField(e.proof)])
  }

  function CsvLines(root: Hash, entries: seq<Entry>): (r: seq<string>)
    ensures |r| == |entries|
    ensures forall i :: 0 <= i < |entries| ==> r[i] == CsvLine(root, entries[i])
  {
    seq(|entries|, i requires 0 <= i < |entries| => CsvLine(root, entries[i]))
  }

  /** `lines.join('\n')` with the header first. */
  function ExportCsv(d: MerkleData): string
  {
    Join('\n', [CsvHeader] + CsvLines(d.root, d.entries))
  }

  /** The reply of `GET /results/csv`: 404 before any upload, else the export. */
  datatype CsvReply = NoTreeYet | CsvText(text: string)

  /**
   * The `/results/csv` handler: with nothing published it answers 404, and
   * otherwise the text it sends reads back as every entry of the dataset.
   */
  function ResultsCsv(state: Option<MerkleData>): (r: CsvReply)
    ensures state.None? <==> r == NoTreeYet
    ensures state.Some? && (forall i :: 0 <= i < |state.value.entries| ==> IsAddressText(state.value.entries[i].address))
            ==> r.CsvText? && ParseExport(r.text) == Some(ExpectedRows(state.value))
  {
    match state
    case None => NoTreeYet
    case Some(d) =>
      if forall i :: 0 <= i < |d.entries| ==> IsAddressText(d.entries[i].address) then
        ExportRoundTrip(d);
        CsvText(ExportCsv(d))
      else CsvText(ExportCsv(d))
  }

  // ---------------------------------------------------------------- reading back

  /** One exported line, read back. */
  datatype CsvRow = CsvRow(root: Hash, address: string, amount: nat, proof: seq<Hash>)

  function ParseHashList(parts: seq<string>): (r: Option<seq<Hash>>)
    ensures r.Some? ==> |r.value| == |parts|
  {
    if |parts| == 0 then Some([])
    else
      var h :- ParseHashHex(parts[0]);
      var rest :- ParseHashList(parts[1..]);
      Some([h] + rest)
  }

  /** A quoted, `|`-separated list of hashes; `""` is the empty proof. */
  function ParseProofField(f: string): (r: Option<seq<Hash>>)
  {
    if |f| >= 2 && f[0] == '"' && f[|f| - 1] == '"' then
      var inner := f[1..|f| - 1];
      if inner == "" then Some([]) else ParseHashList(Split('|', inner))
    else None
  }

  function ParseCsvLine(line: string): (r: Option<CsvRow>)
    ensures r.Some? ==> IsAddressText(r.value.address)
  {
    var f := Split(',', line);
    if |f| != 4 || !IsAddressText(f[1]) || !CanonicalDigits(f[2]) then None
    else
      var root :- ParseHashHex(f[0]);
      var proof :- ParseProofField(f[3]);
      Some(CsvRow(root, f[1], DigitsValue(f[2]), proof))
  }

  function ParseCsvLines(lines: seq<string>): (r: Option<seq<CsvRow>>)
    ensures r.Some? ==> |r.value| == |lines|
  {
    if |lines| == 0 then Some([])
    else
      var row :- ParseCsvLine(lines[0]);
      var rest :- ParseCsvLines(lines[1..]);
      Some([row] + rest)
  }

  /** The export text, read back: None unless the first line is the header. */
  function ParseExport(text: string): (r: Option<seq<CsvRow>>)
  {
    var lines := Split('\n', text);
    if lines[0] != CsvHeader then None else ParseCsvLines(lines[1..])
  }

  // ---------------------------------------------------------------- round trip

  /** What each entry should read back as. */
  function ExpectedRows(d: MerkleData): (r: seq<CsvRow>)
    ensures |r| == |d.entries|
  {
    seq(|d.entries|, i requires 0 <= i < |d.entries| =>
      CsvRow(d.root, d.entries[i].address, d.entries[i].amount, d.entries[i].proof))
  }

  /** The rendered hash uses only `0`, `x` and hex digits. */
  lemma HashHexAvoids(h: Hash, c: char)
    requires c == ',' || c == '|' || c == '\n' || c == '"'
    ensures c !in HashHex(h)
  {
    var s := HashHex(h);
    forall i | 2 <= i < |s|
      ensures s[i] != c
    {
      assert s[i] == s[2..][i - 2];
    }
    assert s[..2] == "0x";
  }

  lemma AddressAvoids(a: string, c: char)
    requires IsAddressText(a)
    requires c == ',' || c == '\n'
    ensures c !in a
  {
    forall i | 2 <= i < |a|
      ensures a[i] != c
    {
      assert a[i] == a[2..][i - 2];
    }
    assert a[..2] == "0x";
  }

  lemma DigitsAvoid(s: string, c: char)
    requires AllDigits(s)
    requires c == ',' || c == '\n'
    ensures c !in s
  {
  }

  lemma HexListAvoids(proof: seq<Hash>, c: char)
    requires c == ',' || c == '|' || c == '\n' || c == '"'
    ensures forall k :: 0 <= k < |proof| ==> c !in HexList(proof)[k]
  {
    forall k | 0 <= k < |proof|
      ensures c !in HexList(proof)[k]
    {
      HashHexAvoids(proof[k], c);
    }
  }

  lemma ProofFieldAvoids(proof: seq<Hash>, c: char)
    requires c == ',' || c == '\n'
    ensures c !in ProofField(proof)
  {
    HexListAvoids(proof, c);
    JoinChars('|', HexList(proof), c);
  }

  lemma {:induction false} ParseHashListOfHexList(proof: seq<Hash>)
    ensures ParseHashList(HexList(proof)) == Some(proof)
  {
    if |proof| > 0 {
      HashHexRoundTrip(proof[0]);
      assert HexList(proof)[1..] == HexList(proof[1..]);
      ParseHashListOfHexList(proof[1..]);
      assert proof == [proof[0]] + proof[1..];
    }
  }

  /** The quoted proof reads back as the proof; an empty proof is written `""`. */
  lemma ProofFieldRoundTrip(proof: seq<Hash>)
    ensures ParseProofField(ProofField(proof)) == Some(proof)
    ensures proof == [] ==> ProofField(proof) == "\"\""
  {
    var parts := HexList(proof);
    var f := ProofField(proof);
    assert f[1..|f| - 1] == Join('|', parts);
    ParseHashListOfHexList(proof);
    if |proof| == 0 {
      assert Join('|', parts) == "";
    } else {
      assert |HashHex(proof[0])| == 66;
      assert |Join('|', parts)| > 0 by {
        JoinFirstPart('|', parts);
      }
      HexListAvoids(proof, '|');
      SplitJoin('|', parts);
    }
  }

  lemma JoinFirstPart(sep: char, parts: seq<string>)
    requires |parts| >= 1
    ensures |Join(sep, parts)| >= |parts[0]|
  {
  }

  /** Every exported line reads back as its entry. */
  lemma CsvLineRoundTrip(root: Hash, e: Entry)
    requires IsAddressText(e.address)
    ensures ParseCsvLine(CsvLine(root, e)) == Some(CsvRow(root, e.address, e.amount, e.proof))
  {
    var fields := [HashHex(root), e.address, NatToString(e.amount), ProofField(e.proof)];
    HashHexAvoids(root, ',');
    AddressAvoids(e.address, ',');
    DigitsAvoid(NatToString(e.amount), ',');
    ProofFieldAvoids(e.proof, ',');
    SplitJoin(',', fields);
    HashHexRoundTrip(root);
    DigitsValueOfNatToString(e.amount);
    ProofFieldRoundTrip(e.proof);
  }

  lemma CsvLineAvoidsNewline(root: Hash, e: Entry)
    requires IsAddressText(e.address)
    ensures '\n' !in CsvLine(root, e)
  {
    var fields := [HashHex(root), e.address, NatToString(e.amount), ProofField(e.proof)];
    HashHexAvoids(root, '\n');
    AddressAvoids(e.address, '\n');
    DigitsAvoid(NatToString(e.amount), '\n');
    ProofFieldAvoids(e.proof, '\n');
    JoinChars(',', fields, '\n');
  }

  lemma {:induction false} ParseCsvLinesEach(lines: seq<string>, rows: seq<CsvRow>)
    requires |lines| == |rows|
    requires forall i :: 0 <= i < |lines| ==> ParseCsvLine(lines[i]) == Some(rows[i])
    ensures ParseCsvLines(lines) == Some(rows)
  {
    if |lines| > 0 {
      ParseCsvLinesEach(lines[1..], rows[1..]);
      assert rows == [rows[0]] + rows[1..];
    }
  }

  /**
   * The export is the header followed by exactly one line per entry, in
   * entry order, and reading it back gives every entry's root, address,
   * amount and proof.
   */
  lemma ExportRoundTrip(d: MerkleData)
    requires forall i :: 0 <= i < |d.entries| ==> IsAddressText(d.entries[i].address)
    ensures Split('\n', ExportCsv(d)) == [CsvHeader] + CsvLines(d.root, d.entries)
    ensures ParseExport(ExportCsv(d)) == Some(ExpectedRows(d))
  {
    var lines := [CsvHeader] + CsvLines(d.root, d.entries);
    LinesAvoidNewline(d);
    SplitJoin('\n', lines);
    assert lines[1..] == CsvLines(d.root, d.entries);
    LinesReadBack(d);
  }

  lemma LinesAvoidNewline(d: MerkleData)
    requires forall i :: 0 <= i < |d.entries| ==> IsAddressText(d.entries[i].address)
    ensures forall k :: 0 <= k < |[CsvHeader] + CsvLines(d.root, d.entries)| ==>
              '\n' !in ([CsvHeader] + CsvLines(d.root, d.entries))[k]
  {
    var lines := [CsvHeader] + CsvLines(d.root, d.entries);
    forall k | 0 <= k < |lines|
      ensures '\n' !in lines[k]
    {
      if k > 0 {
        CsvLineAvoidsNewline(d.root, d.entries[k - 1]);
      }
    }
  }

  lemma LinesReadBack(d: MerkleData)
    requires forall i :: 0 <= i < |d.entries| ==> IsAddressText(d.entries[i].address)
    ensures ParseCsvLines(CsvLines(d.root, d.entries)) == Some(ExpectedRows(d))
  {
    var expected := ExpectedRows(d);
    forall i | 0 <= i < |d.entries|
      ensures ParseCsvLine(CsvLines(d.root, d.entries)[i]) == Some(expected[i])
    {
      CsvLineRoundTrip(d.root, d.entries[i]);
    }
    ParseCsvLinesEach(CsvLines(d.root, d.entries), expected);
  }

  /** A published dataset always exports to text that reads back completely. */
  lemma ConsistentExports(H: Hasher, d: MerkleData)
    requires Consistent(H, d)
    ensures ParseExport(ExportCsv(d)) == Some(ExpectedRows(d))
  {
    forall i | 0 <= i < |d.entries|
      ensures IsAddressText(d.entries[i].address)
    {
      assert EntryVerifies(H, d.root, d.entries[i]);
    }
    ExportRoundTrip(d);
  }
}
