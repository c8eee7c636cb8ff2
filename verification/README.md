# Merkle airdrop allocation pipeline in Dafny

This project models the back end of the Merkle airdrop dropper (`backend/server.js`):
the path from an uploaded allocation sheet to the published Merkle dataset, and the
two read-side handlers that serve it.

- **Row normalisation** (module `Rows`, with `Amount`, `Address`, `Text`).
  - `normalizeRow` trims both cells.
  - The address is canonicalised the way `ethers.getAddress` does (EIP-55 checksum casing).
  - The amount must match `^[0-9]+(\.[0-9]+)?$`. Digits alone are wei; a decimal point means ether (× 10^18).
  - The upload loop may skip the first row as a header. It drops rows with fewer than two cells and warns about rows that fail.
- **Leaf encoding** (module `Leaf`).
  - The leaf preimage is the Solidity ABI encoding of `(address, uint256)`: 12 zero bytes, the 20 address bytes, then the 32-byte big-endian amount.
  - The tree leaf is `keccak256(keccak256(preimage))`.
  - An amount of 2^256 or more makes the encoder throw, which aborts the whole upload.
- **Merkle tree** (module `Merkle`).
  - `merkletreejs` with `sortPairs: true`: nodes are paired level by level and each pair is hashed smaller-first.
  - An unpaired last node is carried up unchanged.
  - `getHexProof` looks the leaf up by value.
  - Proofs are checked as OpenZeppelin's `MerkleProof.processProof` does.
- **Dataset assembly** (module `Dataset`).
  - `entries` are kept in record order, with `count` and the unbounded `totalAllocated` sum.
  - The `proofs` index is keyed by lower-cased address, and the last write wins.
  - `Build` runs the whole upload and fails with the reason the handler gives up.
- **Handlers** (modules `Server`, `CsvExport`, `Template`).
  - `POST /upload` replaces the published dataset only on success. It answers 400 when no row survives and 500 on a thrown error.
  - `GET /proof/:address` looks an address up in any casing.
  - `GET /results/csv` renders the export; a reader for it shows that the export is lossless.
  - `GET /template` serves a fixed file; its rows are modelled as the CSV parser yields them.

Keccak-256 is a parameter `H: seq<byte> -> Hash`, where `Hash` is a 32-byte sequence. Every
statement holds for every such function, so nothing depends on Keccak's internals.
The CSV tokeniser is not modelled: an upload is the already split and trimmed
`seq<seq<string>>` the parser yields. The timestamp (`Date.now()`) is an input.

## Model

| member | source | states |
|---|---|---|
| Amount.ParseAmount | backend/server.js:41-49 | a trimmed cell has a value exactly when it matches the accepted shape; digits alone give their decimal value unscaled; a value with a point gives whole × 10^18 + fraction × 10^(18 − fraction digits) |
| Amount.ParseEther | backend/server.js:47-48 | `parseEther(whole.frac)` is the exact decimal value times 10^18 |
| Amount.AmountShapeIff | backend/server.js:43-45 | the accepted shape, character by character: non-empty, only digits and at most one '.', and the '.' is neither first nor last |
| Amount.AmountRejections | backend/server.js:41-45 | empty, signed (`-1`, `+1`), leading-dot, trailing-dot, double-dot and exponent amounts are rejected |
| Amount.WeiExamples | backend/server.js:47-49 | `"100"` is 100 wei and leading zeros do not change it |
| Amount.EtherValue | backend/server.js:47-48 | for any digit strings `whole` and `frac` (at most 18 fractional digits), `whole.frac` is accepted and is worth whole × 10^18 + frac × 10^(18 − \|frac\|) wei |
| Amount.EtherExampleHundred | backend/server.js:46-48 | `"100.0"` is 100 × 10^18 wei, not 100 wei |
| Amount.EtherExampleFraction | backend/server.js:46-48 | `"500.5"` is 500500000000000000000 wei |
| Text.Trim | backend/server.js:40-41 | the trimmed string starts and ends with no JavaScript white space, and a string that already does is unchanged |
| Text.TrimIdempotent | backend/server.js:40-41 | trimming twice is trimming once |
| Text.DigitsValueOfNatToString | backend/server.js:50 | the decimal string of an amount reads back as the same amount |
| Address.GetAddress | backend/server.js:40 | an accepted address is `0x` and 40 hex digits with the same digits up to case; input of the wrong shape is rejected as malformed; mixed-case input keeps its digits exactly as written |
| Address.GetAddressIdempotent | backend/server.js:40 | canonicalising a canonical address gives it back |
| Address.GetAddressCaseInsensitive | backend/server.js:40 | two accepted spellings of the same digits canonicalise to the same string |
| Address.SingleCaseAccepted | backend/server.js:40 | all-lower-case or all-upper-case 40-digit input is accepted whatever the hash |
| Address.AddressBytesIgnoreCase | backend/server.js:125 | an address and its lower-cased key denote the same 20 bytes |
| Rows.NormalizeRow | backend/server.js:39-51 | a row normalises exactly when its trimmed address is accepted and its trimmed amount has the accepted shape; an address failure is reported before an amount failure; the record holds exactly the checksum-cased string `getAddress` returns for the trimmed address (which canonicalises to itself) and the parsed amount |
| Rows.RowOutcome | backend/server.js:95-101 | one loop iteration adds at most one record or one warning, and nothing for a row with fewer than two cells |
| Rows.RecordFromRow | backend/server.js:95-98 | a row adds a record exactly when it has two cells and normalises to that record |
| Rows.ProcessRows | backend/server.js:87-102 | the loop keeps at most one result per row, and every record it keeps holds an address of the accepted shape that `getAddress` maps to itself, so already in checksum casing |
| Rows.ProcessRowsAppend | backend/server.js:87-102 | rows are handled independently: processing a concatenation is concatenating the results |
| Rows.ProcessRowsCons | backend/server.js:87-102 | the first row's result comes before the results of the rest |
| Rows.RowContributesInPlace | backend/server.js:87-102 | row i's result sits between the results of the rows before it and after it, so input order is kept |
| Rows.RecordsComeFromRows | backend/server.js:95-98 | every record comes from some row that normalises to exactly it |
| Rows.RowsBecomeRecords | backend/server.js:95-98 | every two-cell row that normalises contributes its record |
| Rows.CollectRecords | backend/server.js:86-102 | an upload whose first row has no cells fails; otherwise the result is the loop over the rows with at most the first one skipped, and over all rows when the first is not a header |
| Rows.FirstHeaderRowSkipped | backend/server.js:86-92 | a first row whose first cell reads `address` in any casing is skipped and the rest are processed |
| Rows.LaterHeaderRowWarned | backend/server.js:89-100 | a header-like row anywhere but first is not skipped; it is warned about as an invalid address |
| Leaf.EncodeAddressUint | backend/server.js:110-112 | the encoding succeeds exactly when the amount is below 2^256; it is 64 bytes: 12 zero bytes, the address, then the amount big-endian |
| Leaf.DecodeOfEncode | backend/server.js:112 | decoding an encoding gives back the address and amount |
| Leaf.EncodeOfDecode | backend/server.js:112 | every 64-byte string with zero padding is the encoding of what it decodes to |
| Leaf.EncodingInjective | backend/server.js:112 | different (address, amount) pairs have different preimages |
| Merkle.CombineCommutes | backend/server.js:117 | the sorted-pair hash does not depend on the order of its arguments |
| Merkle.CombineOrdersByValue | backend/server.js:117 | "smaller first" is the order of the nodes as unsigned big-endian integers |
| Merkle.NextLevel | backend/server.js:117 | a level of n nodes has ⌈n/2⌉ parents |
| Merkle.HashLevel | backend/server.js:117 | the pairing loop (an odd last node pushed unchanged) computes exactly the next level |
| Merkle.CreateHashes | backend/server.js:117 | the layer loop, run until one node remains, builds exactly the layers of the tree |
| Merkle.Layers | backend/server.js:117-118 | the first layer is the leaves and, for a non-empty tree, the last layer is the single root |
| Merkle.LastIndexOf | backend/server.js:124 | the leaf search finds the last position holding the value, and none exactly when the value is absent |
| Merkle.GetProof | backend/server.js:124 | the proof of a value that is not a leaf is empty |
| Merkle.ProofRoundTrip | backend/server.js:117-124 | for every position, folding the sorted-pair hash over that leaf's proof gives the root |
| Merkle.GetProofVerifies | backend/server.js:123-124 | the proof handed out for a leaf value verifies against the root, even when the value occurs several times |
| Merkle.SingleLeafTree | backend/server.js:117-124 | a single leaf is its own root and has an empty proof |
| Merkle.ThreeLeafTree | backend/server.js:117-124 | with three leaves the third is carried up, its proof has one sibling, and the other two proofs have two |
| Dataset.LeavesHashRecordPreimages | backend/server.js:110-115 | when every amount encodes, leaf k is `H(H(p))` for a 64-byte preimage `p` that decodes back to record k's address bytes and amount |
| Dataset.SumAppend | backend/server.js:134 | the total of two runs of amounts is the sum of their totals |
| Dataset.TotalCountsEveryEntry | backend/server.js:134 | any two entries, duplicates included, both count toward the total |
| Dataset.ProofIndexLastWins | backend/server.js:120-126 | the index holds exactly the lower-cased addresses of the entries, and each key maps to the last entry with that address |
| Dataset.Assemble | backend/server.js:120-143 | the dataset's root is the root of the tree over the leaves, entry i holds record i's address and amount with the proof handed out for leaf i's value, and the dataset is consistent: count, total, every proof verifies, index |
| Dataset.Build | backend/server.js:83-143 | a first row without cells fails, and only it gives that failure; no surviving row fails with NoValidRows; an amount of 2^256 or more fails; when records survive and all amounts encode the build succeeds, and the dataset matches the records in order, has the root and proofs of the tree over their leaves, is consistent and carries the timestamp |
| Dataset.DuplicateRecordsShareProof | backend/server.js:123-126 | identical records receive identical entries, proof included |
| CsvExport.ProofFieldRoundTrip | backend/server.js:185-191 | the quoted, `\|`-joined proof reads back as the proof; an empty proof is written `""` |
| CsvExport.CsvLineRoundTrip | backend/server.js:187-192 | each exported line reads back as the root, address, amount and proof of its entry |
| CsvExport.ResultsCsv | backend/server.js:179-198 | with nothing published the reply is the 404 "No merkle tree generated yet"; otherwise it is an export that reads back as every entry of the published dataset |
| CsvExport.ExportRoundTrip | backend/server.js:183-198 | the export is the header followed by exactly one line per entry in entry order, and reading it back gives every entry |
| CsvExport.ConsistentExports | backend/server.js:181-198 | every published dataset exports to text that reads back completely |
| Hex.HashHexRoundTrip | backend/server.js:118 | the `0x`-prefixed hex of a hash reads back as the hash |
| Server.Upload | backend/server.js:104-150 | the reply is 200 exactly when the build succeeds, and then the published dataset is exactly the one built, and the reply carries its root, count and total; otherwise the published dataset is kept; the reply is 400 exactly when no row survived, and any other failure is 500 |
| Server.NoValidRowsKeepsDataset | backend/server.js:104-106 | an upload in which no row survives answers 400 and leaves the published dataset in place |
| Server.LookupAnyCasing | backend/server.js:204-206 | an address is found in any casing exactly when some entry has it, and the reply is the last such entry's amount and proof with the root |
| Server.LookupVerifies | backend/server.js:202-207 | a found proof verifies the queried address and returned amount against the returned root |
| Server.IndexKeysAreAddresses | backend/server.js:125-126 | every key of a published index is a 42-character address already in lower case |
| Server.LookupAsWritten | backend/server.js:205-207 | the handler as written answers with the root alone only for a lower-cased query that names an inherited object property |
| Server.LookupAgreesAwayFromInheritedKeys | backend/server.js:205-207 | away from inherited property names the handler as written and the corrected lookup agree |
| Server.InheritedKeyAnswered | backend/server.js:205-207 | the queries `constructor` and `__proto__` (any casing) are answered 200 with the root, where the corrected lookup answers not found |
| Server.ConstructorAnswered | backend/server.js:205-207 | `GET /proof/Constructor` is answered with the root alone |
| Template.ShortAddressRejected | backend/server.js:61 | the fourth template address, 39 hex digits, is malformed whatever the hash |
| Template.HeaderThenFive | backend/server.js:56-63 | a header and five data lines: the header is skipped and the five lines' results are concatenated in order |
| Template.TemplateBuildsFour | backend/server.js:56-63 | even when every other checksum matches, the shipped template builds four records and warns about the fourth line |
| Template.CorrectedTemplateBuildsFive | backend/server.js:56-63 | with the fourth address written out in full, the template builds five records and no warning |

## Left out

- HTTP and I/O are not modelled:
  - Express routing, the multer upload and the "No file uploaded" reply.
  - Reading and unlinking the uploaded file.
  - `saveMerkle`/`loadMerkle` persistence and JSON serialisation.
  - `console.warn`. The warnings are kept as data instead (`Rows.Warning`).
- The published `merkleData` variable is an explicit input and result of `Server.Upload`. Concurrent uploads are not modelled.
- A failing `writeFileSync` inside `saveMerkle` would answer 500. It is I/O and is not modelled.
- CSV tokenising by `csv-parse` (quoting, `trim`, `skip_empty_lines`) is not modelled, because the library is not visible. Uploads and the template are modelled as the split and trimmed cells it yields.
  - With its default `relax_column_count: false`, csv-parse throws on a line whose cell count differs from the first line's, and the handler answers 500. So the `row.length < 2` test (server.js:95) only drops rows when every row is equally short; a 1-cell or 3-cell line after a 2-cell header never reaches `normalizeRow`. The model, which starts from the parsed cells, handles such rows one by one.
- Keccak-256 is a parameter. ICAP addresses, which `ethers.getAddress` also accepts, are not modelled.
- `GET /root`, `GET /results` and `GET /merkle.json` only return stored fields and are not modelled.
- The React front end is not modelled.
- Rows.NormalizeRow: requires at most 18 fractional digits in the trimmed amount.
  - `parseEther` is library code that is not visible, so its behaviour beyond 18 decimals is not modelled.
  - Its 512-bit overflow is not modelled either. Such amounts are far above 2^256: the model aborts them at the encoding, where the library might reject the row instead.
- Amount.ParseAmount: requires at most 18 fractional digits, for the same reason.
- Rows.ProcessRows, Rows.CollectRecords, Dataset.Build and Server.Upload carry the same precondition on every row (`RowsWithinPrecision`).
- Text.Lower: lower-cases ASCII letters only.
  - Every string it is applied to is compared with ASCII keys: hex addresses, `address`, inherited property names.
  - JavaScript's full Unicode `toLowerCase` is not modelled.
- Behaviour of the code worth noting:
  - **Repeated leaf values.** `getHexProof` is handed a leaf value, and merkletreejs scans all leaves and keeps the last equal one. Identical records therefore share the proof of the last occurrence (`Merkle.LastIndexOf`), and it verifies for every occurrence.
  - **Empty first row.** An empty first row makes `row[0].toLowerCase()` throw, which the handler answers with 500 (`HeaderCellMissing`), although csv-parse with `skip_empty_lines` does not produce such a row.

## Findings

| source | as written | input that shows it | evidently intended | confidence | as-written member | corrected member |
|---|---|---|---|---|---|---|
| backend/server.js:205-207 | `merkleData.proofs` is a plain object, so a lower-cased query naming an `Object.prototype` property finds an inherited, truthy value, and `{ ...p, root }` answers 200 with the root alone | `GET /proof/constructor` or `GET /proof/__proto__` against any published dataset | "Address not found in tree" (404) for every key that is not an allocated address | high; not executed | Server.LookupAsWritten (exhibited by Server.InheritedKeyAnswered and Server.ConstructorAnswered) | Server.LookupAnyCasing (about the corrected Server.LookupProof), with Server.LookupAgreesAwayFromInheritedKeys |
| backend/server.js:61 | the fourth template address `0xdD870fA1b7C4700F2BD7f44238821C26f739700` has 39 hex digits, so that row is always warned about and skipped | uploading the downloaded template unchanged | a template whose five rows all become records | high; not executed | Template.TemplateBuildsFour (with Template.ShortAddressRejected) | Template.CorrectedTemplateBuildsFive |
