# Account reconciliation model

A Dafny model of the core of `account_db_compare`. The tool audits account
state between one canonical store (the archiver) and any number of node
stores that should replicate it. The model covers three parts:

- **The account record model** (`accounts.dfy`, `decimal.dfy`). An account
  payload has one of two shapes, `Regular` (it carries the nested account
  state) or `Special`. Decoding tries `Regular` first. An `AccountEntry`
  tags a payload with its account id and, for node records, the node path.
  Three read-only views feed the comparison: the balance, the nonce
  (`"N/A"` when absent, the decimal text of the integer for `Special`), and
  comparability (`Regular` only).
- **The two loaders** (`rows.dfy`, `archiver.dfy`, `nodes.dfy`). Each store
  yields a sequence of row reads. A read error aborts that store's load
  with the first error. The archiver loader keeps comparable rows in a map
  keyed by id, and the last such row with a given id wins. The node loader
  keeps each node's comparable rows and appends them, in node order, to a
  map from id to a list of entries. A node whose store or rows fail
  contributes nothing.
- **The reconciliation engine** (`reconcile.dfy`, `sums.dfy`).
  `CompareAccounts` joins the two maps on account id. It visits archiver ids
  in an arbitrary order, as a hash map yields them. For every pairing of the
  archiver entry with a node entry it records a comparison, which is a
  mismatch when the balances or the nonces differ by exact equality. Ids on
  only one side become orphan records. The counters are stated as order-free
  sums over the maps, so they do not depend on the visiting order, and
  orphans never enter them.

Decode outcomes, row reads and store failures are inputs to the model:
`Row.decoded` is the result of JSON decoding, `RowRead` is one step of the
row iterator, and `StoreRows` is the result of opening and querying a
store. Node names are input strings.

Two behaviours of the program worth noting:
- The balance view is an `Option`: `None` for `Special`. `"N/A"` appears
  only when it is printed, and the comparison is on the `Option`.
- A node list is not limited to one entry per node. Every comparable row is
  appended, so a node that reports an id twice contributes two entries and
  two comparisons.

## Model

| member | source | states |
|---|---|---|
| Accounts.DecodeUntagged | src/main.rs:24-47 | a syntax error is reported as is; otherwise the untagged decode succeeds iff either shape fits and nothing but whitespace follows; when Regular fits it wins, so the result is Special only when Regular does not fit; when neither fits the error is serde's "did not match any variant" message, and a fitting payload with trailing characters fails with the trailing-characters error |
| Accounts.Balance | src/main.rs:74-79 | the balance view is present exactly for Regular records and is then the stored balance text, unchanged |
| Accounts.Nonce | src/main.rs:81-86 | the nonce view never fails: it is the stored nonce text for Regular records, "N/A" for a Special record without a nonce, and otherwise the canonical decimal text of the integer nonce, which parses back to it and is never "N/A" |
| Accounts.IsComparable | src/main.rs:88-90 | an entry is comparable exactly when it is Regular, which is exactly when it has a balance view |
| Accounts.SpecialNonceFaithful | src/main.rs:84 | for two Special records the nonce texts are equal iff the optional integer nonces are equal, so comparing the text loses nothing |
| Decimal.NatToDecimal | src/main.rs:84 | the rendering of a natural number is a non-empty string of digits with no leading zero; it starts with '0' only for zero |
| Decimal.IntToDecimal | src/main.rs:84 | the rendering of an integer is well-formed decimal text, with a '-' exactly for negatives, '0' only as the whole text of zero, and no zero after the sign |
| Decimal.DecimalRoundTrip | src/main.rs:84 | parsing the printed form of any integer gives back that integer |
| Decimal.DecimalInjective | src/main.rs:84 | two integers print the same iff they are equal |
| Rows.ReadAll | src/main.rs:122-123 | draining the row iterator succeeds iff every read succeeds, and then yields the rows in order |
| Rows.ReadAllFirstFailure | src/main.rs:122-123 | a failed drain reports the error of the first failing read |
| ArchiverLoader.LoadArchiverAccounts | src/main.rs:107-142 | a store failure is propagated; otherwise the load succeeds iff every row read succeeds, and then the map is the fold of the rows in order (so the last comparable row for an id wins); every value is a comparable archiver entry filed under its own id |
| ArchiverLoader.ArchiverAllComparable | src/main.rs:131-133 | only comparable entries are inserted, each under its own id and without a node path |
| ArchiverLoader.ArchiverKeys | src/main.rs:122-139 | an id is in the archiver map iff some row with that id decoded to a comparable record |
| ArchiverLoader.ArchiverLastRowWins | src/main.rs:131-133 | the entry kept for an id comes from a kept row with that id, and no later row with that id was kept |
| ArchiverLoader.ArchiverSkipsRow | src/main.rs:124-138 | a row that fails to decode or decodes to Special leaves the map exactly as it would be without that row |
| NodeLoader.NodeEntries | src/main.rs:193-212 | a node keeps at most as many entries as it has rows, all comparable and tagged with the node's name |
| NodeLoader.NodeEntriesMembership | src/main.rs:193-204 | an entry is kept for a node iff it is the entry, tagged with the node's name, of some row that decoded to a comparable record |
| NodeLoader.NodeEntriesSingle | src/main.rs:193-204 | one row yields its tagged entry when it decodes to a comparable record, and nothing otherwise |
| NodeLoader.NodeEntriesConcat | src/main.rs:193-204 | the entries of two consecutive row runs are the entries of the first followed by those of the second, so row order and repeated ids are kept |
| NodeLoader.NodeSkipsRow | src/main.rs:196-203 | a row that fails to decode or decodes to Special leaves the node's kept entries exactly as they would be without that row |
| NodeLoader.LoadSingleNode | src/main.rs:178-212 | a node load succeeds iff its store opens and every row read succeeds, and then yields the node's kept entries |
| NodeLoader.LoadedNodeCount | src/main.rs:155-157 | the node count is at most the number of stores, with equality iff every store loads |
| NodeLoader.MergeAppends | src/main.rs:160-165 | merging appends under each id exactly the entries with that id, in order, after what was already there |
| NodeLoader.MergeKeys | src/main.rs:160-165 | merging creates a list under exactly the ids it pushes an entry for |
| NodeLoader.NodeAccountsExact | src/main.rs:155-169 | each merged list is exactly the comparable entries with that id from the nodes that loaded, in node order, and is never empty |
| NodeLoader.NodeAccountsTotal | src/main.rs:155-169 | the list lengths sum to the number of comparable entries across all nodes that loaded |
| NodeLoader.NodeFailureIsolated | src/main.rs:155-170 | a node whose load fails changes neither the merged map nor the node count |
| Sums.SumOverPick | src/main.rs:235 | a sum over map keys is the same whichever key is taken first, so counters built by walking a hash map do not depend on the walk order |
| Reconcile.Classify | src/main.rs:240-247 | a comparison records a balance match iff the balance views are equal and a nonce match iff the nonce views are equal; it is a mismatch iff either differs |
| Reconcile.ClassifyComparable | src/main.rs:240-243 | for two comparable records a mismatch is exactly a difference in the stored balance text or the stored nonce text |
| Reconcile.CountMismatches | src/main.rs:237-247 | the mismatches counted among one id's node entries are at most the number of those entries |
| Reconcile.CountMismatchesExtremes | src/main.rs:237-247 | no mismatch is counted iff every node entry agrees with the archiver entry, and all are counted iff every node entry disagrees |
| Reconcile.CompareEntries | src/main.rs:237-247 | the inner loop makes one comparison per node entry, in list order, and counts exactly the mismatching ones |
| Reconcile.ClassifyAllAt | src/main.rs:237-247 | the k-th record made for an id classifies its k-th node entry |
| Reconcile.ClassifyAllMismatches | src/main.rs:237-247 | the records made for an id hold exactly as many mismatches as its node entries disagree with the archiver entry |
| Reconcile.RecordsForGenuine | src/main.rs:235-273 | whatever archiver ids have been visited, every comparison record made so far stands for a real pairing of an archiver entry with a node entry |
| Reconcile.RecordsForComplete | src/main.rs:235-273 | every pairing of a visited shared id with one of its node entries has its comparison record |
| Reconcile.ArchiverOrphansForSpec | src/main.rs:275-283 | every orphan record of the first pass names an archiver-only id, and every visited archiver-only id has one |
| Reconcile.RecordsForCounts | src/main.rs:235-247 | over any visiting order that lists each archiver id once, the records number the node entries of the shared ids and the mismatch records number the disagreeing pairings |
| Reconcile.NodeOrphansForGenuine | src/main.rs:286-299 | every record of the pass over node ids names a node-only id and one of its entries |
| Reconcile.NodeOrphansForComplete | src/main.rs:286-299 | every entry of a visited node-only id has its orphan record |
| Reconcile.CompareShared | src/main.rs:235-284 | the pass over archiver ids counts exactly the sum of list lengths over shared ids and exactly the mismatching pairings; every comparison is a real pairing and every pairing of a shared id with a node entry gets its comparison record; every archiver-only id gets an orphan record; the records are exactly those of visiting each archiver id once in some order, one per pairing and one per archiver-only id |
| Reconcile.CollectNodeOrphans | src/main.rs:286-299 | the pass over node ids produces an orphan record for every node entry whose id the archiver lacks, and no other record; the records are exactly those of visiting each node id once in some order, one per such entry |
| Reconcile.CompareAccounts | src/main.rs:225-299 | in any visiting order, the comparison counter is the sum of node-list lengths over shared ids and the mismatch counter is the number of mismatching pairings, with mismatches no more than comparisons; every comparison and orphan record is genuine, every pairing of a shared id with a node entry has its comparison record, and every orphan is reported; there are orders listing each archiver id and each node id once for which the records are exactly one per pairing and one per orphan, archiver orphans first |
| Reconcile.MismatchesBounded | src/main.rs:240-247 | the mismatch total never exceeds the comparison total |
| Reconcile.ArchiverOrphanNeutral | src/main.rs:275-283 | adding or replacing an archiver id that no node reports changes neither counter |
| Reconcile.NodeOrphanNeutral | src/main.rs:286-299 | adding or replacing a node id that the archiver lacks changes neither counter |
| Reconcile.NoSharedIds | src/main.rs:305-308 | with no shared id, including empty inputs, both counters are zero and the match rate falls back to 0 |
| Reconcile.MatchRate | src/main.rs:304-309 | the rate is 0 when nothing was compared; otherwise it lies between 0 and 100, is 100 iff there are no mismatches, and is 0 iff every comparison mismatched |
| Reconcile.SingleSharedId | src/main.rs:235-238 | one shared id contributes its whole node list to the comparisons and its mismatching entries to the mismatches |
| Reconcile.NonceMismatchScenario | src/main.rs:240-247 | an archiver entry with balance "100" and nonce "5" against a node entry with "100" and "6" gives a balance match, a nonce mismatch, one comparison, one mismatch and a 0% rate |
| Reconcile.TwoNodesAgreeScenario | src/main.rs:235-247 | two node entries that agree with the archiver give two comparisons, no mismatch and a 100% rate |
| Reconcile.ComparisonsBoundedByNodeEntries | src/main.rs:235-238 | the comparisons never outnumber the entries in the node map, and they equal that number when every node id is also an archiver id |

## Left out

- Command-line parsing and `main` (src/main.rs:10-22, 93-105) are process entry plumbing.
- SQLite access (`Connection::open`, `prepare`, `query_map`) is not modelled. Its outcome is the input `StoreRows`: a store failure, or a sequence of row reads.
- Accounts.DecodeUntagged: `Row.decoded` is an input and is not required to be the result of `DecodeUntagged`, so the shape priority it states constrains no loader. The outcomes of the syntax pass, of each shape's attempt and of the trailing-character check are themselves inputs.
- JSON decoding through serde is a foreign library. Decode outcomes are inputs (`Row.decoded`). `DecodeUntagged` models only the shape priority of the untagged enum, and the extra fields of a Special payload are opaque `JsonText` values.
- Directory walking (`WalkDir`, the `shardeum.sqlite` file-name filter, `extract_node_name`) is not modelled. The node stores and their names are an input sequence. As a result, a walk error that aborts `load_node_accounts` through `entry?` is not modelled.
- Console output is not modelled. This covers every `println!` and `eprintln!`: decode diagnostics, the "Loaded N accounts" lines and the verbose/mismatch-only printing. The engine returns every comparison and every orphan as records instead. Filtering them for display is the consumer's concern.
- Reconcile.MatchRate: computed as an exact `real`. The `f64` arithmetic and the two-decimal formatting are not modelled.
- Reconcile.CompareAccounts: the counters are unbounded `nat`s. In the source they are inferred as 32-bit integers and would overflow only past 2^31 comparisons. The visiting orders are existentially quantified: the model does not fix which order a hash map yields.
- Reconcile.CompareShared: the visiting order is existentially quantified, as for CompareAccounts.
