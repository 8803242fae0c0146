/** The reconciliation engine: joins the archiver map with the merged node
    map on account id, compares every (archiver entry, node entry) pairing
    on the balance and nonce views, and counts comparisons and mismatches.
    Ids present on one side only are orphans; they are reported but never
    counted. */
module Reconcile {
  import opened Wrappers
  import opened Accounts
  import opened Sums
  import NodeLoader

  /** The record produced for one pairing. */
  datatype Comparison = Comparison(
    accountId: string,
    nodeName: string,
    archiverBalance: Option<string>,
    archiverNonce: string,
    nodeBalance: Option<string>,
    nodeNonce: string,
    balanceMatch: bool,
    nonceMatch: bool)
  {
    predicate IsMismatch() {
      !balanceMatch || !nonceMatch
    }
  }

  /** An id found on one side only, with the entry that was found. */
  datatype Orphan =
    | OnlyInArchiver(accountId: string, entry: AccountEntry)
    | OnlyInNode(accountId: string, entry: AccountEntry)

  datatype Report = Report(comparisons: seq<Comparison>, orphans: seq<Orphan>, totalComparisons: nat, mismatches: nat)

  /** The name shown for a node entry that carries no node path. */
  const ArchiverLabel: string := "archiver"

  /** The comparison policy: exact equality of the balance views (as optional
      text) and of the nonce views (as text); no numeric normalisation. */
  predicate Differs(archiver: AccountEntry, node: AccountEntry) {
    Balance(archiver) != Balance(node) || Nonce(archiver) != Nonce(node)
  }

  /** Classifying one pairing: the record carries both sides' views and
      the outcome of the two exact comparisons. */
  function Classify(id: string, archiver: AccountEntry, node: AccountEntry): (c: Comparison)
    ensures c.accountId == id
    ensures c.balanceMatch <==> Balance(archiver) == Balance(node)
    ensures c.nonceMatch <==> Nonce(archiver) == Nonce(node)
    ensures c.IsMismatch() <==> Differs(archiver, node)
  {
    Comparison(id, node.nodePath.GetOr(ArchiverLabel),
               Balance(archiver), Nonce(archiver), Balance(node), Nonce(node),
               Balance(archiver) == Balance(node), Nonce(archiver) == Nonce(node))
  }

  /** For two comparable records a mismatch is exactly a difference in the
      stored balance text or the stored nonce text. */
  lemma ClassifyComparable(id: string, archiver: AccountEntry, node: AccountEntry)
    requires IsComparable(archiver) && IsComparable(node)
    ensures Classify(id, archiver, node).IsMismatch() <==>
              || archiver.data.account.balance.value != node.data.account.balance.value
              || archiver.data.account.nonce.value != node.data.account.nonce.value
  {
  }

  /** How many of `nodeEntries` disagree with the archiver entry. */
  function CountMismatches(archiver: AccountEntry, nodeEntries: seq<AccountEntry>): (n: nat)
    ensures n <= |nodeEntries|
    decreases |nodeEntries|
  {
    if |nodeEntries| == 0 then 0
    else
      CountMismatches(archiver, nodeEntries[..|nodeEntries| - 1])
      + (if Differs(archiver, nodeEntries[|nodeEntries| - 1]) then 1 else 0)
  }

  /** No mismatch is counted exactly when every node entry agrees with the
      archiver entry, and every entry is counted exactly when all disagree. */
  lemma {:induction false} CountMismatchesExtremes(archiver: AccountEntry, nodeEntries: seq<AccountEntry>)
    ensures CountMismatches(archiver, nodeEntries) == 0 <==>
              forall k :: 0 <= k < |nodeEntries| ==> !Differs(archiver, nodeEntries[k])
    ensures CountMismatches(archiver, nodeEntries) == |nodeEntries| <==>
              forall k :: 0 <= k < |nodeEntries| ==> Differs(archiver, nodeEntries[k])
    decreases |nodeEntries|
  {
    if |nodeEntries| > 0 {
      var prefix := nodeEntries[..|nodeEntries| - 1];
      CountMismatchesExtremes(archiver, prefix);
      assert forall k :: 0 <= k < |prefix| ==> prefix[k] == nodeEntries[k];
    }
  }

  /** The number of mismatch records in a sequence of comparisons. */
  function MismatchingCount(cs: seq<Comparison>): nat
    decreases |cs|
  {
    if |cs| == 0 then 0
    else MismatchingCount(cs[..|cs| - 1]) + (if cs[|cs| - 1].IsMismatch() then 1 else 0)
  }

  /** Per shared id among `ids`: how many pairings it contributes. */
  function PairingCounts(arch: map<string, AccountEntry>, nodes: map<string, seq<AccountEntry>>, ids: set<string>)
    : map<string, nat>
  {
    map id | id in ids && id in arch && id in nodes :: |nodes[id]|
  }

  /** Per shared id among `ids`: how many of its pairings are mismatches. */
  function MismatchCounts(arch: map<string, AccountEntry>, nodes: map<string, seq<AccountEntry>>, ids: set<string>)
    : map<string, nat>
  {
    map id | id in ids && id in arch && id in nodes :: CountMismatches(arch[id], nodes[id])
  }

  /** The sum of |nodes[id]| over the ids present in both maps. */
  ghost function TotalComparisons(arch: map<string, AccountEntry>, nodes: map<string, seq<AccountEntry>>): nat {
    SumMap(PairingCounts(arch, nodes, arch.Keys))
  }

  /** The number of mismatching pairings over the ids present in both maps. */
  ghost function TotalMismatches(arch: map<string, AccountEntry>, nodes: map<string, seq<AccountEntry>>): nat {
    SumMap(MismatchCounts(arch, nodes, arch.Keys))
  }

  /** A comparison record that stands for one real pairing. */
  ghost predicate IsPairing(arch: map<string, AccountEntry>, nodes: map<string, seq<AccountEntry>>, c: Comparison) {
    && c.accountId in arch && c.accountId in nodes
    && exists j :: 0 <= j < |nodes[c.accountId]| && c == Classify(c.accountId, arch[c.accountId], nodes[c.accountId][j])
  }

  /** An orphan record that names an id really missing from the other side. */
  ghost predicate IsOrphan(arch: map<string, AccountEntry>, nodes: map<string, seq<AccountEntry>>, o: Orphan) {
    match o
    case OnlyInArchiver(id, e) => id in arch && id !in nodes && e == arch[id]
    case OnlyInNode(id, e) => id in nodes && id !in arch && e in nodes[id]
  }

  /** The match rate in percent; zero when nothing was compared. */
  function MatchRate(total: nat, mismatches: nat): (r: real)
    ensures total == 0 ==> r == 0.0
    ensures 0 < total && mismatches <= total ==> 0.0 <= r <= 100.0
    ensures 0 < total ==> (r == 100.0 <==> mismatches == 0)
    ensures 0 < total ==> (r == 0.0 <==> mismatches == total)
  {
    if total > 0 then (total - mismatches) as real / total as real * 100.0 else 0.0
  }

  lemma MismatchCountStep(cs: seq<Comparison>, c: Comparison)
    ensures MismatchingCount(cs + [c]) == MismatchingCount(cs) + (if c.IsMismatch() then 1 else 0)
  {
    assert (cs + [c])[..|cs|] == cs;
  }

  lemma CountMismatchesStep(archiver: AccountEntry, nodeEntries: seq<AccountEntry>, j: nat)
    requires j < |nodeEntries|
    ensures CountMismatches(archiver, nodeEntries[..j + 1])
            == CountMismatches(archiver, nodeEntries[..j]) + (if Differs(archiver, nodeEntries[j]) then 1 else 0)
  {
    assert nodeEntries[..j + 1][..j] == nodeEntries[..j];
  }

  lemma {:induction false} MismatchingCountConcat(a: seq<Comparison>, b: seq<Comparison>)
    ensures MismatchingCount(a + b) == MismatchingCount(a) + MismatchingCount(b)
    decreases |b|
  {
    if |b| == 0 {
      assert a + b == a;
    } else {
      var b' := b[..|b| - 1];
      MismatchingCountConcat(a, b');
      assert (a + b)[..|a + b| - 1] == a + b';
    }
  }

  /** Folding one more archiver id into the processed set adds its pairings
      and its mismatches, or nothing when the nodes lack that id. */
  lemma ProcessedStep(arch: map<string, AccountEntry>, nodes: map<string, seq<AccountEntry>>, done: set<string>, id: string)
    requires id in arch && id !in done
    ensures SumMap(PairingCounts(arch, nodes, done + {id}))
            == SumMap(PairingCounts(arch, nodes, done)) + (if id in nodes then |nodes[id]| else 0)
    ensures SumMap(MismatchCounts(arch, nodes, done + {id}))
            == SumMap(MismatchCounts(arch, nodes, done)) + (if id in nodes then CountMismatches(arch[id], nodes[id]) else 0)
  {
    if id in nodes {
      assert PairingCounts(arch, nodes, done + {id}) == PairingCounts(arch, nodes, done)[id := |nodes[id]|];
      SumMapAdd(PairingCounts(arch, nodes, done), id, |nodes[id]|);
      assert MismatchCounts(arch, nodes, done + {id})
             == MismatchCounts(arch, nodes, done)[id := CountMismatches(arch[id], nodes[id])];
      SumMapAdd(MismatchCounts(arch, nodes, done), id, CountMismatches(arch[id], nodes[id]));
    } else {
      assert PairingCounts(arch, nodes, done + {id}) == PairingCounts(arch, nodes, done);
      assert MismatchCounts(arch, nodes, done + {id}) == MismatchCounts(arch, nodes, done);
    }
  }

  /** The records made for one shared id: one per node entry, in list order. */
  function ClassifyAll(id: string, archiver: AccountEntry, nodeEntries: seq<AccountEntry>): (cs: seq<Comparison>)
    ensures |cs| == |nodeEntries|
    decreases |nodeEntries|
  {
    if |nodeEntries| == 0 then []
    else ClassifyAll(id, archiver, nodeEntries[..|nodeEntries| - 1])
         + [Classify(id, archiver, nodeEntries[|nodeEntries| - 1])]
  }

  /** Record k classifies node entry k. */
  lemma {:induction false} ClassifyAllAt(id: string, archiver: AccountEntry, nodeEntries: seq<AccountEntry>, k: nat)
    requires k < |nodeEntries|
    ensures ClassifyAll(id, archiver, nodeEntries)[k] == Classify(id, archiver, nodeEntries[k])
    decreases |nodeEntries|
  {
    var n := |nodeEntries| - 1;
    var prefix := nodeEntries[..n];
    assert ClassifyAll(id, archiver, nodeEntries)
           == ClassifyAll(id, archiver, prefix) + [Classify(id, archiver, nodeEntries[n])];
    if k < n {
      ClassifyAllAt(id, archiver, prefix, k);
      assert prefix[k] == nodeEntries[k];
    }
  }

  /** Classifying one more entry appends its record. */
  lemma ClassifyAllStep(id: string, archiver: AccountEntry, nodeEntries: seq<AccountEntry>, j: nat)
    requires j < |nodeEntries|
    ensures ClassifyAll(id, archiver, nodeEntries[..j + 1])
            == ClassifyAll(id, archiver, nodeEntries[..j]) + [Classify(id, archiver, nodeEntries[j])]
  {
    assert nodeEntries[..j + 1][..j] == nodeEntries[..j];
  }

  /** The records hold as many mismatches as the entries disagree with the
      archiver entry. */
  lemma {:induction false} ClassifyAllMismatches(id: string, archiver: AccountEntry, nodeEntries: seq<AccountEntry>)
    ensures MismatchingCount(ClassifyAll(id, archiver, nodeEntries)) == CountMismatches(archiver, nodeEntries)
    decreases |nodeEntries|
  {
    if |nodeEntries| > 0 {
      var n := |nodeEntries| - 1;
      ClassifyAllMismatches(id, archiver, nodeEntries[..n]);
      MismatchCountStep(ClassifyAll(id, archiver, nodeEntries[..n]), Classify(id, archiver, nodeEntries[n]));
    }
  }

  /** The inner loop for one shared id: one comparison per node entry, in
      list order, and the number of mismatches among them. */
  method CompareEntries(id: string, archiver: AccountEntry, nodeEntries: seq<AccountEntry>)
    returns (cs: seq<Comparison>, mismatches: nat)
    ensures |cs| == |nodeEntries|
    ensures forall k :: 0 <= k < |cs| ==> cs[k] == Classify(id, archiver, nodeEntries[k])
    ensures mismatches == CountMismatches(archiver, nodeEntries)
    ensures MismatchingCount(cs) == mismatches
    ensures cs == ClassifyAll(id, archiver, nodeEntries)
  {
    cs, mismatches := [], 0;
    var j := 0;
    while j < |nodeEntries|
      invariant 0 <= j <= |nodeEntries|
      invariant cs == ClassifyAll(id, archiver, nodeEntries[..j])
      invariant mismatches == CountMismatches(archiver, nodeEntries[..j])
    {
      var c := Classify(id, archiver, nodeEntries[j]);
      if c.IsMismatch() {
        mismatches := mismatches + 1;
      }
      CountMismatchesStep(archiver, nodeEntries, j);
      ClassifyAllStep(id, archiver, nodeEntries, j);
      cs := cs + [c];
      j := j + 1;
    }
    assert nodeEntries[..j] == nodeEntries;
    ClassifyAllMismatches(id, archiver, nodeEntries);
    forall k | 0 <= k < |cs|
      ensures cs[k] == Classify(id, archiver, nodeEntries[k])
    {
      ClassifyAllAt(id, archiver, nodeEntries, k);
    }
  }

  /** No id is visited twice. */
  ghost predicate Distinct(order: seq<string>) {
    forall i, j :: 0 <= i < j < |order| ==> order[i] != order[j]
  }

  /** `order` lists each of `keys` exactly once: a visiting order of a map. */
  ghost predicate Enumerates(order: seq<string>, keys: set<string>) {
    Distinct(order) && forall x :: x in order <==> x in keys
  }

  /** Visiting an id not visited before keeps the visits distinct. */
  lemma DistinctStep(order: seq<string>, x: string)
    requires Distinct(order) && x !in order
    ensures Distinct(order + [x])
  {
  }

  /** Moving one id from the pending ids to the visited ones. */
  lemma PendingStep(keys: set<string>, pending: set<string>, done: set<string>, id: string)
    requires pending <= keys && done == keys - pending && id in pending
    ensures pending - {id} <= keys && done + {id} == keys - (pending - {id}) && id !in done
  {
  }

  /** Every id of `order` is an archiver id. */
  ghost predicate ArchiverIds(arch: map<string, AccountEntry>, order: seq<string>) {
    forall i :: 0 <= i < |order| ==> order[i] in arch
  }

  /** The comparison records of the first pass after visiting the archiver
      ids in `order`. */
  function RecordsFor(arch: map<string, AccountEntry>, nodes: map<string, seq<AccountEntry>>, order: seq<string>)
    : seq<Comparison>
    requires ArchiverIds(arch, order)
    decreases |order|
  {
    if |order| == 0 then []
    else
      var id := order[|order| - 1];
      RecordsFor(arch, nodes, order[..|order| - 1])
      + (if id in nodes then ClassifyAll(id, arch[id], nodes[id]) else [])
  }

  /** The orphan records of the first pass after visiting the archiver ids in `order`. */
  function ArchiverOrphansFor(arch: map<string, AccountEntry>, nodes: map<string, seq<AccountEntry>>, order: seq<string>)
    : seq<Orphan>
    requires ArchiverIds(arch, order)
    decreases |order|
  {
    if |order| == 0 then []
    else
      var id := order[|order| - 1];
      ArchiverOrphansFor(arch, nodes, order[..|order| - 1])
      + (if id in nodes then [] else [OnlyInArchiver(id, arch[id])])
  }

  /** Visiting one more archiver id appends its records. */
  lemma VisitStep(arch: map<string, AccountEntry>, nodes: map<string, seq<AccountEntry>>, order: seq<string>,
                  done: set<string>, id: string)
    requires ArchiverIds(arch, order) && id in arch && id !in done
    requires forall x :: x in order <==> x in done
    ensures ArchiverIds(arch, order + [id])
    ensures forall x :: x in order + [id] <==> x in done + {id}
    ensures RecordsFor(arch, nodes, order + [id])
            == RecordsFor(arch, nodes, order) + (if id in nodes then ClassifyAll(id, arch[id], nodes[id]) else [])
    ensures ArchiverOrphansFor(arch, nodes, order + [id])
            == ArchiverOrphansFor(arch, nodes, order) + (if id in nodes then [] else [OnlyInArchiver(id, arch[id])])
  {
    assert (order + [id])[..|order|] == order;
  }

  /** The first pass over any visiting order that lists each of `ids` once
      makes as many comparisons as the shared ids among `ids` have node
      entries, and as many mismatches as those pairings disagree: the
      counters do not depend on the order. */
  lemma {:induction false} RecordsForCounts(arch: map<string, AccountEntry>, nodes: map<string, seq<AccountEntry>>,
                                            order: seq<string>, ids: set<string>)
    requires ArchiverIds(arch, order) && Enumerates(order, ids)
    ensures |RecordsFor(arch, nodes, order)| == SumMap(PairingCounts(arch, nodes, ids))
    ensures MismatchingCount(RecordsFor(arch, nodes, order)) == SumMap(MismatchCounts(arch, nodes, ids))
    decreases |order|
  {
    if |order| == 0 {
      assert ids == {};
      assert PairingCounts(arch, nodes, ids) == map[];
      assert MismatchCounts(arch, nodes, ids) == map[];
    } else {
      var prefix := order[..|order| - 1];
      var last := order[|order| - 1];
      var rest := ids - {last};
      forall x
        ensures x in prefix <==> x in rest
      {
        if x in prefix {
          var i :| 0 <= i < |prefix| && prefix[i] == x;
          assert order[i] == x && i < |order| - 1;
        } else if x in rest {
          InDropLast(order, x);
        }
      }
      RecordsForCounts(arch, nodes, prefix, rest);
      ProcessedStep(arch, nodes, rest, last);
      assert rest + {last} == ids;
      var added := if last in nodes then ClassifyAll(last, arch[last], nodes[last]) else [];
      assert RecordsFor(arch, nodes, order) == RecordsFor(arch, nodes, prefix) + added;
      MismatchingCountConcat(RecordsFor(arch, nodes, prefix), added);
      if last in nodes {
        ClassifyAllMismatches(last, arch[last], nodes[last]);
      }
    }
  }

  /** Every record of the first pass stands for a real pairing. */
  lemma {:induction false} RecordsForGenuine(arch: map<string, AccountEntry>, nodes: map<string, seq<AccountEntry>>,
                                             order: seq<string>)
    requires ArchiverIds(arch, order)
    ensures forall k :: 0 <= k < |RecordsFor(arch, nodes, order)| ==> IsPairing(arch, nodes, RecordsFor(arch, nodes, order)[k])
    decreases |order|
  {
    if |order| > 0 {
      var prefix := order[..|order| - 1];
      var id := order[|order| - 1];
      RecordsForGenuine(arch, nodes, prefix);
      if id in nodes {
        var before := RecordsFor(arch, nodes, prefix);
        var cs := ClassifyAll(id, arch[id], nodes[id]);
        forall k | 0 <= k < |before + cs|
          ensures IsPairing(arch, nodes, (before + cs)[k])
        {
          if k < |before| {
            assert (before + cs)[k] == before[k];
          } else {
            ClassifyAllAt(id, arch[id], nodes[id], k - |before|);
            assert (before + cs)[k] == Classify(id, arch[id], nodes[id][k - |before|]);
          }
        }
      }
    }
  }

  /** Every pairing of a visited id has its record. */
  lemma {:induction false} RecordsForComplete(arch: map<string, AccountEntry>, nodes: map<string, seq<AccountEntry>>,
                                              order: seq<string>)
    requires ArchiverIds(arch, order)
    ensures forall id, j :: id in order && id in nodes && 0 <= j < |nodes[id]| ==>
              Classify(id, arch[id], nodes[id][j]) in RecordsFor(arch, nodes, order)
    decreases |order|
  {
    if |order| > 0 {
      RecordsForComplete(arch, nodes, order[..|order| - 1]);
      forall id, j | id in order && id in nodes && 0 <= j < |nodes[id]|
        ensures Classify(id, arch[id], nodes[id][j]) in RecordsFor(arch, nodes, order)
      {
        RecordedOnce(arch, nodes, order, id, j);
      }
    }
  }

  lemma InDropLast<T>(s: seq<T>, x: T)
    requires x in s && x != s[|s| - 1]
    ensures x in s[..|s| - 1]
  {
    var i :| 0 <= i < |s| && s[i] == x;
    assert s[..|s| - 1][i] == x;
  }

  /** One step of RecordsForComplete: the pairing (id, j) is recorded either
      by the last visit or by an earlier one. */
  lemma RecordedOnce(arch: map<string, AccountEntry>, nodes: map<string, seq<AccountEntry>>, order: seq<string>,
                     id: string, j: nat)
    requires ArchiverIds(arch, order) && |order| > 0
    requires forall id', j' :: id' in order[..|order| - 1] && id' in nodes && 0 <= j' < |nodes[id']| ==>
               Classify(id', arch[id'], nodes[id'][j']) in RecordsFor(arch, nodes, order[..|order| - 1])
    requires id in order && id in nodes && j < |nodes[id]|
    ensures Classify(id, arch[id], nodes[id][j]) in RecordsFor(arch, nodes, order)
  {
    var prefix := order[..|order| - 1];
    var last := order[|order| - 1];
    var before := RecordsFor(arch, nodes, prefix);
    var c := Classify(id, arch[id], nodes[id][j]);
    if id == last {
      var added := ClassifyAll(last, arch[last], nodes[last]);
      ClassifyAllAt(last, arch[last], nodes[last], j);
      assert RecordsFor(arch, nodes, order) == before + added;
      assert (before + added)[|before| + j] == c;
    } else {
      InDropLast(order, id);
      assert c in before;
      var k :| 0 <= k < |before| && before[k] == c;
      assert RecordsFor(arch, nodes, order)[k] == c;
    }
  }

  /** The orphan records of the first pass are genuine, and every visited
      archiver-only id has one. */
  lemma {:induction false} ArchiverOrphansForSpec(arch: map<string, AccountEntry>, nodes: map<string, seq<AccountEntry>>,
                                                  order: seq<string>)
    requires ArchiverIds(arch, order)
    ensures forall k :: 0 <= k < |ArchiverOrphansFor(arch, nodes, order)| ==>
              IsOrphan(arch, nodes, ArchiverOrphansFor(arch, nodes, order)[k])
    ensures forall id :: id in order && id !in nodes ==> OnlyInArchiver(id, arch[id]) in ArchiverOrphansFor(arch, nodes, order)
    decreases |order|
  {
    if |order| > 0 {
      var prefix := order[..|order| - 1];
      ArchiverOrphansForSpec(arch, nodes, prefix);
      forall id | id in order && id !in nodes
        ensures OnlyInArchiver(id, arch[id]) in ArchiverOrphansFor(arch, nodes, order)
      {
        if id != order[|order| - 1] {
          InDropLast(order, id);
        }
      }
    }
  }

  /** Every id of `order` is a node id. */
  ghost predicate NodeIds(nodes: map<string, seq<AccountEntry>>, order: seq<string>) {
    forall i :: 0 <= i < |order| ==> order[i] in nodes
  }

  /** The orphan records for one node-only id: one per node entry, in list order. */
  function NodeOrphansOf(id: string, nodeEntries: seq<AccountEntry>): (os: seq<Orphan>)
    ensures |os| == |nodeEntries|
    decreases |nodeEntries|
  {
    if |nodeEntries| == 0 then []
    else NodeOrphansOf(id, nodeEntries[..|nodeEntries| - 1]) + [OnlyInNode(id, nodeEntries[|nodeEntries| - 1])]
  }

  /** Reporting one more entry appends its orphan record. */
  lemma NodeOrphansOfStep(id: string, nodeEntries: seq<AccountEntry>, j: nat)
    requires j < |nodeEntries|
    ensures NodeOrphansOf(id, nodeEntries[..j + 1]) == NodeOrphansOf(id, nodeEntries[..j]) + [OnlyInNode(id, nodeEntries[j])]
  {
    assert nodeEntries[..j + 1][..j] == nodeEntries[..j];
  }

  /** The k-th orphan record for an id names its k-th node entry. */
  lemma {:induction false} NodeOrphansOfAt(id: string, nodeEntries: seq<AccountEntry>, k: nat)
    requires k < |nodeEntries|
    ensures NodeOrphansOf(id, nodeEntries)[k] == OnlyInNode(id, nodeEntries[k])
    decreases |nodeEntries|
  {
    var n := |nodeEntries| - 1;
    var prefix := nodeEntries[..n];
    assert NodeOrphansOf(id, nodeEntries) == NodeOrphansOf(id, prefix) + [OnlyInNode(id, nodeEntries[n])];
    if k < n {
      NodeOrphansOfAt(id, prefix, k);
      assert prefix[k] == nodeEntries[k];
    }
  }

  /** The records of the second pass after visiting the node ids in `order`. */
  function NodeOrphansFor(arch: map<string, AccountEntry>, nodes: map<string, seq<AccountEntry>>, order: seq<string>)
    : seq<Orphan>
    requires NodeIds(nodes, order)
    decreases |order|
  {
    if |order| == 0 then []
    else
      var id := order[|order| - 1];
      NodeOrphansFor(arch, nodes, order[..|order| - 1])
      + (if id in arch then [] else NodeOrphansOf(id, nodes[id]))
  }

  /** Visiting one more node id appends its orphan records. */
  lemma NodeVisitStep(arch: map<string, AccountEntry>, nodes: map<string, seq<AccountEntry>>, order: seq<string>, id: string)
    requires NodeIds(nodes, order) && id in nodes
    ensures NodeIds(nodes, order + [id])
    ensures NodeOrphansFor(arch, nodes, order + [id])
            == NodeOrphansFor(arch, nodes, order) + (if id in arch then [] else NodeOrphansOf(id, nodes[id]))
  {
    assert (order + [id])[..|order|] == order;
  }

  /** Every record of the second pass names a node-only id and one of its entries. */
  lemma {:induction false} NodeOrphansForGenuine(arch: map<string, AccountEntry>, nodes: map<string, seq<AccountEntry>>,
                                                 order: seq<string>)
    requires NodeIds(nodes, order)
    ensures forall k :: 0 <= k < |NodeOrphansFor(arch, nodes, order)| ==>
              NodeOrphansFor(arch, nodes, order)[k].OnlyInNode? && IsOrphan(arch, nodes, NodeOrphansFor(arch, nodes, order)[k])
    decreases |order|
  {
    if |order| > 0 {
      var prefix := order[..|order| - 1];
      var id := order[|order| - 1];
      NodeOrphansForGenuine(arch, nodes, prefix);
      if id !in arch {
        var before := NodeOrphansFor(arch, nodes, prefix);
        var all: seq<Orphan> := before + NodeOrphansOf(id, nodes[id]);
        forall k | 0 <= k < |all|
          ensures all[k].OnlyInNode? && IsOrphan(arch, nodes, all[k])
        {
          if k < |before| {
            assert all[k] == before[k];
          } else {
            NodeOrphansOfAt(id, nodes[id], k - |before|);
            assert all[k] == OnlyInNode(id, nodes[id][k - |before|]);
          }
        }
      }
    }
  }

  /** Every entry of a visited node-only id has its orphan record. */
  lemma {:induction false} NodeOrphansForComplete(arch: map<string, AccountEntry>, nodes: map<string, seq<AccountEntry>>,
                                                  order: seq<string>)
    requires NodeIds(nodes, order)
    ensures forall id, j :: id in order && id !in arch && 0 <= j < |nodes[id]| ==>
              OnlyInNode(id, nodes[id][j]) in NodeOrphansFor(arch, nodes, order)
    decreases |order|
  {
    if |order| > 0 {
      NodeOrphansForComplete(arch, nodes, order[..|order| - 1]);
      forall id, j | id in order && id !in arch && 0 <= j < |nodes[id]|
        ensures OnlyInNode(id, nodes[id][j]) in NodeOrphansFor(arch, nodes, order)
      {
        NodeOrphanedOnce(arch, nodes, order, id, j);
      }
    }
  }

  /** One step of NodeOrphansForComplete: the entry (id, j) is reported
      either by the last visit or by an earlier one. */
  lemma NodeOrphanedOnce(arch: map<string, AccountEntry>, nodes: map<string, seq<AccountEntry>>, order: seq<string>,
                         id: string, j: nat)
    requires NodeIds(nodes, order) && |order| > 0
    requires forall id', j' :: id' in order[..|order| - 1] && id' !in arch && 0 <= j' < |nodes[id']| ==>
               OnlyInNode(id', nodes[id'][j']) in NodeOrphansFor(arch, nodes, order[..|order| - 1])
    requires id in order && id !in arch && j < |nodes[id]|
    ensures OnlyInNode(id, nodes[id][j]) in NodeOrphansFor(arch, nodes, order)
  {
    var prefix := order[..|order| - 1];
    var last := order[|order| - 1];
    var before := NodeOrphansFor(arch, nodes, prefix);
    var o := OnlyInNode(id, nodes[id][j]);
    if id == last {
      var added := NodeOrphansOf(last, nodes[last]);
      NodeOrphansOfAt(last, nodes[last], j);
      assert NodeOrphansFor(arch, nodes, order) == before + added;
      assert (before + added)[|before| + j] == o;
    } else {
      InDropLast(order, id);
      assert o in before;
      var k :| 0 <= k < |before| && before[k] == o;
      assert NodeOrphansFor(arch, nodes, order)[k] == o;
    }
  }

  /** The second pass, over the node ids: one orphan record per node entry
      whose id the archiver lacks. */
  method CollectNodeOrphans(arch: map<string, AccountEntry>, nodes: map<string, seq<AccountEntry>>)
    returns (orphans: seq<Orphan>)
    ensures forall k :: 0 <= k < |orphans| ==> orphans[k].OnlyInNode? && IsOrphan(arch, nodes, orphans[k])
    ensures forall id, j :: id in nodes && id !in arch && 0 <= j < |nodes[id]| ==>
              OnlyInNode(id, nodes[id][j]) in orphans
    ensures exists order :: && NodeIds(nodes, order) && Enumerates(order, nodes.Keys)
                            && orphans == NodeOrphansFor(arch, nodes, order)
  {
    orphans := [];
    var pending := nodes.Keys;
    ghost var order: seq<string> := [];
    while pending != {}
      invariant pending <= nodes.Keys
      invariant NodeIds(nodes, order) && Distinct(order)
      invariant forall x :: x in order <==> x in nodes.Keys - pending
      invariant orphans == NodeOrphansFor(arch, nodes, order)
      decreases pending
    {
      var id :| id in pending;
      NodeVisitStep(arch, nodes, order, id);
      DistinctStep(order, id);
      if id !in arch {
        var nodeEntries := nodes[id];
        ghost var orphans0 := orphans;
        var j := 0;
        while j < |nodeEntries|
          invariant 0 <= j <= |nodeEntries|
          invariant orphans == orphans0 + NodeOrphansOf(id, nodeEntries[..j])
        {
          NodeOrphansOfStep(id, nodeEntries, j);
          orphans := orphans + [OnlyInNode(id, nodeEntries[j])];
          j := j + 1;
        }
        assert nodeEntries[..j] == nodeEntries;
      }
      pending := pending - {id};
      order := order + [id];
    }
    NodeOrphansForGenuine(arch, nodes, order);
    NodeOrphansForComplete(arch, nodes, order);
    assert Enumerates(order, nodes.Keys);
  }

  /** The first pass, over the archiver ids: comparisons and counters for
      the shared ids, one orphan record per archiver-only id. */
  method CompareShared(arch: map<string, AccountEntry>, nodes: map<string, seq<AccountEntry>>)
    returns (comparisons: seq<Comparison>, orphans: seq<Orphan>, total: nat, mismatches: nat)
    ensures total == TotalComparisons(arch, nodes)
    ensures mismatches == TotalMismatches(arch, nodes)
    ensures mismatches <= total
    ensures |comparisons| == total
    ensures MismatchingCount(comparisons) == mismatches
    ensures forall k :: 0 <= k < |comparisons| ==> IsPairing(arch, nodes, comparisons[k])
    ensures forall id, j :: id in arch && id in nodes && 0 <= j < |nodes[id]| ==>
              Classify(id, arch[id], nodes[id][j]) in comparisons
    ensures forall k :: 0 <= k < |orphans| ==> IsOrphan(arch, nodes, orphans[k])
    ensures forall id :: id in arch && id !in nodes ==> OnlyInArchiver(id, arch[id]) in orphans
    ensures exists order :: && ArchiverIds(arch, order) && Enumerates(order, arch.Keys)
                            && comparisons == RecordsFor(arch, nodes, order)
                            && orphans == ArchiverOrphansFor(arch, nodes, order)
  {
    comparisons, orphans, total, mismatches := [], [], 0, 0;
    var pending := arch.Keys;
    ghost var done: set<string> := {};
    ghost var order: seq<string> := [];
    while pending != {}
      invariant pending <= arch.Keys && done == arch.Keys - pending
      invariant ArchiverIds(arch, order) && Distinct(order)
      invariant forall x :: x in order <==> x in done
      invariant comparisons == RecordsFor(arch, nodes, order)
      invariant orphans == ArchiverOrphansFor(arch, nodes, order)
      invariant |comparisons| == total
      invariant MismatchingCount(comparisons) == mismatches
      decreases pending
    {
      var id :| id in pending;
      var archiverEntry := arch[id];
      VisitStep(arch, nodes, order, done, id);
      DistinctStep(order, id);
      PendingStep(arch.Keys, pending, done, id);
      if id in nodes {
        var cs, m := CompareEntries(id, archiverEntry, nodes[id]);
        MismatchingCountConcat(comparisons, cs);
        comparisons := comparisons + cs;
        total := total + |cs|;
        mismatches := mismatches + m;
      } else {
        orphans := orphans + [OnlyInArchiver(id, archiverEntry)];
      }
      pending := pending - {id};
      done := done + {id};
      order := order + [id];
    }
    assert done == arch.Keys;
    RecordsForCounts(arch, nodes, order, done);
    MismatchesBounded(arch, nodes);
    RecordsForGenuine(arch, nodes, order);
    RecordsForComplete(arch, nodes, order);
    ArchiverOrphansForSpec(arch, nodes, order);
    assert Enumerates(order, arch.Keys);
  }

  /** The reconciliation pass. Archiver ids are visited in an arbitrary
      order, as a hash map yields them; the counters it reports are the same
      for every order. */
  method CompareAccounts(arch: map<string, AccountEntry>, nodes: map<string, seq<AccountEntry>>) returns (report: Report)
    ensures report.totalComparisons == TotalComparisons(arch, nodes)
    ensures report.mismatches == TotalMismatches(arch, nodes)
    ensures report.mismatches <= report.totalComparisons
    ensures |report.comparisons| == report.totalComparisons
    ensures MismatchingCount(report.comparisons) == report.mismatches
    ensures forall k :: 0 <= k < |report.comparisons| ==> IsPairing(arch, nodes, report.comparisons[k])
    ensures forall id, j :: id in arch && id in nodes && 0 <= j < |nodes[id]| ==>
              Classify(id, arch[id], nodes[id][j]) in report.comparisons
    ensures forall k :: 0 <= k < |report.orphans| ==> IsOrphan(arch, nodes, report.orphans[k])
    ensures forall id :: id in arch && id !in nodes ==> OnlyInArchiver(id, arch[id]) in report.orphans
    ensures forall id, j :: id in nodes && id !in arch && 0 <= j < |nodes[id]| ==>
              OnlyInNode(id, nodes[id][j]) in report.orphans
    ensures exists archOrder, nodeOrder ::
              && ArchiverIds(arch, archOrder) && Enumerates(archOrder, arch.Keys)
              && NodeIds(nodes, nodeOrder) && Enumerates(nodeOrder, nodes.Keys)
              && report.comparisons == RecordsFor(arch, nodes, archOrder)
              && report.orphans == ArchiverOrphansFor(arch, nodes, archOrder) + NodeOrphansFor(arch, nodes, nodeOrder)
  {
    var comparisons, archiverOrphans, total, mismatches := CompareShared(arch, nodes);
    var nodeOrphans := CollectNodeOrphans(arch, nodes);
    report := Report(comparisons, archiverOrphans + nodeOrphans, total, mismatches);
    ghost var archOrder :| && ArchiverIds(arch, archOrder) && Enumerates(archOrder, arch.Keys)
                           && comparisons == RecordsFor(arch, nodes, archOrder)
                           && archiverOrphans == ArchiverOrphansFor(arch, nodes, archOrder);
    ghost var nodeOrder :| && NodeIds(nodes, nodeOrder) && Enumerates(nodeOrder, nodes.Keys)
                           && nodeOrphans == NodeOrphansFor(arch, nodes, nodeOrder);
    assert report.orphans == ArchiverOrphansFor(arch, nodes, archOrder) + NodeOrphansFor(arch, nodes, nodeOrder);
  }

  /** Mismatches never outnumber comparisons. */
  lemma MismatchesBounded(arch: map<string, AccountEntry>, nodes: map<string, seq<AccountEntry>>)
    ensures TotalMismatches(arch, nodes) <= TotalComparisons(arch, nodes)
  {
    var small := MismatchCounts(arch, nodes, arch.Keys);
    var large := PairingCounts(arch, nodes, arch.Keys);
    assert small.Keys == large.Keys;
    SumOverMonotone(small, large, small.Keys);
  }

  /** An archiver id that no node reports changes neither counter. */
  lemma ArchiverOrphanNeutral(arch: map<string, AccountEntry>, nodes: map<string, seq<AccountEntry>>,
                              id: string, e: AccountEntry)
    requires id !in nodes
    ensures TotalComparisons(arch[id := e], nodes) == TotalComparisons(arch, nodes)
    ensures TotalMismatches(arch[id := e], nodes) == TotalMismatches(arch, nodes)
  {
    assert PairingCounts(arch[id := e], nodes, arch[id := e].Keys) == PairingCounts(arch, nodes, arch.Keys);
    assert MismatchCounts(arch[id := e], nodes, arch[id := e].Keys) == MismatchCounts(arch, nodes, arch.Keys);
  }

  /** An id that only the nodes report changes neither counter, however
      many node entries carry it. */
  lemma NodeOrphanNeutral(arch: map<string, AccountEntry>, nodes: map<string, seq<AccountEntry>>,
                          id: string, es: seq<AccountEntry>)
    requires id !in arch
    ensures TotalComparisons(arch, nodes[id := es]) == TotalComparisons(arch, nodes)
    ensures TotalMismatches(arch, nodes[id := es]) == TotalMismatches(arch, nodes)
  {
    assert PairingCounts(arch, nodes[id := es], arch.Keys) == PairingCounts(arch, nodes, arch.Keys);
    assert MismatchCounts(arch, nodes[id := es], arch.Keys) == MismatchCounts(arch, nodes, arch.Keys);
  }

  /** With no shared id (in particular when either side is empty) nothing is
      compared, and the reported rate is the fallback zero. */
  lemma NoSharedIds(arch: map<string, AccountEntry>, nodes: map<string, seq<AccountEntry>>)
    requires arch.Keys !! nodes.Keys
    ensures TotalComparisons(arch, nodes) == 0
    ensures TotalMismatches(arch, nodes) == 0
    ensures MatchRate(TotalComparisons(arch, nodes), TotalMismatches(arch, nodes)) == 0.0
  {
    assert PairingCounts(arch, nodes, arch.Keys) == map[];
    assert MismatchCounts(arch, nodes, arch.Keys) == map[];
  }

  /** A single shared id contributes its whole node list to the comparisons. */
  lemma SingleSharedId(id: string, archiver: AccountEntry, nodeEntries: seq<AccountEntry>)
    ensures TotalComparisons(map[id := archiver], map[id := nodeEntries]) == |nodeEntries|
    ensures TotalMismatches(map[id := archiver], map[id := nodeEntries]) == CountMismatches(archiver, nodeEntries)
  {
    var arch := map[id := archiver];
    var nodes := map[id := nodeEntries];
    var none: map<string, nat> := map[];
    assert PairingCounts(arch, nodes, arch.Keys) == none[id := |nodeEntries|];
    SumMapAdd(none, id, |nodeEntries|);
    assert MismatchCounts(arch, nodes, arch.Keys) == none[id := CountMismatches(archiver, nodeEntries)];
    SumMapAdd(none, id, CountMismatches(archiver, nodeEntries));
  }

  function RegularEntry(id: string, balance: string, nonce: string, nodePath: Option<string>): AccountEntry {
    var account := Account(DataValue("bigint", balance), DataValue("string", ""), DataValue("bigint", nonce), DataValue("string", ""));
    AccountEntry(id, Regular(account, 0, None, "", 0), nodePath)
  }

  /** Archiver says balance "100", nonce "5"; one node says "100", "6":
      one comparison, one mismatch, on the nonce only, and a 0% match rate. */
  lemma NonceMismatchScenario()
    ensures var a := RegularEntry("0xA", "100", "5", None);
            var n := RegularEntry("0xA", "100", "6", Some("node-1"));
            && Classify("0xA", a, n).balanceMatch
            && !Classify("0xA", a, n).nonceMatch
            && TotalComparisons(map["0xA" := a], map["0xA" := [n]]) == 1
            && TotalMismatches(map["0xA" := a], map["0xA" := [n]]) == 1
            && MatchRate(1, 1) == 0.0
  {
    var a := RegularEntry("0xA", "100", "5", None);
    var n := RegularEntry("0xA", "100", "6", Some("node-1"));
    assert "5" != "6" by { assert "5"[0] != "6"[0]; }
    SingleSharedId("0xA", a, [n]);
    assert CountMismatches(a, [n]) == 1 by {
      assert [n][..0] == [];
    }
  }

  /** Two nodes both report "0xC" exactly as the archiver does: two
      comparisons, no mismatch, a 100% match rate. */
  lemma TwoNodesAgreeScenario()
    ensures var a := RegularEntry("0xC", "7", "1", None);
            var n1 := RegularEntry("0xC", "7", "1", Some("node-1"));
            var n2 := RegularEntry("0xC", "7", "1", Some("node-2"));
            && TotalComparisons(map["0xC" := a], map["0xC" := [n1, n2]]) == 2
            && TotalMismatches(map["0xC" := a], map["0xC" := [n1, n2]]) == 0
            && MatchRate(2, 0) == 100.0
  {
    var a := RegularEntry("0xC", "7", "1", None);
    var n1 := RegularEntry("0xC", "7", "1", Some("node-1"));
    var n2 := RegularEntry("0xC", "7", "1", Some("node-2"));
    SingleSharedId("0xC", a, [n1, n2]);
    CountMismatchesExtremes(a, [n1, n2]);
  }

  /** Every comparison consumes one node entry for a shared id, so the
      comparisons never outnumber the entries the node loader merged, and
      they account for all of them when no node reports an id the archiver
      lacks. */
  lemma ComparisonsBoundedByNodeEntries(arch: map<string, AccountEntry>, nodes: map<string, seq<AccountEntry>>)
    ensures TotalComparisons(arch, nodes) <= NodeLoader.EntryCount(nodes)
    ensures nodes.Keys <= arch.Keys ==> TotalComparisons(arch, nodes) == NodeLoader.EntryCount(nodes)
  {
    var pairings := PairingCounts(arch, nodes, arch.Keys);
    var lengths := NodeLoader.Lengths(nodes);
    SumOverFrame(pairings, lengths, pairings.Keys);
    SumOverSubset(lengths, pairings.Keys, lengths.Keys);
    if nodes.Keys <= arch.Keys {
      assert pairings.Keys == lengths.Keys;
    }
  }
}
