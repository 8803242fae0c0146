/** The node loader: the secondary side of the audit. Each node store is
    loaded on its own (comparable rows only, tagged with the node's name);
    the per-node lists are then merged into one map from account id to every
    node entry for that id, by appending and never overwriting. A node whose
    load fails contributes nothing. */
module NodeLoader {
  import opened Wrappers
  import opened Accounts
  import opened Rows
  import Sums

  /** A discovered node store: its name and what its query yields. */
  datatype NodeStore = NodeStore(name: string, rows: StoreRows)

  /** What the node loader reports: the merged map and how many nodes loaded. */
  datatype NodeLoad = NodeLoad(accounts: map<string, seq<AccountEntry>>, nodeCount: nat)

  /** The entries a node keeps from its rows, in row order. */
  function NodeEntries(name: string, rows: seq<Row>): (r: seq<AccountEntry>)
    ensures |r| <= |rows|
    ensures forall k :: 0 <= k < |r| ==> IsComparable(r[k]) && r[k].nodePath == Some(name)
    decreases |rows|
  {
    if |rows| == 0 then []
    else
      (if Retained(rows[0]) then [EntryOf(rows[0], Some(name))] else [])
      + NodeEntries(name, rows[1..])
  }

  /** A single row contributes its tagged entry when it is retained, and
      nothing otherwise. */
  lemma NodeEntriesSingle(name: string, row: Row)
    ensures NodeEntries(name, [row]) == if Retained(row) then [EntryOf(row, Some(name))] else []
  {
    assert [row][1..] == [];
  }

  /** The entries of consecutive row runs are the concatenation of their
      entries: row order and multiplicity are kept, nothing is deduplicated. */
  lemma {:induction false} NodeEntriesConcat(name: string, a: seq<Row>, b: seq<Row>)
    ensures NodeEntries(name, a + b) == NodeEntries(name, a) + NodeEntries(name, b)
    decreases |a|
  {
    if |a| == 0 {
      assert a + b == b;
    } else {
      assert (a + b)[1..] == a[1..] + b;
      NodeEntriesConcat(name, a[1..], b);
    }
  }

  /** An entry is kept for a node exactly when it is the tagged entry of a
      row that decoded to a comparable record. */
  lemma {:induction false} NodeEntriesMembership(name: string, rows: seq<Row>, e: AccountEntry)
    ensures e in NodeEntries(name, rows) <==>
              exists i :: 0 <= i < |rows| && Retained(rows[i]) && e == EntryOf(rows[i], Some(name))
    decreases |rows|
  {
    if |rows| > 0 {
      NodeEntriesMembership(name, rows[1..], e);
      if e in NodeEntries(name, rows[1..]) {
        var i :| 0 <= i < |rows[1..]| && Retained(rows[1..][i]) && e == EntryOf(rows[1..][i], Some(name));
        assert rows[i + 1] == rows[1..][i];
      }
      if exists i :: 0 <= i < |rows| && Retained(rows[i]) && e == EntryOf(rows[i], Some(name)) {
        var i :| 0 <= i < |rows| && Retained(rows[i]) && e == EntryOf(rows[i], Some(name));
        if i > 0 {
          assert rows[1..][i - 1] == rows[i];
        }
      }
    }
  }

  /** A row that fails to decode, or decodes to a Special record, leaves a
      node's entries exactly as they would be without that row. */
  lemma {:induction false} NodeSkipsRow(name: string, before: seq<Row>, row: Row, after: seq<Row>)
    requires !Retained(row)
    ensures NodeEntries(name, before + [row] + after) == NodeEntries(name, before + after)
    decreases |before|
  {
    if |before| == 0 {
      assert (before + [row] + after)[1..] == after;
      assert before + after == after;
    } else {
      NodeSkipsRow(name, before[1..], row, after);
      assert (before + [row] + after)[1..] == before[1..] + [row] + after;
      assert (before + after)[1..] == before[1..] + after;
    }
  }

  /** Loading one node: a store failure or the first failing row read makes
      the whole node fail; otherwise its kept entries. */
  function LoadSingleNode(node: NodeStore): (r: Result<seq<AccountEntry>, string>)
    ensures r.Success? <==> node.rows.Success? && forall i :: 0 <= i < |node.rows.value| ==> node.rows.value[i].Success?
    ensures r.Success? ==> r.value == NodeEntries(node.name, ReadAll(node.rows.value).value)
  {
    if node.rows.Failure? then Failure(node.rows.error)
    else
      var rows := ReadAll(node.rows.value);
      if rows.Failure? then Failure(rows.error)
      else Success(NodeEntries(node.name, rows.value))
  }

  /** The list stored under `id`, empty when there is none. */
  function Lookup(m: map<string, seq<AccountEntry>>, id: string): seq<AccountEntry> {
    if id in m then m[id] else []
  }

  /** The entries of `es` filed under `id`, in order. */
  function WithId(es: seq<AccountEntry>, id: string): (r: seq<AccountEntry>)
    ensures |r| <= |es|
    decreases |es|
  {
    if |es| == 0 then []
    else (if es[0].accountId == id then [es[0]] else []) + WithId(es[1..], id)
  }

  /** Filtering by id keeps only entries of `es`, and only ones with that id. */
  lemma {:induction false} WithIdElements(es: seq<AccountEntry>, id: string)
    ensures forall k :: 0 <= k < |WithId(es, id)| ==> WithId(es, id)[k].accountId == id && WithId(es, id)[k] in es
    decreases |es|
  {
    if |es| > 0 {
      WithIdElements(es[1..], id);
      assert forall e :: e in es[1..] ==> e in es;
    }
  }

  /** Append `e` to the list under its id, creating the list if absent. */
  function Append(m: map<string, seq<AccountEntry>>, e: AccountEntry): map<string, seq<AccountEntry>> {
    m[e.accountId := Lookup(m, e.accountId) + [e]]
  }

  /** Pushing every entry of `es`, in order. */
  function Merge(m: map<string, seq<AccountEntry>>, es: seq<AccountEntry>): map<string, seq<AccountEntry>>
    decreases |es|
  {
    if |es| == 0 then m else Merge(Append(m, es[0]), es[1..])
  }

  /** One iteration of the node loop. */
  function Contribute(m: map<string, seq<AccountEntry>>, node: NodeStore): map<string, seq<AccountEntry>> {
    match LoadSingleNode(node)
    case Success(es) => Merge(m, es)
    case Failure(_) => m
  }

  function NodeFold(m: map<string, seq<AccountEntry>>, nodes: seq<NodeStore>): map<string, seq<AccountEntry>>
    decreases |nodes|
  {
    if |nodes| == 0 then m else NodeFold(Contribute(m, nodes[0]), nodes[1..])
  }

  /** Reference: the entries of all nodes that loaded, in node order. */
  function Loaded(nodes: seq<NodeStore>): (r: seq<AccountEntry>)
    ensures forall k :: 0 <= k < |r| ==> IsComparable(r[k])
    decreases |nodes|
  {
    if |nodes| == 0 then []
    else
      (match LoadSingleNode(nodes[0]) case Success(es) => es case Failure(_) => [])
      + Loaded(nodes[1..])
  }

  function LoadedNodeCount(nodes: seq<NodeStore>): (n: nat)
    ensures n <= |nodes|
    ensures n == |nodes| <==> forall i :: 0 <= i < |nodes| ==> LoadSingleNode(nodes[i]).Success?
    decreases |nodes|
  {
    if |nodes| == 0 then 0
    else (if LoadSingleNode(nodes[0]).Success? then 1 else 0) + LoadedNodeCount(nodes[1..])
  }

  function LoadNodeAccounts(nodes: seq<NodeStore>): NodeLoad {
    NodeLoad(NodeFold(map[], nodes), LoadedNodeCount(nodes))
  }

  /** The length of every list in a merged map. */
  function Lengths(m: map<string, seq<AccountEntry>>): (r: map<string, nat>)
    ensures r.Keys == m.Keys
  {
    map id | id in m :: |m[id]|
  }

  /** The total number of entries held by a merged map. */
  ghost function EntryCount(m: map<string, seq<AccountEntry>>): nat {
    Sums.SumMap(Lengths(m))
  }

  lemma {:induction false} WithIdConcat(a: seq<AccountEntry>, b: seq<AccountEntry>, id: string)
    ensures WithId(a + b, id) == WithId(a, id) + WithId(b, id)
    decreases |a|
  {
    if |a| > 0 {
      assert (a + b)[1..] == a[1..] + b;
      WithIdConcat(a[1..], b, id);
    } else {
      assert a + b == b;
    }
  }

  /** Merging appends, under each id, exactly the entries with that id, in order. */
  lemma {:induction false} MergeAppends(m: map<string, seq<AccountEntry>>, es: seq<AccountEntry>, id: string)
    ensures Lookup(Merge(m, es), id) == Lookup(m, id) + WithId(es, id)
    decreases |es|
  {
    if |es| == 0 {
      assert Lookup(m, id) + [] == Lookup(m, id);
    } else {
      var m' := Append(m, es[0]);
      var head := if es[0].accountId == id then [es[0]] else [];
      assert Lookup(m', id) == Lookup(m, id) + head;
      assert WithId(es, id) == head + WithId(es[1..], id);
      MergeAppends(m', es[1..], id);
      assert Lookup(m, id) + head + WithId(es[1..], id) == Lookup(m, id) + (head + WithId(es[1..], id));
    }
  }

  /** Merging creates a list under exactly the ids it pushes an entry for. */
  lemma {:induction false} MergeKeys(m: map<string, seq<AccountEntry>>, es: seq<AccountEntry>, id: string)
    ensures id in Merge(m, es) <==> id in m || WithId(es, id) != []
    decreases |es|
  {
    if |es| > 0 {
      var m' := Append(m, es[0]);
      assert id in m' <==> id in m || es[0].accountId == id;
      assert WithId(es, id) != [] <==> es[0].accountId == id || WithId(es[1..], id) != [];
      MergeKeys(m', es[1..], id);
    }
  }

  lemma {:induction false} MergeConcat(m: map<string, seq<AccountEntry>>, a: seq<AccountEntry>, b: seq<AccountEntry>)
    ensures Merge(m, a + b) == Merge(Merge(m, a), b)
    decreases |a|
  {
    if |a| > 0 {
      assert (a + b)[1..] == a[1..] + b;
      MergeConcat(Append(m, a[0]), a[1..], b);
    } else {
      assert a + b == b;
    }
  }

  /** Folding over the nodes is the same as merging everything that loaded. */
  lemma {:induction false} FoldIsMerge(m: map<string, seq<AccountEntry>>, nodes: seq<NodeStore>)
    ensures NodeFold(m, nodes) == Merge(m, Loaded(nodes))
    decreases |nodes|
  {
    if |nodes| > 0 {
      FoldIsMerge(Contribute(m, nodes[0]), nodes[1..]);
      match LoadSingleNode(nodes[0])
      case Success(es) =>
        MergeConcat(m, es, Loaded(nodes[1..]));
      case Failure(_) =>
        assert Loaded(nodes) == Loaded(nodes[1..]);
    }
  }

  lemma {:induction false} LoadedConcat(a: seq<NodeStore>, b: seq<NodeStore>)
    ensures Loaded(a + b) == Loaded(a) + Loaded(b)
    decreases |a|
  {
    if |a| > 0 {
      assert (a + b)[1..] == a[1..] + b;
      LoadedConcat(a[1..], b);
    } else {
      assert a + b == b;
    }
  }

  /** Each merged list holds exactly the comparable entries for its id from
      the nodes that loaded, in node order, and no list is empty. */
  lemma NodeAccountsExact(nodes: seq<NodeStore>, id: string)
    ensures id in LoadNodeAccounts(nodes).accounts <==> WithId(Loaded(nodes), id) != []
    ensures id in LoadNodeAccounts(nodes).accounts ==>
              && LoadNodeAccounts(nodes).accounts[id] == WithId(Loaded(nodes), id)
              && forall k :: 0 <= k < |LoadNodeAccounts(nodes).accounts[id]| ==>
                   IsComparable(LoadNodeAccounts(nodes).accounts[id][k])
                   && LoadNodeAccounts(nodes).accounts[id][k].accountId == id
  {
    FoldIsMerge(map[], nodes);
    MergeAppends(map[], Loaded(nodes), id);
    MergeKeys(map[], Loaded(nodes), id);
    WithIdElements(Loaded(nodes), id);
  }

  lemma MergeAppendCount(m: map<string, seq<AccountEntry>>, e: AccountEntry)
    ensures EntryCount(Append(m, e)) == EntryCount(m) + 1
  {
    var id := e.accountId;
    var lengths := Lengths(m);
    var lengths' := Lengths(Append(m, e));
    if id in m {
      Sums.SumMapPick(lengths, id);
      Sums.SumMapPick(lengths', id);
      assert lengths' - {id} == lengths - {id};
    } else {
      assert lengths' == lengths[id := 1];
      Sums.SumMapAdd(lengths, id, 1);
    }
  }

  lemma {:induction false} MergeCount(m: map<string, seq<AccountEntry>>, es: seq<AccountEntry>)
    ensures EntryCount(Merge(m, es)) == EntryCount(m) + |es|
    decreases |es|
  {
    if |es| > 0 {
      MergeAppendCount(m, es[0]);
      MergeCount(Append(m, es[0]), es[1..]);
    }
  }

  /** The merged lists together hold every entry of every node that loaded. */
  lemma NodeAccountsTotal(nodes: seq<NodeStore>)
    ensures EntryCount(LoadNodeAccounts(nodes).accounts) == |Loaded(nodes)|
  {
    FoldIsMerge(map[], nodes);
    MergeCount(map[], Loaded(nodes));
    var empty: map<string, seq<AccountEntry>> := map[];
    assert Lengths(empty) == map[];
  }

  /** A node whose load fails changes nothing: the result is the one
      obtained without that node. */
  lemma NodeFailureIsolated(before: seq<NodeStore>, failed: NodeStore, after: seq<NodeStore>)
    requires LoadSingleNode(failed).Failure?
    ensures LoadNodeAccounts(before + [failed] + after).accounts == LoadNodeAccounts(before + after).accounts
    ensures LoadNodeAccounts(before + [failed] + after).nodeCount == LoadNodeAccounts(before + after).nodeCount
  {
    var with := before + [failed] + after;
    LoadedConcat(before + [failed], after);
    LoadedConcat(before, [failed]);
    LoadedConcat(before, after);
    assert [failed][1..] == [];
    assert Loaded([failed]) == [];
    assert Loaded(with) == Loaded(before + after);
    FoldIsMerge(map[], with);
    FoldIsMerge(map[], before + after);
    CountConcat(before + [failed], after);
    CountConcat(before, [failed]);
    CountConcat(before, after);
  }

  lemma {:induction false} CountConcat(a: seq<NodeStore>, b: seq<NodeStore>)
    ensures LoadedNodeCount(a + b) == LoadedNodeCount(a) + LoadedNodeCount(b)
    decreases |a|
  {
    if |a| > 0 {
      assert (a + b)[1..] == a[1..] + b;
      CountConcat(a[1..], b);
    } else {
      assert a + b == b;
    }
  }
}
