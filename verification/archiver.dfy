/** The archiver loader: the canonical side of the audit. Every row that
    decodes to a comparable record is inserted into a map keyed by account
    id; undecodable rows and Special records are skipped, and a later row
    with the same id replaces an earlier one. */
module ArchiverLoader {
  import opened Wrappers
  import opened Accounts
  import opened Rows

  /** One iteration of the row loop: insert the row's entry when it is kept. */
  function InsertRow(m: map<string, AccountEntry>, row: Row): map<string, AccountEntry> {
    if Retained(row) then m[row.accountId := EntryOf(row, None)] else m
  }

  /** The map after the row loop has seen `rows` in order. */
  function ArchiverAccounts(rows: seq<Row>): map<string, AccountEntry>
    decreases |rows|
  {
    if |rows| == 0 then map[]
    else InsertRow(ArchiverAccounts(rows[..|rows| - 1]), rows[|rows| - 1])
  }

  /** Loading the archiver store: a store failure or the first failing row
      read aborts the load; otherwise the result holds only comparable
      archiver entries, each filed under its own id. */
  function LoadArchiverAccounts(store: StoreRows): (r: Result<map<string, AccountEntry>, string>)
    ensures store.Failure? ==> r == Failure(store.error)
    ensures r.Success? <==> store.Success? && forall i :: 0 <= i < |store.value| ==> store.value[i].Success?
    ensures r.Success? ==> r.value == ArchiverAccounts(ReadAll(store.value).value)
    ensures r.Success? ==>
              forall id :: id in r.value ==>
                IsComparable(r.value[id]) && r.value[id].accountId == id && r.value[id].nodePath == None
  {
    if store.Failure? then Failure(store.error)
    else
      var rows := ReadAll(store.value);
      if rows.Failure? then Failure(rows.error)
      else
        ArchiverAllComparable(rows.value);
        Success(ArchiverAccounts(rows.value))
  }

  /** Every value in the archiver map is a comparable entry filed under its own id. */
  lemma {:induction false} ArchiverAllComparable(rows: seq<Row>)
    ensures forall id :: id in ArchiverAccounts(rows) ==>
              var e := ArchiverAccounts(rows)[id];
              IsComparable(e) && e.accountId == id && e.nodePath == None
    decreases |rows|
  {
    if |rows| > 0 {
      ArchiverAllComparable(rows[..|rows| - 1]);
    }
  }

  /** An id is present exactly when some kept row carries it. */
  lemma {:induction false} ArchiverKeys(rows: seq<Row>, id: string)
    ensures id in ArchiverAccounts(rows) <==>
              exists i :: 0 <= i < |rows| && Retained(rows[i]) && rows[i].accountId == id
    decreases |rows|
  {
    if |rows| > 0 {
      var prefix := rows[..|rows| - 1];
      ArchiverKeys(prefix, id);
      assert forall i :: 0 <= i < |prefix| ==> rows[i] == prefix[i];
    }
  }

  /** When duplicate ids occur, the entry kept comes from the LAST kept row
      with that id. */
  lemma {:induction false} ArchiverLastRowWins(rows: seq<Row>, id: string)
    requires id in ArchiverAccounts(rows)
    ensures exists i :: && 0 <= i < |rows| && Retained(rows[i]) && rows[i].accountId == id
                        && ArchiverAccounts(rows)[id] == EntryOf(rows[i], None)
                        && forall j :: i < j < |rows| ==> !(Retained(rows[j]) && rows[j].accountId == id)
    decreases |rows|
  {
    var prefix := rows[..|rows| - 1];
    var last := rows[|rows| - 1];
    if Retained(last) && last.accountId == id {
      assert ArchiverAccounts(rows)[id] == EntryOf(last, None);
    } else {
      assert id in ArchiverAccounts(prefix) && ArchiverAccounts(rows)[id] == ArchiverAccounts(prefix)[id];
      ArchiverLastRowWins(prefix, id);
      var i :| && 0 <= i < |prefix| && Retained(prefix[i]) && prefix[i].accountId == id
               && ArchiverAccounts(prefix)[id] == EntryOf(prefix[i], None)
               && forall j :: i < j < |prefix| ==> !(Retained(prefix[j]) && prefix[j].accountId == id);
      assert rows[i] == prefix[i];
      assert forall j :: i < j < |prefix| ==> rows[j] == prefix[j];
    }
  }

  /** A row that fails to decode, or decodes to a Special record, leaves
      the archiver map exactly as it would be without that row. */
  lemma {:induction false} ArchiverSkipsRow(before: seq<Row>, row: Row, after: seq<Row>)
    requires !Retained(row)
    ensures ArchiverAccounts(before + [row] + after) == ArchiverAccounts(before + after)
    decreases |after|
  {
    if |after| == 0 {
      assert (before + [row] + after)[..|before| + 1 - 1] == before;
      assert before + after == before;
    } else {
      var after' := after[..|after| - 1];
      ArchiverSkipsRow(before, row, after');
      assert (before + [row] + after)[..|before + [row] + after| - 1] == before + [row] + after';
      assert (before + after)[..|before + after| - 1] == before + after';
    }
  }
}
