/** What a store hands to a loader: a sequence of row fetched, each either an
    `(accountId, decode outcome)` pair or a read error. Decoding itself
    (JSON into `AccountData`) is an input here. */
module Rows {
  import opened Wrappers
  import opened Accounts

  datatype Row = Row(accountId: string, decoded: Result<AccountData, string>)

  /** One step of the row iterator. */
  type RowRead = Result<Row, string>

  /** The whole query: failure when the store cannot be opened or queried. */
  type StoreRows = Result<seq<RowRead>, string>

  /** The entry a decoded row becomes, tagged with its origin. */
  function EntryOf(row: Row, nodePath: Option<string>): (e: AccountEntry)
    requires row.decoded.Success?
    ensures e.accountId == row.accountId && e.data == row.decoded.value && e.nodePath == nodePath
  {
    AccountEntry(row.accountId, row.decoded.value, nodePath)
  }

  /** A row a loader keeps: it decoded, and to a comparable shape. */
  predicate Retained(row: Row) {
    row.decoded.Success? && IsComparable(EntryOf(row, None))
  }

  /** Draining the row iterator with `?` on each read: the first read error
      aborts the whole load and becomes its error. */
  function ReadAll(fetched: seq<RowRead>): (r: Result<seq<Row>, string>)
    ensures r.Success? <==> forall i :: 0 <= i < |fetched| ==> fetched[i].Success?
    ensures r.Success? ==> |r.value| == |fetched| && forall i :: 0 <= i < |fetched| ==> r.value[i] == fetched[i].value
    decreases |fetched|
  {
    if |fetched| == 0 then Success([])
    else
      var prefix := ReadAll(fetched[..|fetched| - 1]);
      var last := fetched[|fetched| - 1];
      if prefix.Failure? then prefix
      else if last.Failure? then Failure(last.error)
      else Success(prefix.value + [last.value])
  }

  /** A failed load reports the error of the FIRST failing read. */
  lemma {:induction false} ReadAllFirstFailure(fetched: seq<RowRead>)
    requires ReadAll(fetched).Failure?
    ensures exists i :: && 0 <= i < |fetched| && fetched[i].Failure?
                        && fetched[i].error == ReadAll(fetched).error
                        && forall j :: 0 <= j < i ==> fetched[j].Success?
    decreases |fetched|
  {
    var prefix := fetched[..|fetched| - 1];
    if ReadAll(prefix).Failure? {
      ReadAllFirstFailure(prefix);
      var i :| && 0 <= i < |prefix| && prefix[i].Failure? && prefix[i].error == ReadAll(prefix).error
               && forall j :: 0 <= j < i ==> prefix[j].Success?;
      assert fetched[i] == prefix[i];
      assert forall j :: 0 <= j < i ==> fetched[j] == prefix[j];
    } else {
      assert forall j :: 0 <= j < |prefix| ==> fetched[j] == prefix[j];
    }
  }
}
