/** The account record model: the two payload shapes an account can take,
    the entry that tags a payload with its id and origin, and the three
    read-only views the reconciliation compares (balance, nonce,
    comparability). */
module Accounts {
  import opened Wrappers
  import Decimal

  /** Rust `i32` and `i64`, the widths of `accountType` and `timestamp`/`nonce`. */
  newtype Int32 = x: int | -0x8000_0000 <= x < 0x8000_0000
  newtype Int64 = x: int | -0x8000_0000_0000_0000 <= x < 0x8000_0000_0000_0000

  /** A typed field of the account state; the value is kept as text. */
  datatype DataValue = DataValue(dataType: string, value: string)

  /** The nested account state carried only by the Regular shape. */
  datatype Account = Account(balance: DataValue, codeHash: DataValue, nonce: DataValue, storageRoot: DataValue)

  /** One extra JSON field of a Special payload, preserved verbatim and never interpreted. */
  datatype JsonText = JsonText(text: string)

  datatype AccountData =
    | Regular(account: Account, accountType: Int32, ethAddress: Option<string>, hash: string, timestamp: Int64)
    | Special(accountType: Int32, hash: string, id: string, name: Option<string>,
              nonce: Option<Int64>, timestamp: Int64, otherFields: map<string, JsonText>)

  /** A decoded payload with its account id and, for node records, the node it came from. */
  datatype AccountEntry = AccountEntry(accountId: string, data: AccountData, nodePath: Option<string>)

  /** The text shown in place of a missing nonce or balance. */
  const NotAvailable: string := "N/A"

  /** The error serde reports when a well-formed payload fits neither shape. */
  const NoVariantMatched: string := "data did not match any variant of untagged enum AccountData"

  /** Untagged decoding of one payload text. The text is first read as one
      generic JSON value (`syntax` is the outcome of that reading); a syntax
      error is reported as is. The Regular shape is then tried first and wins
      whenever it fits; Special is only considered when Regular does not fit,
      and when neither fits the error is the no-variant message. A payload
      that fits but is followed by anything other than whitespace fails with
      the `trailing` error. */
  function DecodeUntagged(syntax: Result<(), string>, asRegular: Result<AccountData, string>,
                          asSpecial: Result<AccountData, string>, trailing: Option<string>)
    : (r: Result<AccountData, string>)
    requires asRegular.Success? ==> asRegular.value.Regular?
    requires asSpecial.Success? ==> asSpecial.value.Special?
    ensures syntax.Failure? ==> r == Failure(syntax.error)
    ensures r.Success? <==> syntax.Success? && (asRegular.Success? || asSpecial.Success?) && trailing.None?
    ensures r.Success? ==> (r.value.Regular? <==> asRegular.Success?)
    ensures r.Success? && asRegular.Success? ==> r.value == asRegular.value
    ensures r.Success? && asRegular.Failure? ==> r.value == asSpecial.value
    ensures syntax.Success? && asRegular.Failure? && asSpecial.Failure? ==> r == Failure(NoVariantMatched)
    ensures syntax.Success? && (asRegular.Success? || asSpecial.Success?) && trailing.Some? ==>
              r == Failure(trailing.value)
  {
    if syntax.Failure? then Failure(syntax.error)
    else
      var shape := if asRegular.Success? then asRegular
                   else if asSpecial.Success? then asSpecial
                   else Failure(NoVariantMatched);
      if shape.Success? && trailing.Some? then Failure(trailing.value) else shape
  }

  /** The balance view: the balance text of a Regular record, nothing for a Special one. */
  function Balance(e: AccountEntry): (r: Option<string>)
    ensures r.Some? <==> e.data.Regular?
    ensures e.data.Regular? ==> r.value == e.data.account.balance.value
  {
    match e.data
    case Regular(account, _, _, _, _) => Some(account.balance.value)
    case Special(_, _, _, _, _, _, _) => None
  }

  /** The nonce view; it is total. A Regular record yields its nonce text
      verbatim, a Special one the decimal form of its integer nonce, or the
      sentinel when the nonce is absent. The sentinel never collides with a
      printed integer. */
  function Nonce(e: AccountEntry): (r: string)
    ensures e.data.Regular? ==> r == e.data.account.nonce.value
    ensures e.data.Special? && e.data.nonce.None? ==> r == NotAvailable
    ensures e.data.Special? && e.data.nonce.Some? ==>
              && Decimal.IsDecimal(r)
              && Decimal.ParseDecimal(r) == e.data.nonce.value as int
              && r != NotAvailable
    ensures e.data.Special? && e.data.nonce.Some? ==> r == Decimal.IntToDecimal(e.data.nonce.value as int)
  {
    match e.data
    case Regular(account, _, _, _, _) => account.nonce.value
    case Special(_, _, _, _, nonce, _, _) =>
      match nonce
      case None => NotAvailable
      case Some(n) =>
        Decimal.DecimalRoundTrip(n as int);
        Decimal.IntToDecimal(n as int)
  }

  /** Only Regular records take part in reconciliation; they are exactly
      the records that have a balance to compare. */
  function IsComparable(e: AccountEntry): (r: bool)
    ensures r <==> e.data.Regular?
    ensures r <==> Balance(e).Some?
  {
    e.data.Regular?
  }

  /** For two Special records the nonce texts agree exactly when the
      optional integer nonces agree: comparing the printed form loses nothing. */
  lemma SpecialNonceFaithful(a: AccountEntry, b: AccountEntry)
    requires a.data.Special? && b.data.Special?
    ensures Nonce(a) == Nonce(b) <==> a.data.nonce == b.data.nonce
  {
  }
}
