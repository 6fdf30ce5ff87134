/**
 * `/account/api` (app/account/api/route.ts): add, rename and delete accounts, and list every
 * account with its current balance, the amount of its latest dated entry or 0.
 */
module AccountRoute {
  import opened Basics
  import opened Text
  import opened Store

  /** A row of the `GET` answer: `a.id, a.name, coalesce(am.amount, 0) as amount`. */
  datatype AccountBalance = AccountBalance(id: int, name: string, amount: int)

  predicate HasEntry(amounts: seq<AmountEntry>, account: int) {
    exists k :: 0 <= k < |amounts| && amounts[k].account == account
  }

  /** `e` is an entry of the account and no entry of the account has a later date. */
  ghost predicate IsLatest(amounts: seq<AmountEntry>, account: int, e: AmountEntry) {
    && e in amounts && e.account == account
    && forall k :: 0 <= k < |amounts| && amounts[k].account == account ==> LessEq(amounts[k].date, e.date)
  }

  /**
   * `select amount, date from amount where amount.fk_account = a.id order by amount.date desc
   * limit 1`: no row when the account has no entry, else an entry with the latest date.
   */
  function Latest(amounts: seq<AmountEntry>, account: int): (r: Option<AmountEntry>)
    ensures r.None? <==> !HasEntry(amounts, account)
    ensures r.Some? ==> IsLatest(amounts, account, r.value)
  {
    if amounts == [] then None
    else
      var rest := Latest(amounts[1..], account);
      var e := amounts[0];
      var r := if e.account != account then rest
               else if rest.Some? && LessEq(e.date, rest.value.date) then rest
               else Some(e);
      LatestStep(amounts, account, rest);
      r
  }

  /** The entry for `amounts` from the entry for its tail. */
  lemma LatestStep(amounts: seq<AmountEntry>, account: int, rest: Option<AmountEntry>)
    requires amounts != []
    requires rest.None? <==> !HasEntry(amounts[1..], account)
    requires rest.Some? ==> IsLatest(amounts[1..], account, rest.value)
    ensures var e := amounts[0];
            var r := if e.account != account then rest
                     else if rest.Some? && LessEq(e.date, rest.value.date) then rest
                     else Some(e);
            && (r.None? <==> !HasEntry(amounts, account))
            && (r.Some? ==> IsLatest(amounts, account, r.value))
  {
    var e, tail := amounts[0], amounts[1..];
    assert forall k :: 1 <= k < |amounts| ==> amounts[k] == tail[k - 1];
    assert HasEntry(amounts, account) <==> e.account == account || HasEntry(tail, account) by {
      if HasEntry(amounts, account) && e.account != account {
        var k :| 0 <= k < |amounts| && amounts[k].account == account;
        assert tail[k - 1].account == account;
      }
      if HasEntry(tail, account) {
        var k :| 0 <= k < |tail| && tail[k].account == account;
        assert amounts[k + 1].account == account;
      }
    }
    if e.account == account {
      if rest.Some? && LessEq(e.date, rest.value.date) {
        assert rest.value in amounts;
      } else if rest.Some? {
        LessEqTotal(e.date, rest.value.date);
        LessEqReflexive(e.date);
        forall k | 0 <= k < |amounts| && amounts[k].account == account
          ensures LessEq(amounts[k].date, e.date)
        {
          if k > 0 {
            LessEqTransitive(amounts[k].date, rest.value.date, e.date);
          }
        }
      } else {
        LessEqReflexive(e.date);
      }
    } else if rest.Some? {
      assert rest.value in amounts;
    }
  }

  /** `coalesce(am.amount, 0)`. */
  function BalanceOf(amounts: seq<AmountEntry>, account: int): int {
    match Latest(amounts, account)
    case None => 0
    case Some(e) => e.amount
  }

  /** An account without entries has balance 0; otherwise the balance is the amount of a latest entry. */
  lemma BalanceIsLatest(amounts: seq<AmountEntry>, account: int)
    ensures !HasEntry(amounts, account) ==> BalanceOf(amounts, account) == 0
    ensures HasEntry(amounts, account) ==>
      exists e :: IsLatest(amounts, account, e) && BalanceOf(amounts, account) == e.amount
  {
    match Latest(amounts, account)
    case None =>
    case Some(e) => assert IsLatest(amounts, account, e);
  }

  /**
   * `GET`: `from accounts a left join lateral (...) am on true`, one row per account with the
   * account's balance. The query has no `order by`; the model lists the accounts in table order.
   */
  function Get(accounts: seq<Account>, amounts: seq<AmountEntry>): (r: seq<AccountBalance>)
    ensures |r| == |accounts|
    ensures forall i :: 0 <= i < |accounts| ==>
      r[i] == AccountBalance(accounts[i].id, accounts[i].name, BalanceOf(amounts, accounts[i].id))
  {
    seq(|accounts|, i requires 0 <= i < |accounts| =>
      AccountBalance(accounts[i].id, accounts[i].name, BalanceOf(amounts, accounts[i].id)))
  }

  /** With distinct ids, every account is listed exactly once, including accounts without entries. */
  lemma GetListsEachAccountOnce(accounts: seq<Account>, next: int, amounts: seq<AmountEntry>, a: nat)
    requires AccountsValid(accounts, next) && a < |accounts|
    ensures var r := Get(accounts, amounts);
            forall i :: 0 <= i < |r| && r[i].id == accounts[a].id ==> i == a
  {
    var r := Get(accounts, amounts);
    forall i | 0 <= i < |r| && r[i].id == accounts[a].id ensures i == a {
      assert AccountId(accounts[i]) == AccountId(accounts[a]);
    }
  }

  /** `update accounts set name = ... where id = ...`: only that account's name changes. */
  function Rename(accounts: seq<Account>, id: int, name: string): (r: seq<Account>)
    ensures |r| == |accounts|
    ensures forall i :: 0 <= i < |accounts| && accounts[i].id == id ==> r[i] == accounts[i].(name := name)
    ensures forall i :: 0 <= i < |accounts| && accounts[i].id != id ==> r[i] == accounts[i]
  {
    seq(|accounts|, i requires 0 <= i < |accounts| =>
      if accounts[i].id == id then accounts[i].(name := name) else accounts[i])
  }

  /** A rename keeps every id, so the table stays valid. */
  lemma RenameValid(accounts: seq<Account>, next: int, id: int, name: string)
    requires AccountsValid(accounts, next)
    ensures AccountsValid(Rename(accounts, id, name), next)
  {
    var r := Rename(accounts, id, name);
    assert forall i :: 0 <= i < |r| ==> AccountId(r[i]) == AccountId(accounts[i]);
  }

  /** `POST`: `insert into accounts (name) values (...)`; the new row has no color. */
  method Post(db: Database, name: string)
    requires db.Valid()
    modifies db
    ensures db.Valid()
    ensures db.accounts == old(db.accounts) + [Account(old(db.nextAccountId), name, None)]
    ensures db.nextAccountId == old(db.nextAccountId) + 1
    ensures db.categories == old(db.categories) && db.nextCategoryId == old(db.nextCategoryId)
    ensures db.mappings == old(db.mappings)
    ensures db.transactions == old(db.transactions) && db.nextTransactionId == old(db.nextTransactionId)
    ensures db.amounts == old(db.amounts) && db.nextAmountId == old(db.nextAmountId)
  {
    var row := Account(db.nextAccountId, name, None);
    SerialAppend(db.accounts, AccountId, db.nextAccountId, row);
    db.SetAccounts(db.accounts + [row], db.nextAccountId + 1);
  }

  /** `PUT`: the account with that id gets the name; its color and every other account are kept. */
  method Put(db: Database, id: int, name: string)
    requires db.Valid()
    modifies db
    ensures db.Valid()
    ensures db.accounts == Rename(old(db.accounts), id, name)
    ensures db.nextAccountId == old(db.nextAccountId)
    ensures db.categories == old(db.categories) && db.nextCategoryId == old(db.nextCategoryId)
    ensures db.mappings == old(db.mappings)
    ensures db.transactions == old(db.transactions) && db.nextTransactionId == old(db.nextTransactionId)
    ensures db.amounts == old(db.amounts) && db.nextAmountId == old(db.nextAmountId)
  {
    RenameValid(db.accounts, db.nextAccountId, id, name);
    db.SetAccounts(Rename(db.accounts, id, name), db.nextAccountId);
  }

  /** `DELETE`: `delete from accounts where id = ...`; only that account goes. */
  method Delete(db: Database, id: int)
    requires db.Valid()
    modifies db
    ensures db.Valid()
    ensures db.accounts == WithoutId(old(db.accounts), AccountId, id)
    ensures db.nextAccountId == old(db.nextAccountId)
    ensures db.categories == old(db.categories) && db.nextCategoryId == old(db.nextCategoryId)
    ensures db.mappings == old(db.mappings)
    ensures db.transactions == old(db.transactions) && db.nextTransactionId == old(db.nextTransactionId)
    ensures db.amounts == old(db.amounts) && db.nextAmountId == old(db.nextAmountId)
  {
    WithoutIdValid(db.accounts, AccountId, db.nextAccountId, id);
    db.SetAccounts(WithoutId(db.accounts, AccountId, id), db.nextAccountId);
  }
}
