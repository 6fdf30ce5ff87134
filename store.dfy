/**
 * The database the route handlers share: the tables `categories`, `reference_mappings`,
 * `transactions`, `accounts` and `amount`, with their `serial` counters and the constraints
 * the schemas declare (primary keys, `unique` columns, foreign keys).
 */
module Store {
  import opened Basics

  datatype Category = Category(id: int, name: string)

  /** A row of `transactions`; `amount` and `balance` are in cents. */
  datatype Transaction = Transaction(
    id: int,
    date: string,
    reference: string,
    description: Option<string>,
    amount: int,
    balance: Option<int>,
    categoryId: Option<int>,
    uniqueHash: string)

  datatype Account = Account(id: int, name: string, color: Option<string>)

  /** A row of `amount`: a dated balance of one account, in cents. */
  datatype AmountEntry = AmountEntry(id: int, amount: int, date: string, account: int)

  predicate HasCategory(categories: seq<Category>, id: int) {
    exists i :: 0 <= i < |categories| && categories[i].id == id
  }

  /** Serial ids from 1 and below the counter, distinct; names distinct (`name text not null unique`). */
  ghost predicate CategoriesValid(categories: seq<Category>, next: int) {
    && 1 <= next
    && (forall i :: 0 <= i < |categories| ==> 1 <= categories[i].id < next)
    && (forall i, j :: 0 <= i < j < |categories| ==>
          categories[i].id != categories[j].id && categories[i].name != categories[j].name)
  }

  /** `category_id int not null references categories(id)`. */
  ghost predicate MappingsValid(mappings: map<string, int>, categories: seq<Category>) {
    forall k :: k in mappings ==> HasCategory(categories, mappings[k])
  }

  /** `unique_hash text not null unique`. */
  ghost predicate HashesUnique(rows: seq<Transaction>) {
    forall i, j :: 0 <= i < j < |rows| ==> rows[i].uniqueHash != rows[j].uniqueHash
  }

  /** Serial ids, unique hashes and `category_id int references categories(id)`. */
  ghost predicate TransactionsValid(rows: seq<Transaction>, next: int, categories: seq<Category>) {
    && 1 <= next
    && (forall i :: 0 <= i < |rows| ==> 1 <= rows[i].id < next)
    && (forall i, j :: 0 <= i < j < |rows| ==> rows[i].id != rows[j].id)
    && HashesUnique(rows)
    && (forall i :: 0 <= i < |rows| && rows[i].categoryId.Some? ==>
          HasCategory(categories, rows[i].categoryId.value))
  }

  /** Categories added or renamed: every id that was there is still there. */
  lemma KeptCategoryIds(before: seq<Category>, after: seq<Category>, m: map<string, int>, rows: seq<Transaction>, next: int)
    requires forall x :: HasCategory(before, x) ==> HasCategory(after, x)
    requires MappingsValid(m, before) && TransactionsValid(rows, next, before)
    ensures MappingsValid(m, after) && TransactionsValid(rows, next, after)
  {
  }

  function AccountId(a: Account): int {
    a.id
  }

  function EntryId(e: AmountEntry): int {
    e.id
  }

  /** `id serial primary key`: ids from 1, below the counter, pairwise distinct. */
  ghost predicate SerialIds<T>(rows: seq<T>, idOf: T -> int, next: int) {
    && 1 <= next
    && (forall i :: 0 <= i < |rows| ==> 1 <= idOf(rows[i]) < next)
    && (forall i, j :: 0 <= i < j < |rows| ==> idOf(rows[i]) != idOf(rows[j]))
  }

  ghost predicate AccountsValid(accounts: seq<Account>, next: int) {
    SerialIds(accounts, AccountId, next)
  }

  ghost predicate AmountsValid(amounts: seq<AmountEntry>, next: int) {
    SerialIds(amounts, EntryId, next)
  }

  /** An insert takes the counter's value as its id and advances the counter. */
  lemma SerialAppend<T>(rows: seq<T>, idOf: T -> int, next: int, row: T)
    requires SerialIds(rows, idOf, next) && idOf(row) == next
    ensures SerialIds(rows + [row], idOf, next + 1)
  {
  }

  /** `delete from ... where id = ...`: the other rows, in their order. */
  function WithoutId<T(!new)>(rows: seq<T>, idOf: T -> int, id: int): (r: seq<T>)
    ensures forall x :: x in r <==> x in rows && idOf(x) != id
    ensures |r| <= |rows|
  {
    if rows == [] then []
    else
      var rest := WithoutId(rows[1..], idOf, id);
      assert forall x :: x in rows <==> x == rows[0] || x in rows[1..];
      if idOf(rows[0]) == id then rest else [rows[0]] + rest
  }

  /** A delete by id keeps the ids serial and distinct. */
  lemma {:induction false} WithoutIdValid<T(!new)>(rows: seq<T>, idOf: T -> int, next: int, id: int)
    requires SerialIds(rows, idOf, next)
    ensures SerialIds(WithoutId(rows, idOf, id), idOf, next)
  {
    if rows != [] {
      var tail := rows[1..];
      assert SerialIds(tail, idOf, next) by {
        forall i, j | 0 <= i < j < |tail| ensures idOf(tail[i]) != idOf(tail[j]) {
          assert tail[i] == rows[i + 1] && tail[j] == rows[j + 1];
        }
      }
      WithoutIdValid(tail, idOf, next, id);
      var rest := WithoutId(tail, idOf, id);
      if idOf(rows[0]) != id {
        forall k | 0 <= k < |rest| ensures idOf(rest[k]) != idOf(rows[0]) {
          assert rest[k] in tail;
          var b :| 0 <= b < |tail| && tail[b] == rest[k];
          assert rows[b + 1] == tail[b];
        }
        SerialCons(rows[0], rest, idOf, next);
      }
    }
  }

  /** A row whose id no other row has, below the counter, can be put in front. */
  lemma SerialCons<T>(row: T, rest: seq<T>, idOf: T -> int, next: int)
    requires SerialIds(rest, idOf, next) && 1 <= idOf(row) < next
    requires forall k :: 0 <= k < |rest| ==> idOf(rest[k]) != idOf(row)
    ensures SerialIds([row] + rest, idOf, next)
  {
    var r := [row] + rest;
    forall i, j | 0 <= i < j < |r| ensures idOf(r[i]) != idOf(r[j]) {
      assert r[j] == rest[j - 1];
      if i > 0 {
        assert r[i] == rest[i - 1];
      }
    }
  }

  class Database {
    var categories: seq<Category>
    var nextCategoryId: int
    var mappings: map<string, int>
    var transactions: seq<Transaction>
    var nextTransactionId: int
    var accounts: seq<Account>
    var nextAccountId: int
    var amounts: seq<AmountEntry>
    var nextAmountId: int

    /** The constraints of the schemas hold. */
    ghost predicate Valid()
      reads this
    {
      && CategoriesValid(categories, nextCategoryId)
      && MappingsValid(mappings, categories)
      && TransactionsValid(transactions, nextTransactionId, categories)
      && AccountsValid(accounts, nextAccountId)
      && AmountsValid(amounts, nextAmountId)
    }

    /** Freshly created tables: empty, with every serial counter at 1. */
    constructor ()
      ensures Valid()
      ensures categories == [] && mappings == map[] && transactions == []
      ensures accounts == [] && amounts == []
      ensures nextCategoryId == 1 && nextTransactionId == 1
      ensures nextAccountId == 1 && nextAmountId == 1
    {
      categories, nextCategoryId := [], 1;
      mappings := map[];
      transactions, nextTransactionId := [], 1;
      accounts, nextAccountId := [], 1;
      amounts, nextAmountId := [], 1;
    }

    /** Store a new content of `transactions` that keeps its constraints. */
    method SetTransactions(rows: seq<Transaction>, next: int)
      requires Valid() && TransactionsValid(rows, next, categories)
      modifies this
      ensures Valid()
      ensures transactions == rows && nextTransactionId == next
      ensures categories == old(categories) && nextCategoryId == old(nextCategoryId)
      ensures mappings == old(mappings)
      ensures accounts == old(accounts) && nextAccountId == old(nextAccountId)
      ensures amounts == old(amounts) && nextAmountId == old(nextAmountId)
    {
      transactions, nextTransactionId := rows, next;
    }

    /** Store new contents of `reference_mappings` and `transactions`, keeping the counters. */
    method SetMappings(m: map<string, int>, rows: seq<Transaction>)
      requires Valid()
      requires MappingsValid(m, categories) && TransactionsValid(rows, nextTransactionId, categories)
      modifies this
      ensures Valid()
      ensures mappings == m && transactions == rows
      ensures nextTransactionId == old(nextTransactionId)
      ensures categories == old(categories) && nextCategoryId == old(nextCategoryId)
      ensures accounts == old(accounts) && nextAccountId == old(nextAccountId)
      ensures amounts == old(amounts) && nextAmountId == old(nextAmountId)
    {
      mappings, transactions := m, rows;
    }

    /** Store new contents of the tables that depend on `categories`, keeping the other tables. */
    method SetCategories(cats: seq<Category>, next: int, m: map<string, int>, rows: seq<Transaction>)
      requires Valid()
      requires CategoriesValid(cats, next) && MappingsValid(m, cats)
      requires TransactionsValid(rows, nextTransactionId, cats)
      modifies this
      ensures Valid()
      ensures categories == cats && nextCategoryId == next && mappings == m && transactions == rows
      ensures nextTransactionId == old(nextTransactionId)
      ensures accounts == old(accounts) && nextAccountId == old(nextAccountId)
      ensures amounts == old(amounts) && nextAmountId == old(nextAmountId)
    {
      categories, nextCategoryId, mappings, transactions := cats, next, m, rows;
    }
  
    /** Store a new content of `accounts`, keeping the other tables. */
    method SetAccounts(rows: seq<Account>, next: int)
      requires Valid() && AccountsValid(rows, next)
      modifies this
      ensures Valid()
      ensures accounts == rows && nextAccountId == next
      ensures categories == old(categories) && nextCategoryId == old(nextCategoryId)
      ensures mappings == old(mappings)
      ensures transactions == old(transactions) && nextTransactionId == old(nextTransactionId)
      ensures amounts == old(amounts) && nextAmountId == old(nextAmountId)
    {
      accounts, nextAccountId := rows, next;
    }

    /** Store a new content of `amount`, keeping the other tables. */
    method SetAmounts(rows: seq<AmountEntry>, next: int)
      requires Valid() && AmountsValid(rows, next)
      modifies this
      ensures Valid()
      ensures amounts == rows && nextAmountId == next
      ensures categories == old(categories) && nextCategoryId == old(nextCategoryId)
      ensures mappings == old(mappings)
      ensures transactions == old(transactions) && nextTransactionId == old(nextTransactionId)
      ensures accounts == old(accounts) && nextAccountId == old(nextAccountId)
    {
      amounts, nextAmountId := rows, next;
    }
  }
}
