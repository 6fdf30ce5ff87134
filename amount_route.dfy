/**
 * `/amount/api` (app/amount/api/route.ts): the dated balances of the accounts. `GET` reads
 * them joined with their account, filtered by an account list and a date range, ordered by
 * date, optionally summed per date, and optionally paged; `POST` and `DELETE` edit the table.
 */
module AmountRoute {
  import opened Basics
  import opened Text
  import opened Numbers
  import opened Sorting
  import opened Grouping
  import opened Store

  /** The query string; an absent parameter is `None`. */
  datatype Query = Query(
    fkAccounts: Option<string>,
    dateRange: Option<string>,
    order: Option<string>,
    grouped: Option<string>,
    page: Option<string>,
    limit: Option<string>)

  /** A query-string parameter is truthy when present and non-empty. */
  predicate Given(p: Option<string>) {
    p.Some? && p.value != []
  }

  /** `rawOrder?.toLowerCase() === "asc" ? "asc" : "desc"`: true for ascending. */
  function Ascending(order: Option<string>): (asc: bool)
    ensures asc <==> order.Some? && Lower(order.value) == "asc"
  {
    match order
    case None => false
    case Some(o) => Lower(o) == "asc"
  }

  /** `grouped ? !["false", "0", "no"].includes(grouped.toLowerCase()) : false`. */
  function IsGrouped(grouped: Option<string>): (g: bool)
    ensures !Given(grouped) ==> !g
    ensures Given(grouped) ==> (g <==> Lower(grouped.value) !in ["false", "0", "no"])
  {
    Given(grouped) && Lower(grouped.value) !in ["false", "0", "no"]
  }

  /** Both flags ignore the case of their text. */
  lemma FlagsIgnoreCase(s: string)
    ensures Ascending(Some(s)) == Ascending(Some(Lower(s)))
    ensures IsGrouped(Some(s)) == IsGrouped(Some(Lower(s)))
  {
    LowerIdempotent(s);
  }

  /** `rawPage ? Number(rawPage) : undefined`. */
  function NumberParam(raw: Option<string>): Option<Num> {
    if Given(raw) then Some(ParseNumber(raw.value)) else None
  }

  /** `page && limit`: both are present, and neither is 0 or NaN. */
  predicate PagingRequested(query: Query) {
    && NumberParam(query.page).Some? && Truthy(NumberParam(query.page).value)
    && NumberParam(query.limit).Some? && Truthy(NumberParam(query.limit).value)
  }

  /**
   * The reassignments of `page` and `limit` once both are given: a page below 1 becomes 1, a
   * limit below 1 becomes 10 and one above 100 becomes 100; values in range are kept.
   */
  method Sanitize(page: int, limit: int) returns (p: int, l: int)
    ensures p >= 1 && 1 <= l <= 100
    ensures page >= 1 ==> p == page
    ensures page < 1 ==> p == 1
    ensures limit < 1 ==> l == 10
    ensures limit > 100 ==> l == 100
    ensures 1 <= limit <= 100 ==> l == limit
  {
    p, l := page, limit;
    if p < 1 {
      p := 1;
    }
    if l < 1 {
      l := 10;
    }
    if l > 100 {
      l := 100;
    }
  }

  /** One condition of the `where` clause. */
  datatype Filter =
    | AccountIn(ids: seq<int>)               // `amount.fk_account = any(...::int[])`
    | DateFrom(start: string)                // `amount.date >= start`
    | DateUntil(end: string)                 // `amount.date <= end`
    | DateBetween(start: string, end: string)

  /** A row of `from amount join accounts a on a.id = amount.fk_account`. */
  datatype Joined = Joined(id: int, amount: int, date: string, account: int, accountName: string, accountColor: Option<string>)

  predicate Holds(f: Filter, r: Joined) {
    match f
    case AccountIn(ids) => r.account in ids
    case DateFrom(start) => LessEq(start, r.date)
    case DateUntil(end) => LessEq(r.date, end)
    case DateBetween(start, end) => LessEq(start, r.date) && LessEq(r.date, end)
  }

  /** The row meets every condition. */
  predicate Passes(parts: seq<Filter>, r: Joined) {
    forall i :: 0 <= i < |parts| ==> Holds(parts[i], r)
  }

  /** Every piece as a number, or `None` if one is NaN (the `::int[]` cast then fails). */
  function ParseIds(pieces: seq<string>): (r: Option<seq<int>>)
    ensures r.Some? <==> forall i :: 0 <= i < |pieces| ==> ParseNumber(pieces[i]).Finite?
    ensures r.Some? ==> |r.value| == |pieces|
    ensures r.Some? ==> forall i :: 0 <= i < |pieces| ==> Finite(r.value[i]) == ParseNumber(pieces[i])
  {
    if pieces == [] then Some([])
    else
      var head, rest := ParseNumber(pieces[0]), ParseIds(pieces[1..]);
      assert forall i :: 1 <= i < |pieces| ==> pieces[i] == pieces[1..][i - 1];
      if head.NaN? || rest.None? then None else Some([head.value] + rest.value)
  }

  /**
   * `if (fk_accounts)`: the account condition, `Some(None)` when there is none, and `None`
   * when an id is not a number.
   */
  function AccountFilter(fkAccounts: Option<string>): (r: Option<Option<Filter>>)
    ensures !Given(fkAccounts) ==> r == Some(None)
    ensures Given(fkAccounts) ==>
      var ids := ParseIds(Split(fkAccounts.value, ','));
      (r.None? <==> ids.None?) && (ids.Some? ==> r == Some(Some(AccountIn(ids.value))))
  {
    if !Given(fkAccounts) then Some(None)
    else
      match ParseIds(Split(fkAccounts.value, ','))
      case None => None
      case Some(ids) => Some(Some(AccountIn(ids)))
  }

  /** `const [start, end] = date_range.split(",")`, with a missing second piece as "". */
  function RangeEnds(dateRange: string): (string, string) {
    var pieces := Split(dateRange, ',');
    (pieces[0], if |pieces| > 1 then pieces[1] else "")
  }

  /** `if (date_range)`: both bounds when both are given, else the one given, else none. */
  function DateFilter(dateRange: Option<string>): Option<Filter> {
    if !Given(dateRange) then None
    else
      var (start, end) := RangeEnds(dateRange.value);
      if start != [] && end != [] then Some(DateBetween(start, end))
      else if start != [] then Some(DateFrom(start))
      else if end != [] then Some(DateUntil(end))
      else None
  }

  function OptionList(f: Option<Filter>): seq<Filter> {
    if f.Some? then [f.value] else []
  }

  /** `whereParts`: the account condition first, then the date condition. */
  function Parts(account: Option<Filter>, dateRange: Option<string>): seq<Filter> {
    OptionList(account) + OptionList(DateFilter(dateRange))
  }

  lemma PassesAppend(p: seq<Filter>, q: seq<Filter>, r: Joined)
    ensures Passes(p + q, r) <==> Passes(p, r) && Passes(q, r)
  {
    assert forall i :: 0 <= i < |p| ==> (p + q)[i] == p[i];
    assert forall i :: 0 <= i < |q| ==> (p + q)[|p| + i] == q[i];
    if Passes(p, r) && Passes(q, r) {
      forall i | 0 <= i < |p + q| ensures Holds((p + q)[i], r) {
        if i >= |p| {
          assert (p + q)[i] == q[i - |p|];
        }
      }
    }
  }

  lemma PassesOption(f: Option<Filter>, r: Joined)
    ensures Passes(OptionList(f), r) <==> (f.Some? ==> Holds(f.value, r))
  {
    if f.Some? {
      assert OptionList(f)[0] == f.value;
    }
  }

  /** The conditions together keep exactly the rows that meet both filters. */
  lemma PartsMeaning(account: Option<Filter>, dateRange: Option<string>, r: Joined)
    ensures Passes(Parts(account, dateRange), r) <==>
      && (account.Some? ==> Holds(account.value, r))
      && (DateFilter(dateRange).Some? ==> Holds(DateFilter(dateRange).value, r))
  {
    PassesAppend(OptionList(account), OptionList(DateFilter(dateRange)), r);
    PassesOption(account, r);
    PassesOption(DateFilter(dateRange), r);
  }

  /** The date range keeps a date exactly when it lies within the bounds given, inclusively. */
  lemma DateFilterMeaning(dateRange: Option<string>, r: Joined)
    ensures var (start, end) := if Given(dateRange) then RangeEnds(dateRange.value) else ("", "");
            Passes(Parts(None, dateRange), r) <==>
              && (start != [] ==> LessEq(start, r.date))
              && (end != [] ==> LessEq(r.date, end))
  {
    PartsMeaning(None, dateRange, r);
  }

  /** The text of a `where` clause: one condition, or two joined by `and`. */
  datatype Cond = Atom(f: Filter) | And(left: Cond, right: Cond)

  datatype Where = NoWhere | WhereCond(cond: Cond)

  predicate CondHolds(c: Cond, r: Joined) {
    match c
    case Atom(f) => Holds(f, r)
    case And(left, right) => CondHolds(left, r) && CondHolds(right, r)
  }

  predicate WhereHolds(w: Where, r: Joined) {
    w.NoWhere? || CondHolds(w.cond, r)
  }

  /**
   * The loop that builds the clause: `where` with the first condition, then `and` with each
   * further one. The clause keeps a row exactly when the row meets every condition, and
   * there is no clause exactly when there are no conditions.
   */
  method BuildWhere(parts: seq<Filter>) returns (w: Where)
    ensures w.NoWhere? <==> parts == []
    ensures forall r :: WhereHolds(w, r) <==> Passes(parts, r)
  {
    w := NoWhere;
    if |parts| > 0 {
      var c := Atom(parts[0]);
      for i := 1 to |parts|
        invariant forall r :: CondHolds(c, r) <==> forall k :: 0 <= k < i ==> Holds(parts[k], r)
      {
        c := And(c, Atom(parts[i]));
      }
      w := WhereCond(c);
    }
  }

  /** The account of an id, if any. */
  function AccountOf(accounts: seq<Account>, id: int): (r: Option<Account>)
    ensures r.Some? ==> r.value in accounts && r.value.id == id
    ensures r.None? ==> forall i :: 0 <= i < |accounts| ==> accounts[i].id != id
  {
    if accounts == [] then None
    else if accounts[0].id == id then Some(accounts[0])
    else
      var r := AccountOf(accounts[1..], id);
      assert forall i :: 1 <= i < |accounts| ==> accounts[i] == accounts[1..][i - 1];
      r
  }

  /** The row the join makes of an entry and its account: the entry with `a.name` and `a.color`. */
  function JoinRow(e: AmountEntry, a: Account): Joined {
    Joined(e.id, e.amount, e.date, e.account, a.name, a.color)
  }

  /**
   * `from amount join accounts a on a.id = amount.fk_account`: every entry whose account exists
   * gives one row with that account's name and color, and entries without an account drop out.
   */
  function JoinAccounts(amounts: seq<AmountEntry>, accounts: seq<Account>): (r: seq<Joined>)
    ensures |r| <= |amounts|
    ensures forall x :: x in r ==>
      exists e :: e in amounts && AccountOf(accounts, e.account).Some? && x == JoinRow(e, AccountOf(accounts, e.account).value)
    ensures forall e :: e in amounts && AccountOf(accounts, e.account).Some? ==>
      JoinRow(e, AccountOf(accounts, e.account).value) in r
  {
    if amounts == [] then []
    else
      var e := amounts[0];
      var rest := JoinAccounts(amounts[1..], accounts);
      assert forall x :: x in amounts <==> x == e || x in amounts[1..];
      match AccountOf(accounts, e.account)
      case None => rest
      case Some(a) => [JoinRow(e, a)] + rest
  }

  /** The join keeps the order of the entries: it distributes over concatenation. */
  lemma {:induction false} JoinAccountsAppend(a: seq<AmountEntry>, b: seq<AmountEntry>, accounts: seq<Account>)
    ensures JoinAccounts(a + b, accounts) == JoinAccounts(a, accounts) + JoinAccounts(b, accounts)
    decreases |a|
  {
    if a != [] {
      assert (a + b)[1..] == a[1..] + b && (a + b)[0] == a[0];
      JoinAccountsAppend(a[1..], b, accounts);
      var e := a[0];
      var front, back := JoinAccounts(a[1..], accounts), JoinAccounts(b, accounts);
      match AccountOf(accounts, e.account)
      case None =>
      case Some(acc) =>
        assert [JoinRow(e, acc)] + (front + back) == ([JoinRow(e, acc)] + front) + back;
    } else {
      assert a + b == b;
    }
  }

  /** An entry without an account gives no row; one with an account gives exactly its row. */
  lemma JoinAccountsSingle(e: AmountEntry, accounts: seq<Account>)
    ensures AccountOf(accounts, e.account).None? ==> JoinAccounts([e], accounts) == []
    ensures AccountOf(accounts, e.account).Some? ==>
      JoinAccounts([e], accounts) == [JoinRow(e, AccountOf(accounts, e.account).value)]
  {
    assert [e][1..] == [];
  }

  /** The joined rows the conditions keep, in their order. */
  function Selected(rows: seq<Joined>, parts: seq<Filter>): (r: seq<Joined>)
    ensures forall x :: x in r <==> x in rows && Passes(parts, x)
    ensures |r| <= |rows|
  {
    if rows == [] then []
    else
      var rest := Selected(rows[1..], parts);
      assert forall x :: x in rows <==> x == rows[0] || x in rows[1..];
      if Passes(parts, rows[0]) then [rows[0]] + rest else rest
  }

  /** The rows the built clause keeps. */
  function SelectedWhere(rows: seq<Joined>, w: Where): seq<Joined> {
    if rows == [] then []
    else
      var rest := SelectedWhere(rows[1..], w);
      if WhereHolds(w, rows[0]) then [rows[0]] + rest else rest
  }

  /** A clause equivalent to the conditions selects the same rows. */
  lemma {:induction false} SelectedWhereIsSelected(rows: seq<Joined>, w: Where, parts: seq<Filter>)
    requires forall r :: WhereHolds(w, r) <==> Passes(parts, r)
    ensures SelectedWhere(rows, w) == Selected(rows, parts)
  {
    if rows != [] {
      SelectedWhereIsSelected(rows[1..], w, parts);
    }
  }

  /** A row of the answer: one entry, or (grouped) the sum of one date, shown as account 'All'. */
  datatype AmountRow =
    | Entry(id: int, amount: int, date: string, accountName: string, accountColor: Option<string>)
    | DaySum(date: string, amount: int)

  function RowDate(r: AmountRow): string {
    r.date
  }

  function EntryOf(x: Joined): AmountRow {
    Entry(x.id, x.amount, x.date, x.accountName, x.accountColor)
  }

  function Entries(rows: seq<Joined>): (r: seq<AmountRow>)
    ensures |r| == |rows|
    ensures forall i :: 0 <= i < |rows| ==> r[i] == EntryOf(rows[i])
  {
    seq(|rows|, i requires 0 <= i < |rows| => EntryOf(rows[i]))
  }

  /** (date, amount) of each row, the input of `group by amount.date` with `sum(amount.amount)`. */
  function DatedAmounts(rows: seq<Joined>): (r: seq<(string, int)>)
    ensures |r| == |rows|
    ensures forall i :: 0 <= i < |rows| ==> r[i] == (rows[i].date, rows[i].amount)
  {
    seq(|rows|, i requires 0 <= i < |rows| => (rows[i].date, rows[i].amount))
  }

  function DaySums(gs: seq<(string, int)>): (r: seq<AmountRow>)
    ensures |r| == |gs|
    ensures forall i :: 0 <= i < |gs| ==> r[i] == DaySum(gs[i].0, gs[i].1)
  {
    seq(|gs|, i requires 0 <= i < |gs| => DaySum(gs[i].0, gs[i].1))
  }

  function OrderByDate(rows: seq<AmountRow>, asc: bool): (r: seq<AmountRow>)
    ensures asc ==> SortedBy(r, RowDate)
    ensures !asc ==> SortedDescendingBy(r, RowDate)
    ensures multiset(r) == multiset(rows) && |r| == |rows|
  {
    if asc then SortBy(rows, RowDate) else SortDescendingBy(rows, RowDate)
  }

  /** The data query without its `limit`/`offset`: entries, or one sum per date. */
  function Rows(selected: seq<Joined>, grouped: bool, asc: bool): seq<AmountRow> {
    if grouped then OrderByDate(DaySums(GroupSum(DatedAmounts(selected))), asc)
    else OrderByDate(Entries(selected), asc)
  }

  /** In entry mode the answer holds each selected row once, as an entry, ordered by date. */
  lemma EntryRows(selected: seq<Joined>, asc: bool)
    ensures var rows := Rows(selected, false, asc);
            && multiset(rows) == multiset(Entries(selected))
            && (asc ==> SortedBy(rows, RowDate)) && (!asc ==> SortedDescendingBy(rows, RowDate))
  {
  }

  /** Each grouped row is the sum row of one group. */
  lemma GroupedFrom(selected: seq<Joined>, asc: bool, i: nat)
    requires i < |Rows(selected, true, asc)|
    ensures Rows(selected, true, asc)[i] in DaySums(GroupSum(DatedAmounts(selected)))
  {
    var rows := Rows(selected, true, asc);
    assert rows[i] in multiset(rows);
  }

  /** In grouped mode every row is the sum of the amounts of its date. */
  lemma GroupedSums(selected: seq<Joined>, asc: bool)
    ensures var rows := Rows(selected, true, asc);
            forall i :: 0 <= i < |rows| ==>
              rows[i].DaySum? && rows[i].amount == SumFor(DatedAmounts(selected), rows[i].date)
  {
    var items := DatedAmounts(selected);
    var gs := GroupSum(items);
    var rows := Rows(selected, true, asc);
    forall i | 0 <= i < |rows|
      ensures rows[i].DaySum? && rows[i].amount == SumFor(items, rows[i].date)
    {
      GroupedFrom(selected, asc, i);
      var g :| 0 <= g < |gs| && rows[i] == DaySums(gs)[g];
      GroupSumAt(items, g);
    }
  }

  /** In grouped mode no date appears twice. */
  lemma GroupedDistinct(selected: seq<Joined>, asc: bool)
    ensures DistinctBy(Rows(selected, true, asc), RowDate)
  {
    var gs := GroupSum(DatedAmounts(selected));
    var sums := DaySums(gs);
    assert DistinctBy(sums, RowDate) by {
      forall i, j | 0 <= i < j < |sums| ensures RowDate(sums[i]) != RowDate(sums[j]) {
        assert RowDate(sums[i]) == gs[i].0 && RowDate(sums[j]) == gs[j].0;
      }
    }
    PermutationDistinct(Rows(selected, true, asc), sums, RowDate);
  }

  /** In grouped mode the dates shown are exactly the dates of the selected rows. */
  lemma GroupedCoversDates(selected: seq<Joined>, asc: bool, d: string)
    ensures var rows := Rows(selected, true, asc);
            d in KeysOf(DatedAmounts(selected)) <==> exists i :: 0 <= i < |rows| && rows[i].date == d
  {
    var items := DatedAmounts(selected);
    var gs := GroupSum(items);
    var sums := DaySums(gs);
    var rows := Rows(selected, true, asc);
    if d in KeysOf(items) {
      assert d in KeysOf(gs);
      var g :| 0 <= g < |gs| && gs[g].0 == d;
      assert sums[g] in multiset(rows);
      var i :| 0 <= i < |rows| && rows[i] == sums[g];
      assert rows[i].date == d;
    }
    if exists i :: 0 <= i < |rows| && rows[i].date == d {
      var i :| 0 <= i < |rows| && rows[i].date == d;
      GroupedFrom(selected, asc, i);
      var g :| 0 <= g < |gs| && rows[i] == sums[g];
      assert d in KeysOf(gs);
    }
  }

  /** In grouped mode the count is the number of distinct dates. */
  lemma GroupedCount(selected: seq<Joined>, asc: bool)
    ensures |Rows(selected, true, asc)| == |KeysOf(DatedAmounts(selected))|
  {
    var gs := GroupSum(DatedAmounts(selected));
    DistinctKeysCount(gs);
  }

  /** The count query: the selected rows, or in grouped mode their distinct dates. */
  lemma TotalCounts(selected: seq<Joined>, grouped: bool, asc: bool)
    ensures !grouped ==> |Rows(selected, grouped, asc)| == |selected|
    ensures grouped ==> |Rows(selected, grouped, asc)| == |KeysOf(DatedAmounts(selected))|
  {
    if grouped {
      GroupedCount(selected, asc);
    }
  }

  datatype AmountResponse =
    | Unpaged(data: seq<AmountRow>)
    | Paged(data: seq<AmountRow>, page: int, limit: int, total: nat, totalPages: nat, hasMore: bool)
    | BadRequest   // 400: a query fails, here because an account id is not a number

  /** The rows the data query returns before paging, or `None` when it fails. */
  function AllRows(accounts: seq<Account>, amounts: seq<AmountEntry>, query: Query): Option<seq<AmountRow>> {
    match AccountFilter(query.fkAccounts)
    case None => None
    case Some(account) =>
      var selected := Selected(JoinAccounts(amounts, accounts), Parts(account, query.dateRange));
      Some(Rows(selected, IsGrouped(query.grouped), Ascending(query.order)))
  }

  /**
   * `GET`: 400 when an account id is not a number. Without both `page` and `limit` the answer
   * is every row. Otherwise the page and limit are sanitised, `data` is the slice at
   * `(page - 1) * limit`, `total` counts all rows, `totalPages` covers them, and `hasMore`
   * says whether a later page exists.
   */
  method Get(accounts: seq<Account>, amounts: seq<AmountEntry>, query: Query) returns (resp: AmountResponse)
    ensures resp.BadRequest? <==> AllRows(accounts, amounts, query).None?
    ensures resp.Unpaged? <==> AllRows(accounts, amounts, query).Some? && !PagingRequested(query)
    ensures resp.Unpaged? ==> resp.data == AllRows(accounts, amounts, query).value
    ensures resp.Paged? ==>
      var rows := AllRows(accounts, amounts, query).value;
      var page, limit := NumberParam(query.page).value.value, NumberParam(query.limit).value.value;
      && resp.page == (if page >= 1 then page else 1)
      && resp.limit == (if limit < 1 then 10 else if limit > 100 then 100 else limit)
      && resp.total == |rows|
      && resp.totalPages == TotalPages(|rows|, resp.limit)
      && resp.data == PageSlice(rows, PageOffset(resp.page, resp.limit), resp.limit)
      && (resp.hasMore <==> PageOffset(resp.page + 1, resp.limit) < resp.total)
  {
    var asc := Ascending(query.order);
    var grouped := IsGrouped(query.grouped);
    var pageNum, limitNum := NumberParam(query.page), NumberParam(query.limit);
    var account := AccountFilter(query.fkAccounts);
    if account.None? {
      return BadRequest;
    }
    var parts := Parts(account.value, query.dateRange);
    var w := BuildWhere(parts);
    var joined := JoinAccounts(amounts, accounts);
    SelectedWhereIsSelected(joined, w, parts);
    var rows := Rows(SelectedWhere(joined, w), grouped, asc);
    if !(pageNum.Some? && Truthy(pageNum.value) && limitNum.Some? && Truthy(limitNum.value)) {
      return Unpaged(rows);
    }
    var page, limit := Sanitize(pageNum.value.value, limitNum.value.value);
    var total := |rows|;
    var totalPages := TotalPages(total, limit);
    HasMoreMeaning(total, page, limit);
    resp := Paged(PageSlice(rows, PageOffset(page, limit), limit), page, limit, total, totalPages, page < totalPages);
  }

  /** `POST`: `insert into amount (amount, date, fk_account) values (...)`, with the next id. */
  method Post(db: Database, amount: int, date: string, account: int)
    requires db.Valid()
    modifies db
    ensures db.Valid()
    ensures db.amounts == old(db.amounts) + [AmountEntry(old(db.nextAmountId), amount, date, account)]
    ensures db.nextAmountId == old(db.nextAmountId) + 1
    ensures db.categories == old(db.categories) && db.nextCategoryId == old(db.nextCategoryId)
    ensures db.mappings == old(db.mappings)
    ensures db.transactions == old(db.transactions) && db.nextTransactionId == old(db.nextTransactionId)
    ensures db.accounts == old(db.accounts) && db.nextAccountId == old(db.nextAccountId)
  {
    var row := AmountEntry(db.nextAmountId, amount, date, account);
    SerialAppend(db.amounts, EntryId, db.nextAmountId, row);
    db.SetAmounts(db.amounts + [row], db.nextAmountId + 1);
  }

  /** `DELETE`: `delete from amount where id = ...`; only that entry goes. */
  method Delete(db: Database, id: int)
    requires db.Valid()
    modifies db
    ensures db.Valid()
    ensures db.amounts == WithoutId(old(db.amounts), EntryId, id)
    ensures db.nextAmountId == old(db.nextAmountId)
    ensures db.categories == old(db.categories) && db.nextCategoryId == old(db.nextCategoryId)
    ensures db.mappings == old(db.mappings)
    ensures db.transactions == old(db.transactions) && db.nextTransactionId == old(db.nextTransactionId)
    ensures db.accounts == old(db.accounts) && db.nextAccountId == old(db.nextAccountId)
  {
    WithoutIdValid(db.amounts, EntryId, db.nextAmountId, id);
    db.SetAmounts(WithoutId(db.amounts, EntryId, id), db.nextAmountId);
  }
}
