# personal-finance-app: the route handlers and their tables

This project models the server side of a small personal-finance web application, plus two
pieces of client logic. The server is a set of REST route handlers over five SQL tables:
`categories`, `reference_mappings`, `transactions`, `accounts` and `amount`.

`Store.Database` is a class that holds all five tables as sequences and a map, each with its
`serial` counter. `Database.Valid()` states the constraints the schemas declare:
- serial ids are distinct;
- category names are unique;
- transaction hashes are unique;
- foreign keys point at existing categories.

Every handler that writes is a method on the database. It keeps `Valid()` and states the new
content of every table. A handler that only reads is a function on table values, except
`AmountRoute.Get` and `SankeyRoute.Get`: the source builds those answers in loops, so they are
methods that change nothing.

The handlers, one module each:
- **TransactionsRoute** (`POST /transactions/api`): bulk upload of bank transactions.
  - Records are normalised first.
  - Each record is keyed by `reference|description|date|amount`, and skipped on a key conflict.
- **ReferenceMappingsRoute** (`POST /reference-mappings/api`): maps a bank reference to a category.
  - The reference is normalised by trimming and lower-casing.
  - Transactions with that normalised reference move to the category.
- **ReferencesRoute** (`GET /references/api`): the references that have no mapping yet.
  - Grouped by normalised key, each group shown by its least raw reference.
  - Filtered, sorted and paged.
- **CategoriesRoute** (`/categories/api`): list categories, create by name (an upsert), rename and delete.
  - The schemas' cascades are modelled: a deleted category's mappings go, and its transactions lose it.
- **AmountRoute** (`/amount/api`): dated account balances.
  - `GET` handles flags, filters, a `where` built in a loop, per-date sums and paging.
  - `POST` and `DELETE` edit the table.
- **AccountRoute** (`/account/api`): add, rename and delete accounts; list each with its latest balance, or 0.
- **SankeyRoute** (`GET /sankey/api`): sums transactions per category and direction.
  - Builds the income → "Total Income" → expenses graph and its "Excess" link, in three loops.
- **CsvRecords** (`buildRecords`): turns parsed CSV rows into upload records through the user's column mapping.
- **UnmappedReferencesView**: the client state of the unmapped-references list.
  - Covers the optimistic removal on assign and the selection clean-up.
  - Covers the footer range and the Prev/Next buttons.

Helper modules:
- **Text**: `trim`, `toLowerCase`, substring, `split`/`join`, and string order.
- **Numbers**: `Number(...)` on integer and cents text, `String(amount)`, and paging arithmetic.
- **Sorting**: a stable insertion sort by a string key.
- **Grouping**: `group by` with `sum` and with `min`.
- **Basics**: `Option`, `Max` and `Min`.

Amounts are integer cents. Dates are ISO text compared character by character. The md5 digest
is represented by the `|`-joined text it is computed from.

One quirk of the client code is stated as `UnmappedReferencesView.StaleLastPage`. Assigning the
last reference on the last page keeps the page number. The footer then reads
"Showing 11-10 of 10 • Page 2 of 1".

## Model

| member | source | states |
|---|---|---|
| TransactionsRoute.Normalize | app/transactions/api/route.ts:27-35 | the reference is trimmed, and "" when missing; a present description is trimmed; a null one stays null; date, amount and balance pass through |
| TransactionsRoute.NormalizeIdempotent | app/transactions/api/route.ts:27-35 | normalising a normalised record changes nothing |
| TransactionsRoute.NormalizeAll | app/transactions/api/route.ts:48 | one normalised record per record, in order |
| TransactionsRoute.NullDescriptionCollapses | app/transactions/api/route.ts:65 | a null description and an empty one give the same key |
| TransactionsRoute.KeyDeterminesFields | app/transactions/api/route.ts:64-66 | when no field holds a `\|`, equal keys mean equal reference, description (null as empty), date and amount |
| TransactionsRoute.KeyCollision | app/transactions/api/route.ts:64-66 | two different records whose fields hold `\|` share a key |
| TransactionsRoute.OffersKeys | app/transactions/api/route.ts:56-73 | the rows of the `data` expression carry consecutive serial ids, no category, and exactly the records' keys |
| TransactionsRoute.IngestAppends | app/transactions/api/route.ts:75-77 | an upload never changes a stored row; it appends at most one row per offered row, with a null category, an offered key and an id drawn for this upload |
| TransactionsRoute.IngestHashes | app/transactions/api/route.ts:64-78 | after an upload the stored keys are the old keys plus every offered row's key |
| TransactionsRoute.IngestKeepsHashesUnique | app/transactions/api/route.ts:22-77 | skip-on-conflict keeps the stored keys pairwise distinct |
| TransactionsRoute.IngestCount | app/transactions/api/route.ts:77-81 | the rows inserted are the distinct new keys of the upload |
| TransactionsRoute.IngestAllKnown | app/transactions/api/route.ts:77 | an upload whose keys are all stored changes nothing |
| TransactionsRoute.IngestIdempotent | app/transactions/api/route.ts:64-78 | uploading the same records twice changes nothing the second time |
| TransactionsRoute.InsertOrSkipValid | app/transactions/api/route.ts:14-77 | offering one fresh row keeps serial ids, unique keys and category references, and advances the counter by one |
| TransactionsRoute.IngestValid | app/transactions/api/route.ts:14-77 | an upload keeps the table's constraints and advances the counter once per offered row |
| TransactionsRoute.InsertAll | app/transactions/api/route.ts:56-81 | the loop's table is `Ingest` of the offered rows; it keeps the constraints; each offered row draws one serial id; inserted <= offered rows |
| TransactionsRoute.Post | app/transactions/api/route.ts:37-84 | missing or empty records give 400 and change nothing; otherwise the table is the ingest of the normalised records, with total = records and skipped = total - inserted |
| Text.NormalizeKeyIdempotent | app/reference-mappings/api/route.ts:27 | normalising a normalised key changes nothing |
| Text.KeyAgreement | app/reference-mappings/api/route.ts:22-38 | with trim and lower-casing both modelled as the same ASCII operations, the handler's `trim().toLowerCase().trim()` equals `lower(trim(reference))`; the program's JS and Postgres versions differ (see Left out) |
| Numbers.ParseCentsText | app/transactions/api/route.ts:65 | reading back the text of an amount gives the amount |
| Numbers.CentsTextInjective | app/transactions/api/route.ts:65 | different amounts have different texts in the key |
| ReferenceMappingsRoute.Recategorize | app/reference-mappings/api/route.ts:35-39 | every matching row gets the category; other rows are untouched; no row changes in anything but its category |
| ReferenceMappingsRoute.UpdatedAreChanged | app/reference-mappings/api/route.ts:39-40 | the rows the update reports are exactly the rows it changes |
| ReferenceMappingsRoute.RecategorizeIdempotent | app/reference-mappings/api/route.ts:35-41 | after the update no row needs one, and repeating it changes nothing |
| ReferenceMappingsRoute.RecategorizeValid | app/reference-mappings/api/route.ts:35-41 | moving rows to an existing category keeps the table constraints |
| ReferenceMappingsRoute.UpdateMatching | app/reference-mappings/api/route.ts:35-43 | the row loop yields `Recategorize` and counts the matching rows whose category was null or different |
| ReferenceMappingsRoute.Post | app/reference-mappings/api/route.ts:18-43 | blank reference or NaN category gives 400, and an unknown category fails; all three change nothing. Otherwise `mappings[key] := id`, the matching rows move, and the answer echoes key, id and count |
| ReferencesRoute.PageOf | app/references/api/route.ts:23 | 1 by default; a page below 1 becomes 1; a page >= 1 is kept; NaN stays NaN |
| ReferencesRoute.LimitOf | app/references/api/route.ts:24 | 50 by default; a limit below 1 becomes 1, one above 100 becomes 100, one in range is kept; NaN stays NaN |
| ReferencesRoute.Pattern | app/references/api/route.ts:26-27 | a filter exactly when `q` is non-blank, and then it is `q` trimmed |
| ReferencesRoute.KeepUnmapped | app/references/api/route.ts:46-48 | exactly the groups that have no mapping and pass the filter |
| ReferencesRoute.KeepUnmappedDistinct | app/references/api/route.ts:46-48 | filtering groups with distinct keys leaves their keys distinct |
| ReferencesRoute.CandidatesSound | app/references/api/route.ts:36-48 | each candidate is an unmapped group, filtered, shown by its least reference |
| ReferencesRoute.CandidatesComplete | app/references/api/route.ts:36-48 | every unmapped group whose least reference passes the filter is a candidate |
| ReferencesRoute.Ordered | app/references/api/route.ts:67 | the candidates sorted ascending by sample, as a permutation |
| ReferencesRoute.Get | app/references/api/route.ts:19-72 | 400 exactly without `unmapped=true`; a NaN page or limit fails; otherwise the echoed page and limit are the clamped query values, total counts the candidates, totalPages >= 1 covers them, and data holds at most `limit` items |
| ReferencesRoute.GetIsSlice | app/references/api/route.ts:25-69 | data is the slice of the ordered samples at `(page-1)*limit` |
| ReferencesRoute.GetSorted | app/references/api/route.ts:67 | the references on a page ascend |
| ReferencesRoute.GetReturnsUnmappedMinima | app/references/api/route.ts:36-66 | each returned reference is its group's least reference, unmapped and passing the filter |
| ReferencesRoute.GetDistinctGroups | app/references/api/route.ts:39-62 | no two returned references share a group |
| ReferencesRoute.EveryCandidateHasAPage | app/references/api/route.ts:51-69 | every candidate appears on the page its position gives, and that page is within totalPages |
| CategoriesRoute.Get | app/categories/api/route.ts:13-17 | the categories ordered by name, as a permutation of the table |
| CategoriesRoute.Upsert | app/categories/api/route.ts:26-31 | the returned row has the name and is in the table; old rows stay; a row is added exactly when the name was free, with the serial's id |
| CategoriesRoute.UpsertValid | app/categories/api/route.ts:6-31 | creating keeps ids and names unique, with the serial advanced |
| CategoriesRoute.UpsertIdempotent | app/categories/api/route.ts:26-31 | a second create with the same name returns the same row and adds nothing |
| CategoriesRoute.Rename | app/categories/api/route.ts:47-50 | only the row with that id changes, and only its name |
| CategoriesRoute.RenameValid | app/categories/api/route.ts:47-50 | a rename to a free name keeps the constraints and every id |
| CategoriesRoute.Remove | app/categories/api/route.ts:68 | the rows without that id, and unchanged when the id is absent |
| CategoriesRoute.RemoveCount | app/categories/api/route.ts:68-69 | deleting an existing id removes exactly one row |
| CategoriesRoute.DropMappingsTo | app/references/api/route.ts:14 | `on delete cascade`: exactly the mappings to the id go |
| CategoriesRoute.ClearCategory | app/transactions/api/route.ts:21 | `on delete set null`: rows of the id lose their category, and the others are untouched |
| CategoriesRoute.DeleteValid | app/categories/api/route.ts:68 | after the delete and its cascades no row refers to the id and all constraints hold |
| CategoriesRoute.DeleteId | app/categories/api/route.ts:65-66 | the query's id when non-empty, else the body's |
| CategoriesRoute.Post | app/categories/api/route.ts:19-32 | a blank name gives 400 and changes nothing; otherwise the answer is the upsert of the trimmed name |
| CategoriesRoute.Patch | app/categories/api/route.ts:39-58 | NaN id then blank name give 400, no row gives 404, a name held by another row gives 409, and none of these changes anything; otherwise only that name changes |
| CategoriesRoute.Delete | app/categories/api/route.ts:61-70 | NaN id gives 400 and no row gives 404, changing nothing; otherwise the row goes, with its mappings, and its transactions lose it |
| AmountRoute.Ascending | app/amount/api/route.ts:16 | ascending exactly when `order` lower-cases to "asc" |
| AmountRoute.IsGrouped | app/amount/api/route.ts:14-15 | false when absent or empty, else true unless it lower-cases to "false", "0" or "no" |
| AmountRoute.FlagsIgnoreCase | app/amount/api/route.ts:14-16 | both flags give the same answer for a text and its lower-cased form |
| AmountRoute.Sanitize | app/amount/api/route.ts:56-59 | page < 1 becomes 1, limit < 1 becomes 10, limit > 100 becomes 100, and in-range values are kept |
| AmountRoute.ParseIds | app/amount/api/route.ts:29 | each id as its number, or a failure when one is NaN |
| AmountRoute.AccountFilter | app/amount/api/route.ts:28-31 | no condition without `fk_accounts`; otherwise membership in the parsed ids |
| AmountRoute.PartsMeaning | app/amount/api/route.ts:26-43 | the conditions together keep exactly the rows meeting both filters |
| AmountRoute.DateFilterMeaning | app/amount/api/route.ts:33-43 | a date is kept exactly when it lies within the bounds given, inclusive, comparing date text |
| AmountRoute.BuildWhere | app/amount/api/route.ts:46-53 | the clause keeps exactly the rows meeting every condition, and there is no clause exactly when there are no conditions |
| AmountRoute.SelectedWhereIsSelected | app/amount/api/route.ts:76-89 | a clause equivalent to the conditions selects the same rows |
| AmountRoute.JoinAccounts | app/amount/api/route.ts:24 | every entry whose account exists gives its row with `a.name` and `a.color`, and every joined row is such a row |
| AmountRoute.JoinAccountsAppend | app/amount/api/route.ts:24 | the join keeps the entries' order: it distributes over concatenation |
| AmountRoute.JoinAccountsSingle | app/amount/api/route.ts:24 | one entry gives no row without an account and exactly its joined row with one |
| AmountRoute.OrderByDate | app/amount/api/route.ts:65 | sorted by date in the requested direction, as a permutation |
| AmountRoute.EntryRows | app/amount/api/route.ts:81-92 | in entry mode each selected row appears once, ordered by date |
| AmountRoute.GroupedSums | app/amount/api/route.ts:68-79 | in grouped mode each row is the sum of the amounts of its date |
| AmountRoute.GroupedDistinct | app/amount/api/route.ts:77 | in grouped mode no date appears twice |
| AmountRoute.GroupedCoversDates | app/amount/api/route.ts:68-79 | in grouped mode the dates shown are exactly the selected dates |
| AmountRoute.TotalCounts | app/amount/api/route.ts:103-117 | the count is the selected rows, or in grouped mode the distinct dates |
| AmountRoute.Get | app/amount/api/route.ts:8-131 | 400 when an id is NaN; every row without paging; otherwise it gives the sanitised page and limit, data as the slice at `(page-1)*limit`, a total of all rows, totalPages, and `hasMore` exactly when a later page starts at a row |
| Numbers.HasMoreMeaning | app/amount/api/route.ts:121-122 | `page < totalPages` exactly when the next page starts before the total |
| AmountRoute.Post | app/amount/api/route.ts:144-148 | appends the entry with the next id; other tables unchanged |
| AmountRoute.Delete | app/amount/api/route.ts:164 | only the entry with that id goes; ids stay valid |
| AccountRoute.Latest | app/account/api/route.ts:30-36 | no entry exactly when the account has none, else one with the latest date |
| AccountRoute.BalanceIsLatest | app/account/api/route.ts:28-36 | 0 without entries, else the amount of a latest entry |
| AccountRoute.Get | app/account/api/route.ts:22-39 | one row per account, with its id, name and balance (listed in table order; the query has no `order by`) |
| AccountRoute.GetListsEachAccountOnce | app/account/api/route.ts:24-36 | every account is listed exactly once, including accounts without entries |
| AccountRoute.Rename | app/account/api/route.ts:66 | only the name of the account with that id changes; its color and the other accounts are kept |
| AccountRoute.RenameValid | app/account/api/route.ts:66 | the rename keeps the ids valid |
| AccountRoute.Post | app/account/api/route.ts:10 | appends an account with the name and the next id; its color is taken to be null, an assumption because the insert names only `name` |
| AccountRoute.Put | app/account/api/route.ts:62-68 | the accounts become `Rename` of the old ones; other tables unchanged |
| AccountRoute.Delete | app/account/api/route.ts:48-54 | only the account with that id goes; ids stay valid |
| Store.WithoutId | app/account/api/route.ts:52 | exactly the rows with another id remain |
| Store.WithoutIdValid | app/account/api/route.ts:52 | deleting by id keeps serial ids distinct |
| SankeyRoute.Keyed | app/sankey/api/route.ts:8-12 | each transaction's group is (category name, amount >= 0) and its value the absolute amount |
| SankeyRoute.AggregateSums | app/sankey/api/route.ts:6-14 | each row is one group: named by its category or "Uncategorized", with its value the sum of the group's absolute amounts |
| SankeyRoute.AggregateCovers | app/sankey/api/route.ts:6-14 | every (category, direction) of a transaction has its row |
| SankeyRoute.SplitRows | app/sankey/api/route.ts:21-30 | every row is income or expense; the counts and totals add up |
| SankeyRoute.SplitRowsKinds | app/sankey/api/route.ts:23-29 | the income rows are exactly the rows marked income, and the expenses are the rest |
| SankeyRoute.Split | app/sankey/api/route.ts:16-30 | the loop yields the income and expense rows in order, with totals equal to their sums |
| SankeyRoute.LinkCount | app/sankey/api/route.ts:40-78 | one link per row, plus one exactly when there is excess, and that last link carries the excess to "Excess" |
| SankeyRoute.IncomeLink | app/sankey/api/route.ts:48-55 | each income row links into "Total Income" with its value; the source gets " (Income)" exactly when an expense has the same name |
| SankeyRoute.ExpenseLink | app/sankey/api/route.ts:59-71 | each expense row gets a link from "Total Income" to its own name |
| SankeyRoute.OutflowOfCenter | app/sankey/api/route.ts:59-78 | what leaves the centre is the larger of total income and total expenses |
| SankeyRoute.Added | app/sankey/api/route.ts:37-76 | `Set.add` in insertion order: the members gain the name, with no duplicates and the first member kept |
| SankeyRoute.NodesStep | app/sankey/api/route.ts:54-70 | adding a link and its new endpoint keeps the node list exact |
| SankeyRoute.AddIncome | app/sankey/api/route.ts:40-56 | the loop appends the income links, keeping the nodes exact |
| SankeyRoute.AddExpenses | app/sankey/api/route.ts:59-71 | the loop appends the expense links, keeping the nodes exact |
| SankeyRoute.Build | app/sankey/api/route.ts:16-80 | the links are income, expense and excess links in order; the nodes have no duplicates, start with "Total Income", and are exactly the centre and the link endpoints |
| SankeyRoute.Get | app/sankey/api/route.ts:3-82 | the graph of the aggregate of the stored transactions |
| CsvRecords.DatePart | utils/transactions.ts:7 | the part before the first "T": it holds no "T" and is a prefix of the text |
| CsvRecords.BuildRecords | utils/transactions.ts:3-13 | missing or empty rows give []; otherwise one record per row, in order |
| CsvRecords.Unmapped | utils/transactions.ts:5-11 | with no column chosen the record is ("", "", null, 0, null) |
| CsvRecords.DateBeforeTime | utils/transactions.ts:7 | "date T time" gives the date, and text without "T" is kept whole |
| CsvRecords.AmountCellsAgree | utils/transactions.ts:10 | an amount given as text reads as the same amount as a numeric cell |
| CsvRecords.OptionalFields | utils/transactions.ts:9-11 | description and balance are null exactly when the cell is absent; a missing amount is 0 |
| UnmappedReferencesView.WithoutMembers | components/unmapped-references.tsx:50 | the filter drops exactly the rows equal to the reference, and nothing when it is absent |
| UnmappedReferencesView.WithoutAppend | components/unmapped-references.tsx:50 | the filter works piece by piece, so the kept rows keep their order |
| UnmappedReferencesView.WithoutLength | components/unmapped-references.tsx:50 | the rows shrink by the number equal to the reference |
| UnmappedReferencesView.OptimisticMeaning | components/unmapped-references.tsx:43-54 | the reference is gone; total = max(0, total - 1); page and limit kept; totalPages >= 1 is the least that covers the total |
| UnmappedReferencesView.Deselect | components/unmapped-references.tsx:154-157 | the reference's entry is gone and the others are unchanged |
| UnmappedReferencesView.FooterBounds | components/unmapped-references.tsx:174-179 | end <= total; start is 0 exactly when total is 0, else `(page-1)*limit + 1`; end = min(total, page*limit) |
| UnmappedReferencesView.FooterMatchesPage | components/unmapped-references.tsx:174-178 | on a page within range, the footer's range covers exactly the rows the list endpoint returns |
| UnmappedReferencesView.StaleLastPage | components/unmapped-references.tsx:44-178 | removing the only row of the last page keeps the page, and the footer shows start > end |
| UnmappedReferencesView.ButtonsMeaning | components/unmapped-references.tsx:187-195 | before loading Next is disabled and Prev is disabled only on page 1; with a listing, Next is enabled exactly when a later page holds rows |
| UnmappedReferencesView.UnmappedReferences.Assign | components/unmapped-references.tsx:41-57 | the cache becomes the optimistic listing; nothing else changes |
| UnmappedReferencesView.UnmappedReferences.Press | components/unmapped-references.tsx:146-158 | without a chosen category nothing changes; otherwise the cache is optimistic, the choice is cleared and the flag is false |
| UnmappedReferencesView.UnmappedReferences.Prev | components/unmapped-references.tsx:188 | page becomes max(1, page - 1), never below 1; a changed page is a new key, so the current answer is none until `Load` |
| UnmappedReferencesView.UnmappedReferences.Next | components/unmapped-references.tsx:196 | page becomes page + 1, a new key, so the current answer is none until `Load` |

## Left out

**Runtime and infrastructure**
- JSON body parsing, the `catch` paths that answer 500 or 400 on a thrown error, and logging are not modelled. An error path is modelled only where a specific input demonstrably causes it.
- `ensureSchema` (the DDL) is not modelled. The tables are assumed to exist with the declared constraints.
- Network I/O, `fetch`, SWR caching and revalidation, React rendering and the search debounce timers are not modelled. `Load` stands for a listing arriving, and the request that `assign` sends is not modelled.
- UnmappedReferences.Prev, UnmappedReferences.Next: SWR's cache of pages visited before is not modelled. After a page change the model has no answer until `Load`, even when SWR would show a cached answer for that key at once.
- `Promise.all` in the amount route is not modelled. Both of its queries read the same snapshot.
- The crash window between the mapping upsert and the recategorising update is not modelled. The two steps run in order, as one step.

**Hashing and text**
- md5 itself is not modelled. The key is the `|`-joined preimage, which is not injective (`KeyCollision`), so no collision freedom is claimed.
- Postgres `trim` strips only spaces, unlike JS `.trim()`, and case mapping depends on the locale. Both are modelled as one ASCII-whitespace trim and one ASCII lower-casing.
- `ilike` wildcards: `%` and `_` in `q` are treated as plain characters, so the filter is a case-insensitive substring match.
- SQL collation is not modelled. Text is ordered by character code.

**Numbers and casts**
- `numeric(14,2)` rounding is not modelled. Amounts are integer cents.
- `Number(...)` is modelled only on integer and two-decimal text. Exponents, hex strings and `Infinity` are not modelled, nor are fractional pages or limits. NaN is modelled, and `Sanitize` therefore does not need the `isFinite` branch.
- NaN sent through `JSON.stringify` (it becomes null) is not modelled. `CsvRecords` returns `Num` values, so a NaN amount stays visible.
- AmountRoute.DateFilterMeaning: the `::date` cast of the `date_range` bounds is not modelled. `Holds` and `DateFilterMeaning` compare the bounds and the stored dates as text, which agrees with Postgres only for ISO `YYYY-MM-DD` dates; a valid date in another form, such as "2024-1-5", compares differently, and a bound Postgres rejects (a 500) is accepted.
- AmountRoute.Post, AccountRoute.Latest: the stored date is the text as sent, and the latest entry is the one whose date text is greatest, so the same holds for dates not in ISO form.
- TransactionsRoute.Post: the `::date` cast of the upload is not modelled. The key and the stored date are the date text as sent, so "2024-1-5" and "2024-01-05" give two keys where Postgres canonicalises both to one, and a date Postgres rejects (which fails the whole upload) is inserted.
- Serial and `int` ids are unbounded integers. An id beyond the 32-bit `int4` range, which makes the query fail with 500 in the categories, account and amount routes, is not modelled.

**Tables and queries**
- The ordering of ties under `ORDER BY` is unspecified in SQL. The model sorts stably ascending, and descending is the reverse of ascending.
- The sankey query's row order is unspecified in SQL. The model uses first occurrence, and no lemma depends on the order.
- The foreign-key behaviour of `amount.fk_account` when an account is deleted is not modelled, because the accounts and amount schemas are not part of this model. Deleting an account leaves its entries, and the join then drops them.
- Null account names (a 400 from a `not null` column) are not modelled.
- AccountRoute.Get: the accounts query has no `order by`, so its row order is unspecified. The model lists the accounts in table order.
- AccountRoute.Post: the accounts schema is not part of this model. A new account's color is assumed to default to null.

**Sankey**
- SankeyRoute.LinkCount: the "Excess" link is identified by its position, not by its name. An expense category called "Excess" would give another link with the same endpoints.

**Client code**
- Papa's CSV parsing (`dynamicTyping`, date-time cells becoming `Date` objects, header handling) is not modelled. `CsvRecords.Cell` is the parsed cell, and boolean cells are not modelled.
- The `onChange` of the search box and the page reset on search are not modelled. `Choose` is the category select's `onChange`.
- `UnmappedReferences`: the `pageSize` prop is assumed at least 1, because a 0 would divide by zero in `Math.ceil`.
- `UnmappedReferences`: the category id that `assign` forwards to the server is not modelled, because the optimistic state does not use it.
