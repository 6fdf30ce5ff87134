/**
 * `/categories/api` (app/categories/api/route.ts): list, create, rename and delete categories.
 * Names are unique; a create with a name that exists returns the existing row. Deleting a
 * category cascades as the schemas declare: its mappings go, and its transactions lose it.
 */
module CategoriesRoute {
  import opened Basics
  import opened Text
  import opened Numbers
  import opened Sorting
  import opened Store

  datatype CategoryResponse =
    | Saved(category: Category)   // 200 with the row
    | Deleted                     // 200 `{ deleted: true }`
    | NameRequired                // 400
    | IdRequired                  // 400
    | NotFound                    // 404
    | NameTaken                   // 409: the update violates `name ... unique`

  function NameOf(c: Category): string {
    c.name
  }

  /** `select id, name from categories order by name asc`. */
  function Get(categories: seq<Category>): (r: seq<Category>)
    ensures SortedBy(r, NameOf)
    ensures multiset(r) == multiset(categories)
  {
    SortBy(categories, NameOf)
  }

  predicate HasName(categories: seq<Category>, name: string) {
    exists i :: 0 <= i < |categories| && categories[i].name == name
  }

  /** The row with that name, if any. */
  function FindByName(categories: seq<Category>, name: string): (r: Option<Category>)
    ensures r.Some? ==> r.value in categories && r.value.name == name
    ensures r.None? <==> !HasName(categories, name)
  {
    if categories == [] then None
    else if categories[0].name == name then Some(categories[0])
    else
      var r := FindByName(categories[1..], name);
      assert forall i :: 0 < i < |categories| ==> categories[i] == categories[1..][i - 1];
      r
  }

  /**
   * `insert ... on conflict (name) do update set name = excluded.name returning id, name`:
   * the returned row has the name and is in the new table; the old rows stay as they are;
   * a row is added exactly when no row had the name, and it takes the serial's next value.
   */
  function Upsert(categories: seq<Category>, next: int, name: string): (r: (seq<Category>, Category))
    ensures r.1.name == name && r.1 in r.0
    ensures |categories| <= |r.0| <= |categories| + 1 && r.0[..|categories|] == categories
    ensures |r.0| == |categories| <==> HasName(categories, name)
    ensures !HasName(categories, name) ==> r.1.id == next
  {
    match FindByName(categories, name)
    case Some(c) => (categories, c)
    case None => (categories + [Category(next, name)], Category(next, name))
  }

  /** Creating a category keeps the table's constraints, with the serial advanced by one. */
  lemma UpsertValid(categories: seq<Category>, next: int, name: string)
    requires CategoriesValid(categories, next)
    ensures var r := Upsert(categories, next, name);
            && CategoriesValid(r.0, next + 1)
            && forall x :: HasCategory(categories, x) ==> HasCategory(r.0, x)
  {
    var r := Upsert(categories, next, name);
    forall x | HasCategory(categories, x) ensures HasCategory(r.0, x) {
      var i :| 0 <= i < |categories| && categories[i].id == x;
      assert r.0[i] == categories[i];
    }
  }

  /** A second create with the same name returns the same row and changes nothing. */
  lemma UpsertIdempotent(categories: seq<Category>, next: int, next2: int, name: string)
    requires CategoriesValid(categories, next)
    ensures var once := Upsert(categories, next, name);
            var twice := Upsert(once.0, next2, name);
            twice.0 == once.0 && twice.1 == once.1
  {
    var once := Upsert(categories, next, name);
    UpsertValid(categories, next, name);
    assert HasName(once.0, name) by {
      var i :| 0 <= i < |once.0| && once.0[i] == once.1;
    }
    var twice := Upsert(once.0, next2, name);
    var a :| 0 <= a < |once.0| && once.0[a] == once.1;
    var b :| 0 <= b < |once.0| && once.0[b] == twice.1;
    assert once.0[a].name == once.0[b].name;
  }

  /** The row with that id, if any. */
  function FindById(categories: seq<Category>, id: int): (r: Option<Category>)
    ensures r.Some? ==> r.value in categories && r.value.id == id
    ensures r.None? <==> !HasCategory(categories, id)
  {
    if categories == [] then None
    else if categories[0].id == id then Some(categories[0])
    else
      var r := FindById(categories[1..], id);
      assert forall i :: 0 < i < |categories| ==> categories[i] == categories[1..][i - 1];
      r
  }

  /** Another category than `id` already has the name. */
  predicate NameHeldByOther(categories: seq<Category>, id: int, name: string) {
    exists i :: 0 <= i < |categories| && categories[i].name == name && categories[i].id != id
  }

  /** Names are unique, so a name determines its row. */
  lemma NamesIdentifyRows(categories: seq<Category>, next: int, c: Category)
    requires CategoriesValid(categories, next) && c in categories
    ensures forall i :: 0 <= i < |categories| && categories[i].name == c.name ==> categories[i] == c
  {
  }

  /** `update categories set name = ... where id = ...`: only that row's name changes. */
  function Rename(categories: seq<Category>, id: int, name: string): (r: seq<Category>)
    ensures |r| == |categories|
    ensures forall i :: 0 <= i < |categories| && categories[i].id == id ==> r[i] == Category(id, name)
    ensures forall i :: 0 <= i < |categories| && categories[i].id != id ==> r[i] == categories[i]
  {
    seq(|categories|, i requires 0 <= i < |categories| =>
      if categories[i].id == id then Category(id, name) else categories[i])
  }

  /** A rename to a name no other category holds keeps the constraints and every id. */
  lemma RenameValid(categories: seq<Category>, next: int, id: int, name: string)
    requires CategoriesValid(categories, next) && !NameHeldByOther(categories, id, name)
    ensures var r := Rename(categories, id, name);
            && CategoriesValid(r, next)
            && forall x :: HasCategory(r, x) <==> HasCategory(categories, x)
  {
    var r := Rename(categories, id, name);
    forall i, j | 0 <= i < j < |r| ensures r[i].id != r[j].id && r[i].name != r[j].name {
      assert !(categories[j].name == name && categories[j].id != id);
      assert !(categories[i].name == name && categories[i].id != id);
    }
    forall x ensures HasCategory(r, x) <==> HasCategory(categories, x) {
      if HasCategory(categories, x) {
        var i :| 0 <= i < |categories| && categories[i].id == x;
        assert r[i].id == x;
      }
      if HasCategory(r, x) {
        var i :| 0 <= i < |r| && r[i].id == x;
        assert categories[i].id == x;
      }
    }
  }

  /** `delete from categories where id = ...`: the other rows, in their order. */
  function Remove(categories: seq<Category>, id: int): (r: seq<Category>)
    ensures forall c :: c in r <==> c in categories && c.id != id
    ensures |r| <= |categories|
    ensures !HasCategory(categories, id) ==> r == categories
  {
    if categories == [] then []
    else
      var rest := Remove(categories[1..], id);
      assert forall c :: c in categories <==> c == categories[0] || c in categories[1..];
      assert !HasCategory(categories, id) ==> !HasCategory(categories[1..], id) by {
        if HasCategory(categories[1..], id) {
          var i :| 0 <= i < |categories[1..]| && categories[1..][i].id == id;
          assert categories[i + 1].id == id;
        }
      }
      assert categories == [categories[0]] + categories[1..];
      if categories[0].id == id then rest else [categories[0]] + rest
  }

  /** With unique ids, deleting an existing id removes exactly one row. */
  lemma {:induction false} RemoveCount(categories: seq<Category>, next: int, id: int)
    requires CategoriesValid(categories, next)
    ensures |Remove(categories, id)| == |categories| - (if HasCategory(categories, id) then 1 else 0)
  {
    if categories != [] {
      var tail := categories[1..];
      assert CategoriesValid(tail, next) by {
        forall i, j | 0 <= i < j < |tail| ensures tail[i].id != tail[j].id && tail[i].name != tail[j].name {
          assert tail[i] == categories[i + 1] && tail[j] == categories[j + 1];
        }
      }
      RemoveCount(tail, next, id);
      if categories[0].id == id {
        assert !HasCategory(tail, id) by {
          forall i | 0 <= i < |tail| ensures tail[i].id != id {
            assert tail[i] == categories[i + 1];
          }
        }
      } else {
        assert HasCategory(categories, id) <==> HasCategory(tail, id) by {
          if HasCategory(categories, id) {
            var i :| 0 <= i < |categories| && categories[i].id == id;
            assert tail[i - 1].id == id;
          }
          if HasCategory(tail, id) {
            var i :| 0 <= i < |tail| && tail[i].id == id;
            assert categories[i + 1].id == id;
          }
        }
      }
    }
  }

  /** `on delete cascade` of `reference_mappings.category_id`: the mappings to `id` go. */
  function DropMappingsTo(mappings: map<string, int>, id: int): (r: map<string, int>)
    ensures forall k :: k in r <==> k in mappings && mappings[k] != id
    ensures forall k :: k in r ==> r[k] == mappings[k]
  {
    map k | k in mappings && mappings[k] != id :: mappings[k]
  }

  /** `on delete set null` of `transactions.category_id`: rows in `id` lose their category. */
  function ClearCategory(rows: seq<Transaction>, id: int): (r: seq<Transaction>)
    ensures |r| == |rows|
    ensures forall i :: 0 <= i < |rows| && rows[i].categoryId == Some(id) ==> r[i] == rows[i].(categoryId := None)
    ensures forall i :: 0 <= i < |rows| && rows[i].categoryId != Some(id) ==> r[i] == rows[i]
  {
    seq(|rows|, i requires 0 <= i < |rows| =>
      if rows[i].categoryId == Some(id) then rows[i].(categoryId := None) else rows[i])
  }

  /** After a delete and its cascades, no row refers to the deleted category and all constraints hold. */
  lemma DeleteValid(categories: seq<Category>, next: int, mappings: map<string, int>,
                    rows: seq<Transaction>, nextRow: int, id: int)
    requires CategoriesValid(categories, next) && MappingsValid(mappings, categories)
    requires TransactionsValid(rows, nextRow, categories)
    ensures var cats := Remove(categories, id);
            && !HasCategory(cats, id)
            && CategoriesValid(cats, next)
            && MappingsValid(DropMappingsTo(mappings, id), cats)
            && TransactionsValid(ClearCategory(rows, id), nextRow, cats)
  {
    var cats := Remove(categories, id);
    forall x | HasCategory(categories, x) && x != id ensures HasCategory(cats, x) {
      var i :| 0 <= i < |categories| && categories[i].id == x;
      assert categories[i] in cats;
    }
    assert !HasCategory(cats, id) by {
      forall i | 0 <= i < |cats| ensures cats[i].id != id {
        assert cats[i] in cats;
      }
    }
    assert CategoriesValid(cats, next) by {
      forall i | 0 <= i < |cats| ensures 1 <= cats[i].id < next {
        assert cats[i] in categories;
      }
      RemoveValid(categories, next, id);
    }
    var cleared := ClearCategory(rows, id);
    assert forall i :: 0 <= i < |rows| ==> cleared[i].id == rows[i].id && cleared[i].uniqueHash == rows[i].uniqueHash;
  }

  /** Deleting a row keeps ids and names distinct. */
  lemma {:induction false} RemoveValid(categories: seq<Category>, next: int, id: int)
    requires CategoriesValid(categories, next)
    ensures CategoriesValid(Remove(categories, id), next)
  {
    if categories != [] {
      var tail := categories[1..];
      assert CategoriesValid(tail, next) by {
        forall i, j | 0 <= i < j < |tail| ensures tail[i].id != tail[j].id && tail[i].name != tail[j].name {
          assert tail[i] == categories[i + 1] && tail[j] == categories[j + 1];
        }
      }
      RemoveValid(tail, next, id);
      var rest := Remove(tail, id);
      if categories[0].id != id {
        forall k | 0 <= k < |rest| ensures rest[k].id != categories[0].id && rest[k].name != categories[0].name {
          assert rest[k] in tail;
          var b :| 0 <= b < |tail| && tail[b] == rest[k];
          assert categories[b + 1] == tail[b];
        }
        ConsValid(categories[0], rest, next);
      }
    }
  }

  /** A row whose id and name no other row has can be put in front. */
  lemma ConsValid(c: Category, rest: seq<Category>, next: int)
    requires CategoriesValid(rest, next) && 1 <= c.id < next
    requires forall k :: 0 <= k < |rest| ==> rest[k].id != c.id && rest[k].name != c.name
    ensures CategoriesValid([c] + rest, next)
  {
    var r := [c] + rest;
    forall i, j | 0 <= i < j < |r| ensures r[i].id != r[j].id && r[i].name != r[j].name {
      assert r[j] == rest[j - 1];
      if i > 0 {
        assert r[i] == rest[i - 1];
      }
    }
  }

  /** The id to delete: `idParam ? Number(idParam) : Number(body?.id ?? NaN)`. */
  function DeleteId(idParam: Option<string>, bodyId: Num): (n: Num)
    ensures idParam.Some? && idParam.value != [] ==> n == ParseNumber(idParam.value)
    ensures idParam.None? || idParam.value == [] ==> n == bodyId
  {
    if idParam.Some? && idParam.value != [] then ParseNumber(idParam.value) else bodyId
  }

  /**
   * `POST`: a name that is blank after trimming gives 400 and changes nothing. Otherwise the
   * trimmed name is upserted: the answer is the row with that name, a new one only when the
   * name was free; the serial advances either way and no other table changes.
   */
  method Post(db: Database, name: Option<string>) returns (resp: CategoryResponse)
    requires db.Valid()
    modifies db
    ensures db.Valid()
    ensures IsBlank(name.GetOr("")) ==> resp == NameRequired && unchanged(db)
    ensures !IsBlank(name.GetOr("")) ==>
      var u := Upsert(old(db.categories), old(db.nextCategoryId), Trim(name.GetOr("")));
      && db.categories == u.0 && db.nextCategoryId == old(db.nextCategoryId) + 1
      && resp == Saved(u.1)
    ensures db.mappings == old(db.mappings) && db.transactions == old(db.transactions)
    ensures db.nextTransactionId == old(db.nextTransactionId)
    ensures db.accounts == old(db.accounts) && db.nextAccountId == old(db.nextAccountId)
    ensures db.amounts == old(db.amounts) && db.nextAmountId == old(db.nextAmountId)
  {
    var trimmed := Trim(name.GetOr(""));
    TrimEmpty(name.GetOr(""));
    if trimmed == [] {
      return NameRequired;
    }
    var u := Upsert(db.categories, db.nextCategoryId, trimmed);
    UpsertValid(db.categories, db.nextCategoryId, trimmed);
    KeptCategoryIds(db.categories, u.0, db.mappings, db.transactions, db.nextTransactionId);
    db.SetCategories(u.0, db.nextCategoryId + 1, db.mappings, db.transactions);
    resp := Saved(u.1);
  }

  /**
   * `PATCH`: an id that is not a number, then a blank name, give 400; an id with no row gives
   * 404; a name another category holds gives 409. None of these changes anything. Otherwise
   * only that category's name changes and the answer is the renamed row.
   */
  method Patch(db: Database, id: Num, name: Option<string>) returns (resp: CategoryResponse)
    requires db.Valid()
    modifies db
    ensures db.Valid()
    ensures id.NaN? ==> resp == IdRequired && unchanged(db)
    ensures id.Finite? && IsBlank(name.GetOr("")) ==> resp == NameRequired && unchanged(db)
    ensures id.Finite? && !IsBlank(name.GetOr("")) && !HasCategory(old(db.categories), id.value) ==>
      resp == NotFound && unchanged(db)
    ensures id.Finite? && !IsBlank(name.GetOr("")) && HasCategory(old(db.categories), id.value) ==>
      var newName := Trim(name.GetOr(""));
      if NameHeldByOther(old(db.categories), id.value, newName) then
        resp == NameTaken && unchanged(db)
      else
        db.categories == Rename(old(db.categories), id.value, newName) && resp == Saved(Category(id.value, newName))
    ensures db.nextCategoryId == old(db.nextCategoryId)
    ensures db.mappings == old(db.mappings) && db.transactions == old(db.transactions)
    ensures db.nextTransactionId == old(db.nextTransactionId)
    ensures db.accounts == old(db.accounts) && db.nextAccountId == old(db.nextAccountId)
    ensures db.amounts == old(db.amounts) && db.nextAmountId == old(db.nextAmountId)
  {
    if id.NaN? {
      return IdRequired;
    }
    var trimmed := Trim(name.GetOr(""));
    TrimEmpty(name.GetOr(""));
    if trimmed == [] {
      return NameRequired;
    }
    if FindById(db.categories, id.value).None? {
      return NotFound;
    }
    var holder := FindByName(db.categories, trimmed);
    if holder.Some? && holder.value.id != id.value {
      return NameTaken;
    }
    if holder.Some? {
      NamesIdentifyRows(db.categories, db.nextCategoryId, holder.value);
    }
    var renamed := Rename(db.categories, id.value, trimmed);
    RenameValid(db.categories, db.nextCategoryId, id.value, trimmed);
    KeptCategoryIds(db.categories, renamed, db.mappings, db.transactions, db.nextTransactionId);
    db.SetCategories(renamed, db.nextCategoryId, db.mappings, db.transactions);
    resp := Saved(Category(id.value, trimmed));
  }

  /**
   * `DELETE`: the id comes from the query string when it is non-empty, else from the body.
   * An id that is not a number gives 400, an id with no row 404, and neither changes
   * anything. Otherwise the row goes, the mappings to it go, and its transactions lose it.
   */
  method Delete(db: Database, idParam: Option<string>, bodyId: Num) returns (resp: CategoryResponse)
    requires db.Valid()
    modifies db
    ensures db.Valid()
    ensures DeleteId(idParam, bodyId).NaN? ==> resp == IdRequired && unchanged(db)
    ensures DeleteId(idParam, bodyId).Finite? && !HasCategory(old(db.categories), DeleteId(idParam, bodyId).value) ==>
      resp == NotFound && unchanged(db)
    ensures DeleteId(idParam, bodyId).Finite? && HasCategory(old(db.categories), DeleteId(idParam, bodyId).value) ==>
      var id := DeleteId(idParam, bodyId).value;
      && resp == Deleted
      && db.categories == Remove(old(db.categories), id)
      && db.mappings == DropMappingsTo(old(db.mappings), id)
      && db.transactions == ClearCategory(old(db.transactions), id)
    ensures db.nextCategoryId == old(db.nextCategoryId)
    ensures db.nextTransactionId == old(db.nextTransactionId)
    ensures db.accounts == old(db.accounts) && db.nextAccountId == old(db.nextAccountId)
    ensures db.amounts == old(db.amounts) && db.nextAmountId == old(db.nextAmountId)
  {
    var n := DeleteId(idParam, bodyId);
    if n.NaN? {
      return IdRequired;
    }
    var id := n.value;
    if FindById(db.categories, id).None? {
      return NotFound;
    }
    DeleteValid(db.categories, db.nextCategoryId, db.mappings, db.transactions, db.nextTransactionId, id);
    db.SetCategories(Remove(db.categories, id), db.nextCategoryId,
                     DropMappingsTo(db.mappings, id), ClearCategory(db.transactions, id));
    resp := Deleted;
  }
}
