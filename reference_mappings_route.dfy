/**
 * `POST /reference-mappings/api` (app/reference-mappings/api/route.ts): map a bank reference
 * to a category. The reference is normalised (trimmed, lower-cased), the mapping is upserted
 * (last write wins), and every stored transaction with the same normalised reference whose
 * category differs is moved to the new category; the answer counts those transactions.
 */
module ReferenceMappingsRoute {
  import opened Basics
  import opened Text
  import opened Numbers
  import opened Store

  datatype MappingResponse =
    | Mapped(normalizedReference: string, categoryId: int, updated: nat)
    | ReferenceRequired   // 400 "reference is required"
    | CategoryRequired    // 400 "category_id is required"
    | Failed              // 500: the insert violates the foreign key to `categories`

  /** `lower(trim(reference)) = key`. */
  predicate Matches(t: Transaction, key: string) {
    NormalizeKey(t.reference) == key
  }

  /** A row the `update` touches: it matches and its category is null or another one. */
  predicate NeedsUpdate(t: Transaction, key: string, cat: int) {
    Matches(t, key) && t.categoryId != Some(cat)
  }

  function Recategorized(t: Transaction, key: string, cat: int): Transaction {
    if NeedsUpdate(t, key, cat) then t.(categoryId := Some(cat)) else t
  }

  /**
   * `update transactions set category_id = cat where lower(trim(reference)) = key and ...`:
   * afterwards every matching row has the category, the other rows are untouched, and no row
   * changes in anything but its category.
   */
  function Recategorize(rows: seq<Transaction>, key: string, cat: int): (r: seq<Transaction>)
    ensures |r| == |rows|
    ensures forall i :: 0 <= i < |rows| && Matches(rows[i], key) ==> r[i].categoryId == Some(cat)
    ensures forall i :: 0 <= i < |rows| && !Matches(rows[i], key) ==> r[i] == rows[i]
    ensures forall i :: 0 <= i < |rows| ==> r[i] == rows[i].(categoryId := r[i].categoryId)
  {
    seq(|rows|, i requires 0 <= i < |rows| => Recategorized(rows[i], key, cat))
  }

  /** Per row, whether the update changes it. */
  function Flags(rows: seq<Transaction>, key: string, cat: int): (f: seq<bool>)
    ensures |f| == |rows|
  {
    seq(|rows|, i requires 0 <= i < |rows| => NeedsUpdate(rows[i], key, cat))
  }

  /** The indices below `n` whose flag is set. */
  function SetBelow(flags: seq<bool>, n: nat): set<nat>
    requires n <= |flags|
  {
    set i: nat | i < n && flags[i]
  }

  lemma SetBelowStep(flags: seq<bool>, n: nat)
    requires n < |flags|
    ensures |SetBelow(flags, n + 1)| == |SetBelow(flags, n)| + (if flags[n] then 1 else 0)
  {
    if flags[n] {
      assert SetBelow(flags, n + 1) == SetBelow(flags, n) + {n};
    } else {
      assert SetBelow(flags, n + 1) == SetBelow(flags, n);
    }
  }

  /** The rows the update changes; `returning id` yields one row for each. */
  function Updated(rows: seq<Transaction>, key: string, cat: int): set<nat> {
    SetBelow(Flags(rows, key, cat), |rows|)
  }

  /** The rows the update reports are exactly the rows it changes. */
  lemma UpdatedAreChanged(rows: seq<Transaction>, key: string, cat: int)
    ensures Updated(rows, key, cat) == set i: nat | i < |rows| && Recategorize(rows, key, cat)[i] != rows[i]
  {
  }

  /** After the update no row needs one, and a second update changes nothing. */
  lemma {:induction false} RecategorizeIdempotent(rows: seq<Transaction>, key: string, cat: int)
    ensures var once := Recategorize(rows, key, cat);
            Updated(once, key, cat) == {} && Recategorize(once, key, cat) == once
  {
    var once := Recategorize(rows, key, cat);
    forall i: nat | i < |once| ensures !NeedsUpdate(once[i], key, cat) {
      assert once[i].reference == rows[i].reference;
    }
    assert Recategorize(once, key, cat) == once;
  }

  /** Moving rows to an existing category keeps the table constraints. */
  lemma RecategorizeValid(rows: seq<Transaction>, next: int, categories: seq<Category>, key: string, cat: int)
    requires TransactionsValid(rows, next, categories) && HasCategory(categories, cat)
    ensures TransactionsValid(Recategorize(rows, key, cat), next, categories)
  {
    var r := Recategorize(rows, key, cat);
    assert forall i :: 0 <= i < |rows| ==> r[i].id == rows[i].id && r[i].uniqueHash == rows[i].uniqueHash;
  }

  /** The rows before `i` have been updated and the rest are as they were. */
  ghost predicate UpdatedUpTo(out: seq<Transaction>, rows: seq<Transaction>, key: string, cat: int, i: nat) {
    && |out| == |rows| && i <= |rows|
    && (forall j :: 0 <= j < i ==> out[j] == Recategorized(rows[j], key, cat))
    && (forall j :: i <= j < |rows| ==> out[j] == rows[j])
  }

  lemma UpdateStep(out: seq<Transaction>, rows: seq<Transaction>, key: string, cat: int, i: nat)
    requires UpdatedUpTo(out, rows, key, cat, i) && i < |rows|
    ensures out[i] == rows[i]
    ensures NeedsUpdate(rows[i], key, cat) ==>
      UpdatedUpTo(out[i := out[i].(categoryId := Some(cat))], rows, key, cat, i + 1)
    ensures !NeedsUpdate(rows[i], key, cat) ==> UpdatedUpTo(out, rows, key, cat, i + 1)
  {
  }

  /**
   * The update, row by row: returns the new table and the number of rows changed, which is
   * the number of matching rows whose category was null or different.
   */
  method UpdateMatching(rows: seq<Transaction>, key: string, cat: int) returns (out: seq<Transaction>, updated: nat)
    ensures out == Recategorize(rows, key, cat)
    ensures updated == |Updated(rows, key, cat)|
  {
    ghost var flags := Flags(rows, key, cat);
    out, updated := rows, 0;
    for i := 0 to |rows|
      invariant UpdatedUpTo(out, rows, key, cat, i)
      invariant updated == |SetBelow(flags, i)|
    {
      SetBelowStep(flags, i);
      UpdateStep(out, rows, key, cat, i);
      if NeedsUpdate(out[i], key, cat) {
        out := out[i := out[i].(categoryId := Some(cat))];
        updated := updated + 1;
      }
    }
  }

  /**
   * The handler. A reference that is blank after trimming and a category id that is not a
   * number give 400; a category that does not exist makes the insert fail (500). These change
   * nothing. Otherwise the mapping of the normalised key is set to the category, the matching
   * transactions are moved to it, and the answer echoes the key, the id and the count.
   */
  method Post(db: Database, reference: Option<string>, categoryId: Num) returns (resp: MappingResponse)
    requires db.Valid()
    modifies db
    ensures db.Valid()
    ensures IsBlank(reference.GetOr("")) ==> resp == ReferenceRequired && unchanged(db)
    ensures !IsBlank(reference.GetOr("")) && categoryId.NaN? ==> resp == CategoryRequired && unchanged(db)
    ensures !IsBlank(reference.GetOr("")) && categoryId.Finite? && !HasCategory(old(db.categories), categoryId.value) ==>
      resp == Failed && unchanged(db)
    ensures !IsBlank(reference.GetOr("")) && categoryId.Finite? && HasCategory(old(db.categories), categoryId.value) ==>
      var key, cat := NormalizeKey(reference.GetOr("")), categoryId.value;
      && db.mappings == old(db.mappings)[key := cat]
      && db.transactions == Recategorize(old(db.transactions), key, cat)
      && resp == Mapped(key, cat, |Updated(old(db.transactions), key, cat)|)
    ensures db.categories == old(db.categories) && db.nextCategoryId == old(db.nextCategoryId)
    ensures db.nextTransactionId == old(db.nextTransactionId)
    ensures db.accounts == old(db.accounts) && db.nextAccountId == old(db.nextAccountId)
    ensures db.amounts == old(db.amounts) && db.nextAmountId == old(db.nextAmountId)
  {
    var raw := reference.GetOr("");
    var trimmed := Trim(raw);
    TrimEmpty(raw);
    if trimmed == [] {
      return ReferenceRequired;
    }
    if categoryId.NaN? {
      return CategoryRequired;
    }
    var cat := categoryId.value;
    var normalized := Trim(Lower(trimmed));
    KeyAgreement(raw);
    if !HasCategory(db.categories, cat) {
      return Failed;
    }
    var rows, updated := UpdateMatching(db.transactions, normalized, cat);
    RecategorizeValid(db.transactions, db.nextTransactionId, db.categories, normalized, cat);
    db.SetMappings(db.mappings[normalized := cat], rows);
    resp := Mapped(normalized, cat, updated);
  }
}
