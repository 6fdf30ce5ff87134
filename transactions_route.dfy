/**
 * `POST /transactions/api` (app/transactions/api/route.ts): bulk upload of bank transactions.
 * Each record is normalised, keyed by `reference|description|date|amount` (a missing
 * description counts as empty) and inserted with "skip on conflict" on that key, so uploading
 * the same data again inserts nothing. The key stands for its md5 digest.
 */
module TransactionsRoute {
  import opened Basics
  import opened Text
  import opened Numbers
  import opened Store

  /** A record of the request body; a null or missing field is `None`. Amounts in cents. */
  datatype UploadRecord = UploadRecord(
    date: string,
    reference: Option<string>,
    description: Option<string>,
    amount: int,
    balance: Option<int>)

  /** A record after `normalize`. */
  datatype NormalRecord = NormalRecord(
    date: string,
    reference: string,
    description: Option<string>,
    amount: int,
    balance: Option<int>)

  /** `NoRecords` is the 400 answer "No records provided". */
  datatype UploadResponse = NoRecords | Uploaded(inserted: nat, skipped: nat, total: nat)

  /**
   * `normalize`: the reference is trimmed and a missing one becomes "", a present description
   * is trimmed and a missing one stays null; date, amount and balance pass through.
   */
  function Normalize(rec: UploadRecord): (n: NormalRecord)
    ensures IsTrimmed(n.reference) && |n.reference| <= |rec.reference.GetOr("")|
    ensures rec.reference.Some? ==> n.reference == Trim(rec.reference.value)
    ensures rec.reference.None? ==> n.reference == ""
    ensures rec.description.Some? ==> n.description == Some(Trim(rec.description.value))
    ensures n.description.None? <==> rec.description.None?
    ensures n.description.Some? ==> IsTrimmed(n.description.value)
    ensures n.date == rec.date && n.amount == rec.amount && n.balance == rec.balance
  {
    NormalRecord(
      rec.date,
      match rec.reference case Some(r) => Trim(r) case None => "",
      match rec.description case Some(d) => Some(Trim(d)) case None => None,
      rec.amount,
      rec.balance)
  }

  /** The record a normalised record would be if it were sent again. */
  function Resend(n: NormalRecord): UploadRecord {
    UploadRecord(n.date, Some(n.reference), n.description, n.amount, n.balance)
  }

  /** Normalising twice changes nothing more than normalising once. */
  lemma {:induction false} NormalizeIdempotent(rec: UploadRecord)
    ensures Normalize(Resend(Normalize(rec))) == Normalize(rec)
  {
    var n := Normalize(rec);
    TrimOfTrimmed(n.reference);
    if n.description.Some? {
      TrimOfTrimmed(n.description.value);
    }
  }

  /** `records.map(normalize)`. */
  function NormalizeAll(records: seq<UploadRecord>): (ns: seq<NormalRecord>)
    ensures |ns| == |records|
    ensures forall i :: 0 <= i < |records| ==> ns[i] == Normalize(records[i])
  {
    seq(|records|, i requires 0 <= i < |records| => Normalize(records[i]))
  }

  /**
   * The preimage of `md5(coalesce(reference,'') || '|' || coalesce(description,'') || '|' ||
   * date::text || '|' || amount::text)`.
   */
  function UniqueKey(n: NormalRecord): string {
    Join([n.reference, n.description.GetOr(""), n.date, CentsText(n.amount)], '|')
  }

  /** A null description and an empty description give the same key. */
  lemma NullDescriptionCollapses(n: NormalRecord)
    ensures UniqueKey(n.(description := None)) == UniqueKey(n.(description := Some("")))
  {
  }

  lemma CentsTextHasNoBar(cents: int)
    ensures '|' !in CentsText(cents)
  {
    var m: nat := if cents < 0 then -cents else cents;
    var whole := NatText(m / 100);
    assert forall k :: 0 <= k < |whole| ==> IsDigit(whole[k]);
    if m % 100 != 0 {
      var f := FractionText(m % 100);
      FractionRoundTrip(m % 100);
      assert forall k :: 0 <= k < |f| ==> IsDigit(f[k]);
    }
  }

  /**
   * When no field holds a `|`, the key determines the fields: equal keys mean equal reference,
   * description (null counted as empty), date and amount.
   */
  lemma {:induction false} KeyDeterminesFields(a: NormalRecord, b: NormalRecord)
    requires '|' !in a.reference && '|' !in a.description.GetOr("") && '|' !in a.date
    requires '|' !in b.reference && '|' !in b.description.GetOr("") && '|' !in b.date
    requires UniqueKey(a) == UniqueKey(b)
    ensures a.reference == b.reference && a.date == b.date && a.amount == b.amount
    ensures a.description.GetOr("") == b.description.GetOr("")
  {
    var pa := [a.reference, a.description.GetOr(""), a.date, CentsText(a.amount)];
    var pb := [b.reference, b.description.GetOr(""), b.date, CentsText(b.amount)];
    CentsTextHasNoBar(a.amount);
    CentsTextHasNoBar(b.amount);
    SplitJoin(pa, '|');
    SplitJoin(pb, '|');
    assert pa == pb;
    CentsTextInjective(a.amount, b.amount);
  }

  /** The key is not injective once a field holds a `|`: two different records share a key. */
  lemma KeyCollision()
    ensures var a := NormalRecord("2024-01-05", "a|", None, 0, None);
            var b := NormalRecord("2024-01-05", "a", Some("|"), 0, None);
            a != b && UniqueKey(a) == UniqueKey(b)
  {
  }

  /** The stored `unique_hash` values. */
  function Hashes(rows: seq<Transaction>): set<string> {
    set i | 0 <= i < |rows| :: rows[i].uniqueHash
  }

  /** The keys of a batch of records. */
  function RecordKeys(recs: seq<NormalRecord>): set<string> {
    set i | 0 <= i < |recs| :: UniqueKey(recs[i])
  }

  /** The row a record becomes; `category_id` is not in the insert list, so it is null. */
  function NewRow(id: int, n: NormalRecord): Transaction {
    Transaction(id, n.date, n.reference, n.description, n.amount, n.balance, None, UniqueKey(n))
  }

  /**
   * The rows of the `data` common table expression, as the insert offers them. The serial
   * default is drawn before the conflict check, so record `i` is offered with id `firstId + i`
   * whether or not it is stored.
   */
  function Offers(firstId: int, recs: seq<NormalRecord>): seq<Transaction> {
    seq(|recs|, i requires 0 <= i < |recs| => NewRow(firstId + i, recs[i]))
  }

  /** Offered rows carry the serial ids from `firstId` on and no category. */
  ghost predicate Fresh(offers: seq<Transaction>, firstId: int) {
    forall i :: 0 <= i < |offers| ==> offers[i].id == firstId + i && offers[i].categoryId.None?
  }

  /** Rows whose keys are `key` of the records, index by index, carry exactly those keys. */
  lemma HashesOfKeyed(rows: seq<Transaction>, recs: seq<NormalRecord>, key: NormalRecord -> string)
    requires |rows| == |recs|
    requires forall i :: 0 <= i < |rows| ==> rows[i].uniqueHash == key(recs[i])
    ensures Hashes(rows) == set i | 0 <= i < |recs| :: key(recs[i])
  {
    forall h | h in (set i | 0 <= i < |recs| :: key(recs[i])) ensures h in Hashes(rows) {
      var i :| 0 <= i < |recs| && key(recs[i]) == h;
      assert rows[i].uniqueHash == h;
    }
  }

  /** The offered rows are fresh and carry exactly the records' keys. */
  lemma OffersKeys(firstId: int, recs: seq<NormalRecord>)
    ensures Fresh(Offers(firstId, recs), firstId)
    ensures Hashes(Offers(firstId, recs)) == RecordKeys(recs)
  {
    HashesOfKeyed(Offers(firstId, recs), recs, UniqueKey);
  }

  /** One offered row of `insert ... on conflict (unique_hash) do nothing`. */
  function InsertOrSkip(rows: seq<Transaction>, t: Transaction): seq<Transaction> {
    if t.uniqueHash in Hashes(rows) then rows else rows + [t]
  }

  /** The bulk insert, offered row by offered row in order. */
  function Ingest(rows: seq<Transaction>, offers: seq<Transaction>): seq<Transaction>
    decreases |offers|
  {
    if offers == [] then rows
    else InsertOrSkip(Ingest(rows, offers[..|offers| - 1]), offers[|offers| - 1])
  }

  lemma HashesSnoc(rows: seq<Transaction>, t: Transaction)
    ensures Hashes(rows + [t]) == Hashes(rows) + {t.uniqueHash}
  {
    var r := rows + [t];
    forall h ensures h in Hashes(r) <==> h in Hashes(rows) + {t.uniqueHash} {
      if h in Hashes(r) {
        var i :| 0 <= i < |r| && r[i].uniqueHash == h;
        if i < |rows| {
          assert rows[i].uniqueHash == h;
        }
      }
      if h in Hashes(rows) {
        var i :| 0 <= i < |rows| && rows[i].uniqueHash == h;
        assert r[i].uniqueHash == h;
      }
      if h == t.uniqueHash {
        assert r[|rows|].uniqueHash == h;
      }
    }
  }

  /** The keys of a batch are the keys of all but its last row plus the last row's key. */
  lemma HashesFront(offers: seq<Transaction>)
    requires offers != []
    ensures Hashes(offers) == Hashes(offers[..|offers| - 1]) + {offers[|offers| - 1].uniqueHash}
  {
    assert offers[..|offers| - 1] + [offers[|offers| - 1]] == offers;
    HashesSnoc(offers[..|offers| - 1], offers[|offers| - 1]);
  }

  /**
   * An upload never changes or removes a stored row; it appends at most one row per offered
   * row, each with a null category, an offered key and an id drawn for this upload.
   */
  lemma {:induction false} IngestAppends(rows: seq<Transaction>, firstId: int, offers: seq<Transaction>)
    requires Fresh(offers, firstId)
    ensures var out := Ingest(rows, offers);
      && rows <= out
      && |out| - |rows| <= |offers|
      && forall i :: |rows| <= i < |out| ==>
           out[i].categoryId.None? && out[i].uniqueHash in Hashes(offers)
           && firstId <= out[i].id < firstId + |offers|
    decreases |offers|
  {
    if offers != [] {
      var front := offers[..|offers| - 1];
      assert Fresh(front, firstId) by {
        forall i | 0 <= i < |front| ensures front[i] == offers[i] {
        }
      }
      IngestAppends(rows, firstId, front);
      HashesFront(offers);
    }
  }

  /** After an upload the stored keys are the old ones plus the key of every offered row. */
  lemma {:induction false} IngestHashes(rows: seq<Transaction>, offers: seq<Transaction>)
    ensures Hashes(Ingest(rows, offers)) == Hashes(rows) + Hashes(offers)
    decreases |offers|
  {
    if offers == [] {
      assert Hashes(offers) == {};
    } else {
      var front := offers[..|offers| - 1];
      var last := offers[|offers| - 1];
      var mid := Ingest(rows, front);
      IngestHashes(rows, front);
      HashesFront(offers);
      if last.uniqueHash !in Hashes(mid) {
        HashesSnoc(mid, last);
      }
    }
  }

  /** Skip-on-conflict keeps the stored keys pairwise distinct. */
  lemma {:induction false} IngestKeepsHashesUnique(rows: seq<Transaction>, offers: seq<Transaction>)
    requires HashesUnique(rows)
    ensures HashesUnique(Ingest(rows, offers))
    decreases |offers|
  {
    if offers != [] {
      var front := offers[..|offers| - 1];
      var last := offers[|offers| - 1];
      var mid := Ingest(rows, front);
      IngestKeepsHashesUnique(rows, front);
      if last.uniqueHash !in Hashes(mid) {
        var out := mid + [last];
        forall i | 0 <= i < |mid| ensures out[i].uniqueHash != out[|mid|].uniqueHash {
          assert mid[i].uniqueHash in Hashes(mid);
        }
      }
    }
  }

  lemma {:induction false} UniqueHashesCount(rows: seq<Transaction>)
    requires HashesUnique(rows)
    ensures |Hashes(rows)| == |rows|
    decreases |rows|
  {
    if rows != [] {
      var front := rows[..|rows| - 1];
      var last := rows[|rows| - 1];
      UniqueHashesCount(front);
      assert front + [last] == rows;
      HashesSnoc(front, last);
      forall i | 0 <= i < |front| ensures front[i].uniqueHash != last.uniqueHash {
        assert rows[i] == front[i];
      }
      assert last.uniqueHash !in Hashes(front);
    }
  }

  /** The number of rows an upload inserts is the number of its distinct keys not yet stored. */
  lemma IngestCount(rows: seq<Transaction>, firstId: int, recs: seq<NormalRecord>)
    requires HashesUnique(rows)
    ensures |Ingest(rows, Offers(firstId, recs))| - |rows| == |RecordKeys(recs) - Hashes(rows)|
  {
    var offers := Offers(firstId, recs);
    var out := Ingest(rows, offers);
    OffersKeys(firstId, recs);
    IngestHashes(rows, offers);
    IngestKeepsHashesUnique(rows, offers);
    UniqueHashesCount(rows);
    UniqueHashesCount(out);
    assert Hashes(out) == Hashes(rows) + (RecordKeys(recs) - Hashes(rows));
    assert Hashes(rows) !! (RecordKeys(recs) - Hashes(rows));
  }

  /** An upload whose keys are all stored already changes nothing. */
  lemma {:induction false} IngestAllKnown(rows: seq<Transaction>, offers: seq<Transaction>)
    requires Hashes(offers) <= Hashes(rows)
    ensures Ingest(rows, offers) == rows
    decreases |offers|
  {
    if offers != [] {
      HashesFront(offers);
      IngestAllKnown(rows, offers[..|offers| - 1]);
    }
  }

  /** Uploading the same records again inserts nothing and leaves the table as it was. */
  lemma IngestIdempotent(rows: seq<Transaction>, firstId: int, secondId: int, recs: seq<NormalRecord>)
    ensures var once := Ingest(rows, Offers(firstId, recs));
            Ingest(once, Offers(secondId, recs)) == once
  {
    var once := Ingest(rows, Offers(firstId, recs));
    IngestHashes(rows, Offers(firstId, recs));
    OffersKeys(firstId, recs);
    OffersKeys(secondId, recs);
    IngestAllKnown(once, Offers(secondId, recs));
  }

  /** Offering one fresh row keeps the table's constraints and advances the counter by one. */
  lemma InsertOrSkipValid(rows: seq<Transaction>, t: Transaction, categories: seq<Category>)
    requires TransactionsValid(rows, t.id, categories) && t.categoryId.None?
    ensures TransactionsValid(InsertOrSkip(rows, t), t.id + 1, categories)
  {
    var out := InsertOrSkip(rows, t);
    if t.uniqueHash !in Hashes(rows) {
      forall i | 0 <= i < |rows| ensures out[i].uniqueHash != out[|rows|].uniqueHash {
        assert rows[i].uniqueHash in Hashes(rows);
      }
    }
  }

  /** An upload keeps the table's constraints and advances the counter once per offered row. */
  lemma {:induction false} IngestValid(rows: seq<Transaction>, firstId: int, offers: seq<Transaction>, categories: seq<Category>)
    requires TransactionsValid(rows, firstId, categories) && Fresh(offers, firstId)
    ensures TransactionsValid(Ingest(rows, offers), firstId + |offers|, categories)
    decreases |offers|
  {
    if offers != [] {
      var front := offers[..|offers| - 1];
      assert Fresh(front, firstId) by {
        forall i | 0 <= i < |front| ensures front[i] == offers[i] {
        }
      }
      IngestValid(rows, firstId, front, categories);
      InsertOrSkipValid(Ingest(rows, front), offers[|offers| - 1], categories);
    }
  }

  /** The upload of one more offered row of a prefix. */
  lemma IngestPrefix(rows: seq<Transaction>, offers: seq<Transaction>, i: nat)
    requires i < |offers|
    ensures Ingest(rows, offers[..i + 1]) == InsertOrSkip(Ingest(rows, offers[..i]), offers[i])
  {
    assert offers[..i + 1][..i] == offers[..i];
  }

  /**
   * The insert itself: the offered rows are tried one by one, each having drawn the next
   * serial id whether it is stored or skipped. Returns the new table, the new counter and the
   * number of rows stored.
   */
  method InsertAll(before: seq<Transaction>, firstId: int, offers: seq<Transaction>, ghost categories: seq<Category>)
    returns (rows: seq<Transaction>, next: int, inserted: nat)
    requires TransactionsValid(before, firstId, categories) && Fresh(offers, firstId)
    ensures rows == Ingest(before, offers)
    ensures TransactionsValid(rows, next, categories)
    ensures next == firstId + |offers|
    ensures inserted == |rows| - |before| <= |offers|
  {
    rows, next, inserted := before, firstId, 0;
    for i := 0 to |offers|
      invariant rows == Ingest(before, offers[..i])
      invariant next == firstId + i
      invariant inserted == |rows| - |before| <= i
    {
      var t := offers[i];
      IngestPrefix(before, offers, i);
      if t.uniqueHash !in Hashes(rows) {
        rows := rows + [t];
        inserted := inserted + 1;
      }
      next := next + 1;
    }
    assert offers[..|offers|] == offers;
    IngestValid(before, firstId, offers, categories);
  }

  /**
   * The handler. A missing, non-array or empty `records` gives 400 and changes nothing.
   * Otherwise the table becomes `Ingest` of the normalised records, and the answer counts the
   * records (`total`), the rows stored (`inserted`) and the rest (`skipped`).
   */
  method Post(db: Database, records: Option<seq<UploadRecord>>) returns (resp: UploadResponse)
    requires db.Valid()
    modifies db
    ensures db.Valid()
    ensures records.None? || records.value == [] ==> resp == NoRecords && unchanged(db)
    ensures records.Some? && records.value != [] ==>
      var normalized := NormalizeAll(records.value);
      var inserted := |db.transactions| - |old(db.transactions)|;
      && db.transactions == Ingest(old(db.transactions), Offers(old(db.nextTransactionId), normalized))
      && db.nextTransactionId == old(db.nextTransactionId) + |records.value|
      && 0 <= inserted <= |records.value|
      && resp == Uploaded(inserted, |records.value| - inserted, |records.value|)
    ensures db.categories == old(db.categories) && db.nextCategoryId == old(db.nextCategoryId)
    ensures db.mappings == old(db.mappings)
    ensures db.accounts == old(db.accounts) && db.nextAccountId == old(db.nextAccountId)
    ensures db.amounts == old(db.amounts) && db.nextAmountId == old(db.nextAmountId)
  {
    if records.None? || records.value == [] {
      return NoRecords;
    }
    var normalized := NormalizeAll(records.value);
    var offers := Offers(db.nextTransactionId, normalized);
    OffersKeys(db.nextTransactionId, normalized);
    var rows, next, inserted := InsertAll(db.transactions, db.nextTransactionId, offers, db.categories);
    db.SetTransactions(rows, next);
    resp := Uploaded(inserted, |records.value| - inserted, |records.value|);
  }
}
