/**
 * `GET /references/api?unmapped=true&page=&limit=&q=` (app/references/api/route.ts): the
 * references that have no category mapping yet. Transactions are grouped by normalised
 * reference, each group is shown by its least raw reference, mapped groups are left out, an
 * optional text filter applies, and the rest is sorted and cut into pages.
 */
module ReferencesRoute {
  import opened Basics
  import opened Text
  import opened Numbers
  import opened Sorting
  import opened Grouping
  import opened Store

  /** The query string; an absent parameter is `None`. */
  datatype Query = Query(unmapped: Option<string>, page: Option<string>, limit: Option<string>, q: Option<string>)

  datatype ListResponse =
    | Listed(data: seq<string>, page: int, limit: int, total: nat, totalPages: nat)
    | OnlyUnmapped   // 400 "Only unmapped=true is supported"
    | ServerError    // a NaN page or limit makes the SQL `limit`/`offset` fail; nothing handles it

  /** `Number(param || fallback)`: an absent or empty parameter gives the fallback. */
  function NumberOr(param: Option<string>, fallback: int): (n: Num)
    ensures param.None? || param.value == [] ==> n == Finite(fallback)
    ensures param.Some? && param.value != [] ==> n == ParseNumber(param.value)
  {
    if param.None? || param.value == [] then Finite(fallback) else ParseNumber(param.value)
  }

  /** `Math.max(1, Number(page || 1))`: 1 by default, raised to 1 when below, kept otherwise. */
  function PageOf(param: Option<string>): (n: Num)
    ensures n.NaN? <==> NumberOr(param, 1).NaN?
    ensures n.Finite? ==> n.value >= 1
    ensures param.None? ==> n == Finite(1)
    ensures NumberOr(param, 1).Finite? && NumberOr(param, 1).value >= 1 ==> n == NumberOr(param, 1)
    ensures NumberOr(param, 1).Finite? && NumberOr(param, 1).value < 1 ==> n == Finite(1)
  {
    match NumberOr(param, 1)
    case NaN => NaN
    case Finite(v) => Finite(Max(1, v))
  }

  /**
   * `Math.min(100, Math.max(1, Number(limit || 50)))`: 50 by default, clamped to 1 from
   * below and to 100 from above, kept when already in range.
   */
  function LimitOf(param: Option<string>): (n: Num)
    ensures n.NaN? <==> NumberOr(param, 50).NaN?
    ensures n.Finite? ==> 1 <= n.value <= 100
    ensures param.None? ==> n == Finite(50)
    ensures NumberOr(param, 50).Finite? && 1 <= NumberOr(param, 50).value <= 100 ==> n == NumberOr(param, 50)
    ensures NumberOr(param, 50).Finite? && NumberOr(param, 50).value < 1 ==> n == Finite(1)
    ensures NumberOr(param, 50).Finite? && NumberOr(param, 50).value > 100 ==> n == Finite(100)
  {
    match NumberOr(param, 50)
    case NaN => NaN
    case Finite(v) => Finite(Min(100, Max(1, v)))
  }

  /** `q && q.trim().length > 0 ? q.trim() : null`: the text filter, if any. */
  function Pattern(q: Option<string>): (p: Option<string>)
    ensures p.None? <==> q.None? || IsBlank(q.value)
    ensures p.Some? ==> p.value != [] && IsTrimmed(p.value) && p.value == Trim(q.value)
  {
    match q
    case None => None
    case Some(s) =>
      TrimEmpty(s);
      if Trim(s) != [] then Some(Trim(s)) else None
  }

  /** `g.sample ilike '%pattern%'`, or no filter. */
  predicate PatternMatches(pattern: Option<string>, sample: string) {
    pattern.None? || ContainsIgnoreCase(sample, pattern.value)
  }

  /** `with t as (select lower(trim(reference)) as key, reference from transactions)`. */
  function KeyedReferences(rows: seq<Transaction>): (t: seq<(string, string)>)
    ensures |t| == |rows|
    ensures forall i :: 0 <= i < |rows| ==> t[i] == (NormalizeKey(rows[i].reference), rows[i].reference)
  {
    seq(|rows|, i requires 0 <= i < |rows| => (NormalizeKey(rows[i].reference), rows[i].reference))
  }

  /** A group survives the `left join ... where rm.normalized_reference is null` and the filter. */
  predicate Kept(g: (string, string), mappings: map<string, int>, pattern: Option<string>) {
    g.0 !in mappings && PatternMatches(pattern, g.1)
  }

  /** The groups that are kept, in their order. */
  function KeepUnmapped(groups: seq<(string, string)>, mappings: map<string, int>, pattern: Option<string>)
    : (r: seq<(string, string)>)
    ensures forall i :: 0 <= i < |r| ==> r[i] in groups && Kept(r[i], mappings, pattern)
    ensures forall g :: g in groups && Kept(g, mappings, pattern) ==> g in r
    decreases |groups|
  {
    if groups == [] then []
    else
      var rest := KeepUnmapped(groups[1..], mappings, pattern);
      assert forall g :: g in groups[1..] ==> g in groups;
      assert [groups[0]] + groups[1..] == groups;
      if Kept(groups[0], mappings, pattern) then [groups[0]] + rest else rest
  }

  /** Keeping some of the groups keeps their keys distinct. */
  lemma {:induction false} KeepUnmappedDistinct(groups: seq<(string, string)>, mappings: map<string, int>, pattern: Option<string>)
    requires DistinctKeys(groups)
    ensures DistinctKeys(KeepUnmapped(groups, mappings, pattern))
    decreases |groups|
  {
    if groups != [] {
      var tail := groups[1..];
      var rest := KeepUnmapped(tail, mappings, pattern);
      assert DistinctKeys(tail) by {
        forall i, j | 0 <= i < j < |tail| ensures tail[i].0 != tail[j].0 {
          assert tail[i] == groups[i + 1] && tail[j] == groups[j + 1];
        }
      }
      KeepUnmappedDistinct(tail, mappings, pattern);
      if Kept(groups[0], mappings, pattern) {
        HeadKeyNotInTail(groups);
        assert groups[0].0 !in KeysOf(rest) by {
          forall i | 0 <= i < |rest| ensures rest[i].0 != groups[0].0 {
            var k :| 0 <= k < |tail| && tail[k] == rest[i];
            assert rest[i].0 in KeysOf(tail);
          }
        }
        DistinctKeysCons(groups[0], rest);
      }
    }
  }

  /** `s` is a reference of some row and sorts before or with every reference of its group. */
  ghost predicate IsGroupMin(rows: seq<Transaction>, s: string) {
    && (exists i :: 0 <= i < |rows| && rows[i].reference == s)
    && forall j :: 0 <= j < |rows| && NormalizeKey(rows[j].reference) == NormalizeKey(s) ==>
         LessEq(s, rows[j].reference)
  }

  /** The groups the two queries see: one per normalised key, as (key, least reference). */
  function Candidates(rows: seq<Transaction>, mappings: map<string, int>, pattern: Option<string>)
    : (c: seq<(string, string)>)
    ensures DistinctKeys(c)
  {
    KeepUnmappedDistinct(GroupMin(KeyedReferences(rows)), mappings, pattern);
    KeepUnmapped(GroupMin(KeyedReferences(rows)), mappings, pattern)
  }

  /**
   * Each candidate is the group of its sample's key, the key has no mapping, the sample
   * passes the filter, and the sample is the least reference of the group.
   */
  lemma CandidatesSound(rows: seq<Transaction>, mappings: map<string, int>, pattern: Option<string>)
    ensures var c := Candidates(rows, mappings, pattern);
            forall i :: 0 <= i < |c| ==>
              && c[i].0 == NormalizeKey(c[i].1)
              && Kept(c[i], mappings, pattern)
              && IsGroupMin(rows, c[i].1)
  {
    var keyed := KeyedReferences(rows);
    var groups := GroupMin(keyed);
    var c := KeepUnmapped(groups, mappings, pattern);
    forall i | 0 <= i < |c|
      ensures c[i].0 == NormalizeKey(c[i].1) && IsGroupMin(rows, c[i].1)
    {
      assert c[i] in groups;
      var g :| 0 <= g < |groups| && groups[g] == c[i];
      var k :| 0 <= k < |keyed| && keyed[k] == groups[g];
      assert rows[k].reference == c[i].1;
      forall j | 0 <= j < |rows| && NormalizeKey(rows[j].reference) == NormalizeKey(c[i].1)
        ensures LessEq(c[i].1, rows[j].reference)
      {
        assert keyed[j].0 == groups[g].0;
      }
    }
  }

  /** Every unmapped group whose least reference passes the filter is a candidate. */
  lemma CandidatesComplete(rows: seq<Transaction>, mappings: map<string, int>, pattern: Option<string>)
    ensures forall i :: 0 <= i < |rows| && IsGroupMin(rows, rows[i].reference)
                        && Kept(KeyedReferences(rows)[i], mappings, pattern) ==>
      KeyedReferences(rows)[i] in Candidates(rows, mappings, pattern)
  {
    var keyed := KeyedReferences(rows);
    var groups := GroupMin(keyed);
    var c := KeepUnmapped(groups, mappings, pattern);
    forall i | 0 <= i < |rows| && IsGroupMin(rows, rows[i].reference) && Kept(keyed[i], mappings, pattern)
      ensures keyed[i] in c
    {
      assert keyed[i].0 in KeysOf(keyed);
      var g :| 0 <= g < |groups| && groups[g].0 == keyed[i].0;
      var k :| 0 <= k < |keyed| && keyed[k] == groups[g];
      assert LessEq(groups[g].1, keyed[i].1);
      assert NormalizeKey(rows[k].reference) == NormalizeKey(rows[i].reference);
      assert LessEq(rows[i].reference, rows[k].reference);
      LessEqAntisymmetric(groups[g].1, keyed[i].1);
      assert groups[g] == keyed[i];
    }
  }

  function Sample(g: (string, string)): string {
    g.1
  }

  function Samples(gs: seq<(string, string)>): (s: seq<string>)
    ensures |s| == |gs|
    ensures forall i :: 0 <= i < |gs| ==> s[i] == gs[i].1
  {
    seq(|gs|, i requires 0 <= i < |gs| => gs[i].1)
  }

  /** The candidate groups in `order by sample asc`. */
  function Ordered(rows: seq<Transaction>, mappings: map<string, int>, pattern: Option<string>)
    : (o: seq<(string, string)>)
    ensures SortedBy(o, Sample)
    ensures multiset(o) == multiset(Candidates(rows, mappings, pattern))
  {
    SortBy(Candidates(rows, mappings, pattern), Sample)
  }

  /**
   * The handler. Without `unmapped=true` the answer is 400. A NaN page or limit fails in SQL.
   * Otherwise `total` counts the candidate groups, `totalPages` is at least one and covers
   * them, and `data` holds at most `limit` references.
   */
  function Get(rows: seq<Transaction>, mappings: map<string, int>, query: Query): (resp: ListResponse)
    ensures resp.OnlyUnmapped? <==> query.unmapped != Some("true")
    ensures resp.ServerError? <==>
      query.unmapped == Some("true") && (PageOf(query.page).NaN? || LimitOf(query.limit).NaN?)
    ensures resp.Listed? ==>
      && resp.page == PageOf(query.page).value && resp.limit == LimitOf(query.limit).value
      && resp.page >= 1 && 1 <= resp.limit <= 100
      && |resp.data| <= resp.limit
      && resp.total == |Candidates(rows, mappings, Pattern(query.q))|
      && resp.totalPages == TotalPages(resp.total, resp.limit)
  {
    if query.unmapped != Some("true") then OnlyUnmapped
    else
      var page, limit := PageOf(query.page), LimitOf(query.limit);
      if page.NaN? || limit.NaN? then ServerError
      else
        var ordered := Ordered(rows, mappings, Pattern(query.q));
        var total := |ordered|;
        var data := Samples(PageSlice(ordered, PageOffset(page.value, limit.value), limit.value));
        Listed(data, page.value, limit.value, total, TotalPages(total, limit.value))
  }

  /**
   * The page holds the samples of the ordered groups from `PageOffset(page, limit)`, which is
   * `(page - 1) * limit` (PageOffsetValue), on.
   */
  lemma GetIsSlice(rows: seq<Transaction>, mappings: map<string, int>, query: Query)
    requires Get(rows, mappings, query).Listed?
    ensures var resp := Get(rows, mappings, query);
            var ordered := Ordered(rows, mappings, Pattern(query.q));
            var offset := PageOffset(resp.page, resp.limit);
            && resp.data == Samples(PageSlice(ordered, offset, resp.limit))
            && forall i :: 0 <= i < |resp.data| ==> offset + i < |ordered| && resp.data[i] == ordered[offset + i].1
  {
    var resp := Get(rows, mappings, query);
    var ordered := Ordered(rows, mappings, Pattern(query.q));
    var slice := PageSlice(ordered, PageOffset(resp.page, resp.limit), resp.limit);
    assert resp.data == Samples(slice);
  }

  /** The references on a page are in ascending order. */
  lemma {:induction false} GetSorted(rows: seq<Transaction>, mappings: map<string, int>, query: Query)
    requires Get(rows, mappings, query).Listed?
    ensures var data := Get(rows, mappings, query).data;
            forall i, j :: 0 <= i < j < |data| ==> LessEq(data[i], data[j])
  {
    var resp := Get(rows, mappings, query);
    var ordered := Ordered(rows, mappings, Pattern(query.q));
    var offset := PageOffset(resp.page, resp.limit);
    GetIsSlice(rows, mappings, query);
    forall i, j | 0 <= i < j < |resp.data| ensures LessEq(resp.data[i], resp.data[j]) {
      OrderedSortedAt(rows, mappings, Pattern(query.q), offset + i, offset + j);
    }
  }

  lemma OrderedSortedAt(rows: seq<Transaction>, mappings: map<string, int>, pattern: Option<string>, a: nat, b: nat)
    requires a < b < |Ordered(rows, mappings, pattern)|
    ensures var o := Ordered(rows, mappings, pattern);
            LessEq(o[a].1, o[b].1)
  {
    var o := Ordered(rows, mappings, pattern);
    assert Sample(o[a]) == o[a].1 && Sample(o[b]) == o[b].1;
  }

  lemma OrderedMembers(rows: seq<Transaction>, mappings: map<string, int>, pattern: Option<string>, i: nat)
    requires i < |Ordered(rows, mappings, pattern)|
    ensures Ordered(rows, mappings, pattern)[i] in Candidates(rows, mappings, pattern)
  {
    var o := Ordered(rows, mappings, pattern);
    assert o[i] in multiset(o);
  }

  /** The group at each position of the order is a candidate group, with its key and least reference. */
  lemma OrderedSound(rows: seq<Transaction>, mappings: map<string, int>, pattern: Option<string>, k: nat)
    requires k < |Ordered(rows, mappings, pattern)|
    ensures var g := Ordered(rows, mappings, pattern)[k];
            g.0 == NormalizeKey(g.1) && Kept(g, mappings, pattern) && IsGroupMin(rows, g.1)
  {
    OrderedMembers(rows, mappings, pattern, k);
    CandidatesSound(rows, mappings, pattern);
    var c := Candidates(rows, mappings, pattern);
    var a :| 0 <= a < |c| && c[a] == Ordered(rows, mappings, pattern)[k];
  }

  /** The reference at position `i` of a page is the sample of the group at `offset + i`. */
  lemma PageItem(rows: seq<Transaction>, mappings: map<string, int>, query: Query, i: nat)
    requires Get(rows, mappings, query).Listed? && i < |Get(rows, mappings, query).data|
    ensures var resp := Get(rows, mappings, query);
            var ordered := Ordered(rows, mappings, Pattern(query.q));
            var g := ordered[PageOffset(resp.page, resp.limit) + i];
            && resp.data[i] == g.1
            && g.0 == NormalizeKey(g.1) && Kept(g, mappings, Pattern(query.q)) && IsGroupMin(rows, g.1)
  {
    var resp := Get(rows, mappings, query);
    var ordered := Ordered(rows, mappings, Pattern(query.q));
    var k := PageOffset(resp.page, resp.limit) + i;
    GetIsSlice(rows, mappings, query);
    assert k < |ordered| && resp.data[i] == ordered[k].1;
    OrderedSound(rows, mappings, Pattern(query.q), k);
  }

  /**
   * Every reference on a page is the least reference of its group, that group has no mapping,
   * and the reference passes the filter.
   */
  lemma {:induction false} GetReturnsUnmappedMinima(rows: seq<Transaction>, mappings: map<string, int>, query: Query)
    requires Get(rows, mappings, query).Listed?
    ensures var data := Get(rows, mappings, query).data;
            forall i :: 0 <= i < |data| ==>
              && IsGroupMin(rows, data[i])
              && NormalizeKey(data[i]) !in mappings
              && PatternMatches(Pattern(query.q), data[i])
  {
    var data := Get(rows, mappings, query).data;
    forall i | 0 <= i < |data|
      ensures IsGroupMin(rows, data[i]) && NormalizeKey(data[i]) !in mappings
      ensures PatternMatches(Pattern(query.q), data[i])
    {
      PageItem(rows, mappings, query, i);
    }
  }

  function GroupKey(g: (string, string)): string {
    g.0
  }

  /** No two groups in the order share a key. */
  lemma OrderedDistinct(rows: seq<Transaction>, mappings: map<string, int>, pattern: Option<string>)
    ensures var o := Ordered(rows, mappings, pattern);
            forall i, j :: 0 <= i < j < |o| ==> o[i].0 != o[j].0
  {
    var o := Ordered(rows, mappings, pattern);
    var c := Candidates(rows, mappings, pattern);
    assert DistinctBy(c, GroupKey) by {
      forall i, j | 0 <= i < j < |c| ensures GroupKey(c[i]) != GroupKey(c[j]) {
      }
    }
    PermutationDistinct(o, c, GroupKey);
    assert forall i :: 0 <= i < |o| ==> GroupKey(o[i]) == o[i].0;
  }

  /** No two references on a page belong to the same group. */
  lemma {:induction false} GetDistinctGroups(rows: seq<Transaction>, mappings: map<string, int>, query: Query)
    requires Get(rows, mappings, query).Listed?
    ensures var data := Get(rows, mappings, query).data;
            forall i, j :: 0 <= i < j < |data| ==> NormalizeKey(data[i]) != NormalizeKey(data[j])
  {
    var resp := Get(rows, mappings, query);
    var ordered := Ordered(rows, mappings, Pattern(query.q));
    OrderedDistinct(rows, mappings, Pattern(query.q));
    var offset := PageOffset(resp.page, resp.limit);
    forall i, j | 0 <= i < j < |resp.data| ensures NormalizeKey(resp.data[i]) != NormalizeKey(resp.data[j]) {
      PageItem(rows, mappings, query, i);
      PageItem(rows, mappings, query, j);
      assert ordered[offset + i].0 != ordered[offset + j].0;
    }
  }

  /**
   * Every candidate group is shown on the page its position in the order gives, and that
   * page lies between 1 and `totalPages`.
   */
  lemma EveryCandidateHasAPage(rows: seq<Transaction>, mappings: map<string, int>, pattern: Option<string>, limit: nat, k: nat)
    requires 1 <= limit && k < |Ordered(rows, mappings, pattern)|
    ensures var ordered := Ordered(rows, mappings, pattern);
            var page := PageOfItem(k, limit);
            var offset := PageOffset(page, limit);
            && 1 <= page <= TotalPages(|ordered|, limit)
            && offset <= k < offset + limit
            && PageSlice(ordered, offset, limit)[k - offset] == ordered[k]
  {
    PageOfPosition(k, |Ordered(rows, mappings, pattern)|, limit);
  }
}
