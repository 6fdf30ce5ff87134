/**
 * The client state of the unmapped-references list (components/unmapped-references.tsx):
 * the current page, the cached page of references, the category chosen per reference and
 * the per-reference "assigning" flag; the optimistic removal of an assigned reference, the
 * footer's "Showing start-end of total" arithmetic and the Prev/Next buttons.
 */
module UnmappedReferencesView {
  import opened Basics
  import opened Numbers

  /** The cached answer of the references list: the references shown and the paging fields. */
  datatype Listing = Listing(data: seq<string>, page: int, limit: int, total: int, totalPages: int)

  /** What the list endpoint can answer: pages and limits from 1, a count of at least 0. */
  predicate WellFormed(l: Listing) {
    l.page >= 1 && l.limit >= 1 && l.total >= 0 && l.totalPages >= 1
  }

  /** `xs.filter(r => r.reference !== x)`. */
  function Without(xs: seq<string>, x: string): (r: seq<string>)
    ensures |r| <= |xs|
  {
    if xs == [] then [] else (if xs[0] == x then [] else [xs[0]]) + Without(xs[1..], x)
  }

  /** The removal drops exactly the rows equal to `x`. */
  lemma {:induction false} WithoutMembers(xs: seq<string>, x: string)
    ensures forall y :: y in Without(xs, x) <==> y in xs && y != x
    ensures x !in xs ==> Without(xs, x) == xs
  {
    if xs != [] {
      WithoutMembers(xs[1..], x);
      assert xs == [xs[0]] + xs[1..];
    }
  }

  /** The removal works piece by piece, so the rows that stay keep their order. */
  lemma {:induction false} WithoutAppend(xs: seq<string>, ys: seq<string>, x: string)
    ensures Without(xs + ys, x) == Without(xs, x) + Without(ys, x)
  {
    if xs == [] {
      assert xs + ys == ys;
    } else {
      assert (xs + ys)[1..] == xs[1..] + ys;
      WithoutAppend(xs[1..], ys, x);
    }
  }

  /** The number of rows equal to `x`. */
  function Count(xs: seq<string>, x: string): nat {
    if xs == [] then 0 else (if xs[0] == x then 1 else 0) + Count(xs[1..], x)
  }

  /** The removal shortens the rows by the number of rows equal to the reference. */
  lemma {:induction false} WithoutLength(xs: seq<string>, x: string)
    ensures |Without(xs, x)| + Count(xs, x) == |xs|
  {
    if xs != [] {
      WithoutLength(xs[1..], x);
    }
  }

  /** The optimistic listing `assign` writes into the cache for `reference`. */
  function Optimistic(refs: Option<Listing>, page: int, pageSize: int, reference: string): Listing
    requires pageSize >= 1
    requires refs.Some? ==> WellFormed(refs.value)
  {
    var prev := if refs.Some? then refs.value.data else [];
    var newTotal := Max(0, (if refs.Some? then refs.value.total else |prev|) - 1);
    var newLimit := if refs.Some? then refs.value.limit else pageSize;
    var newPage := if refs.Some? then refs.value.page else page;
    Listing(Without(prev, reference), newPage, newLimit, newTotal, TotalPages(newTotal, newLimit))
  }

  /**
   * The optimistic listing: the assigned reference is gone and the other rows stay; the
   * count drops by one but not below zero; page and limit are kept; the page count is the
   * least (and at least one) that covers the new count.
   */
  lemma OptimisticMeaning(refs: Option<Listing>, page: int, pageSize: int, reference: string)
    requires pageSize >= 1 && page >= 1
    requires refs.Some? ==> WellFormed(refs.value)
    ensures var l := Optimistic(refs, page, pageSize, reference);
            var prev := if refs.Some? then refs.value.data else [];
            && WellFormed(l)
            && (forall y :: y in l.data <==> y in prev && y != reference)
            && |l.data| == |prev| - Count(prev, reference)
            && l.total >= 0
            && (refs.Some? && refs.value.total >= 1 ==> l.total == refs.value.total - 1)
            && (refs.Some? ==> l.page == refs.value.page && l.limit == refs.value.limit)
            && (refs.None? ==> l.page == page && l.limit == pageSize && l.data == [] && l.total == 0)
            && l.total <= l.totalPages * l.limit
            && (l.totalPages == 1 || (l.totalPages - 1) * l.limit < l.total)
  {
    var prev := if refs.Some? then refs.value.data else [];
    WithoutMembers(prev, reference);
    WithoutLength(prev, reference);
  }

  /** `const { [reference]: _, ...rest } = m`: the entry of `reference` is gone, the others stay. */
  function Deselect(m: map<string, string>, reference: string): (r: map<string, string>)
    ensures reference !in r
    ensures forall k :: k != reference ==> (k in r <==> k in m)
    ensures forall k :: k in r ==> r[k] == m[k]
  {
    m - {reference}
  }

  /** The footer: the first and last positions shown, the count and the page count. */
  datatype Footer = Footer(start: int, end: int, total: int, totalPages: int)

  /** `Showing ${start}-${end} of ${total} • Page ${curPage} of ${totalPages}`. */
  function FooterOf(refs: Option<Listing>, page: int, pageSize: int): Footer
    requires pageSize >= 1
    requires refs.Some? ==> WellFormed(refs.value)
  {
    var curPage := if refs.Some? then refs.value.page else page;
    var lim := if refs.Some? then refs.value.limit else pageSize;
    var total := if refs.Some? then refs.value.total else 0;
    var start := if total == 0 then 0 else (curPage - 1) * lim + 1;
    var end := Min(total, curPage * lim);
    var totalPages := if refs.Some? then refs.value.totalPages else TotalPages(total, lim);
    Footer(start, end, total, totalPages)
  }

  /**
   * The footer never shows past the count, shows 0 as its start exactly when there is
   * nothing, and otherwise starts at the first position of the page.
   */
  lemma FooterBounds(refs: Option<Listing>, page: int, pageSize: int)
    requires pageSize >= 1 && page >= 1
    requires refs.Some? ==> WellFormed(refs.value)
    ensures var f := FooterOf(refs, page, pageSize);
            var curPage := if refs.Some? then refs.value.page else page;
            var lim := if refs.Some? then refs.value.limit else pageSize;
            && 0 <= f.end <= f.total
            && (f.start == 0 <==> f.total == 0)
            && (f.total > 0 ==> f.start == PageOffset(curPage, lim) + 1 && f.end == Min(f.total, PageOffset(curPage + 1, lim)))
            && (refs.None? ==> f == Footer(0, 0, 0, 1))
  {
    var curPage := if refs.Some? then refs.value.page else page;
    var lim := if refs.Some? then refs.value.limit else pageSize;
    PageOffsetValue(curPage, lim);
    PageOffsetValue(curPage + 1, lim);
    assert curPage * lim >= 0 by {
      MulMonotone(0, curPage, lim);
    }
  }

  /**
   * For a listing whose count is that of `xs` and whose page lies within the page count, the
   * footer's range covers exactly the rows the list endpoint returns for that page.
   */
  lemma FooterMatchesPage(xs: seq<string>, l: Listing, pageSize: int)
    requires pageSize >= 1 && WellFormed(l)
    requires l.total == |xs| > 0 && l.page <= TotalPages(l.total, l.limit)
    ensures var f := FooterOf(Some(l), l.page, pageSize);
            var slice := PageSlice(xs, PageOffset(l.page, l.limit), l.limit);
            && 1 <= f.start <= f.end
            && f.end - f.start + 1 == |slice|
  {
    var o := PageOffset(l.page, l.limit);
    FooterBounds(Some(l), l.page, pageSize);
    if l.page > 1 {
      HasMoreMeaning(l.total, l.page - 1, l.limit);
    }
    assert o < |xs|;
    var f := FooterOf(Some(l), l.page, pageSize);
    assert f.start == o + 1;
    assert f.end == Min(|xs|, o + l.limit);
    assert |PageSlice(xs, o, l.limit)| == Min(l.limit, |xs| - o);
  }

  /**
   * Assigning the only reference of the last page keeps the page: with 11 references, 10 per
   * page, on page 2, the footer then reads "Showing 11-10 of 10 • Page 2 of 1".
   */
  lemma StaleLastPage()
    ensures var l := Optimistic(Some(Listing(["x"], 2, 10, 11, 2)), 2, 10, "x");
            && l == Listing([], 2, 10, 10, 1)
            && FooterOf(Some(l), 2, 10) == Footer(11, 10, 10, 1)
  {
    assert Without(["x"], "x") == [];
    assert CeilDiv(10, 10) == 1;
  }

  /** `isDisabled` of Prev. */
  predicate PrevDisabled(refs: Option<Listing>, page: int) {
    (if refs.Some? then refs.value.page else page) <= 1
  }

  /** `isDisabled` of Next. */
  predicate NextDisabled(refs: Option<Listing>, page: int) {
    (if refs.Some? then refs.value.page else page) >= (if refs.Some? then refs.value.totalPages else 1)
  }

  /**
   * Before a page is loaded Next is disabled and Prev is disabled on page 1 only; with a
   * listing, Next is enabled exactly when a later page holds rows.
   */
  lemma ButtonsMeaning(refs: Option<Listing>, page: int)
    requires page >= 1 && (refs.Some? ==> WellFormed(refs.value))
    requires refs.Some? ==> refs.value.totalPages == TotalPages(refs.value.total, refs.value.limit)
    ensures refs.None? ==> NextDisabled(refs, page) && (PrevDisabled(refs, page) <==> page == 1)
    ensures refs.Some? ==>
      (!NextDisabled(refs, page) <==> PageOffset(refs.value.page + 1, refs.value.limit) < refs.value.total)
  {
    if refs.Some? {
      HasMoreMeaning(refs.value.total, refs.value.page, refs.value.limit);
    }
  }

  class UnmappedReferences {
    const pageSize: int
    var page: int
    /** The answer for the current key, which holds the page, once it has arrived; a page change clears it. */
    var refs: Option<Listing>
    /** reference -> chosen category id, as the select's text. */
    var selected: map<string, string>
    var assigning: map<string, bool>

    ghost predicate Valid()
      reads this
    {
      pageSize >= 1 && page >= 1 && (refs.Some? ==> WellFormed(refs.value))
    }

    constructor (pageSize: int)
      requires pageSize >= 1
      ensures Valid()
      ensures this.pageSize == pageSize && page == 1 && refs == None
      ensures selected == map[] && assigning == map[]
    {
      this.pageSize := pageSize;
      page := 1;
      refs := None;
      selected, assigning := map[], map[];
    }

    /** A listing arrives for the current key. */
    method Load(l: Listing)
      requires Valid() && WellFormed(l)
      modifies this
      ensures Valid()
      ensures refs == Some(l)
      ensures page == old(page) && selected == old(selected) && assigning == old(assigning)
    {
      refs := Some(l);
    }

    /** The select's `onChange`: the category chosen for a reference. */
    method Choose(reference: string, v: string)
      requires Valid()
      modifies this
      ensures Valid()
      ensures selected == old(selected)[reference := v]
      ensures page == old(page) && refs == old(refs) && assigning == old(assigning)
    {
      selected := selected[reference := v];
    }

    /** `assign`, up to the request: the cache gets the optimistic listing. */
    method Assign(reference: string)
      requires Valid()
      modifies this
      ensures Valid()
      ensures refs == Some(Optimistic(old(refs), old(page), pageSize, reference))
      ensures page == old(page) && selected == old(selected) && assigning == old(assigning)
    {
      OptimisticMeaning(refs, page, pageSize, reference);
      refs := Some(Optimistic(refs, page, pageSize, reference));
    }

    /**
     * The Assign button: without a chosen category nothing happens; otherwise the reference
     * is removed optimistically and, once done, its flag is false and its choice is cleared.
     */
    method Press(reference: string)
      requires Valid()
      modifies this
      ensures Valid()
      ensures reference !in old(selected) || old(selected)[reference] == "" ==>
        refs == old(refs) && selected == old(selected) && assigning == old(assigning)
      ensures reference in old(selected) && old(selected)[reference] != "" ==>
        && refs == Some(Optimistic(old(refs), old(page), pageSize, reference))
        && selected == Deselect(old(selected), reference)
        && assigning == old(assigning)[reference := false]
      ensures page == old(page)
    {
      if reference !in selected || selected[reference] == "" {
        return;
      }
      assigning := assigning[reference := true];
      Assign(reference);
      assigning := assigning[reference := false];
      selected := Deselect(selected, reference);
    }

    /**
     * Prev: one page back, never below the first. A new page is a new key, for which no
     * answer has arrived yet; on the first page the key and its answer stay.
     */
    method Prev()
      requires Valid()
      modifies this
      ensures Valid()
      ensures page == Max(1, old(page) - 1)
      ensures old(page) > 1 ==> page == old(page) - 1
      ensures page != old(page) ==> refs == None
      ensures page == old(page) ==> refs == old(refs)
      ensures selected == old(selected) && assigning == old(assigning)
    {
      var target := Max(1, page - 1);
      if target != page {
        page, refs := target, None;
      }
    }

    /** Next: one page on, a new key for which no answer has arrived yet. */
    method Next()
      requires Valid()
      modifies this
      ensures Valid()
      ensures page == old(page) + 1
      ensures refs == None
      ensures selected == old(selected) && assigning == old(assigning)
    {
      page, refs := page + 1, None;
    }
  }
}
