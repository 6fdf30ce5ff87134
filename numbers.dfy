/**
 * The numeric conversions of the route handlers: JavaScript `Number(text)`, `String(number)`,
 * the truthiness of a number, and the paging arithmetic: the page count
 * `Math.max(1, Math.ceil(total / limit))`, the offset `(page - 1) * limit` and the page slice.
 *
 * A JavaScript number is modelled as an integer or NaN. Where it is money it is an integer
 * count of cents, so `String` and `Number` on amounts work with at most two decimals.
 */
module Numbers {
  import opened Basics
  import opened Text

  datatype Num = Finite(value: int) | NaN

  /** A number is truthy when it is neither 0 nor NaN. */
  predicate Truthy(n: Num) {
    n.Finite? && n.value != 0
  }

  predicate IsDigit(c: char) {
    '0' <= c <= '9'
  }

  predicate AllDigits(s: string) {
    forall k :: 0 <= k < |s| ==> IsDigit(s[k])
  }

  function DigitChar(d: nat): char
    requires d < 10
  {
    ('0' as int + d) as char
  }

  function DigitValue(c: char): nat
    requires IsDigit(c)
  {
    c as int - '0' as int
  }

  /** The value of a string of decimal digits (0 for the empty string). */
  function DigitsValue(s: string): nat
    requires AllDigits(s)
  {
    if s == [] then 0 else DigitsValue(s[..|s| - 1]) * 10 + DigitValue(s[|s| - 1])
  }

  /** Decimal text of a natural number, without leading zeros; reading it back gives `n`. */
  function NatText(n: nat): (s: string)
    ensures s != [] && AllDigits(s)
    ensures DigitsValue(s) == n
  {
    if n < 10 then [DigitChar(n)]
    else
      var s := NatText(n / 10) + [DigitChar(n % 10)];
      assert s[..|s| - 1] == NatText(n / 10);
      s
  }

  /** `String(i)` for an integer. */
  function IntText(i: int): string {
    if i < 0 then "-" + NatText(-i) else NatText(i)
  }

  /**
   * `Number(s)` for text in integer notation: surrounding whitespace is ignored, blank text
   * is 0, an optional sign may precede the digits, and anything else is NaN.
   */
  function ParseNumber(s: string): Num {
    var t := Trim(s);
    if t == [] then Finite(0)
    else if (t[0] == '-' || t[0] == '+') && |t| > 1 && AllDigits(t[1..]) then
      var v: int := DigitsValue(t[1..]);
      Finite(if t[0] == '-' then -v else v)
    else if AllDigits(t) then Finite(DigitsValue(t))
    else NaN
  }

  /** `Number(String(i)) == i`. */
  lemma ParseIntText(i: int)
    ensures ParseNumber(IntText(i)) == Finite(i)
  {
    var s := IntText(i);
    assert IsTrimmed(s);
    TrimOfTrimmed(s);
    if i < 0 {
      assert s[1..] == NatText(-i);
    }
  }

  /** The value of at most two digits after a decimal point, in cents. */
  function FractionCents(f: string): nat
    requires |f| <= 2 && AllDigits(f)
  {
    if |f| == 0 then 0
    else if |f| == 1 then DigitValue(f[0]) * 10
    else DigitValue(f[0]) * 10 + DigitValue(f[1])
  }

  /** The digits after the decimal point of `String(amount)`, without trailing zeros. */
  function FractionText(cents: nat): string
    requires cents < 100
  {
    if cents == 0 then ""
    else if cents % 10 == 0 then [DigitChar(cents / 10)]
    else [DigitChar(cents / 10), DigitChar(cents % 10)]
  }

  /** `String(x)` for a non-negative amount `x` given in cents. */
  function UnsignedCentsText(m: nat): string {
    if m % 100 == 0 then NatText(m / 100) else NatText(m / 100) + "." + FractionText(m % 100)
  }

  /** `String(amount)` for an amount of money given in cents: "-4.5", "12", "0.05". */
  function CentsText(cents: int): string {
    if cents < 0 then "-" + UnsignedCentsText(-cents) else UnsignedCentsText(cents)
  }

  /** `Number(u)` in cents for unsigned text: digits with at most two decimals, else NaN. */
  function ParseUnsignedCents(u: string): Num {
    var parts := Split(u, '.');
    if |parts| == 1 && parts[0] != [] && AllDigits(parts[0]) then
      Finite(DigitsValue(parts[0]) * 100)
    else if |parts| == 2 && (parts[0] != [] || parts[1] != []) && AllDigits(parts[0])
            && AllDigits(parts[1]) && |parts[1]| <= 2 then
      Finite(DigitsValue(parts[0]) * 100 + FractionCents(parts[1]))
    else NaN
  }

  /**
   * `Number(s)` in cents: surrounding whitespace is ignored, blank text is 0, an optional
   * sign may precede the unsigned part, and anything else is NaN.
   */
  function ParseCents(s: string): Num {
    var t := Trim(s);
    if t == [] then Finite(0)
    else
      var u := if t[0] == '-' || t[0] == '+' then t[1..] else t;
      match ParseUnsignedCents(u)
      case NaN => NaN
      case Finite(v) => Finite(if t[0] == '-' then -v else v)
  }

  lemma FractionRoundTrip(cents: nat)
    requires 0 < cents < 100
    ensures |FractionText(cents)| <= 2 && AllDigits(FractionText(cents))
    ensures FractionText(cents) != [] && FractionCents(FractionText(cents)) == cents
  {
  }

  lemma UnsignedCentsShape(m: nat)
    ensures var b := UnsignedCentsText(m); b != [] && IsDigit(b[0]) && IsDigit(b[|b| - 1])
  {
    if m % 100 != 0 {
      FractionRoundTrip(m % 100);
    }
  }

  lemma UnsignedCentsSplit(m: nat)
    ensures m % 100 == 0 ==> Split(UnsignedCentsText(m), '.') == [NatText(m / 100)]
    ensures m % 100 != 0 ==>
      Split(UnsignedCentsText(m), '.') == [NatText(m / 100), FractionText(m % 100)]
  {
    var whole := NatText(m / 100);
    assert '.' !in whole by {
      assert forall k :: 0 <= k < |whole| ==> IsDigit(whole[k]);
    }
    if m % 100 == 0 {
      SplitNoSeparator(whole, '.');
    } else {
      var f := FractionText(m % 100);
      FractionRoundTrip(m % 100);
      assert '.' !in f by {
        assert forall k :: 0 <= k < |f| ==> IsDigit(f[k]);
      }
      assert Join([whole, f], '.') == UnsignedCentsText(m);
      SplitJoin([whole, f], '.');
    }
  }

  lemma UnsignedCentsRoundTrip(m: nat)
    ensures ParseUnsignedCents(UnsignedCentsText(m)) == Finite(m)
  {
    UnsignedCentsSplit(m);
    if m % 100 != 0 {
      FractionRoundTrip(m % 100);
    }
  }

  /** Reading back the text of an amount gives the amount: `Number(String(x)) == x`. */
  lemma {:induction false} ParseCentsText(cents: int)
    ensures ParseCents(CentsText(cents)) == Finite(cents)
  {
    var m: nat := if cents < 0 then -cents else cents;
    var b := UnsignedCentsText(m);
    var s := CentsText(cents);
    UnsignedCentsShape(m);
    UnsignedCentsRoundTrip(m);
    assert IsTrimmed(s);
    TrimOfTrimmed(s);
    if cents < 0 {
      assert s[1..] == b;
    }
  }

  /** Different amounts have different texts. */
  lemma {:induction false} CentsTextInjective(a: int, b: int)
    requires CentsText(a) == CentsText(b)
    ensures a == b
  {
    ParseCentsText(a);
    ParseCentsText(b);
  }

  /** `Math.ceil(n / d)`: the least quotient that covers `n`. */
  function CeilDiv(n: nat, d: nat): (q: nat)
    requires d >= 1
    ensures q * d >= n
    ensures q == 0 || (q - 1) * d < n
  {
    var q := (n + d - 1) / d;
    var r := (n + d - 1) % d;
    assert n + d - 1 == q * d + r && 0 <= r < d;
    assert (q - 1) * d == q * d - d;
    q
  }

  /**
   * `Math.max(1, Math.ceil(total / limit))`: the least page count, and at least one,
   * whose pages hold `total` items `limit` at a time.
   */
  function TotalPages(total: nat, limit: nat): (p: nat)
    requires limit >= 1
    ensures p >= 1
    ensures total <= p * limit
    ensures p == 1 || (p - 1) * limit < total
  {
    Max(1, CeilDiv(total, limit))
  }

  /** `(page - 1) * limit`, the number of items before a page, counted up page by page. */
  function PageOffset(page: int, limit: nat): nat
    requires page >= 1
  {
    if page == 1 then 0 else PageOffset(page - 1, limit) + limit
  }

  lemma {:induction false} PageOffsetValue(page: int, limit: nat)
    requires page >= 1
    ensures PageOffset(page, limit) == (page - 1) * limit
  {
    if page > 1 {
      PageOffsetValue(page - 1, limit);
      assert (page - 2) * limit + limit == (page - 1) * limit;
    }
  }

  /** The page that shows the item at position `k`. */
  function PageOfItem(k: nat, limit: nat): (page: int)
    requires limit >= 1
    ensures page >= 1
  {
    k / limit + 1
  }

  /** The item at position `k` lies on page `PageOfItem(k, limit)`, which is within the total. */
  lemma PageOfPosition(k: nat, n: nat, limit: nat)
    requires limit >= 1 && k < n
    ensures var page := PageOfItem(k, limit);
            && page <= TotalPages(n, limit)
            && PageOffset(page, limit) <= k < PageOffset(page, limit) + limit
  {
    var q, r := k / limit, k % limit;
    assert k == q * limit + r && 0 <= r < limit;
    PageOffsetValue(q + 1, limit);
    var p := TotalPages(n, limit);
    assert n <= p * limit;
    if q >= p {
      MulMonotone(p, q, limit);
    }
  }

  lemma {:induction false} MulMonotone(a: nat, b: nat, c: nat)
    requires a <= b
    ensures a * c <= b * c
  {
    if c > 0 {
      MulMonotone(a, b, c - 1);
      assert a * c == a * (c - 1) + a && b * c == b * (c - 1) + b;
    }
  }

  /** `limit ... offset ...`: the items from `offset` on, at most `limit` of them. */
  function PageSlice<T>(xs: seq<T>, offset: nat, limit: nat): (r: seq<T>)
    ensures |r| == if offset >= |xs| then 0 else Min(limit, |xs| - offset)
    ensures forall i :: 0 <= i < |r| ==> r[i] == xs[offset + i]
  {
    if offset >= |xs| then [] else xs[offset..Min(|xs|, offset + limit)]
  }

  /** `hasMore = page < totalPages`: there is more exactly when the next page starts at an item. */
  lemma HasMoreMeaning(total: nat, page: int, limit: nat)
    requires page >= 1 && limit >= 1
    ensures page < TotalPages(total, limit) <==> PageOffset(page + 1, limit) < total
  {
    PageOffsetValue(page + 1, limit);
    var p := TotalPages(total, limit);
    if page < p {
      MulMonotone(page, p - 1, limit);
    } else {
      MulMonotone(p, page, limit);
    }
  }
}
