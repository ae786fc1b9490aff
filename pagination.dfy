/**
 * The paging shared by `ListBooks` and `ListReaders`: validation of the
 * `page` and `per_page` parameters, their normalisation, and the
 * offset/limit slice of an ordered listing.
 */
module Pagination {
  import opened Wrappers
  import opened Text
  import opened LibraryResult

  const MaxPerPage := 50
  const DefaultPerPage := 20
  const MustBePositive := "must be a positive integer"

  /** `param.present?`: given and not blank (nil is None). */
  predicate Present(p: Option<string>) {
    p.Some? && !Blank(p.value)
  }

  /** A present parameter that does not match `\A\d+\z` is refused; "0" passes. */
  predicate BadNumber(p: Option<string>) {
    Present(p) && !IsDigitString(p.value)
  }

  /** `validate_pagination`: one message on each malformed parameter, `page` first. */
  function PaginationErrors(e: FieldErrors, page: Option<string>, perPage: Option<string>): (e': FieldErrors)
    ensures e'.Keys == e.Keys + (if BadNumber(page) then {"page"} else {}) + (if BadNumber(perPage) then {"per_page"} else {})
    ensures "page" !in e && BadNumber(page) ==> e'["page"] == [MustBePositive]
    ensures "per_page" !in e && BadNumber(perPage) ==> e'["per_page"] == [MustBePositive]
    ensures forall f :: f in e && f != "page" && f != "per_page" ==> e'[f] == e[f]
  {
    var e1 := AddErrorIf(e, BadNumber(page), "page", MustBePositive);
    AddErrorIf(e1, BadNumber(perPage), "per_page", MustBePositive)
  }

  /** `param.to_i`, where `nil.to_i` is 0. */
  function ToIOrZero(p: Option<string>): (n: nat)
    ensures p.None? ==> n == 0
  {
    match p
    case None => 0
    case Some(s) => ToI(s)
  }

  /** `normalized_page_number`: the page asked for, or 1 when it is below 1. */
  function NormalizedPage(page: Option<string>): (n: nat)
    ensures n >= 1
    ensures ToIOrZero(page) >= 1 ==> n == ToIOrZero(page)
    ensures n != ToIOrZero(page) ==> n == 1
  {
    var p := ToIOrZero(page);
    if p < 1 then 1 else p
  }

  /** `normalized_per_page_number`: 20 when below 1, otherwise capped at 50. */
  function NormalizedPerPage(perPage: Option<string>): (n: nat)
    ensures 1 <= n <= MaxPerPage
    ensures ToIOrZero(perPage) < 1 ==> n == DefaultPerPage
    ensures 1 <= ToIOrZero(perPage) <= MaxPerPage ==> n == ToIOrZero(perPage)
    ensures ToIOrZero(perPage) > MaxPerPage ==> n == MaxPerPage
  {
    var pp := ToIOrZero(perPage);
    if pp < 1 then DefaultPerPage
    else if pp < MaxPerPage then pp else MaxPerPage
  }

  /** A missing or blank parameter falls back: page 1 and 20 per page. */
  lemma DefaultsWhenAbsent(page: Option<string>, perPage: Option<string>)
    requires !Present(page) && !Present(perPage)
    ensures NormalizedPage(page) == 1 && NormalizedPerPage(perPage) == DefaultPerPage
  {
  }

  /** The number of rows the pages before `page` skip. */
  function Offset(page: nat, perPage: nat): (o: nat)
    requires page >= 1
    ensures page == 1 ==> o == 0
  {
    (page - 1) * perPage
  }

  /**
   * `offset((page - 1) * per_page).limit(per_page)`: at most `perPage` rows,
   * the ones starting at the offset, none when the offset is past the end.
   */
  function Paginate<T>(s: seq<T>, page: nat, perPage: nat): (r: seq<T>)
    requires page >= 1
    ensures |r| <= perPage
    ensures Offset(page, perPage) >= |s| ==> r == []
    ensures Offset(page, perPage) < |s| ==> |r| == if |s| - Offset(page, perPage) < perPage then |s| - Offset(page, perPage) else perPage
    ensures forall i :: 0 <= i < |r| ==> Offset(page, perPage) + i < |s| && r[i] == s[Offset(page, perPage) + i]
  {
    var o := Offset(page, perPage);
    if o >= |s| then []
    else if |s| - o < perPage then s[o..]
    else s[o..o + perPage]
  }

  /**
   * Every row of the listing is on exactly one page: row `k` is at place
   * `k % perPage` of page `k / perPage + 1`, and no other page's range of
   * rows holds it.
   */
  lemma {:induction false} EveryRowOnItsPage<T>(s: seq<T>, perPage: nat, k: nat)
    requires perPage >= 1 && k < |s|
    ensures var r := Paginate(s, k / perPage + 1, perPage);
            k % perPage < |r| && r[k % perPage] == s[k]
    ensures forall p :: p >= 1 && Offset(p, perPage) <= k < Offset(p, perPage) + perPage ==> p == k / perPage + 1
  {
    var q := k / perPage;
    var m := k % perPage;
    assert k == q * perPage + m;
    assert Offset(q + 1, perPage) == q * perPage;
    forall p | p >= 1 && Offset(p, perPage) <= k < Offset(p, perPage) + perPage
      ensures p == q + 1
    {
      UniqueQuotient(perPage, p - 1, k - Offset(p, perPage), q, m);
    }
  }

  /** Division with remainder is unique. */
  lemma UniqueQuotient(d: nat, q1: nat, r1: nat, q2: nat, r2: nat)
    requires d >= 1 && r1 < d && r2 < d && q1 * d + r1 == q2 * d + r2
    ensures q1 == q2
  {
    if q1 < q2 {
      MulSplit(q1, q2 - q1, d);
      AtLeastOnce(q2 - q1, d);
    } else if q2 < q1 {
      MulSplit(q2, q1 - q2, d);
      AtLeastOnce(q1 - q2, d);
    }
  }

  lemma MulSplit(a: nat, b: nat, d: nat)
    ensures (a + b) * d == a * d + b * d
  {
  }

  lemma {:induction false} AtLeastOnce(a: nat, d: nat)
    requires a >= 1
    ensures a * d >= d
  {
    if a > 1 {
      AtLeastOnce(a - 1, d);
      MulSplit(a - 1, 1, d);
    }
  }
}
