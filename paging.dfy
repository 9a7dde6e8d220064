/** `LIMIT ? OFFSET ?` and the page count `Math.ceil(total / limit)` of the
    list endpoint. */
module Paging {
  import opened Common

  /** SQLite treats a negative OFFSET as zero. */
  function Start(offset: int): nat {
    if offset < 0 then 0 else offset
  }

  /** `LIMIT limit OFFSET offset` for a positive limit: the rows from the
      offset on, at most `limit` of them. */
  function Window<T>(s: seq<T>, offset: int, limit: nat): (w: seq<T>)
    ensures |w| <= limit
    ensures |w| == if Start(offset) >= |s| then 0
                   else if |s| - Start(offset) < limit then |s| - Start(offset)
                   else limit
    ensures forall i :: 0 <= i < |w| ==> Start(offset) + i < |s| && w[i] == s[Start(offset) + i]
  {
    var a := if Start(offset) > |s| then |s| else Start(offset);
    var b := if a + limit > |s| then |s| else a + limit;
    s[a..b]
  }

  /** How many rows lie at or after the offset. */
  function Available(n: nat, offset: int): nat {
    if Start(offset) >= n then 0 else n - Start(offset)
  }

  /** `LIMIT limit OFFSET offset` for any integer limit: a negative limit
      sets no upper bound, a limit of zero selects nothing. The result is
      the run of consecutive rows that starts at the offset, as long as the
      limit allows. */
  function LimitOffset<T>(s: seq<T>, offset: int, limit: int): (w: seq<T>)
    ensures |w| == if limit < 0 || Available(|s|, offset) < limit then Available(|s|, offset) else limit
    ensures forall i :: 0 <= i < |w| ==> Start(offset) + i < |s| && w[i] == s[Start(offset) + i]
  {
    if limit >= 0 then Window(s, offset, limit)
    else if Start(offset) >= |s| then []
    else s[Start(offset)..]
  }

  /** Every row of a window is the row at the same distance from the
      offset. */
  lemma LimitOffsetAt<T>(s: seq<T>, offset: int, limit: int)
    ensures forall i :: 0 <= i < |LimitOffset(s, offset, limit)| ==>
      Start(offset) + i < |s| && LimitOffset(s, offset, limit)[i] == s[Start(offset) + i]
  {
    var w := LimitOffset(s, offset, limit);
    if limit >= 0 {
      assert w == Window(s, offset, limit);
    } else if Start(offset) < |s| {
      assert w == s[Start(offset)..];
      assert forall i :: 0 <= i < |w| ==> w[i] == s[Start(offset) + i];
    }
  }

  /** A window holds rows of the listing only. */
  lemma LimitOffsetWithin<T>(s: seq<T>, offset: int, limit: int)
    ensures forall j :: j in LimitOffset(s, offset, limit) ==> j in s
  {
    var w := LimitOffset(s, offset, limit);
    LimitOffsetAt(s, offset, limit);
    forall j | j in w ensures j in s {
      var n :| 0 <= n < |w| && w[n] == j;
      assert s[Start(offset) + n] == j;
    }
  }

  /** `Math.ceil(total / limit)` for a positive limit. */
  function PageCount(total: nat, limit: nat): (pages: nat)
    requires limit >= 1
    ensures pages * limit >= total
    ensures pages == 0 || (pages - 1) * limit < total
  {
    var q := (total + limit - 1) / limit;
    var r := (total + limit - 1) % limit;
    assert total + limit - 1 == q * limit + r;
    assert q * limit == total + limit - 1 - r;
    q
  }

  /** `Math.ceil(total / limit)` for any integer limit, as it appears in
      the JSON response: a division by zero gives Infinity or NaN, both
      serialised as `null` (here `None`); a negative limit gives the ceiling
      of a negative quotient. */
  function Pages(total: nat, limit: int): (r: Option<int>)
    ensures limit > 0 ==> r == Some(PageCount(total, limit))
    ensures limit == 0 <==> r.None?
    ensures limit < 0 ==> r.Some? && r.value <= 0 && r.value * limit <= total < (r.value - 1) * limit
  {
    if limit > 0 then Some(PageCount(total, limit))
    else if limit == 0 then None
    else
      var q := total / -limit;
      assert q * -limit <= total < (q + 1) * -limit;
      Some(-q)
  }

  lemma MulMonotone(a: nat, b: nat, limit: nat)
    requires a <= b
    ensures a * limit <= b * limit
  {
    var d := b - a;
    assert b * limit == a * limit + d * limit;
  }

  /** The two bounds of `PageCount` pin it down. */
  lemma PageCountUnique(total: nat, limit: nat, p: nat)
    requires limit >= 1
    requires p * limit >= total && (p == 0 || (p - 1) * limit < total)
    ensures p == PageCount(total, limit)
  {
    var q := PageCount(total, limit);
    if p < q {
      MulMonotone(p, q - 1, limit);
    } else if q < p {
      MulMonotone(q, p - 1, limit);
    }
  }

  /** One more full page of rows is one more page. */
  lemma PageCountStep(total: nat, limit: nat)
    requires limit >= 1 && total > limit
    ensures PageCount(total, limit) == 1 + PageCount(total - limit, limit)
  {
    var q := PageCount(total - limit, limit);
    assert (q + 1) * limit == q * limit + limit;
    assert q * limit == (q - 1) * limit + limit;
    PageCountUnique(total, limit, q + 1);
  }

  lemma PageCountOne(total: nat, limit: nat)
    requires limit >= 1 && 0 < total <= limit
    ensures PageCount(total, limit) == 1
  {
    PageCountUnique(total, limit, 1);
  }

  lemma PageCountZero(limit: nat)
    requires limit >= 1
    ensures PageCount(0, limit) == 0
  {
    PageCountUnique(0, limit, 0);
  }

  /** Pages `first + 1` to `first + n` (1-based), one after the other. */
  function ConcatPages<T>(s: seq<T>, limit: nat, first: nat, n: nat): seq<T>
    decreases n
  {
    if n == 0 then [] else Window(s, first * limit, limit) + ConcatPages(s, limit, first + 1, n - 1)
  }

  lemma {:induction false} ConcatPagesFrom<T>(s: seq<T>, limit: nat, first: nat, n: nat)
    requires limit >= 1
    requires first * limit <= |s|
    requires n == PageCount(|s| - first * limit, limit)
    ensures ConcatPages(s, limit, first, n) == s[first * limit..]
    decreases n
  {
    var rest := |s| - first * limit;
    if rest == 0 {
      PageCountZero(limit);
    } else if rest <= limit {
      PageCountOne(rest, limit);
      assert Window(s, first * limit, limit) == s[first * limit..];
    } else {
      PageCountStep(rest, limit);
      assert (first + 1) * limit == first * limit + limit;
      ConcatPagesFrom(s, limit, first + 1, n - 1);
      PageThenRest(s, first * limit, limit);
    }
  }

  /** A full page followed by everything after it is everything from the
      page on. */
  lemma PageThenRest<T>(s: seq<T>, a: nat, limit: nat)
    requires a + limit <= |s|
    ensures Window(s, a, limit) + s[a + limit..] == s[a..]
  {
    assert Window(s, a, limit) == s[a..a + limit];
  }

  /** Reading pages 1 to `PageCount(|s|, limit)` in turn returns every row
      exactly once, in order. */
  lemma AllPagesReassemble<T>(s: seq<T>, limit: nat)
    requires limit >= 1
    ensures ConcatPages(s, limit, 0, PageCount(|s|, limit)) == s
  {
    ConcatPagesFrom(s, limit, 0, PageCount(|s|, limit));
  }

  /** Every page past the last one is empty. */
  lemma PagesPastTheEndEmpty<T>(s: seq<T>, limit: nat, page: int)
    requires limit >= 1
    requires page > PageCount(|s|, limit)
    ensures Window(s, (page - 1) * limit, limit) == []
  {
    var p := PageCount(|s|, limit);
    MulMonotone(p, page - 1, limit);
  }
}
