/** `ORDER BY <column> ASC|DESC` over job rows. SQLite orders NULL before
    integers and integers before text, and compares text with the BINARY
    collation (code point by code point). The engine is free to order rows
    with equal keys any way it likes; `SortRows` fixes one such order, and
    everything proved about it holds of any order sorted by the key. */
module Ordering {
  import opened Common
  import opened Store

  /** The sort columns the list endpoint allows. */
  datatype Column = CreatedAt | UpdatedAt | Company | Position | StatusColumn | AppliedDate

  datatype Direction = Asc | Desc

  function ColumnName(c: Column): string {
    match c
    case CreatedAt => "created_at"
    case UpdatedAt => "updated_at"
    case Company => "company"
    case Position => "position"
    case StatusColumn => "status"
    case AppliedDate => "applied_date"
  }

  /** The allow-list, in the order the source lists it. */
  const SortColumnNames: seq<string> :=
    ["created_at", "updated_at", "company", "position", "status", "applied_date"]

  datatype Key = NullKey | IntKey(i: int) | TextKey(t: string)

  function OptionalText(o: Option<string>): Key {
    if o.Some? then TextKey(o.value) else NullKey
  }

  function SortKey(j: Job, c: Column): Key {
    match c
    case CreatedAt => IntKey(j.createdAt)
    case UpdatedAt => IntKey(j.updatedAt)
    case Company => TextKey(j.company)
    case Position => TextKey(j.position)
    case StatusColumn => OptionalText(j.status)
    case AppliedDate => OptionalText(j.appliedDate)
  }

  /** BINARY collation: lexicographic by code point. */
  predicate LexLe(a: string, b: string)
    decreases |a|
  {
    a == [] || (b != [] && (a[0] < b[0] || (a[0] == b[0] && LexLe(a[1..], b[1..]))))
  }

  function Rank(k: Key): nat {
    match k
    case NullKey => 0
    case IntKey(_) => 1
    case TextKey(_) => 2
  }

  /** SQLite's ascending order on the storage classes used here. */
  predicate KeyLe(a: Key, b: Key) {
    if Rank(a) != Rank(b) then Rank(a) < Rank(b)
    else match a
      case NullKey => true
      case IntKey(x) => x <= b.i
      case TextKey(x) => LexLe(x, b.t)
  }

  /** Row `a` may precede row `b` in the requested order. */
  predicate InOrder(a: Job, b: Job, c: Column, d: Direction) {
    if d == Asc then KeyLe(SortKey(a, c), SortKey(b, c)) else KeyLe(SortKey(b, c), SortKey(a, c))
  }

  predicate Sorted(s: seq<Job>, c: Column, d: Direction) {
    forall i, k :: 0 <= i < k < |s| ==> InOrder(s[i], s[k], c, d)
  }

  /** A run of consecutive rows of a sorted sequence is sorted. */
  lemma RunOfSorted(s: seq<Job>, w: seq<Job>, start: nat, c: Column, d: Direction)
    requires Sorted(s, c, d)
    requires forall n :: 0 <= n < |w| ==> start + n < |s| && w[n] == s[start + n]
    ensures Sorted(w, c, d)
  {
    forall a, b | 0 <= a < b < |w| ensures InOrder(w[a], w[b], c, d) {
      var x, y := w[a], w[b];
      assert x == s[start + a] && y == s[start + b];
    }
  }

  lemma {:induction false} LexLeTotal(a: string, b: string)
    ensures LexLe(a, b) || LexLe(b, a)
    decreases |a|
  {
    if a != [] && b != [] && a[0] == b[0] {
      LexLeTotal(a[1..], b[1..]);
    }
  }

  lemma {:induction false} LexLeTransitive(a: string, b: string, c: string)
    requires LexLe(a, b) && LexLe(b, c)
    ensures LexLe(a, c)
    decreases |a|
  {
    if a != [] && a[0] == b[0] && b[0] == c[0] {
      LexLeTransitive(a[1..], b[1..], c[1..]);
    }
  }

  lemma KeyLeTotal(a: Key, b: Key)
    ensures KeyLe(a, b) || KeyLe(b, a)
  {
    if a.TextKey? && b.TextKey? {
      LexLeTotal(a.t, b.t);
    }
  }

  lemma KeyLeTransitive(a: Key, b: Key, c: Key)
    requires KeyLe(a, b) && KeyLe(b, c)
    ensures KeyLe(a, c)
  {
    if a.TextKey? && b.TextKey? && c.TextKey? {
      LexLeTransitive(a.t, b.t, c.t);
    }
  }

  lemma InOrderTotal(a: Job, b: Job, c: Column, d: Direction)
    ensures InOrder(a, b, c, d) || InOrder(b, a, c, d)
  {
    KeyLeTotal(SortKey(a, c), SortKey(b, c));
  }

  lemma InOrderTransitive(a: Job, b: Job, e: Job, c: Column, d: Direction)
    requires InOrder(a, b, c, d) && InOrder(b, e, c, d)
    ensures InOrder(a, e, c, d)
  {
    if d == Asc {
      KeyLeTransitive(SortKey(a, c), SortKey(b, c), SortKey(e, c));
    } else {
      KeyLeTransitive(SortKey(e, c), SortKey(b, c), SortKey(a, c));
    }
  }

  /** Puts `x` in front of the first row it may precede. */
  function Insert(x: Job, s: seq<Job>, c: Column, d: Direction): (r: seq<Job>)
    ensures multiset(r) == multiset(s) + multiset{x}
    decreases |s|
  {
    if s == [] then [x]
    else if InOrder(x, s[0], c, d) then [x] + s
    else
      assert s == [s[0]] + s[1..];
      [s[0]] + Insert(x, s[1..], c, d)
  }

  /** A row that may precede every row of a sorted sequence can head it. */
  lemma SortedCons(y: Job, s: seq<Job>, c: Column, d: Direction)
    requires Sorted(s, c, d)
    requires forall z :: z in s ==> InOrder(y, z, c, d)
    ensures Sorted([y] + s, c, d)
  {
    var r := [y] + s;
    forall i, k | 0 <= i < k < |r| ensures InOrder(r[i], r[k], c, d) {
      if i == 0 {
        assert r[k] == s[k - 1];
      } else {
        assert r[i] == s[i - 1] && r[k] == s[k - 1];
      }
    }
  }

  /** The head of a sorted sequence may precede all of it. */
  lemma SortedHeadFirst(y: Job, s: seq<Job>, c: Column, d: Direction)
    requires Sorted(s, c, d) && s != [] && InOrder(y, s[0], c, d)
    ensures forall z :: z in s ==> InOrder(y, z, c, d)
  {
    forall z | z in s ensures InOrder(y, z, c, d) {
      var k :| 0 <= k < |s| && s[k] == z;
      if k > 0 {
        InOrderTransitive(y, s[0], z, c, d);
      }
    }
  }

  lemma InsertMembers(x: Job, s: seq<Job>, c: Column, d: Direction)
    ensures forall y :: y in Insert(x, s, c, d) ==> y == x || y in s
  {
    var r := Insert(x, s, c, d);
    forall y | y in r ensures y == x || y in s {
      assert y in multiset(r);
    }
  }

  lemma {:induction false} InsertKeepsSorted(x: Job, s: seq<Job>, c: Column, d: Direction)
    requires Sorted(s, c, d)
    ensures Sorted(Insert(x, s, c, d), c, d)
    decreases |s|
  {
    if s != [] {
      if InOrder(x, s[0], c, d) {
        SortedHeadFirst(x, s, c, d);
        SortedCons(x, s, c, d);
      } else {
        InOrderTotal(x, s[0], c, d);
        var rest := Insert(x, s[1..], c, d);
        assert Sorted(s[1..], c, d);
        InsertKeepsSorted(x, s[1..], c, d);
        InsertMembers(x, s[1..], c, d);
        forall y | y in rest ensures InOrder(s[0], y, c, d) {
          if y != x {
            var k :| 0 <= k < |s[1..]| && s[1..][k] == y;
            assert s[k + 1] == y;
          }
        }
        SortedCons(s[0], rest, c, d);
      }
    }
  }

  /** `ORDER BY c d`: a permutation of the rows, sorted by the column. */
  function SortRows(s: seq<Job>, c: Column, d: Direction): (r: seq<Job>)
    ensures multiset(r) == multiset(s)
    ensures Sorted(r, c, d)
    decreases |s|
  {
    if s == [] then []
    else
      var rest := SortRows(s[1..], c, d);
      SortStep(s, rest, c, d);
      Insert(s[0], rest, c, d)
  }

  /** Inserting the head into the sorted tail sorts the whole sequence. */
  lemma SortStep(s: seq<Job>, rest: seq<Job>, c: Column, d: Direction)
    requires s != [] && multiset(rest) == multiset(s[1..]) && Sorted(rest, c, d)
    ensures multiset(Insert(s[0], rest, c, d)) == multiset(s)
    ensures Sorted(Insert(s[0], rest, c, d), c, d)
  {
    InsertKeepsSorted(s[0], rest, c, d);
    assert s == [s[0]] + s[1..];
  }

  /** Sorting neither adds nor loses rows. */
  lemma SortRowsSameRows(s: seq<Job>, c: Column, d: Direction)
    ensures |SortRows(s, c, d)| == |s|
    ensures forall j :: j in SortRows(s, c, d) <==> j in s
  {
    var r := SortRows(s, c, d);
    assert |multiset(r)| == |multiset(s)|;
    forall j ensures j in r <==> j in s {
      assert j in r <==> j in multiset(r);
      assert j in s <==> j in multiset(s);
    }
  }
}
