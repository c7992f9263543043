/**
 * The query pipeline shared by the three `Index` actions: filter the table's
 * rows, order them by one key (`OrderBy` / `OrderByDescending`), then take one
 * page (`ToPagedList`).
 */
module Query {
  import opened Wrappers
  import opened Text

  /** A sort key: a number (dates, amounts, balances) or a nullable text column. */
  datatype Key = Num(n: int) | Str(t: Option<string>)

  /**
   * The order the database sorts keys in: numbers numerically, text
   * lexicographically with NULL first. Numbers and text are never compared
   * by the controllers; placing numbers first only makes the order total.
   */
  predicate KeyLe(a: Key, b: Key) {
    match (a, b)
    case (Num(x), Num(y)) => x <= y
    case (Num(_), Str(_)) => true
    case (Str(_), Num(_)) => false
    case (Str(None), Str(_)) => true
    case (Str(Some(_)), Str(None)) => false
    case (Str(Some(x)), Str(Some(y))) => StrLe(x, y)
  }

  lemma KeyLeTotal(a: Key, b: Key)
    ensures KeyLe(a, b) || KeyLe(b, a)
  {
    if a.Str? && b.Str? && a.t.Some? && b.t.Some? {
      StrLeTotal(a.t.value, b.t.value);
    }
  }

  lemma KeyLeTransitive(a: Key, b: Key, c: Key)
    requires KeyLe(a, b) && KeyLe(b, c)
    ensures KeyLe(a, c)
  {
    if a.Str? && b.Str? && c.Str? && a.t.Some? && b.t.Some? && c.t.Some? {
      StrLeTransitive(a.t.value, b.t.value, c.t.value);
    }
  }

  /** `a` may come before `b` in an ascending (or, if `descending`, a descending) ordering. */
  predicate InOrder(a: Key, b: Key, descending: bool) {
    if descending then KeyLe(b, a) else KeyLe(a, b)
  }

  lemma InOrderTotal(a: Key, b: Key, descending: bool)
    ensures InOrder(a, b, descending) || InOrder(b, a, descending)
  {
    KeyLeTotal(a, b);
  }

  lemma InOrderTransitive(a: Key, b: Key, c: Key, descending: bool)
    requires InOrder(a, b, descending) && InOrder(b, c, descending)
    ensures InOrder(a, c, descending)
  {
    if descending {
      KeyLeTransitive(c, b, a);
    } else {
      KeyLeTransitive(a, b, c);
    }
  }

  ghost predicate SortedBy<T>(s: seq<T>, key: T -> Key, descending: bool) {
    forall i, j :: 0 <= i < j < |s| ==> InOrder(key(s[i]), key(s[j]), descending)
  }

  /** Inserts `x` before the first element it may precede. */
  function Insert<T>(x: T, s: seq<T>, key: T -> Key, descending: bool): (r: seq<T>)
    ensures multiset(r) == multiset(s) + multiset{x}
  {
    if s == [] then [x]
    else if InOrder(key(x), key(s[0]), descending) then [x] + s
    else
      assert s == [s[0]] + s[1..];
      [s[0]] + Insert(x, s[1..], key, descending)
  }

  lemma {:induction false} InsertKeepsSorted<T>(x: T, s: seq<T>, key: T -> Key, descending: bool)
    requires SortedBy(s, key, descending)
    ensures SortedBy(Insert(x, s, key, descending), key, descending)
  {
    if s == [] {
    } else if InOrder(key(x), key(s[0]), descending) {
      var r := [x] + s;
      forall i, j | 0 <= i < j < |r| ensures InOrder(key(r[i]), key(r[j]), descending) {
        if i == 0 && j > 1 {
          InOrderTransitive(key(x), key(s[0]), key(s[j - 1]), descending);
        }
      }
    } else {
      var tail := Insert(x, s[1..], key, descending);
      InsertKeepsSorted(x, s[1..], key, descending);
      var r := [s[0]] + tail;
      forall i, j | 0 <= i < j < |r| ensures InOrder(key(r[i]), key(r[j]), descending) {
        assert r[j] == tail[j - 1];
        if i == 0 {
          assert r[i] == s[0];
          HeadPrecedesInsert(x, s, key, descending, j - 1);
        } else {
          assert r[i] == tail[i - 1];
        }
      }
    }
  }

  /** When `x` goes after the head of a sorted `s`, the head precedes everything it is inserted among. */
  lemma HeadPrecedesInsert<T>(x: T, s: seq<T>, key: T -> Key, descending: bool, j: int)
    requires SortedBy(s, key, descending) && s != []
    requires !InOrder(key(x), key(s[0]), descending)
    requires 0 <= j < |Insert(x, s[1..], key, descending)|
    ensures InOrder(key(s[0]), key(Insert(x, s[1..], key, descending)[j]), descending)
  {
    InOrderTotal(key(x), key(s[0]), descending);
    var tail := Insert(x, s[1..], key, descending);
    var y := tail[j];
    assert y in multiset(tail);
    assert y in multiset(s[1..]) + multiset{x};
    if y != x {
      assert y in s[1..];
      var k :| 0 <= k < |s[1..]| && s[1..][k] == y;
      assert s[k + 1] == y;
    }
  }

  /** Orders `s` by `key` (insertion sort); ties keep no particular order. */
  function SortBy<T>(s: seq<T>, key: T -> Key, descending: bool): (r: seq<T>)
    ensures multiset(r) == multiset(s)
    ensures SortedBy(r, key, descending)
  {
    if s == [] then []
    else
      assert s == [s[0]] + s[1..];
      var rest := SortBy(s[1..], key, descending);
      InsertKeepsSorted(s[0], rest, key, descending);
      Insert(s[0], rest, key, descending)
  }

  /** `Where(keep)`: the rows that satisfy `keep`, in their original order. */
  function Filter<T>(s: seq<T>, keep: T -> bool): (r: seq<T>)
    ensures forall i :: 0 <= i < |r| ==> r[i] in s && keep(r[i])
    ensures forall i :: 0 <= i < |s| && keep(s[i]) ==> s[i] in r
    ensures multiset(r) <= multiset(s)
  {
    if s == [] then []
    else
      assert s == [s[0]] + s[1..];
      var rest := Filter(s[1..], keep);
      if keep(s[0]) then [s[0]] + rest else rest
  }

  /** `Where` keeps every copy of a kept element and no copy of a dropped one. */
  lemma {:induction false} FilterCounts<T>(s: seq<T>, keep: T -> bool, x: T)
    ensures multiset(Filter(s, keep))[x] == if keep(x) then multiset(s)[x] else 0
  {
    if s != [] {
      assert s == [s[0]] + s[1..];
      FilterCounts(s[1..], keep, x);
    }
  }

  /**
   * `ToPagedList(number, size)`: the `number`-th run of `size` consecutive
   * elements, counting from 1; empty past the end. The paging library rejects a
   * page number below 1 (it throws), which is `None` here.
   */
  function Page<T>(s: seq<T>, number: int, size: int): (r: Option<seq<T>>)
    requires size >= 1
    ensures r.Some? <==> number >= 1
    ensures r.Some? ==> |r.value| <= size
    ensures r.Some? ==> forall i :: 0 <= i < |r.value| ==>
      (number - 1) * size + i < |s| && r.value[i] == s[(number - 1) * size + i]
    ensures r.Some? && number * size <= |s| ==> |r.value| == size
    // the last page holds what is left, and a page past the end is empty
    ensures r.Some? ==>
      |r.value| == (if |s| <= (number - 1) * size then 0
                    else if |s| < number * size then |s| - (number - 1) * size
                    else size)
  {
    if number < 1 then None
    else
      var start := (number - 1) * size;
      if |s| <= start then Some([])
      else if |s| < start + size then Some(s[start..])
      else Some(s[start..start + size])
  }

  /** Every element is on the page its index falls in. */
  lemma PageHolds<T>(s: seq<T>, i: int, size: int)
    requires 0 <= i < |s| && size >= 1
    ensures Page(s, i / size + 1, size).Some?
    ensures s[i] in Page(s, i / size + 1, size).value
  {
    var q := i / size;
    DivBounds(i, size);
    var start := q * size;
    assert (q + 1 - 1) * size == start;
    var p := Page(s, q + 1, size).value;
    assert |p| > i - start;
    assert p[i - start] == s[i];
  }

  lemma DivBounds(i: int, size: int)
    requires i >= 0 && size >= 1
    ensures i / size * size <= i < i / size * size + size
  {
    var q, m := i / size, i % size;
    assert i == q * size + m;
  }

  /** A page of an ordered sequence holds only its elements, still in order. */
  lemma PageOfOrdered<T>(s: seq<T>, number: int, size: int, before: (T, T) -> bool)
    requires size >= 1 && number >= 1
    requires forall i, j :: 0 <= i < j < |s| ==> before(s[i], s[j])
    ensures var p := Page(s, number, size).value;
      && (forall t :: t in p ==> t in s)
      && (forall i, j :: 0 <= i < j < |p| ==> before(p[i], p[j]))
  {
    PageWithin(s, number, size);
    PageOrdered(s, number, size, before);
  }

  lemma PageWithin<T>(s: seq<T>, number: int, size: int)
    requires size >= 1 && number >= 1
    ensures forall t :: t in Page(s, number, size).value ==> t in s
  {
    var p := Page(s, number, size).value;
    var start := (number - 1) * size;
    forall t | t in p ensures t in s {
      var i :| 0 <= i < |p| && p[i] == t;
      assert s[start + i] == t;
    }
  }

  lemma PageOrdered<T>(s: seq<T>, number: int, size: int, before: (T, T) -> bool)
    requires size >= 1 && number >= 1
    requires forall i, j :: 0 <= i < j < |s| ==> before(s[i], s[j])
    ensures var p := Page(s, number, size).value;
      forall i, j :: 0 <= i < j < |p| ==> before(p[i], p[j])
  {
    var p := Page(s, number, size).value;
    var start := (number - 1) * size;
    forall i, j | 0 <= i < j < |p| ensures before(p[i], p[j]) {
      assert p[i] == s[start + i] && p[j] == s[start + j];
    }
  }
}
