/** A database table seen as the sequence of its rows, and the two queryset
    operations the domain rules use on it: `.filter(...)`, which keeps the rows
    matching a condition in table order, and `.update(...)`, which rewrites the
    matching rows in place and reports how many it matched; plus the creation
    stamp a row receives when it is first stored. */
module Rows {
  import opened Results

  /** `.filter(keep)`: the rows satisfying `keep`, in their original order (stated by `FilterAppend`). */
  function Filter<T(!new)>(s: seq<T>, keep: T -> bool): (r: seq<T>)
    ensures |r| <= |s|
    ensures forall x :: x in r <==> x in s && keep(x)
    ensures forall i :: 0 <= i < |r| ==> keep(r[i])
  {
    if s == [] then []
    else if keep(s[0]) then [s[0]] + Filter(s[1..], keep)
    else Filter(s[1..], keep)
  }

  /** Filtering a table split in two filters each part and keeps the first
      part's rows ahead of the second's: together with the one-row case this
      says `Filter` keeps the rows in their original order. */
  lemma {:induction false} FilterAppend<T(!new)>(s: seq<T>, t: seq<T>, keep: T -> bool)
    ensures Filter(s + t, keep) == Filter(s, keep) + Filter(t, keep)
    ensures |t| == 1 ==> Filter(t, keep) == (if keep(t[0]) then t else [])
  {
    if s != [] {
      assert (s + t)[1..] == s[1..] + t;
      FilterAppend(s[1..], t, keep);
    } else {
      assert s + t == t;
    }
  }

  /** Filtering by `p` and then by `q` is filtering by their conjunction `pq`. */
  lemma {:induction false} FilterFilter<T(!new)>(s: seq<T>, p: T -> bool, q: T -> bool, pq: T -> bool)
    requires forall x :: pq(x) == (p(x) && q(x))
    ensures Filter(Filter(s, p), q) == Filter(s, pq)
  {
    if s != [] {
      FilterFilter(s[1..], p, q, pq);
    }
  }

  /** The number of rows satisfying `p`: what `.update(...)` reports. */
  function Count<T>(s: seq<T>, p: T -> bool): (n: nat)
    ensures n <= |s|
    ensures n == 0 <==> forall i :: 0 <= i < |s| ==> !p(s[i])
  {
    if s == [] then 0
    else (if p(s[0]) then 1 else 0) + Count(s[1..], p)
  }

  /** The count `.update(...)` reports is the number of rows the same filter returns. */
  lemma {:induction false} CountIsFilterLength<T(!new)>(s: seq<T>, p: T -> bool)
    ensures Count(s, p) == |Filter(s, p)|
  {
    if s != [] {
      CountIsFilterLength(s[1..], p);
    }
  }

  /** A creation stamp (`auto_now_add`): `None` on an instance that was never
      stored; the save that inserts the row sets it to the current time `now`,
      and no later save changes it. */
  function StampOnInsert(createdAt: Option<int>, now: int): (r: Option<int>)
    ensures r.Some?
    ensures createdAt.Some? ==> r == createdAt
    ensures createdAt.None? ==> r == Some(now)
  {
    if createdAt.None? then Some(now) else createdAt
  }

  /** Once a row has been stored, its creation stamp is fixed: saving it again
      at any later time keeps the stamp of the inserting save. */
  lemma StampFixedOnceSet(createdAt: Option<int>, now: int, later: int)
    ensures StampOnInsert(StampOnInsert(createdAt, now), later) == StampOnInsert(createdAt, now)
    ensures createdAt.None? ==> StampOnInsert(StampOnInsert(createdAt, now), later) == Some(now)
  {
  }

  /** What a bulk update returns: the rewritten table and the number of rows it matched. */
  datatype Updated<T> = Updated(rows: seq<T>, count: nat)

  /** `.filter(selected).update(...)`: every selected row is rewritten by `f`,
      every other row is left exactly as it was, the table keeps its length and
      order, and the reported count is the number of selected rows. */
  function UpdateWhere<T>(s: seq<T>, selected: T -> bool, f: T -> T): (r: Updated<T>)
    ensures |r.rows| == |s|
    ensures forall i :: 0 <= i < |s| && selected(s[i]) ==> r.rows[i] == f(s[i])
    ensures forall i :: 0 <= i < |s| && !selected(s[i]) ==> r.rows[i] == s[i]
    ensures r.count == Count(s, selected)
  {
    Updated(seq(|s|, i requires 0 <= i < |s| => if selected(s[i]) then f(s[i]) else s[i]), Count(s, selected))
  }
}
