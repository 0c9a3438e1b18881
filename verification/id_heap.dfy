/**
  The store of recycled identifiers. The source keeps them in a min-heap
  (a priority queue ordered by std::greater); the model keeps the set of
  stored identifiers and extracts its minimum, which is all the table ever
  asks of the heap.
 */
module IdHeap {
  import opened TagIds

  /** The least member of `s` that is at least `k`: a scan upwards from `k`. */
  function LeastFrom(s: set<TagId>, k: TagId): (m: TagId)
    requires exists x :: x in s && k <= x
    ensures m in s && k <= m
    ensures forall x :: x in s && k <= x ==> m <= x
    decreases MaxTagId - k
  {
    if k in s then k
    else
      assert exists x :: x in s && k + 1 <= x && k + 1 <= MaxTagId;
      LeastFrom(s, k + 1)
  }

  /** The top of the min-heap: its smallest identifier. */
  function Top(s: set<TagId>): (m: TagId)
    requires s != {}
    ensures m in s
    ensures forall x :: x in s ==> m <= x
  {
    assert exists x :: x in s && 0 <= x;
    LeastFrom(s, 0)
  }

  /** The heap after `pop()`: its top removed. */
  function Pop(s: set<TagId>): (s': set<TagId>)
    requires s != {}
    ensures s' < s
    ensures |s'| == |s| - 1
    ensures forall x :: x in s' <==> x in s && x != Top(s)
  {
    s - {Top(s)}
  }

  /** The members of `s` in ascending order, the order successive pops yield. */
  function Drain(s: set<TagId>): (r: seq<TagId>)
    ensures |r| == |s|
    ensures forall x :: x in r <==> x in s
    ensures forall i, j :: 0 <= i < j < |r| ==> r[i] < r[j]
    decreases |s|
  {
    if s == {} then []
    else [Top(s)] + Drain(Pop(s))
  }

  /** A set of identifiers drawn from 1..n has at most n members. */
  lemma {:induction false} BoundedSetSize(s: set<TagId>, n: int)
    requires forall x :: x in s ==> 1 <= x <= n
    ensures |s| <= if n < 0 then 0 else n
    decreases if n < 0 then 0 else n
  {
    if n <= 0 {
      assert s == {};
    } else {
      var s' := s - {n};
      BoundedSetSize(s', n - 1);
      assert s <= s' + {n};
    }
  }

  /** A set of identifiers drawn from 1..n that misses some `y` in 1..n has fewer than n members. */
  lemma {:induction false} BoundedSetSizeMissing(s: set<TagId>, n: int, y: int)
    requires forall x :: x in s ==> 1 <= x <= n
    requires 1 <= y <= n && y !in s
    ensures |s| < n
    decreases n
  {
    if y == n {
      BoundedSetSize(s, n - 1);
    } else {
      var s' := s - {n};
      BoundedSetSizeMissing(s', n - 1, y);
      assert s <= s' + {n};
    }
  }

  /** Any set of identifiers has at most as many members as there are 16-bit values. */
  lemma SetSizeBound(s: set<TagId>)
    ensures |s| <= MaxTagId + 1
  {
    BoundedSetSize(s - {0}, MaxTagId);
    assert s <= (s - {0}) + {0};
  }

  /** The heap built by pushing every identifier of `r`. */
  function Members(r: seq<TagId>): (s: set<TagId>)
    ensures forall x :: x in s <==> x in r
  {
    set x | x in r
  }

  /** Draining the heap yields exactly its members. */
  lemma DrainMembers(s: set<TagId>)
    ensures Members(Drain(s)) == s
  {
  }
}
