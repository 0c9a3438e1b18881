/**
  A book's list of book-tag identifiers and its edits. The list may hold
  repeats and keeps insertion order. Three queries the book asks of its tag
  manager are not declared by the manager: whether an identifier is
  acceptable, whether a tag is the null tag, and which group an identifier
  belongs to. They are parameters here.
 */
module BookTags {
  import opened TagIds
  import TagManager

  /** `r` is `s` with some entries left out and the rest kept in order. */
  ghost predicate Subsequence(r: seq<TagId>, s: seq<TagId>)
    decreases |s|
  {
    if r == [] then true
    else if s == [] then false
    else if r[0] == s[0] then Subsequence(r[1..], s[1..])
    else Subsequence(r, s[1..])
  }

  /** Book::addTag: append the identifier when the check accepts it; repeats are not refused. */
  function AddTag(tags: seq<TagId>, id: TagId, checkTagId: TagId -> bool): (r: seq<TagId>)
    ensures checkTagId(id) ==> |r| == |tags| + 1 && r[..|tags|] == tags && r[|tags|] == id
    ensures !checkTagId(id) ==> r == tags
  {
    if checkTagId(id) then tags + [id] else tags
  }

  /**
    The list without the first occurrence of `id`: the reference for what
    Book::removeTag leaves behind.
   */
  function WithoutFirst(tags: seq<TagId>, id: TagId): (r: seq<TagId>)
    ensures id !in tags ==> r == tags
    ensures id in tags ==> |r| == |tags| - 1 && multiset(r) == multiset(tags) - multiset{id}
    ensures Subsequence(r, tags)
  {
    if tags == [] then []
    else if tags[0] == id then
      assert tags == [tags[0]] + tags[1..];
      SubsequenceOfTail(tags[1..], tags);
      tags[1..]
    else
      var rest := WithoutFirst(tags[1..], id);
      assert tags == [tags[0]] + tags[1..];
      assert ([tags[0]] + rest)[1..] == rest;
      [tags[0]] + rest
  }

  /** Dropping the head keeps a subsequence. */
  lemma {:induction false} SubsequenceOfTail(r: seq<TagId>, s: seq<TagId>)
    requires s != [] && r == s[1..]
    ensures Subsequence(r, s)
  {
    SubsequenceRefl(r);
    if r != [] && r[0] == s[0] {
      SubsequenceOfTail(r[1..], s[1..]);
      assert r[1..] == s[1..][1..];
    }
  }

  lemma {:induction false} SubsequenceRefl(s: seq<TagId>)
    ensures Subsequence(s, s)
    decreases |s|
  {
    if s != [] {
      SubsequenceRefl(s[1..]);
    }
  }

  /**
    With the first occurrence of `id` at `i`, removing it leaves the entries
    before `i` and after `i`, in order.
   */
  lemma {:induction false} WithoutFirstAt(tags: seq<TagId>, id: TagId, i: nat)
    requires i < |tags| && tags[i] == id && id !in tags[..i]
    ensures WithoutFirst(tags, id) == tags[..i] + tags[i + 1..]
  {
    if i > 0 {
      assert tags[0] in tags[..i];
      WithoutFirstAt(tags[1..], id, i - 1);
      assert tags[1..][..i - 1] == tags[1..i];
      assert tags[..i] == [tags[0]] + tags[1..i];
      assert tags[1..][i..] == tags[i + 1..];
    }
  }

  /**
    Book::removeTag: when the check accepts `id` and the list holds it, find
    the first occurrence, shift every later entry one place towards the
    front, and drop the last entry; otherwise leave the list alone.
   */
  method RemoveTag(tags: seq<TagId>, id: TagId, checkTagId: TagId -> bool) returns (r: seq<TagId>)
    ensures !checkTagId(id) || id !in tags ==> r == tags
    ensures checkTagId(id) && id in tags ==> r == WithoutFirst(tags, id)
  {
    if !checkTagId(id) {
      return tags;
    }
    var i := 0;
    while i < |tags| && tags[i] != id
      invariant 0 <= i <= |tags|
      invariant id !in tags[..i]
    {
      assert tags[..i + 1] == tags[..i] + [tags[i]];
      i := i + 1;
    }
    if i == |tags| {
      assert tags[..i] == tags;
      return tags;
    }
    var a := tags;
    var j := i + 1;
    while j < |a|
      invariant i + 1 <= j <= |a| == |tags|
      invariant a == tags[..i] + tags[i + 1..j] + tags[j - 1..]
    {
      ShiftStep(tags, a, i, j);
      a := a[j - 1 := a[j]];
      j := j + 1;
    }
    r := a[..|a| - 1];
    assert tags[j - 1..] == [tags[j - 1]];
    assert a == (tags[..i] + tags[i + 1..]) + [tags[j - 1]];
    WithoutFirstAt(tags, id, i);
  }

  /** One step of the shift loop: entry `j` moves to position `j - 1`. */
  lemma ShiftStep(tags: seq<TagId>, a: seq<TagId>, i: nat, j: nat)
    requires i < j < |tags|
    requires a == tags[..i] + tags[i + 1..j] + tags[j - 1..]
    ensures a[j] == tags[j]
    ensures a[j - 1 := a[j]] == tags[..i] + tags[i + 1..j + 1] + tags[j..]
  {
    var b := a[j - 1 := a[j]];
    var c := tags[..i] + tags[i + 1..j + 1] + tags[j..];
    assert |b| == |c|;
    forall k | 0 <= k < |b|
      ensures b[k] == c[k]
    {
      if k < i {
      } else if k < j - 1 {
        assert b[k] == tags[k + 1];
      } else if k == j - 1 {
        assert c[k] == tags[j];
      } else {
        assert c[k] == tags[k];
      }
    }
  }

  /**
    Book::getTags(groupId): the entries whose tag, looked up in the manager,
    is not the null tag and belongs to the group, in list order.
   */
  function GetTags(tags: seq<TagId>, m: TagManager.Manager, isNull: TagManager.BookTag -> bool, g: TagId)
    : (r: seq<TagId>)
    requires TagManager.Valid(m)
    ensures Subsequence(r, tags)
    ensures forall x :: x in r <==>
      x in tags && !isNull(TagManager.GetBookTag(m, x)) && TagManager.GetBookTag(m, x).payload == g
  {
    if tags == [] then []
    else
      var rest := GetTags(tags[1..], m, isNull, g);
      var tag := TagManager.GetBookTag(m, tags[0]);
      assert tags == [tags[0]] + tags[1..];
      if isNull(tag) || tag.payload != g then
        SubsequenceSkip(rest, tags);
        rest
      else
        assert ([tags[0]] + rest)[1..] == rest;
        [tags[0]] + rest
  }

  /** A subsequence of the tail is a subsequence of the whole list. */
  lemma {:induction false} SubsequenceSkip(r: seq<TagId>, s: seq<TagId>)
    requires s != [] && Subsequence(r, s[1..])
    ensures Subsequence(r, s)
    decreases |s|, 0
  {
    if r != [] && r[0] == s[0] {
      SubsequenceDropHead(r, s[1..]);
    }
  }

  /** Dropping the head of a subsequence keeps it a subsequence. */
  lemma {:induction false} SubsequenceDropHead(r: seq<TagId>, s: seq<TagId>)
    requires r != [] && Subsequence(r, s)
    ensures Subsequence(r[1..], s)
    decreases |s|, 1
  {
    assert s != [];
    if r[0] == s[0] {
      SubsequenceSkip(r[1..], s);
    } else {
      SubsequenceDropHead(r, s[1..]);
      SubsequenceSkip(r[1..], s);
    }
  }

  /**
    getTags(groupId) when the null test is the identifier test: exactly the
    entries naming a live book tag of the group.
   */
  lemma GetTagsAreLiveMembers(tags: seq<TagId>, m: TagManager.Manager, isNull: TagManager.BookTag -> bool, g: TagId)
    requires TagManager.Valid(m)
    requires forall e: TagManager.BookTag :: isNull(e) <==> e.id == NullTagId
    ensures forall x :: x in GetTags(tags, m, isNull, g) <==>
      x in tags && TagManager.CheckIfValidBookTagId(m, x) && TagManager.GetBookTag(m, x).payload == g
  {
    forall x | x in tags
      ensures !isNull(TagManager.GetBookTag(m, x)) <==> TagManager.CheckIfValidBookTagId(m, x)
    {
      var tag := TagManager.GetBookTag(m, x);
      assert isNull(tag) <==> tag.id == NullTagId;
    }
  }

  /** getTags(groupId) on a concatenation is the concatenation of the answers. */
  lemma {:induction false} GetTagsAppend(a: seq<TagId>, b: seq<TagId>, m: TagManager.Manager,
    isNull: TagManager.BookTag -> bool, g: TagId)
    requires TagManager.Valid(m)
    ensures GetTags(a + b, m, isNull, g) == GetTags(a, m, isNull, g) + GetTags(b, m, isNull, g)
  {
    if a == [] {
      assert a + b == b;
    } else {
      GetTagsAppend(a[1..], b, m, isNull, g);
      assert (a + b)[1..] == a[1..] + b;
      assert (a + b)[0] == a[0];
    }
  }

  /** Book::getSumOfTags(): the length of the list. */
  function SumOfTags(tags: seq<TagId>): nat
  {
    |tags|
  }

  /** Book::getSumOfTags(groupId): how many entries the group lookup places in the group. */
  function SumOfTagsIn(tags: seq<TagId>, groupOf: TagId -> TagId, g: TagId): (n: nat)
    ensures n <= |tags|
    ensures n == 0 <==> forall x :: x in tags ==> groupOf(x) != g
    ensures n == |tags| <==> forall x :: x in tags ==> groupOf(x) == g
  {
    if tags == [] then 0
    else
      assert tags == [tags[0]] + tags[1..];
      (if groupOf(tags[0]) == g then 1 else 0) + SumOfTagsIn(tags[1..], groupOf, g)
  }

  /** The group count of a concatenation is the sum of the parts' counts. */
  lemma {:induction false} SumOfTagsInAppend(a: seq<TagId>, b: seq<TagId>, groupOf: TagId -> TagId, g: TagId)
    ensures SumOfTagsIn(a + b, groupOf, g) == SumOfTagsIn(a, groupOf, g) + SumOfTagsIn(b, groupOf, g)
    decreases |a|
  {
    if a != [] {
      assert (a + b)[1..] == a[1..] + b;
      SumOfTagsInAppend(a[1..], b, groupOf, g);
    } else {
      assert a + b == b;
    }
  }

  /** Entries that name no live book tag. */
  function CountInvalid(tags: seq<TagId>, m: TagManager.Manager): (n: nat)
    requires TagManager.Valid(m)
    ensures n <= |tags|
  {
    if tags == [] then 0
    else (if TagManager.CheckIfValidBookTagId(m, tags[0]) then 0 else 1) + CountInvalid(tags[1..], m)
  }

  /**
    The two group queries of a book agree: when the group lookup reads the
    tag's group in the manager and the null test is the identifier test,
    getSumOfTags(groupId) counts getTags(groupId), plus, for the null group,
    the entries that name no live tag (their lookup yields the null tag,
    whose group is the null group).
   */
  lemma {:induction false} SumOfTagsInCountsGetTags(tags: seq<TagId>, m: TagManager.Manager,
    isNull: TagManager.BookTag -> bool, groupOf: TagId -> TagId, g: TagId)
    requires TagManager.Valid(m)
    requires forall e: TagManager.BookTag :: isNull(e) <==> e.id == NullTagId
    requires forall x: TagId :: groupOf(x) == TagManager.GetBookTag(m, x).payload
    ensures SumOfTagsIn(tags, groupOf, g) ==
      |GetTags(tags, m, isNull, g)| + (if g == NullTagId then CountInvalid(tags, m) else 0)
  {
    if tags != [] {
      SumOfTagsInCountsGetTags(tags[1..], m, isNull, groupOf, g);
      var tag := TagManager.GetBookTag(m, tags[0]);
      assert isNull(tag) <==> tag.id == NullTagId;
      assert groupOf(tags[0]) == tag.payload;
    }
  }

  /** getSumOfTags() after addTag and removeTag: one more when accepted, one fewer when present. */
  lemma EditsChangeSumOfTags(tags: seq<TagId>, id: TagId, checkTagId: TagId -> bool)
    ensures SumOfTags(AddTag(tags, id, checkTagId)) == SumOfTags(tags) + (if checkTagId(id) then 1 else 0)
    ensures SumOfTags(WithoutFirst(tags, id)) == SumOfTags(tags) - (if id in tags then 1 else 0)
  {
  }

  /** removeTag undoes an accepted addTag of an identifier the list did not hold. */
  lemma {:induction false} RemoveUndoesAdd(tags: seq<TagId>, id: TagId, checkTagId: TagId -> bool)
    requires checkTagId(id) && id !in tags
    ensures WithoutFirst(AddTag(tags, id, checkTagId), id) == tags
  {
    var added := tags + [id];
    assert added[..|tags|] == tags;
    WithoutFirstAt(added, id, |tags|);
    assert added[|tags| + 1..] == [];
  }

  /**
    Book::removeTags(groupId) as its header describes it: drop every entry
    the group lookup places in the group, keeping the others in order, when
    the manager accepts the group identifier.
   */
  function RemoveTags(tags: seq<TagId>, groupOf: TagId -> TagId, checkGroupTagId: TagId -> bool, g: TagId)
    : (r: seq<TagId>)
    ensures !checkGroupTagId(g) ==> r == tags
    ensures checkGroupTagId(g) ==>
      && SumOfTagsIn(r, groupOf, g) == 0
      && |r| == |tags| - SumOfTagsIn(tags, groupOf, g)
      && (forall x :: x in r <==> x in tags && groupOf(x) != g)
    ensures Subsequence(r, tags)
  {
    if !checkGroupTagId(g) then
      SubsequenceRefl(tags);
      tags
    else
      KeepOutside(tags, groupOf, g)
  }

  /** The entries outside group `g`, in order. */
  function KeepOutside(tags: seq<TagId>, groupOf: TagId -> TagId, g: TagId): (r: seq<TagId>)
    ensures SumOfTagsIn(r, groupOf, g) == 0
    ensures |r| == |tags| - SumOfTagsIn(tags, groupOf, g)
    ensures forall x :: x in r <==> x in tags && groupOf(x) != g
    ensures Subsequence(r, tags)
  {
    if tags == [] then []
    else
      var rest := KeepOutside(tags[1..], groupOf, g);
      assert tags == [tags[0]] + tags[1..];
      if groupOf(tags[0]) == g then
        SubsequenceSkip(rest, tags);
        rest
      else
        assert ([tags[0]] + rest)[1..] == rest;
        [tags[0]] + rest
  }
}
