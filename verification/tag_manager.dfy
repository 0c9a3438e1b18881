/**
  TagManager: a table of book tags and a table of group tags behind a
  name-qualified API. Every operation is a pure function from the manager's
  state; operations that change the state return the new state alongside the
  result the source returns.
 */
module TagManager {
  import opened TagIds
  import TagTable

  /** A book tag carries the identifier of its group. */
  type BookTag = TagTable.Entry<TagId>

  /** A group tag carries nothing beyond identifier and name. */
  type GroupTag = TagTable.Entry<()>

  /** The two tables: m_bookTags and m_groupTags. */
  datatype Manager = Manager(books: TagTable.Table<TagId>, groups: TagTable.Table<()>)

  /** nullbtag: the default-constructed book tag, group identifier null. */
  const NullBookTag: BookTag := TagTable.NullEntry(NullTagId)

  /** nullgtag: the default-constructed group tag. */
  const NullGroupTag: GroupTag := TagTable.NullEntry(())

  /**
    The manager invariant: both tables are valid and name-indexed, and slot 0
    of each is the corresponding null tag.
   */
  ghost predicate Valid(m: Manager) {
    && TagTable.Valid(m.books)
    && TagTable.NameIndexed(m.books)
    && m.books.slots[0] == NullBookTag
    && TagTable.Valid(m.groups)
    && TagTable.NameIndexed(m.groups)
    && m.groups.slots[0] == NullGroupTag
  }

  /** The default-constructed manager: both tables in their constructor state. */
  function Empty(): (m: Manager)
    ensures Valid(m)
    ensures forall id: TagId :: !CheckIfValidBookTagId(m, id) && !CheckIfValidGroupTagId(m, id)
    ensures SumOfBookTags(m) == 0 && SumOfGroupTags(m) == 0
  {
    Manager(TagTable.Empty(NullTagId), TagTable.Empty(()))
  }

  /**
    clear(). The source empties both slot vectors, dropping the null tag in
    slot 0 as well; the model resets both tables to their constructor state.
   */
  function Clear(m: Manager): (m': Manager)
    ensures Valid(m')
    ensures forall id: TagId :: !CheckIfValidBookTagId(m', id) && !CheckIfValidGroupTagId(m', id)
    ensures SumOfBookTags(m') == 0 && SumOfGroupTags(m') == 0
    ensures m'.books.maxTag == NullTagId && m'.groups.maxTag == NullTagId
  {
    Empty()
  }

  /** checkIfValidBookTagId. */
  function CheckIfValidBookTagId(m: Manager, id: TagId): (ok: bool)
    requires Valid(m)
    ensures ok <==> id != NullTagId && id <= m.books.maxTag && id !in m.books.recycled
  {
    TagTable.IsValidId(m.books, id)
  }

  /** checkIfValidGroupTagId. */
  function CheckIfValidGroupTagId(m: Manager, id: TagId): (ok: bool)
    requires Valid(m)
    ensures ok <==> id != NullTagId && id <= m.groups.maxTag && id !in m.groups.recycled
  {
    TagTable.IsValidId(m.groups, id)
  }

  /** getBookTagId(name): the live book tag with that name, or the null identifier. */
  function GetBookTagId(m: Manager, name: Name): (id: TagId)
    requires Valid(m)
    ensures id != NullTagId ==> CheckIfValidBookTagId(m, id) && GetBookTag(m, id).name == name
    ensures name != [] ==> (id != NullTagId <==>
      exists x: TagId :: CheckIfValidBookTagId(m, x) && GetBookTag(m, x).name == name)
    ensures name != [] ==> forall x: TagId ::
      CheckIfValidBookTagId(m, x) && GetBookTag(m, x).name == name ==> id == x
    ensures name == [] ==> id == NullTagId
  {
    var id := TagTable.GetTagId(m.books, name);
    if name == [] then id
    else
      TagTable.LookupFindsLiveName(m.books, name);
      id
  }

  /** getGroupTagId(name): the live group tag with that name, or the null identifier. */
  function GetGroupTagId(m: Manager, name: Name): (id: TagId)
    requires Valid(m)
    ensures id != NullTagId ==> CheckIfValidGroupTagId(m, id) && GetGroupTag(m, id).name == name
    ensures name != [] ==> (id != NullTagId <==>
      exists x: TagId :: CheckIfValidGroupTagId(m, x) && GetGroupTag(m, x).name == name)
    ensures name != [] ==> forall x: TagId ::
      CheckIfValidGroupTagId(m, x) && GetGroupTag(m, x).name == name ==> id == x
    ensures name == [] ==> id == NullTagId
  {
    var id := TagTable.GetTagId(m.groups, name);
    if name == [] then id
    else
      TagTable.LookupFindsLiveName(m.groups, name);
      id
  }

  /** getBookTag(id): the stored book tag, or nullbtag for an invalid identifier. */
  function GetBookTag(m: Manager, id: TagId): (tag: BookTag)
    requires Valid(m)
    ensures CheckIfValidBookTagId(m, id) ==> tag.id == id && tag == m.books.slots[id]
    ensures !CheckIfValidBookTagId(m, id) ==> tag == NullBookTag
  {
    TagTable.GetTag(m.books, id)
  }

  /** getGroupTag(id): the stored group tag, or nullgtag for an invalid identifier. */
  function GetGroupTag(m: Manager, id: TagId): (tag: GroupTag)
    requires Valid(m)
    ensures CheckIfValidGroupTagId(m, id) ==> tag.id == id && tag == m.groups.slots[id]
    ensures !CheckIfValidGroupTagId(m, id) ==> tag == NullGroupTag
  {
    TagTable.GetTag(m.groups, id)
  }

  /**
    createBookTag: if a book tag with the name is found, its identifier is
    returned and nothing changes; otherwise a new book tag is allocated, or the
    null identifier is returned when identifiers are exhausted.
   */
  function CreateBookTag(m: Manager, name: Name, groupId: TagId): (res: (Manager, TagId))
    requires Valid(m)
    ensures Valid(res.0)
    ensures res.0.groups == m.groups
    ensures GetBookTagId(m, name) != NullTagId ==> res == (m, GetBookTagId(m, name))
    ensures GetBookTagId(m, name) == NullTagId ==>
      && (res.1 == NullTagId <==> m.books.recycled == {} && m.books.maxTag == MaxTagId)
      && (res.1 == NullTagId ==> res.0 == m)
      && (res.1 != NullTagId ==>
        && !CheckIfValidBookTagId(m, res.1)
        && CheckIfValidBookTagId(res.0, res.1)
        && GetBookTag(res.0, res.1) == TagTable.Entry(res.1, name, groupId)
        && SumOfBookTags(res.0) == SumOfBookTags(m) + 1)
    ensures forall x: TagId :: x != res.1 ==>
      && (CheckIfValidBookTagId(res.0, x) <==> CheckIfValidBookTagId(m, x))
      && GetBookTag(res.0, x) == GetBookTag(m, x)
  {
    var found := TagTable.GetTagId(m.books, name);
    if found != NullTagId then (m, found)
    else
      TagTable.InsertKeepsNameIndex(m.books, name, groupId, NullTagId);
      var (books, id) := TagTable.Insert(m.books, name, groupId, NullTagId);
      (m.(books := books), id)
  }

  /**
    createGroupTag: unlike createBookTag, a name that is already found is
    rejected with the null identifier; otherwise a new group tag is allocated,
    or the null identifier is returned when identifiers are exhausted.
   */
  function CreateGroupTag(m: Manager, name: Name): (res: (Manager, TagId))
    requires Valid(m)
    ensures Valid(res.0)
    ensures res.0.books == m.books
    ensures GetGroupTagId(m, name) != NullTagId ==> res == (m, NullTagId)
    ensures GetGroupTagId(m, name) == NullTagId ==>
      && (res.1 == NullTagId <==> m.groups.recycled == {} && m.groups.maxTag == MaxTagId)
      && (res.1 == NullTagId ==> res.0 == m)
      && (res.1 != NullTagId ==>
        && !CheckIfValidGroupTagId(m, res.1)
        && CheckIfValidGroupTagId(res.0, res.1)
        && GetGroupTag(res.0, res.1) == TagTable.Entry(res.1, name, ())
        && SumOfGroupTags(res.0) == SumOfGroupTags(m) + 1)
    ensures forall x: TagId :: x != res.1 ==>
      && (CheckIfValidGroupTagId(res.0, x) <==> CheckIfValidGroupTagId(m, x))
      && GetGroupTag(res.0, x) == GetGroupTag(m, x)
  {
    var found := TagTable.GetTagId(m.groups, name);
    if found != NullTagId then (m, NullTagId)
    else
      TagTable.InsertKeepsNameIndex(m.groups, name, (), ());
      var (groups, id) := TagTable.Insert(m.groups, name, (), ());
      (m.(groups := groups), id)
  }

  /** eraseBookTag: true and the tag gone when the identifier was valid, false and no change otherwise. */
  function EraseBookTag(m: Manager, id: TagId): (res: (Manager, bool))
    requires Valid(m)
    ensures Valid(res.0)
    ensures res.0.groups == m.groups
    ensures res.1 <==> CheckIfValidBookTagId(m, id)
    ensures !res.1 ==> res.0 == m
    ensures res.1 ==>
      && !CheckIfValidBookTagId(res.0, id)
      && GetBookTag(res.0, id) == NullBookTag
      && SumOfBookTags(res.0) + 1 == SumOfBookTags(m)
      && (forall x: TagId :: x != id ==>
            && (CheckIfValidBookTagId(res.0, x) <==> CheckIfValidBookTagId(m, x))
            && GetBookTag(res.0, x) == GetBookTag(m, x))
  {
    var (books, ok) := TagTable.Erase(m.books, id);
    (m.(books := books), ok)
  }

  /** eraseGroupTag: true and the tag gone when the identifier was valid, false and no change otherwise. */
  function EraseGroupTag(m: Manager, id: TagId): (res: (Manager, bool))
    requires Valid(m)
    ensures Valid(res.0)
    ensures res.0.books == m.books
    ensures res.1 <==> CheckIfValidGroupTagId(m, id)
    ensures !res.1 ==> res.0 == m
    ensures res.1 ==>
      && !CheckIfValidGroupTagId(res.0, id)
      && GetGroupTag(res.0, id) == NullGroupTag
      && SumOfGroupTags(res.0) + 1 == SumOfGroupTags(m)
      && (forall x: TagId :: x != id ==>
            && (CheckIfValidGroupTagId(res.0, x) <==> CheckIfValidGroupTagId(m, x))
            && GetGroupTag(res.0, x) == GetGroupTag(m, x))
  {
    var (groups, ok) := TagTable.Erase(m.groups, id);
    (m.(groups := groups), ok)
  }

  /** getSumOfBookTags: computed from watermark and heap size; equals the live count. */
  function SumOfBookTags(m: Manager): (n: Size)
    ensures TagTable.Valid(m.books) ==> n == m.books.live
  {
    TagTable.SumOfTags(m.books)
  }

  /** getSumOfGroupTags: computed from watermark and heap size; equals the live count. */
  function SumOfGroupTags(m: Manager): (n: Size)
    ensures TagTable.Valid(m.groups) ==> n == m.groups.live
  {
    TagTable.SumOfTags(m.groups)
  }

  /** From slot `k` on, every slot is a tombstone or stores its own index. */
  ghost predicate IdsAreIndices(slots: seq<BookTag>, k: nat) {
    forall i :: k <= i < |slots| ==> slots[i].id == NullTagId || slots[i].id == i
  }

  /** The loop of getSumOfTagsFromGroup over slots `k..`. */
  function CountFrom(slots: seq<BookTag>, g: TagId, k: nat): nat
    requires k <= |slots|
    decreases |slots| - k
  {
    if k == |slots| then 0
    else (if slots[k].id != NullTagId && slots[k].payload == g then 1 else 0) + CountFrom(slots, g, k + 1)
  }

  /**
    The loop of getBookTagsFromGroup over slots `k..`: the identifiers of the
    non-tombstoned slots in group `g`, in slot order.
   */
  function CollectFrom(slots: seq<BookTag>, g: TagId, k: nat): (r: seq<TagId>)
    requires k <= |slots|
    ensures |r| == CountFrom(slots, g, k)
    ensures IdsAreIndices(slots, k) ==> forall x: int :: x in r <==>
      (k <= x < |slots| && x != NullTagId && slots[x].id == x && slots[x].payload == g)
    ensures IdsAreIndices(slots, k) ==> forall i, j :: 0 <= i < j < |r| ==> r[i] < r[j]
    decreases |slots| - k
  {
    if k == |slots| then []
    else
      var rest := CollectFrom(slots, g, k + 1);
      if slots[k].id != NullTagId && slots[k].payload == g then
        assert IdsAreIndices(slots, k) ==> IdsAreIndices(slots, k + 1);
        assert IdsAreIndices(slots, k) ==> forall j :: 0 <= j < |rest| ==> rest[j] in rest && k < rest[j];
        [slots[k].id] + rest
      else
        rest
  }

  /**
    getBookTagsFromGroup: the live book tags of group `g`, in ascending
    identifier order, each exactly once.
   */
  function BookTagsFromGroup(m: Manager, g: TagId): (r: seq<TagId>)
    requires Valid(m)
    ensures forall x: TagId :: x in r <==> CheckIfValidBookTagId(m, x) && GetBookTag(m, x).payload == g
    ensures forall i, j :: 0 <= i < j < |r| ==> r[i] < r[j]
    ensures |r| == SumOfTagsFromGroup(m, g)
  {
    CollectFrom(m.books.slots, g, 0)
  }

  /** getSumOfTagsFromGroup: the number of live book tags of group `g`. */
  function SumOfTagsFromGroup(m: Manager, g: TagId): (n: nat)
    requires Valid(m)
    ensures n == |set x: TagId | CheckIfValidBookTagId(m, x) && GetBookTag(m, x).payload == g|
  {
    var r := CollectFrom(m.books.slots, g, 0);
    IncreasingSize(r, set x: TagId | CheckIfValidBookTagId(m, x) && GetBookTag(m, x).payload == g);
    CountFrom(m.books.slots, g, 0)
  }

  /** A strictly increasing sequence has as many distinct members as elements. */
  lemma {:induction false} IncreasingSize(r: seq<TagId>, members: set<TagId>)
    requires forall i, j :: 0 <= i < j < |r| ==> r[i] < r[j]
    requires forall x :: x in members <==> x in r
    ensures |members| == |r|
  {
    if r != [] {
      var rest := r[1..];
      assert forall i, j :: 0 <= i < j < |rest| ==> rest[i] < rest[j] by {
        forall i, j | 0 <= i < j < |rest| ensures rest[i] < rest[j] {
          assert rest[i] == r[i + 1] && rest[j] == r[j + 1];
        }
      }
      var members' := members - {r[0]};
      forall x ensures x in members' <==> x in rest {
        if x in rest {
          var j :| 0 <= j < |rest| && rest[j] == x;
          assert rest[j] == r[j + 1];
        }
        assert r == [r[0]] + rest;
      }
      IncreasingSize(rest, members');
    }
  }

  /**
    Creating the same non-empty book-tag name twice yields one identifier and
    at most one new tag: the second call finds the first call's tag, and the
    count grows by exactly one when the name was new and an identifier was
    left.
   */
  lemma CreateBookTagTwice(m: Manager, name: Name, g1: TagId, g2: TagId)
    requires Valid(m) && name != []
    ensures var (m1, id1) := CreateBookTag(m, name, g1);
            var (m2, id2) := CreateBookTag(m1, name, g2);
            && id2 == id1
            && m2 == m1
            && (GetBookTagId(m, name) != NullTagId ==> SumOfBookTags(m2) == SumOfBookTags(m))
            && (GetBookTagId(m, name) == NullTagId && m.books.recycled == {} && m.books.maxTag == MaxTagId ==>
                  SumOfBookTags(m2) == SumOfBookTags(m))
            && (GetBookTagId(m, name) == NullTagId && !(m.books.recycled == {} && m.books.maxTag == MaxTagId) ==>
                  SumOfBookTags(m2) == SumOfBookTags(m) + 1)
  {
  }

  /**
    Creating the same non-empty group-tag name twice: the second call is
    always rejected with the null identifier and changes nothing.
   */
  lemma CreateGroupTagTwice(m: Manager, name: Name)
    requires Valid(m) && name != []
    ensures var (m1, id1) := CreateGroupTag(m, name);
            var (m2, id2) := CreateGroupTag(m1, name);
            && id2 == NullTagId
            && m2 == m1
  {
  }

  /**
    The empty name is never found (slot 0, the null tag, carries it), so each
    createBookTag with the empty name makes another tag while identifiers last.
   */
  lemma EmptyBookTagNameNeverDeduplicated(m: Manager, g1: TagId, g2: TagId)
    requires Valid(m)
    requires |m.books.recycled| + MaxTagId - m.books.maxTag >= 2
    ensures var (m1, id1) := CreateBookTag(m, [], g1);
            var (m2, id2) := CreateBookTag(m1, [], g2);
            && id1 != NullTagId && id2 != NullTagId && id1 != id2
            && GetBookTag(m2, id1).name == [] && GetBookTag(m2, id2).name == []
  {
    var (m1, id1) := CreateBookTag(m, [], g1);
    if m.books.recycled == {} {
      assert m1.books.maxTag == m.books.maxTag + 1;
    } else {
      assert |m1.books.recycled| == |m.books.recycled| - 1;
    }
  }

  /** One step of a client's work on the manager. */
  datatype Op =
    | CreateBook(name: Name, groupId: TagId)
    | CreateGroup(name: Name)
    | EraseBook(id: TagId)
    | EraseGroup(id: TagId)
    | ClearAll

  /** Perform one operation, discarding its result. */
  function Apply(m: Manager, op: Op): (m': Manager)
    requires Valid(m)
    ensures Valid(m')
  {
    match op
    case CreateBook(name, g) => CreateBookTag(m, name, g).0
    case CreateGroup(name) => CreateGroupTag(m, name).0
    case EraseBook(id) => EraseBookTag(m, id).0
    case EraseGroup(id) => EraseGroupTag(m, id).0
    case ClearAll => Clear(m)
  }

  /**
    Any sequence of creates, erases and clears keeps the table invariants: a
    live identifier is stored in its own slot, recycled identifiers lie in
    1..watermark and are not live, and the incrementally kept count agrees
    with watermark less recycled, which is what getSumOf*Tags reports.
   */
  function Run(m: Manager, ops: seq<Op>): (m': Manager)
    requires Valid(m)
    ensures Valid(m')
    ensures forall id: TagId :: CheckIfValidBookTagId(m', id) ==> m'.books.slots[id].id == id
    ensures forall id: TagId :: CheckIfValidGroupTagId(m', id) ==> m'.groups.slots[id].id == id
    ensures forall id :: id in m'.books.recycled ==>
      1 <= id <= m'.books.maxTag && !CheckIfValidBookTagId(m', id)
    ensures forall id :: id in m'.groups.recycled ==>
      1 <= id <= m'.groups.maxTag && !CheckIfValidGroupTagId(m', id)
    ensures SumOfBookTags(m') == m'.books.live == m'.books.maxTag - |m'.books.recycled|
    ensures SumOfGroupTags(m') == m'.groups.live == m'.groups.maxTag - |m'.groups.recycled|
    decreases |ops|
  {
    if ops == [] then m else Run(Apply(m, ops[0]), ops[1..])
  }

  /**
    A worked example: in an empty catalog, group "Artist" gets identifier 1,
    book tag "Alice" in that group also gets 1 (a separate identifier space),
    the group then lists exactly [1], and after erasing the book tag the
    group counts no tags.
   */
  lemma ArtistAliceScenario()
    ensures var artist: Name := [65, 114, 116, 105, 115, 116];
            var alice: Name := [65, 108, 105, 99, 101];
            var (m1, gid) := CreateGroupTag(Empty(), artist);
            var (m2, bid) := CreateBookTag(m1, alice, gid);
            var (m3, ok) := EraseBookTag(m2, bid);
            && gid == 1
            && bid == 1
            && BookTagsFromGroup(m2, 1) == [1]
            && ok
            && SumOfTagsFromGroup(m3, 1) == 0
  {
    var artist: Name := [65, 114, 116, 105, 115, 116];
    var alice: Name := [65, 108, 105, 99, 101];
    var m0 := Empty();
    var (m1, gid) := CreateGroupTag(m0, artist);
    var (m2, bid) := CreateBookTag(m1, alice, gid);
    var (m3, ok) := EraseBookTag(m2, bid);
    assert gid == 1 && m1.books == m0.books;
    assert bid == 1 && m2.books.maxTag == 1 && m2.books.recycled == {};
    assert m2.books.slots[1].payload == 1;
    var r := BookTagsFromGroup(m2, 1);
    assert forall x: TagId :: CheckIfValidBookTagId(m2, x) ==> x == 1;
    SingletonIncreasing(r, 1);
    assert ok && m3.books.recycled == {1} && m3.books.maxTag == 1;
    assert forall x: TagId :: !CheckIfValidBookTagId(m3, x);
    assert (set x: TagId | CheckIfValidBookTagId(m3, x) && GetBookTag(m3, x).payload == 1) == {};
  }

  /** A strictly increasing list whose only member is `v` is `[v]`. */
  lemma SingletonIncreasing(r: seq<TagId>, v: TagId)
    requires forall i, j :: 0 <= i < j < |r| ==> r[i] < r[j]
    requires v in r
    requires forall x :: x in r ==> x == v
    ensures r == [v]
  {
    IncreasingSize(r, {v});
    assert r[0] in r;
  }
}
