/**
  One tag table (TagManager::TagsInfo), generic over the extra field a tag
  carries: the group identifier for book tags, nothing for group tags.

  A table holds a slot sequence whose index is the identifier of the live tag
  stored there, the set of recycled identifiers, the watermark (the largest
  identifier ever issued) and an incrementally maintained live count.
 */
module TagTable {
  import opened TagIds
  import IdHeap

  /** A stored tag: identifier, name and the variant's payload. */
  datatype Entry<P> = Entry(id: TagId, name: Name, payload: P)

  /**
    `live` is m_curSumOfTags, `maxTag` is m_curMaxTag, `slots` is m_Tags and
    `recycled` is the contents of the m_erasedTags heap.
   */
  datatype Table<P> = Table(live: Size, maxTag: TagId, slots: seq<Entry<P>>, recycled: set<TagId>)

  /** The default-constructed tag, used for slot 0 and for padding. */
  function NullEntry<P>(blank: P): Entry<P> {
    Entry(NullTagId, [], blank)
  }

  /**
    The table invariant: one slot per identifier up to the watermark; slot 0
    is the null tag; an identifier in 1..watermark is recycled exactly when its
    slot is a tombstone, and otherwise the slot stores that identifier; the live
    count is the watermark less the number of recycled identifiers.
   */
  ghost predicate Valid<P>(t: Table<P>) {
    && |t.slots| == t.maxTag + 1
    && t.slots[0].id == NullTagId
    && t.slots[0].name == []
    && (forall r :: r in t.recycled ==> 1 <= r <= t.maxTag)
    && (forall i :: 1 <= i < |t.slots| ==> t.slots[i].id == if i in t.recycled then NullTagId else i)
    && t.live == t.maxTag - |t.recycled|
  }

  /**
    Name uniqueness as the first-match lookup sees it: no slot before a live
    tag with a non-empty name carries the same name.
   */
  ghost predicate NameIndexed<P>(t: Table<P>) {
    forall i, j :: 0 <= i < j < |t.slots| && t.slots[j].id != NullTagId && t.slots[j].name != [] ==>
      t.slots[i].name != t.slots[j].name
  }

  /** The constructor state: only the null slot, nothing issued. */
  function Empty<P>(blank: P): (t: Table<P>)
    ensures Valid(t) && NameIndexed(t)
    ensures t.live == 0 && t.maxTag == NullTagId && t.recycled == {}
    ensures t.slots == [NullEntry(blank)]
  {
    Table(0, NullTagId, [NullEntry(blank)], {})
  }

  /** m_checkIfValidId: the identifier names a live tag. */
  function IsValidId<P>(t: Table<P>, id: TagId): (ok: bool)
    requires Valid(t)
    ensures ok <==> id != NullTagId && id <= t.maxTag && id !in t.recycled
    ensures ok ==> t.slots[id].id == id
  {
    !(id == NullTagId || id > t.maxTag || t.slots[id].id == NullTagId)
  }

  /** Index of the first slot named `name`, or |slots| when there is none. */
  function FirstNamed<P>(slots: seq<Entry<P>>, name: Name): (i: nat)
    ensures i <= |slots|
    ensures i < |slots| ==> slots[i].name == name
    ensures forall j :: 0 <= j < i ==> slots[j].name != name
  {
    if |slots| == 0 then 0
    else if slots[0].name == name then 0
    else 1 + FirstNamed(slots[1..], name)
  }

  /**
    m_getTagId: the identifier stored in the first slot carrying the name, or
    the null identifier. The first match may be a tombstone, and slot 0 (the
    null tag) matches the empty name; both yield the null identifier.
   */
  function GetTagId<P>(t: Table<P>, name: Name): (r: TagId)
    requires Valid(t)
    ensures r != NullTagId ==> IsValidId(t, r) && t.slots[r].name == name
    ensures r != NullTagId ==> forall j :: 0 <= j < r ==> t.slots[j].name != name
    ensures r == NullTagId <==>
      (FirstNamed(t.slots, name) == |t.slots| || t.slots[FirstNamed(t.slots, name)].id == NullTagId)
    ensures name == [] ==> r == NullTagId
  {
    var i := FirstNamed(t.slots, name);
    if i < |t.slots| then t.slots[i].id else NullTagId
  }

  /** m_getTag: the stored tag for a valid identifier, otherwise slot 0. */
  function GetTag<P>(t: Table<P>, id: TagId): (e: Entry<P>)
    requires Valid(t)
    ensures IsValidId(t, id) ==> e.id == id && e == t.slots[id]
    ensures !IsValidId(t, id) ==> e.id == NullTagId && e.name == [] && e == t.slots[0]
  {
    if IsValidId(t, id) then t.slots[id] else t.slots[0]
  }

  /**
    m_getNewId: the smallest recycled identifier if there is one, otherwise
    the watermark plus one, otherwise (identifiers exhausted) the null
    identifier with the table unchanged. Only the bookkeeping changes: the
    slot is written by the caller.
   */
  function NewId<P>(t: Table<P>): (res: (Table<P>, TagId))
    requires Valid(t)
    ensures res.0.slots == t.slots
    ensures t.recycled != {} ==>
      && res.1 in t.recycled
      && (forall x :: x in t.recycled ==> res.1 <= x)
      && res.0.recycled == t.recycled - {res.1}
      && res.0.maxTag == t.maxTag
      && res.0.live == t.live + 1
    ensures t.recycled == {} && t.maxTag < MaxTagId ==>
      && res.1 == t.maxTag + 1
      && res.0.maxTag == res.1
      && res.0.recycled == {}
      && res.0.live == t.live + 1
    ensures t.recycled == {} && t.maxTag == MaxTagId ==> res.1 == NullTagId && res.0 == t
    ensures res.1 == NullTagId <==> t.recycled == {} && t.maxTag == MaxTagId
    ensures res.1 != NullTagId ==> !IsValidId(t, res.1)
  {
    if t.recycled != {} then
      var id := IdHeap.Top(t.recycled);
      (t.(live := Inc(t.live), recycled := IdHeap.Pop(t.recycled)), id)
    else if t.maxTag < MaxTagId then
      (t.(live := Inc(t.live), maxTag := t.maxTag + 1), t.maxTag + 1)
    else
      (t, NullTagId)
  }

  /**
    `m_Tags[id] = e`. The source never grows the slot vector before this
    write; the model first pads with null tags up to `id`, then assigns.
   */
  function Store<P>(slots: seq<Entry<P>>, id: TagId, e: Entry<P>, blank: P): (r: seq<Entry<P>>)
    ensures |r| == if id < |slots| then |slots| else id + 1
    ensures r[id] == e
    ensures forall i :: 0 <= i < |slots| && i != id ==> r[i] == slots[i]
    ensures forall i :: |slots| <= i < |r| && i != id ==> r[i] == NullEntry(blank)
  {
    if id < |slots| then slots[id := e]
    else slots + seq(id - |slots|, _ => NullEntry(blank)) + [e]
  }

  /**
    Allocate an identifier and store a tag with it, the common tail of
    createBookTag and createGroupTag.
   */
  function Insert<P>(t: Table<P>, name: Name, payload: P, blank: P): (res: (Table<P>, TagId))
    requires Valid(t)
    ensures Valid(res.0)
    ensures res.1 == NullTagId <==> t.recycled == {} && t.maxTag == MaxTagId
    ensures res.1 == NullTagId ==> res.0 == t
    ensures res.1 != NullTagId ==>
      && !IsValidId(t, res.1)
      && IsValidId(res.0, res.1)
      && res.0.slots[res.1] == Entry(res.1, name, payload)
      && res.0.live == t.live + 1
      && (forall id :: id != res.1 ==> (IsValidId(res.0, id) <==> IsValidId(t, id)))
    ensures |t.slots| <= |res.0.slots| <= |t.slots| + 1
    ensures forall i :: 0 <= i < |t.slots| && i != res.1 ==> res.0.slots[i] == t.slots[i]
  {
    var (t1, id) := NewId(t);
    if id == NullTagId then (t, id)
    else
      var t2 := t1.(slots := Store(t1.slots, id, Entry(id, name, payload), blank));
      (t2, id)
  }

  /**
    m_eraseTag: an invalid identifier is refused with nothing changed; a
    valid one is tombstoned (its slot's identifier cleared, name and payload
    kept), pushed onto the recycled heap, and the live count drops by one.
   */
  function Erase<P>(t: Table<P>, id: TagId): (res: (Table<P>, bool))
    requires Valid(t)
    ensures Valid(res.0)
    ensures res.1 <==> IsValidId(t, id)
    ensures !res.1 ==> res.0 == t
    ensures res.1 ==>
      && res.0.recycled == t.recycled + {id}
      && res.0.live + 1 == t.live
      && res.0.maxTag == t.maxTag
      && |res.0.slots| == |t.slots|
      && res.0.slots[id] == t.slots[id].(id := NullTagId)
      && (forall i :: 0 <= i < |t.slots| && i != id ==> res.0.slots[i] == t.slots[i])
      && !IsValidId(res.0, id)
    ensures NameIndexed(t) ==> NameIndexed(res.0)
  {
    if !IsValidId(t, id) then (t, false)
    else
      var e := t.slots[id];
      IdHeap.BoundedSetSizeMissing(t.recycled, t.maxTag, id);
      (Table(Dec(t.live), t.maxTag, t.slots[id := e.(id := NullTagId)], t.recycled + {e.id}), true)
  }

  /**
    m_getSumOfTags: the watermark less the heap size, computed in std::size_t.
    On a valid table it agrees with the incrementally kept live count.
   */
  function SumOfTags<P>(t: Table<P>): (n: Size)
    ensures Valid(t) ==> n == t.live
  {
    (t.maxTag - |t.recycled|) % SizeModulus
  }

  /** Insert keeps the first-match name lookup exact, provided the name was not found. */
  lemma InsertKeepsNameIndex<P>(t: Table<P>, name: Name, payload: P, blank: P)
    requires Valid(t) && NameIndexed(t)
    requires GetTagId(t, name) == NullTagId
    ensures NameIndexed(Insert(t, name, payload, blank).0)
  {
    var (t', id) := Insert(t, name, payload, blank);
    if id != NullTagId && name != [] {
      var f := FirstNamed(t.slots, name);
      if f < |t.slots| {
        // The first slot named `name` is a tombstone, so it is recycled and
        // the allocated identifier is no larger.
        assert f in t.recycled;
      }
      forall j | 0 <= j < |t.slots| && j != id && t.slots[j].id != NullTagId
        ensures t.slots[j].name != name
      {
        if t.slots[j].name == name {
          assert false;
        }
      }
      PlaceKeepsNameIndex(t.slots, t'.slots, id, name);
    }
  }

  /**
    Writing a tag named `name` at slot `id` keeps names indexed when no earlier
    slot and no other live slot already carries that name.
   */
  lemma PlaceKeepsNameIndex<P>(s: seq<Entry<P>>, s': seq<Entry<P>>, id: int, name: Name)
    requires 0 < id < |s'| && |s| <= |s'| <= |s| + 1
    requires s'[id].name == name
    requires forall i :: 0 <= i < |s| && i != id ==> s'[i] == s[i]
    requires |s'| == |s| + 1 ==> id == |s|
    requires forall i, j :: 0 <= i < j < |s| && s[j].id != NullTagId && s[j].name != [] ==>
      s[i].name != s[j].name
    requires forall j :: 0 <= j < id ==> s[j].name != name
    requires forall j :: 0 <= j < |s| && j != id && s[j].id != NullTagId ==> s[j].name != name
    ensures forall i, j :: 0 <= i < j < |s'| && s'[j].id != NullTagId && s'[j].name != [] ==>
      s'[i].name != s'[j].name
  {
    forall i, j | 0 <= i < j < |s'| && s'[j].id != NullTagId && s'[j].name != []
      ensures s'[i].name != s'[j].name
    {
      if j == id {
        assert s'[i] == s[i];
      } else if i == id {
        assert s'[j] == s[j];
      } else {
        assert s'[i] == s[i] && s'[j] == s[j];
      }
    }
  }

  /**
    On a table whose names are indexed, looking up a non-empty name finds a
    tag exactly when a live tag carries that name, and then finds that tag.
   */
  lemma {:induction false} LookupFindsLiveName<P>(t: Table<P>, name: Name)
    requires Valid(t) && NameIndexed(t) && name != []
    ensures GetTagId(t, name) != NullTagId <==>
      exists id: TagId :: IsValidId(t, id) && t.slots[id].name == name
    ensures forall id: TagId :: IsValidId(t, id) && t.slots[id].name == name ==> GetTagId(t, name) == id
  {
    forall id: TagId | IsValidId(t, id) && t.slots[id].name == name
      ensures GetTagId(t, name) == id
    {
      var f := FirstNamed(t.slots, name);
      assert f <= id;
      if f < id {
        assert false;
      }
    }
  }
}
