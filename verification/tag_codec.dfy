/**
  The binary layout of tags and tag tables. Integers are written in the
  machine's native byte order and width; the model fixes little-endian order
  and an 8-byte std::size_t.

    tag        = id:2 nameLength:8 nameBytes
    book tag   = tag groupId:2
    group tag  = tag
    table      = liveCount:8 watermark:2 slotCount:8 slot* recycledCount:8 recycledId:2*
    catalog    = book-tag table, then group-tag table

  Where the source reads past the end of its input it leaves fields with
  unspecified contents; the model reports a truncated input instead.
 */
module TagCodec {
  import opened TagIds
  import TagTable
  import TagManager
  import IdHeap

  datatype DecodeError = Truncated

  datatype Result<+T> = Ok(value: T) | Err(error: DecodeError) {
    predicate IsFailure() {
      Err?
    }

    function PropagateFailure<U>(): Result<U>
      requires Err?
    {
      Err(error)
    }

    function Extract(): T
      requires Ok?
    {
      value
    }
  }

  datatype Option<+T> = None | Some(value: T)

  /** 256 to the power n. */
  function Pow256(n: nat): (p: nat)
    ensures p >= 1
  {
    if n == 0 then 1 else 256 * Pow256(n - 1)
  }

  lemma WidthFacts()
    ensures Pow256(2) == MaxTagId + 1
    ensures Pow256(8) == SizeModulus
  {
    assert Pow256(2) == 0x1_0000;
    assert Pow256(4) == 0x1_0000_0000;
    assert Pow256(6) == 0x1_0000_0000_0000;
    assert Pow256(8) == 0x1_0000_0000_0000_0000;
  }

  /** The `n` low bytes of `x`, least significant first. */
  function EncodeLE(x: nat, n: nat): (b: seq<Byte>)
    requires x < Pow256(n)
    ensures |b| == n
  {
    if n == 0 then [] else [x % 256] + EncodeLE(x / 256, n - 1)
  }

  /** The number whose little-endian bytes are `b`. */
  function DecodeLE(b: seq<Byte>): (x: nat)
    ensures x < Pow256(|b|)
  {
    if |b| == 0 then 0 else b[0] + 256 * DecodeLE(b[1..])
  }

  lemma {:induction false} DecodeEncodeLE(x: nat, n: nat)
    requires x < Pow256(n)
    ensures DecodeLE(EncodeLE(x, n)) == x
  {
    if n > 0 {
      DecodeEncodeLE(x / 256, n - 1);
      assert EncodeLE(x, n)[1..] == EncodeLE(x / 256, n - 1);
    }
  }

  lemma {:induction false} EncodeDecodeLE(b: seq<Byte>)
    ensures EncodeLE(DecodeLE(b), |b|) == b
  {
    if |b| > 0 {
      EncodeDecodeLE(b[1..]);
      assert b == [b[0]] + b[1..];
    }
  }

  /** A 16-bit field. */
  function U16(x: TagId): (b: seq<Byte>)
    ensures |b| == 2
    ensures DecodeLE(b) == x
  {
    WidthFacts();
    DecodeEncodeLE(x, 2);
    EncodeLE(x, 2)
  }

  /** A 64-bit std::size_t field. */
  function U64(x: Size): (b: seq<Byte>)
    ensures |b| == 8
    ensures DecodeLE(b) == x
  {
    WidthFacts();
    DecodeEncodeLE(x, 8);
    EncodeLE(x, 8)
  }

  /** Read a 16-bit field; the input must hold two bytes. */
  function ReadU16(b: seq<Byte>): (r: Result<(TagId, seq<Byte>)>)
    ensures r.Ok? <==> |b| >= 2
    ensures r.Ok? ==> b == U16(r.value.0) + r.value.1
  {
    if |b| < 2 then Err(Truncated)
    else
      WidthFacts();
      EncodeDecodeLE(b[..2]);
      assert b == b[..2] + b[2..];
      Ok((DecodeLE(b[..2]), b[2..]))
  }

  /** Read a 64-bit field; the input must hold eight bytes. */
  function ReadU64(b: seq<Byte>): (r: Result<(Size, seq<Byte>)>)
    ensures r.Ok? <==> |b| >= 8
    ensures r.Ok? ==> b == U64(r.value.0) + r.value.1
  {
    if |b| < 8 then Err(Truncated)
    else
      WidthFacts();
      EncodeDecodeLE(b[..8]);
      assert b == b[..8] + b[8..];
      Ok((DecodeLE(b[..8]), b[8..]))
  }

  lemma ReadU16Encoded(x: TagId, rest: seq<Byte>)
    ensures ReadU16(U16(x) + rest) == Ok((x, rest))
  {
    var b := U16(x) + rest;
    assert b[..2] == U16(x) && b[2..] == rest;
  }

  lemma ReadU64Encoded(x: Size, rest: seq<Byte>)
    ensures ReadU64(U64(x) + rest) == Ok((x, rest))
  {
    var b := U64(x) + rest;
    assert b[..8] == U64(x) && b[8..] == rest;
  }

  /** Tag::write: identifier, name length, name bytes. */
  function EncodeTag(id: TagId, name: Name): (b: seq<Byte>)
    requires |name| < SizeModulus
    ensures |b| == 10 + |name|
  {
    U16(id) + U64(|name|) + name
  }

  /**
    Tag::read. On success the consumed bytes are exactly what Tag::write
    produces for the decoded identifier and name.
   */
  function DecodeTag(b: seq<Byte>): (r: Result<(TagId, Name, seq<Byte>)>)
    ensures r.Ok? ==> |r.value.1| < SizeModulus && b == EncodeTag(r.value.0, r.value.1) + r.value.2
    ensures |b| < 10 ==> r.Err?
  {
    var (id, b1) :- ReadU16(b);
    var (len, b2) :- ReadU64(b1);
    if len > |b2| then Err(Truncated)
    else
      assert b2 == b2[..len] + b2[len..];
      Ok((id, b2[..len], b2[len..]))
  }

  /** Decoding what Tag::write produced gives back identifier, name and the remaining input. */
  lemma DecodeEncodedTag(id: TagId, name: Name, rest: seq<Byte>)
    requires |name| < SizeModulus
    ensures DecodeTag(EncodeTag(id, name) + rest) == Ok((id, name, rest))
  {
    var b := EncodeTag(id, name) + rest;
    ReadU16Encoded(id, U64(|name|) + name + rest);
    assert b == U16(id) + (U64(|name|) + name + rest);
    ReadU64Encoded(|name|, name + rest);
    assert U64(|name|) + name + rest == U64(|name|) + (name + rest);
    assert (name + rest)[..|name|] == name && (name + rest)[|name|..] == rest;
  }

  /** BookTag::write: the tag, then the group identifier. */
  function EncodeBookTag(e: TagManager.BookTag): (b: seq<Byte>)
    requires |e.name| < SizeModulus
    ensures |b| == 12 + |e.name|
  {
    EncodeTag(e.id, e.name) + U16(e.payload)
  }

  /** BookTag::read. On success the consumed bytes are exactly BookTag::write of the result. */
  function DecodeBookTag(b: seq<Byte>): (r: Result<(TagManager.BookTag, seq<Byte>)>)
    ensures r.Ok? ==> |r.value.0.name| < SizeModulus && b == EncodeBookTag(r.value.0) + r.value.1
    ensures |b| < 12 ==> r.Err?
  {
    var (id, name, b1) :- DecodeTag(b);
    var (groupId, b2) :- ReadU16(b1);
    Ok((TagTable.Entry(id, name, groupId), b2))
  }

  /** Decoding what BookTag::write produced gives back identifier, name and group. */
  lemma DecodeEncodedBookTag(e: TagManager.BookTag, rest: seq<Byte>)
    requires |e.name| < SizeModulus
    ensures DecodeBookTag(EncodeBookTag(e) + rest) == Ok((e, rest))
  {
    DecodeEncodedTag(e.id, e.name, U16(e.payload) + rest);
    assert EncodeBookTag(e) + rest == EncodeTag(e.id, e.name) + (U16(e.payload) + rest);
    ReadU16Encoded(e.payload, rest);
  }

  /** GroupTag::write is Tag::write. */
  function EncodeGroupTag(e: TagManager.GroupTag): (b: seq<Byte>)
    requires |e.name| < SizeModulus
    ensures |b| == 10 + |e.name|
  {
    EncodeTag(e.id, e.name)
  }

  /** GroupTag::read is Tag::read. */
  function DecodeGroupTag(b: seq<Byte>): (r: Result<(TagManager.GroupTag, seq<Byte>)>)
    ensures r.Ok? ==> |r.value.0.name| < SizeModulus && b == EncodeGroupTag(r.value.0) + r.value.1
    ensures |b| < 10 ==> r.Err?
  {
    var (id, name, b1) :- DecodeTag(b);
    Ok((TagTable.Entry(id, name, ()), b1))
  }

  /** Decoding what GroupTag::write produced gives back identifier and name. */
  lemma DecodeEncodedGroupTag(e: TagManager.GroupTag, rest: seq<Byte>)
    requires |e.name| < SizeModulus
    ensures DecodeGroupTag(EncodeGroupTag(e) + rest) == Ok((e, rest))
  {
    DecodeEncodedTag(e.id, e.name, rest);
    assert e.payload == ();
  }

  /** The variant's reader takes back what its writer wrote, leaving the rest of the input. */
  ghost predicate RoundTrips<P(!new)>(
    enc: TagTable.Entry<P> -> seq<Byte>, dec: seq<Byte> -> Result<(TagTable.Entry<P>, seq<Byte>)>)
  {
    forall e: TagTable.Entry<P>, r: seq<Byte> :: |e.name| < SizeModulus ==> dec(enc(e) + r) == Ok((e, r))
  }

  /** Every name in the slots fits its 8-byte length prefix. */
  ghost predicate NamesFit<P>(slots: seq<TagTable.Entry<P>>) {
    forall i :: 0 <= i < |slots| ==> |slots[i].name| < SizeModulus
  }

  /** The slots, each written by the variant's writer. */
  function EncodeSlots<P>(slots: seq<TagTable.Entry<P>>, enc: TagTable.Entry<P> -> seq<Byte>): (b: seq<Byte>)
  {
    if slots == [] then [] else enc(slots[0]) + EncodeSlots(slots[1..], enc)
  }

  /** Read `n` slots with the variant's reader. */
  function DecodeSlots<P>(b: seq<Byte>, n: nat, dec: seq<Byte> -> Result<(TagTable.Entry<P>, seq<Byte>)>)
    : (r: Result<(seq<TagTable.Entry<P>>, seq<Byte>)>)
    ensures r.Ok? ==> |r.value.0| == n
    decreases n
  {
    if n == 0 then Ok(([], b))
    else
      var (e, b1) :- dec(b);
      var (es, b2) :- DecodeSlots(b1, n - 1, dec);
      Ok(([e] + es, b2))
  }

  /** Identifiers, two bytes each. */
  function EncodeIds(ids: seq<TagId>): (b: seq<Byte>)
    ensures |b| == 2 * |ids|
  {
    if ids == [] then [] else U16(ids[0]) + EncodeIds(ids[1..])
  }

  /** Read `n` identifiers. */
  function DecodeIds(b: seq<Byte>, n: nat): (r: Result<(seq<TagId>, seq<Byte>)>)
    ensures r.Ok? <==> |b| >= 2 * n
    ensures r.Ok? ==> |r.value.0| == n && b == EncodeIds(r.value.0) + r.value.1
    decreases n
  {
    if n == 0 then Ok(([], b))
    else
      var (id, b1) :- ReadU16(b);
      var (ids, b2) :- DecodeIds(b1, n - 1);
      assert b == U16(id) + (EncodeIds(ids) + b2);
      assert EncodeIds([id] + ids) == U16(id) + EncodeIds(ids) by {
        assert ([id] + ids)[1..] == ids;
      }
      Ok(([id] + ids, b2))
  }

  /** The fixed part of a table: live count, watermark and slot count. */
  function EncodeHeader(live: Size, maxTag: TagId, size: Size): (b: seq<Byte>)
    ensures |b| == 18
  {
    U64(live) + U16(maxTag) + U64(size)
  }

  /** Read the fixed part of a table. */
  function DecodeHeader(b: seq<Byte>): (r: Result<(Size, TagId, Size, seq<Byte>)>)
    ensures r.Ok? <==> |b| >= 18
    ensures r.Ok? ==> b == EncodeHeader(r.value.0, r.value.1, r.value.2) + r.value.3
  {
    var (live, b1) :- ReadU64(b);
    var (maxTag, b2) :- ReadU16(b1);
    var (size, b3) :- ReadU64(b2);
    assert b == EncodeHeader(live, maxTag, size) + b3;
    Ok((live, maxTag, size, b3))
  }

  lemma DecodeEncodedHeader(live: Size, maxTag: TagId, size: Size, rest: seq<Byte>)
    ensures DecodeHeader(EncodeHeader(live, maxTag, size) + rest) == Ok((live, maxTag, size, rest))
  {
    var tail2 := U64(size) + rest;
    var tail1 := U16(maxTag) + tail2;
    assert EncodeHeader(live, maxTag, size) + rest == U64(live) + tail1;
    ReadU64Encoded(live, tail1);
    ReadU16Encoded(maxTag, tail2);
    ReadU64Encoded(size, rest);
  }

  /** The recycled count, then that many identifiers, each pushed onto the (emptied) heap. */
  function DecodeRecycled(b: seq<Byte>): (r: Result<(set<TagId>, seq<Byte>)>)
    ensures |b| < 8 ==> r.Err?
    ensures r.Ok? ==> |r.value.1| <= |b| - 8
  {
    var (count, b1) :- ReadU64(b);
    var (ids, b2) :- DecodeIds(b1, count);
    Ok((IdHeap.Members(ids), b2))
  }

  /**
    m_readInfo: the fixed part, that many slots, then the recycled identifiers.
    On success the fixed part re-encodes to the bytes it was read from.
   */
  function DecodeTable<P>(b: seq<Byte>, dec: seq<Byte> -> Result<(TagTable.Entry<P>, seq<Byte>)>)
    : (r: Result<(TagTable.Table<P>, seq<Byte>)>)
    ensures |b| < 18 ==> r.Err?
    ensures r.Ok? ==>
      |r.value.0.slots| < SizeModulus &&
      b[..18] == EncodeHeader(r.value.0.live, r.value.0.maxTag, |r.value.0.slots|)
  {
    var (live, maxTag, size, b1) :- DecodeHeader(b);
    var (slots, b2) :- DecodeSlots(b1, size, dec);
    var (recycled, b3) :- DecodeRecycled(b2);
    assert b[..18] == EncodeHeader(live, maxTag, size);
    Ok((TagTable.Table(live, maxTag, slots, recycled), b3))
  }

  /** TagManager::read: the book-tag table, then the group-tag table. */
  function DecodeCatalog(b: seq<Byte>): (r: Result<TagManager.Manager>)
    ensures |b| < 18 ==> r.Err?
    ensures r.Ok? ==>
      && DecodeTable(b, DecodeBookTag).Ok?
      && r.value.books == DecodeTable(b, DecodeBookTag).value.0
      && DecodeTable(DecodeTable(b, DecodeBookTag).value.1, DecodeGroupTag).Ok?
      && r.value.groups == DecodeTable(DecodeTable(b, DecodeBookTag).value.1, DecodeGroupTag).value.0
  {
    var (books, b1) :- DecodeTable(b, DecodeBookTag);
    var (groups, _) :- DecodeTable(b1, DecodeGroupTag);
    Ok(TagManager.Manager(books, groups))
  }

  /**
    m_writeInfo as the source has it. The recycled identifiers are never
    preceded by their count, and the loop that writes them pops a copy of the
    heap while testing the original for emptiness: with any recycled
    identifier the loop never exits normally, and pops the copy once it is
    empty, which is undefined behaviour (None here).
   */
  function WriteTableAsWritten<P>(t: TagTable.Table<P>, enc: TagTable.Entry<P> -> seq<Byte>): (r: Option<seq<Byte>>)
    requires |t.slots| < SizeModulus
    ensures r.Some? <==> t.recycled == {}
    ensures r.Some? ==> |r.value| >= 18 && r.value[..18] == EncodeHeader(t.live, t.maxTag, |t.slots|)
  {
    if t.recycled != {} then None
    else Some(EncodeHeader(t.live, t.maxTag, |t.slots|) + EncodeSlots(t.slots, enc))
  }

  /** The recycled identifiers as evidently intended: their count, then each in heap order. */
  function EncodeRecycled(s: set<TagId>): (b: seq<Byte>)
    ensures |b| == 8 + 2 * |s|
  {
    var ids := IdHeap.Drain(s);
    IdHeap.SetSizeBound(s);
    U64(|ids|) + EncodeIds(ids)
  }

  lemma DecodeEncodedRecycled(s: set<TagId>, rest: seq<Byte>)
    ensures DecodeRecycled(EncodeRecycled(s) + rest) == Ok((s, rest))
  {
    var ids := IdHeap.Drain(s);
    IdHeap.SetSizeBound(s);
    DecodeEncodedIdList(ids, rest);
    IdHeap.DrainMembers(s);
  }

  /** Concatenation regroups; stated on opaque operands so no element is inspected. */
  lemma AppendAssoc(a: seq<Byte>, b: seq<Byte>, c: seq<Byte>)
    ensures a + b + c == a + (b + c)
  {
  }

  /** The count-prefixed identifier list reads back as its members. */
  lemma DecodeEncodedIdList(ids: seq<TagId>, rest: seq<Byte>)
    requires |ids| < SizeModulus
    ensures DecodeRecycled(U64(|ids|) + EncodeIds(ids) + rest) == Ok((IdHeap.Members(ids), rest))
  {
    var tail := EncodeIds(ids) + rest;
    AppendAssoc(U64(|ids|), EncodeIds(ids), rest);
    ReadU64Encoded(|ids|, tail);
    DecodeEncodedIds(ids, rest);
  }

  /** m_writeInfo as evidently intended: the fixed part, the slots, then the recycled identifiers. */
  function EncodeTable<P>(t: TagTable.Table<P>, enc: TagTable.Entry<P> -> seq<Byte>): (b: seq<Byte>)
    requires |t.slots| < SizeModulus
    ensures |b| >= 26
    ensures b[..18] == EncodeHeader(t.live, t.maxTag, |t.slots|)
  {
    EncodeHeader(t.live, t.maxTag, |t.slots|) + EncodeSlots(t.slots, enc) + EncodeRecycled(t.recycled)
  }

  lemma {:induction false} DecodeEncodedSlots<P(!new)>(
    slots: seq<TagTable.Entry<P>>, rest: seq<Byte>,
    enc: TagTable.Entry<P> -> seq<Byte>, dec: seq<Byte> -> Result<(TagTable.Entry<P>, seq<Byte>)>)
    requires RoundTrips(enc, dec)
    requires NamesFit(slots)
    ensures DecodeSlots(EncodeSlots(slots, enc) + rest, |slots|, dec) == Ok((slots, rest))
  {
    if slots != [] {
      var b := EncodeSlots(slots, enc) + rest;
      var tail := EncodeSlots(slots[1..], enc) + rest;
      assert b == enc(slots[0]) + tail;
      assert dec(b) == Ok((slots[0], tail));
      assert NamesFit(slots[1..]) by {
        forall i | 0 <= i < |slots| - 1 ensures |slots[1..][i].name| < SizeModulus {
          assert slots[1..][i] == slots[i + 1];
        }
      }
      DecodeEncodedSlots(slots[1..], rest, enc, dec);
      assert DecodeSlots(tail, |slots| - 1, dec) == Ok((slots[1..], rest));
      assert DecodeSlots(b, |slots|, dec) == Ok(([slots[0]] + slots[1..], rest));
      assert [slots[0]] + slots[1..] == slots;
    } else {
      assert EncodeSlots(slots, enc) + rest == rest;
    }
  }

  lemma {:induction false} DecodeEncodedIds(ids: seq<TagId>, rest: seq<Byte>)
    ensures DecodeIds(EncodeIds(ids) + rest, |ids|) == Ok((ids, rest))
  {
    if ids != [] {
      var b := EncodeIds(ids) + rest;
      var tail := EncodeIds(ids[1..]) + rest;
      assert b == U16(ids[0]) + tail;
      ReadU16Encoded(ids[0], tail);
      assert ReadU16(b) == Ok((ids[0], tail));
      DecodeEncodedIds(ids[1..], rest);
      assert DecodeIds(tail, |ids| - 1) == Ok((ids[1..], rest));
      assert DecodeIds(b, |ids|) == Ok(([ids[0]] + ids[1..], rest));
      assert [ids[0]] + ids[1..] == ids;
    } else {
      assert EncodeIds(ids) + rest == rest;
    }
  }

  /**
    A table written with the corrected writer reads back as the same table:
    live count, watermark, every slot, and the recycled set.
   */
  lemma DecodeEncodedTable<P(!new)>(
    t: TagTable.Table<P>, rest: seq<Byte>,
    enc: TagTable.Entry<P> -> seq<Byte>, dec: seq<Byte> -> Result<(TagTable.Entry<P>, seq<Byte>)>)
    requires RoundTrips(enc, dec)
    requires |t.slots| < SizeModulus && NamesFit(t.slots)
    ensures DecodeTable(EncodeTable(t, enc) + rest, dec) == Ok((t, rest))
  {
    var tail2 := EncodeRecycled(t.recycled) + rest;
    var tail1 := EncodeSlots(t.slots, enc) + tail2;
    assert EncodeTable(t, enc) + rest == EncodeHeader(t.live, t.maxTag, |t.slots|) + tail1;
    DecodeEncodedHeader(t.live, t.maxTag, |t.slots|, tail1);
    DecodeEncodedSlots(t.slots, tail2, enc, dec);
    DecodeEncodedRecycled(t.recycled, rest);
  }

  /**
    A table m_writeInfo finishes writing cannot be read back on its own:
    after the slots the reader expects a recycled count that was never
    written, and nothing follows. Behind it in a catalog, the reader takes
    the next eight bytes for the count instead (AsWrittenTableTakesNextCount).
   */
  lemma WrittenTableUnreadable<P(!new)>(
    t: TagTable.Table<P>,
    enc: TagTable.Entry<P> -> seq<Byte>, dec: seq<Byte> -> Result<(TagTable.Entry<P>, seq<Byte>)>)
    requires RoundTrips(enc, dec)
    requires |t.slots| < SizeModulus && NamesFit(t.slots)
    ensures t.recycled == {} ==>
      WriteTableAsWritten(t, enc).Some? && DecodeTable(WriteTableAsWritten(t, enc).value, dec).Err?
    ensures t.recycled != {} ==> WriteTableAsWritten(t, enc).None?
  {
    if t.recycled == {} {
      var tail1 := EncodeSlots(t.slots, enc);
      DecodeEncodedHeader(t.live, t.maxTag, |t.slots|, tail1);
      DecodeEncodedSlots(t.slots, [], enc, dec);
      assert tail1 + [] == tail1;
      assert DecodeRecycled([]).Err?;
    }
  }

  /**
    TagManager::write as the source has it: the book-tag table, then the
    group-tag table, each written by m_writeInfo as written. None when either
    writer never finishes.
   */
  function WriteCatalogAsWritten(m: TagManager.Manager): (r: Option<seq<Byte>>)
    requires |m.books.slots| < SizeModulus && |m.groups.slots| < SizeModulus
    ensures r.Some? <==> m.books.recycled == {} && m.groups.recycled == {}
    ensures r.Some? ==> |r.value| >= 18 && r.value[..18] == EncodeHeader(m.books.live, m.books.maxTag, |m.books.slots|)
  {
    var wb := WriteTableAsWritten(m.books, EncodeBookTagTotal);
    var wg := WriteTableAsWritten(m.groups, EncodeGroupTagTotal);
    if wb.Some? && wg.Some? then
      assert (wb.value + wg.value)[..18] == wb.value[..18];
      Some(wb.value + wg.value)
    else None
  }

  /**
    Fewer than 26 bytes never hold a group-tag table: after the 18-byte fixed
    part there is room neither for one tag (10 bytes) nor for the recycled
    count (8 bytes).
   */
  lemma ShortGroupTableUnreadable(b: seq<Byte>)
    requires |b| < 26
    ensures DecodeTable(b, DecodeGroupTag).Err?
  {
    var h := DecodeHeader(b);
    if h.Ok? {
      var (live, maxTag, size, b1) := h.value;
      assert |b1| < 8;
      if size == 0 {
        assert DecodeSlots(b1, 0, DecodeGroupTag) == Ok(([], b1));
        assert DecodeRecycled(b1).Err?;
      } else {
        assert DecodeGroupTag(b1).Err?;
        assert DecodeSlots(b1, size, DecodeGroupTag).Err?;
      }
    }
  }

  /**
    A table written as written, with no recycled identifier, reads back
    whole when the next eight bytes are a zero: the reader takes them for
    the recycled count that was never written.
   */
  lemma AsWrittenTableTakesNextCount<P(!new)>(
    t: TagTable.Table<P>, rest: seq<Byte>,
    enc: TagTable.Entry<P> -> seq<Byte>, dec: seq<Byte> -> Result<(TagTable.Entry<P>, seq<Byte>)>)
    requires RoundTrips(enc, dec)
    requires |t.slots| < SizeModulus && NamesFit(t.slots) && t.recycled == {}
    ensures DecodeTable(WriteTableAsWritten(t, enc).value + (U64(0) + rest), dec) == Ok((t, rest))
  {
    var header := EncodeHeader(t.live, t.maxTag, |t.slots|);
    var slots := EncodeSlots(t.slots, enc);
    var tail2 := U64(0) + rest;
    AppendAssoc(header, slots, tail2);
    DecodeEncodedHeader(t.live, t.maxTag, |t.slots|, slots + tail2);
    DecodeEncodedSlots(t.slots, tail2, enc, dec);
    var none: seq<TagId> := [];
    DecodeEncodedIdList(none, rest);
    assert U64(|none|) + EncodeIds(none) + rest == tail2;
    assert IdHeap.Members(none) == {};
  }

  /**
    The constructor-state catalog, written as the source writes it, does not
    read back. Its book-tag table does: the reader takes the group table's
    live count (0) for the recycled count that was never written. The group
    table is then read eight bytes late, and the 20 bytes left are too few.
   */
  lemma EmptyCatalogUnreadable()
    ensures WriteCatalogAsWritten(TagManager.Empty()).Some?
    ensures var b := WriteCatalogAsWritten(TagManager.Empty()).value;
            && DecodeTable(b, DecodeBookTag).Ok?
            && DecodeTable(b, DecodeBookTag).value.0 == TagManager.Empty().books
            && DecodeCatalog(b).Err?
  {
    var m := TagManager.Empty();
    BookCodecRoundTrip();
    var wb := WriteTableAsWritten(m.books, EncodeBookTagTotal).value;
    var wg := WriteTableAsWritten(m.groups, EncodeGroupTagTotal).value;
    assert |EncodeSlots(m.groups.slots, EncodeGroupTagTotal)| == 10;
    assert |wg| == 28;
    var groupRest := wg[8..];
    assert wg[..8] == EncodeHeader(0, 0, 1)[..8] == U64(0);
    assert wg == U64(0) + groupRest;
    AsWrittenTableTakesNextCount(m.books, groupRest, EncodeBookTagTotal, DecodeBookTag);
    ShortGroupTableUnreadable(groupRest);
  }

  /** EncodeBookTag as a total function: names too long for the prefix do not arise in the model. */
  function EncodeBookTagTotal(e: TagManager.BookTag): seq<Byte> {
    if |e.name| < SizeModulus then EncodeBookTag(e) else []
  }

  /** EncodeGroupTag as a total function. */
  function EncodeGroupTagTotal(e: TagManager.GroupTag): seq<Byte> {
    if |e.name| < SizeModulus then EncodeGroupTag(e) else []
  }

  lemma BookCodecRoundTrip()
    ensures RoundTrips(EncodeBookTagTotal, DecodeBookTag)
  {
    forall e: TagManager.BookTag, r: seq<Byte> | |e.name| < SizeModulus
      ensures DecodeBookTag(EncodeBookTagTotal(e) + r) == Ok((e, r))
    {
      DecodeEncodedBookTag(e, r);
    }
  }

  lemma GroupCodecRoundTrip()
    ensures RoundTrips(EncodeGroupTagTotal, DecodeGroupTag)
  {
    forall e: TagManager.GroupTag, r: seq<Byte> | |e.name| < SizeModulus
      ensures DecodeGroupTag(EncodeGroupTagTotal(e) + r) == Ok((e, r))
    {
      DecodeEncodedGroupTag(e, r);
    }
  }

  /** TagManager::write with the corrected table writer: book tags, then group tags. */
  function EncodeCatalog(m: TagManager.Manager): (b: seq<Byte>)
    requires |m.books.slots| < SizeModulus && |m.groups.slots| < SizeModulus
    ensures |b| >= 52
    ensures b[..18] == EncodeHeader(m.books.live, m.books.maxTag, |m.books.slots|)
  {
    var wb := EncodeTable(m.books, EncodeBookTagTotal);
    var wg := EncodeTable(m.groups, EncodeGroupTagTotal);
    assert (wb + wg)[..18] == wb[..18];
    wb + wg
  }

  /** A catalog written with the corrected writer reads back as the same two tables. */
  lemma DecodeEncodedCatalog(m: TagManager.Manager)
    requires |m.books.slots| < SizeModulus && |m.groups.slots| < SizeModulus
    requires NamesFit(m.books.slots) && NamesFit(m.groups.slots)
    ensures DecodeCatalog(EncodeCatalog(m)) == Ok(m)
  {
    BookCodecRoundTrip();
    GroupCodecRoundTrip();
    var b2 := EncodeTable(m.groups, EncodeGroupTagTotal);
    DecodeEncodedTable(m.books, b2, EncodeBookTagTotal, DecodeBookTag);
    DecodeEncodedTable(m.groups, [], EncodeGroupTagTotal, DecodeGroupTag);
    assert b2 + [] == b2;
  }
}
