# manga-manager tag index, modelled in Dafny

This project models the tag index of the manga-manager library: the
`TagManager`, which keeps book tags and group tags. The model covers:

- the `TagManager` itself;
- its per-tag and per-table binary layout;
- the edits a `Book` makes to its list of book-tag identifiers.

Each tag table (`TagsInfo` in the source) holds four things:

- a slot vector in which a live tag's identifier equals its index;
- a min-heap of erased identifiers waiting to be reused;
- a watermark, the largest identifier handed out so far;
- a live count that is kept incrementally.

Book tags carry a group identifier and group tags do not. One generic
`TagTable.Table<P>` is therefore used twice: with `P = TagId` for book tags
and with `P = ()` for group tags.

The files and what each holds:

- `tag_ids.dfy` (`TagIds`): 16-bit identifiers with `NullTagId = 0` and
  `MaxTagId = 65535`; the 64-bit `std::size_t`; `++` and `--` with explicit
  wrap-around; bytes and byte-string names.
- `id_heap.dfy` (`IdHeap`): the recycled-identifier min-heap, kept as a set
  whose top is its least member.
- `tag_table.dfy` (`TagTable`): one table, with its invariant `Valid` and
  these operations:
  - allocation (`m_getNewId`);
  - the validity test (`m_checkIfValidId`);
  - first-match name lookup (`m_getTagId`);
  - get-by-id (`m_getTag`);
  - erase by tombstoning (`m_eraseTag`);
  - the computed count (`m_getSumOfTags`).
- `tag_manager.dfy` (`TagManager`): the public API over the two tables. It
  includes the two different create policies:
  - `createBookTag` returns the existing identifier for a known name;
  - `createGroupTag` refuses a known name with the null identifier.

  It also holds the group queries over book tags and `Run`, which proves the
  invariants for any sequence of creates, erases and clears.
- `tag_codec.dfy` (`TagCodec`): the byte layout of `Tag`/`BookTag::read` and
  `write`, and the table reader `m_readInfo`. It also holds the table writer
  `m_writeInfo`, both as written and corrected (see Findings).
- `book_tags.dfy` (`BookTags`): `Book::addTag`, `removeTag`, `getTags(groupId)`,
  `getSumOfTags()` and `getSumOfTags(groupId)` as operations on `seq<TagId>`.

The table invariant `TagTable.Valid` states four things:

- the slot vector has exactly watermark + 1 slots;
- slot 0 holds the null tag;
- a slot holds its own index exactly when that identifier is not recycled, and
  a tombstone (identifier 0) otherwise;
- recycled identifiers lie in 1..watermark, and the live count equals the
  watermark less the number of recycled identifiers.

That last fact is why `getSumOf*Tags`, which the source computes from the
watermark and the heap size, agrees with the incrementally kept count.
`TagManager.Run` proves this for every operation sequence that starts from
the constructor state.

A second invariant, `TagTable.NameIndexed`, says that no slot before a live,
non-empty-named tag carries the same name. It holds in every reachable state
and is what makes `createBookTag` idempotent for non-empty names. The empty
name is never found, because the null tag in slot 0 carries it and its
identifier is 0. So every `createBookTag` with the empty name allocates another
tag, and `createGroupTag` with the empty name always succeeds while
identifiers last.

Where the source and its header comments disagree, the model follows the
source. The header says `createBookTag` returns the null identifier for an
existing name (include/Tag.h:179-184); the source returns the existing
identifier, and so does the model. The one exception is `Book::removeTags`,
which cannot be followed as written: the model takes the stable filter its
header describes (see Left out).

## Model

| member | source | states |
|---|---|---|
| TagIds.IncDec | src/Tag.cpp:262-278 | the 64-bit live-count `++` of m_getNewId and `--` of m_eraseTag undo each other, across the wrap at 0 as well |
| IdHeap.Top | include/Tag.h:113 | the top of the `std::greater` priority queue is a member no larger than any other member |
| IdHeap.Pop | src/Tag.cpp:265 | popping removes exactly the top and shrinks the heap by one |
| IdHeap.Drain | src/Tag.cpp:254-258 | popping the heap until empty yields every member once, in strictly ascending order |
| TagTable.Empty | src/Tag.cpp:89-91 | the constructor state satisfies both table invariants and has no live tags |
| TagTable.IsValidId | src/Tag.cpp:205-208 | an identifier is valid iff it is non-null, at most the watermark and not tombstoned; a valid identifier's slot holds that identifier |
| TagTable.FirstNamed | src/Tag.cpp:212-213 | the index of the first slot carrying the name, or the slot count when none does; no earlier slot carries it |
| TagTable.GetTagId | src/Tag.cpp:210-216 | name lookup yields a valid identifier whose tag has the name and with no earlier slot of that name, or 0 when the first match is a tombstone or no slot matches; the empty name always yields 0 |
| TagTable.LookupFindsLiveName | src/Tag.cpp:210-216 | under the name-index invariant, a non-empty name yields non-null iff some live tag has it, and then yields that tag |
| TagTable.GetTag | src/Tag.cpp:218-222 | a valid identifier yields its stored tag; any other identifier yields slot 0, the null tag |
| TagTable.NewId | src/Tag.cpp:261-273 | allocation takes the least recycled identifier first (watermark kept, count +1), otherwise watermark + 1 (watermark and count +1), otherwise 0 at 65535 with nothing changed; a non-null result was not valid before |
| TagTable.Store | src/Tag.cpp:149 | storing at `id` makes slot `id` the new tag, leaves every other slot and pads any new slots with null tags |
| TagTable.Insert | src/Tag.cpp:147-149 | allocate-then-store keeps the invariant; null iff identifiers are exhausted, with no change; otherwise the identifier becomes valid with the given name and payload, the count grows by one and no other identifier's validity changes |
| TagTable.InsertKeepsNameIndex | src/Tag.cpp:144-150 | storing a name the lookup did not find keeps the name-index invariant |
| TagTable.Erase | src/Tag.cpp:275-283 | erasing an invalid identifier returns false and changes nothing; a valid one returns true, is recycled, is tombstoned with its name and payload kept, decrements the count and is invalid afterwards |
| TagTable.SumOfTags | src/Tag.cpp:285-288 | watermark less heap size, in `size_t` arithmetic, equals the incrementally kept live count under the invariant |
| TagManager.Empty | src/Tag.cpp:80 | the default-constructed manager is valid, has no valid identifier in either table and counts zero tags |
| TagManager.Clear | src/Tag.cpp:196-203 | after clearing, both tables are back at watermark 0 with no valid identifier and zero counts |
| TagManager.CheckIfValidBookTagId | src/Tag.cpp:136-138 | book-tag validity is non-null, at most the watermark and not recycled |
| TagManager.CheckIfValidGroupTagId | src/Tag.cpp:140-142 | group-tag validity is non-null, at most the watermark and not recycled |
| TagManager.GetBookTagId | src/Tag.cpp:120-122 | a non-null answer names a valid book tag with that name; for a non-empty name the answer is non-null iff such a tag exists, and it is the only one; the empty name yields null |
| TagManager.GetGroupTagId | src/Tag.cpp:124-126 | as for book tags, over the group-tag table |
| TagManager.GetBookTag | src/Tag.cpp:128-130 | a valid identifier yields its stored book tag, any other the null book tag |
| TagManager.GetGroupTag | src/Tag.cpp:132-134 | a valid identifier yields its stored group tag, any other the null group tag |
| TagManager.CreateBookTag | src/Tag.cpp:144-151 | a found name returns its identifier with no change; otherwise a fresh valid identifier holding the name and group, or null with no change when identifiers are exhausted; group tags untouched; no other book tag changes |
| TagManager.CreateGroupTag | src/Tag.cpp:153-160 | a found name is refused with null and no change; otherwise a fresh valid identifier holding the name, or null when exhausted; book tags untouched |
| TagManager.EraseBookTag | src/Tag.cpp:162-164 | true iff the identifier was valid; on true it is invalid afterwards, reads back as the null tag, the count drops by one and no other tag changes; on false nothing changes |
| TagManager.EraseGroupTag | src/Tag.cpp:166-168 | the same, for group tags |
| TagManager.SumOfBookTags | src/Tag.cpp:170-172 | the reported number of book tags equals the incrementally kept count |
| TagManager.SumOfGroupTags | src/Tag.cpp:174-176 | the reported number of group tags equals the incrementally kept count |
| TagManager.CollectFrom | src/Tag.cpp:189-192 | the scan from slot `k` collects exactly the identifiers of live slots in the group, in increasing order, as many as the counting scan counts |
| TagManager.BookTagsFromGroup | src/Tag.cpp:187-194 | exactly the valid book tags whose group is `g`, in strictly ascending order, and as many as getSumOfTagsFromGroup reports |
| TagManager.SumOfTagsFromGroup | src/Tag.cpp:178-185 | the count equals the number of valid book tags whose group is `g` |
| TagManager.CreateBookTagTwice | src/Tag.cpp:144-151 | creating the same non-empty book-tag name twice gives the same identifier, and the second call changes nothing; the book-tag count is unchanged when the name existed or identifiers are exhausted, and grows by exactly one otherwise |
| TagManager.CreateGroupTagTwice | src/Tag.cpp:153-160 | creating the same non-empty group-tag name twice: the second call returns null and changes nothing |
| TagManager.EmptyBookTagNameNeverDeduplicated | src/Tag.cpp:144-149 | two creates with the empty name make two distinct tags while identifiers last |
| TagManager.Apply | src/Tag.cpp:144-168 | each create, erase or clear keeps the manager invariant |
| TagManager.Run | include/Tag.h:123-126 | after any operation sequence the live slots store their own index, recycled identifiers lie in 1..watermark and are invalid, and reported count = live count = watermark - recycled, in both tables |
| TagManager.ArtistAliceScenario | src/Tag.cpp:144-194 | worked example: group "Artist" and book tag "Alice" both get identifier 1, the group lists [1], and after erasing the book tag it counts 0 |
| TagCodec.U16 | src/Tag.cpp:30 | a 16-bit field is two bytes that read back as the value |
| TagCodec.U64 | src/Tag.cpp:32 | a `size_t` field is eight bytes that read back as the value |
| TagCodec.ReadU16 | src/Tag.cpp:22 | reading a 16-bit field succeeds iff two bytes remain, and the bytes consumed are the field's encoding |
| TagCodec.ReadU64 | src/Tag.cpp:24 | reading a `size_t` field succeeds iff eight bytes remain, and the bytes consumed are the field's encoding |
| TagCodec.EncodeTag | src/Tag.cpp:29-34 | Tag::write emits 2 + 8 + name-length bytes |
| TagCodec.DecodeTag | src/Tag.cpp:21-27 | Tag::read fails on fewer than 10 bytes; on success the consumed bytes are exactly Tag::write of the identifier and name read |
| TagCodec.DecodeEncodedTag | src/Tag.cpp:21-34 | Tag::read after Tag::write gives back identifier, name and the following input |
| TagCodec.EncodeBookTag | src/Tag.cpp:63-66 | BookTag::write emits the tag, then two bytes of group identifier |
| TagCodec.DecodeBookTag | src/Tag.cpp:58-61 | BookTag::read fails on fewer than 12 bytes; on success the consumed bytes are exactly BookTag::write of the tag read |
| TagCodec.DecodeEncodedBookTag | src/Tag.cpp:58-66 | BookTag::read after BookTag::write gives back identifier, name and group |
| TagCodec.EncodeGroupTag | src/Tag.cpp:29-34 | a group tag is written as a plain tag, 10 + name-length bytes |
| TagCodec.DecodeGroupTag | src/Tag.cpp:21-27 | a group tag is read as a plain tag; on success the consumed bytes are its encoding |
| TagCodec.DecodeEncodedGroupTag | src/Tag.cpp:21-34 | reading a written group tag gives back identifier and name |
| TagCodec.DecodeSlots | src/Tag.cpp:230-236 | reading `size` tags, when it succeeds, gives exactly `size` of them |
| TagCodec.DecodeEncodedSlots | src/Tag.cpp:230-236 | reading back written slots gives the same slots |
| TagCodec.DecodeIds | src/Tag.cpp:238-242 | reading `n` identifiers succeeds iff 2n bytes remain, and gives `n` identifiers whose encoding was consumed |
| TagCodec.DecodeEncodedIds | src/Tag.cpp:238-242 | reading back written identifiers gives the same list |
| TagCodec.EncodeHeader | src/Tag.cpp:247-250 | the fixed part of a table is 18 bytes: live count, watermark, slot count |
| TagCodec.DecodeHeader | src/Tag.cpp:226-229 | reading the fixed part succeeds iff 18 bytes remain, and the consumed bytes are its encoding |
| TagCodec.DecodeEncodedHeader | src/Tag.cpp:226-229 | reading a written fixed part gives back the three fields |
| TagCodec.DecodeRecycled | src/Tag.cpp:237-242 | reading the recycled identifiers needs the 8-byte count, and it consumes at least those 8 bytes |
| TagCodec.DecodeEncodedRecycled | src/Tag.cpp:237-242 | the count followed by the heap's identifiers in pop order reads back as the same heap |
| TagCodec.DecodeTable | src/Tag.cpp:224-243 | m_readInfo fails on fewer than 18 bytes; on success the live count, watermark and slot count re-encode to the first 18 bytes |
| TagCodec.DecodeCatalog | src/Tag.cpp:101-109 | read fails on fewer than 18 bytes; on success the book table is what m_readInfo reads from the start, and the group table what it reads from where the book table ended |
| TagCodec.WriteTableAsWritten | src/Tag.cpp:245-259 | m_writeInfo as written finishes iff there is no recycled identifier, and then starts with the 18-byte fixed part |
| TagCodec.WrittenTableUnreadable | src/Tag.cpp:224-259 | a table m_writeInfo finishes writing, with nothing after it, fails to read back with m_readInfo, because the recycled count is missing; with recycled identifiers the writer never finishes |
| TagCodec.WriteCatalogAsWritten | src/Tag.cpp:111-118 | write as written (book table, then group table) finishes iff neither table has a recycled identifier, and then starts with the book table's fixed part |
| TagCodec.AsWrittenTableTakesNextCount | src/Tag.cpp:224-259 | a table m_writeInfo wrote without recycled identifiers reads back whole when the next eight bytes are zero, which m_readInfo takes for the missing count |
| TagCodec.ShortGroupTableUnreadable | src/Tag.cpp:224-243 | m_readInfo cannot read a group-tag table from fewer than 26 bytes |
| TagCodec.EmptyCatalogUnreadable | src/Tag.cpp:101-118 | the constructor-state manager, written by write as written, does not read back: the book table reads back intact, and the group table, read eight bytes late, fails |
| TagCodec.EncodeRecycled | src/Tag.cpp:254-258 | corrected: the recycled identifiers take 8 + 2 bytes per identifier |
| TagCodec.EncodeTable | src/Tag.cpp:245-259 | corrected m_writeInfo emits at least the fixed part and the recycled count |
| TagCodec.DecodeEncodedTable | src/Tag.cpp:224-259 | a table written by the corrected writer reads back as the same table, the following input untouched |
| TagCodec.BookCodecRoundTrip | src/Tag.cpp:58-66 | the book-tag reader undoes the book-tag writer for every tag and every following input |
| TagCodec.GroupCodecRoundTrip | src/Tag.cpp:21-34 | the group-tag reader undoes the group-tag writer |
| TagCodec.EncodeCatalog | src/Tag.cpp:111-118 | corrected write: at least 52 bytes, starting with the book table's fixed part |
| TagCodec.DecodeEncodedCatalog | src/Tag.cpp:101-118 | a catalog written with the corrected writer reads back as the same manager |
| BookTags.AddTag | src/Book.cpp:62-65 | an accepted identifier is appended at the end, with no duplicate check; a rejected one leaves the list unchanged |
| BookTags.WithoutFirst | src/Book.cpp:67-77 | removing the first occurrence shortens a list holding the identifier by one and takes exactly one copy out of its multiset; an absent identifier leaves it unchanged; the rest keep their order |
| BookTags.WithoutFirstAt | src/Book.cpp:70-76 | with the first occurrence at `i`, the result is the entries before `i` followed by those after `i` |
| BookTags.RemoveTag | src/Book.cpp:67-77 | the find-shift-pop loop is a no-op for a rejected or absent identifier and otherwise deletes just the first occurrence |
| BookTags.GetTags | src/Book.cpp:52-60 | getTags(groupId) is an ordered subsequence of the list holding exactly the entries whose looked-up tag is non-null and in the group |
| BookTags.GetTagsAreLiveMembers | src/Book.cpp:52-60 | when the null test is the identifier test, getTags(groupId) holds exactly the entries naming a valid book tag of the group |
| BookTags.GetTagsAppend | src/Book.cpp:52-60 | getTags(groupId) of a concatenation is the concatenation of the answers |
| BookTags.SumOfTagsIn | src/Book.cpp:96-102 | getSumOfTags(groupId) is at most the list length; it is 0 iff no entry is in the group and the full length iff every entry is |
| BookTags.SumOfTagsInAppend | src/Book.cpp:96-102 | getSumOfTags(groupId) of a concatenation is the sum of the parts' counts |
| BookTags.SumOfTagsInCountsGetTags | src/Book.cpp:52-102 | with the lookups read from the manager, getSumOfTags(groupId) is the length of getTags(groupId), plus, for the null group, the entries that name no live tag |
| BookTags.EditsChangeSumOfTags | src/Book.cpp:62-94 | getSumOfTags() (src/Book.cpp:92-94, the list length) grows by one on an accepted addTag and shrinks by one when removeTag deletes |
| BookTags.RemoveUndoesAdd | src/Book.cpp:62-77 | removeTag undoes an accepted addTag of an identifier the list did not hold |
| BookTags.RemoveTags | src/Book.cpp:79-90 | deviation, as described: entries of the group are dropped, the rest keep their order, and the length falls by getSumOfTags(groupId); a rejected group leaves the list unchanged |

## Left out

- src/Img.cpp and include/Img.h are not part of this model. They hold image-file scanning, copying, moving and reading, which is filesystem I/O.
- Book constructors, move constructor, `getBookId`, `getTags()` and Book `read`/`write` are not modelled. They are file handling or code that does not compile as written (src/Book.cpp:48-50).
- `TagManager::read/write(path)` (src/Tag.cpp:101-118) open files. The model covers only the bytes: `TagCodec.DecodeCatalog` reads them, `TagCodec.WriteCatalogAsWritten` is what write emits as written, and `TagCodec.EncodeCatalog` is the corrected writer the round trip is proved for.
- Integer widths and byte order are native in the source. The model fixes `size_t` at 8 bytes and uses little-endian order.
- The stream reads in the source never check for failure, so a short input leaves the fields unspecified. The decoders return `Truncated` instead.
- A decoded table is not checked against the table invariant, and neither does the source check it.
- TagCodec.DecodeRecycled: the source pushes every identifier it reads onto the heap, so a repeated identifier in the input would be kept twice. The model's set keeps it once. No written table contains repeats, because only live identifiers are erased.
- TagCodec.DecodeTable: its own contract states only the header fields. The full round trip is `TagCodec.DecodeEncodedTable`, which covers the corrected writer only.
- TagManager.Clear: the source empties the slot vectors, dropping the null tag in slot 0. After that, `getBookTag` would throw and the next create would write out of bounds. The model resets both tables to the constructor state instead.
- TagTable.Store: the source assigns `m_Tags[id]` without growing the vector, which is out of bounds past the constructor's single slot. The model pads with null tags up to `id`, then assigns, so the slot count stays at watermark + 1.
- BookTags.RemoveTags: as written, the loop reads past the end, never advances the read position after copying, and pops the number of kept entries rather than the number removed (src/Book.cpp:84-89). The model is the stable filter that the header comment describes (include/Book.h:47).
- BookTags.AddTag, BookTags.RemoveTag, BookTags.GetTags, BookTags.SumOfTagsIn: the manager queries these call are parameters:
  - `checkTagId`, `isNull` and `getGroupTagId(TagIdType)` are not declared by `TagManager` (include/Tag.h), so their meaning is not fixed;
  - `BookTags.GetTagsAreLiveMembers` and `BookTags.SumOfTagsInCountsGetTags` state what follows when they are read from the manager.
- BookTags.SumOfTagsIn: the count is an unbounded `nat`. A `size_t` counter cannot overflow over a list that fits in memory.
- A Book whose `m_tagManager` is null is not modelled. Every Book operation here takes the manager's answers as given.

## Findings

| source | as written | input that shows it | evidently intended | confidence | as-written member | corrected member |
|---|---|---|---|---|---|---|
| src/Tag.cpp:254-258 | m_writeInfo writes the recycled identifiers without the count that m_readInfo reads first (src/Tag.cpp:237), and its loop tests the original heap while popping a copy | erase one tag and write: the loop never exits normally (undefined behaviour once the copy is empty); with no erased tag, write the constructor-state manager: read takes the group table's live count for the book table's recycled count, reads the group table eight bytes late and fails | write the number of recycled identifiers, then pop the copy until it is empty | high; not executed | TagCodec.WriteCatalogAsWritten, TagCodec.EmptyCatalogUnreadable | TagCodec.EncodeTable, TagCodec.DecodeEncodedTable |
