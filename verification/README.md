# Verified model of a small server's hard core

The server is a C++ program whose most intricate code is self-contained: a DNS cache with its own
heap, index and wire codec, an LZ packer, MD5, a bounded formatter, number printing and an address
search. This project models that code in Dafny and proves what it keeps.

Code that works by changing things step by step is modelled that way: the message buffer, the heap's
word array, the cache's slots and index, the packer's buffers, the MD5 context and the formatter's
buffer are arrays and classes that methods change in place. Each such method is proved against a
function or a relation on values, and the lemmas say what those promise.

| file | what it models |
|---|---|
| `Bytes.dfy`, `DnsConst.dfy` | bytes, C strings, the folding of `strcasecmp`; shared constants |
| `DnsName.dfy`, `DnsDecode.dfy`, `DnsRoundTrip.dfy` | names on the wire: compression, decoding, and why one undoes the other (RFC 1035 sections 3.1 and 4.1.4) |
| `DnsSpelling.dfy` | what a message of any server spells at a place, and that decoding reads it |
| `DnsRecord.dfy`, `DnsRecordRoundTrip.dfy`, `DnsForeign.dfy` | resource records: writing, reading back, whole messages, records of any server (RFC 1035 sections 3.2 and 4.1.3) |
| `DnsHash.dfy`, `DnsIndex.dfy`, `DnsEvict.dfy`, `DnsCache.dfy` | the record cache under its windowed hash index, and what eviction as written does to it |
| `DnsStored.dfy` | where the records in the cache come from, over any run |
| `DnsReply.dfy` | a reply taken into the cache, and the way of a record from writing to lookup |
| `HeapBlocks.dfy`, `Heap.dfy` | the first-fit allocator inside one word array |
| `LzIndex.dfy`, `LzMatch.dfy`, `LzTokens.dfy`, `LzPack.dfy` | the packer: position index, match search, token streams, both loops |
| `Md5Transform.dfy`, `Md5.dfy`, `Md5Known.dfy` | MD5 (RFC 1321), and two of its known answers |
| `BoundedPrint.dfy` | formatting into a bounded target through a flushed buffer |
| `Numbers.dfy` | division by shift and subtract, number printing and reading |
| `CountryFind.dfy` | the range search by address |

The original's `ulong` is 32 bits wide, its `char` signed, its words little endian; the model writes
these out where they matter.

## Main results

- A compressed name reads back, equal up to letter case, behind any bytes whatever; and so does any
  run of records, although RDLENGTH is patched after the name behind it has been compressed. Byte by
  byte, each record written has its type, class IN, TTL, length and data where RFC 1035 puts them.
- The decoder reads what RFC 1035 says a message spells, whoever wrote it: labels and pointers mixed in
  any way, up to 35 pointers to any place before the name, up to 62 characters of text. Longer names
  are cut behind the last label that fits. Records of any server are read by the same standard.
- The name decoder stops on every input, pointer cycles included. With a text it stays within fixed
  bounds; without one it writes one byte before its buffer, and exactly when that happens is proved.
- Over any run of stores, evictions, expiries, lookups, removals and rehashes of the cache as it is
  written, no lookup ever answers what is no hit, and a store leaves a right index right if and only
  if it evicts no live record of another bucket. While the index is right, every step does what the
  plain operation on slots does, and the windowed lookup finds exactly what a scan of every slot
  would; its first answer is exact even while only the windows are right and the counts are not. With
  the evicted record's hash in place of the incoming one, the index stays right always.
- Over any run, whatever the index, each live record is one that was there or was stored, under the TTL
  of one with the same bytes; so what a lookup answers was stored under the name asked for, and is not
  past the largest TTL it was stored with.
- From end to end: records written by `AddRR`, read out of a reply and stored into a cache with a right
  index are each found by any spelling of their names until their TTLs run out. This asks for as many
  free slots ahead of the first live record past its TTL (with the evicted record's hash, any room will
  do), for records whose types can be told apart by more than letter case of name and data, and that
  nothing happens between storing and lookup.
- The heap tiles its array over any run, live blocks are undisturbed by all that happens to others,
  and a request is refused exactly when no run of free blocks the scan reaches would hold it.
- Packing then unpacking gives back any input of 1 to 436907 bytes; the packer's choice of each match
  is fixed exactly.
- MD5 in any number of pieces is MD5 of the whole, and gives the answers RFC 1321 lists for the empty
  message and for the letters and digits; the shift-subtract division divides; what is printed reads
  back; the bounded formatter truncates the full rendering and nothing else, and a format put together
  from pieces renders as their renderings in order, each %s as the next argument.

## Where the code does not do what it seems to promise

- `DecodeName` ends with `t[-1] = 0` (dnsd.cpp:1421). If no label was copied, that zero lands on the
  byte before the caller's buffer, which keeps what it held: `DnsDecode.DecodeName` says so. It
  happens unless the name is a zero byte in place or its pointers lead to a label of 1 to 62 bytes
  (`DnsDecode.HoldsText`, both ways). A pointer to an earlier zero byte, a legal spelling of the root,
  is enough (`DnsDecode.PointerToRoot`).
- `SetRecord` (dnsd.cpp:368) tells `DelHash` the incoming record's hash when it evicts another record.
  `DnsCache.NSRecordArray.SetRecord` is that code: a right index stays right if and only if nothing
  live is evicted or both records share a bucket. The whole store hides a live record from lookups if
  and only if moreover the incoming record's bucket has exactly one (`DnsEvict.StoreFromRight`); from
  windows that cover but counts that are off, `DnsEvict.StoreHides` is the exact condition.
  `DnsEvict.EvictHidesARecord` is a full cache of any size on which it happens. The other callers of
  `DelHash` pass the removed record's hash, and so does `SetRecordOwnHash`; `Store` and `Run` come with
  either.
- So a reply may lose records it brings though there is room: expired records that are still live
  count as room for `FindFree`, and taking one of another bucket is such an eviction. On
  `DnsEvict.ReplyHalfLost`, a cache of any size, a reply brings two addresses of one name and lookups
  find one. `DnsReply.StoreAndFind` asks for free slots ahead of expired ones instead.
- `DelDup` does not compare types. It leaves no record twice and drops nothing but a same record if and
  only if the first duplicate it meets is of the filled record's type (`DnsIndex.DelDupExact`); storing
  a CNAME drops an NS record of the same owner and target (`DnsIndex.DelDupDropsOtherType`).
- The heap's scan never looks at a single word just before the sentinel. `HeapAlloc.LoneFreeWord` is
  a heap where a request for one word is refused though that word is free; `HeapAlloc.Heap.Alloc` says
  exactly when a request is refused, and `HeapAlloc.NullMeansNoRun` gives the bound that holds of
  every run, that word included.
- `Alloc` rounds requests in 32 bits: there is room for all bytes asked for if and only if they are at
  most 0xFFFFFFF8 (`HeapAlloc.WordsCover`). Four requests, 0xFFFFFFF9 to 0xFFFFFFFC, round to no words
  at all (`HeapAlloc.NoWordsAsked`); a free block taken for one gets a header that following headers
  never gets past, and the heap is none any more (`HeapAlloc.NoWordsClaimed`). Every other request is
  served or refused as `HeapAlloc.Heap.Alloc` says.
- `MD5Update` tests `i + 63 < inputLen` in 32 bits. It works whenever the bytes already buffered and
  the input together stay below 2^32 (`Md5.MD5Context.MD5Update`), and otherwise its loop never ends
  (`Md5.EndlessLoop`).
- `LZZPk` takes input of any size, but the position buckets fit their buffer if and only if the input
  is at most 436907 bytes, whatever they are (`LzMatch.FitsExactly`); `InitCache` does not check.
- `fbest` never looks at the bucket of the word the input begins with, because a position of 0 reads
  as the bucket's end; `LzMatch.Candidate` has it so.
- `my_ulltoa` prints only digits if and only if the value is below 10^19 (`Numbers.PrintedInDecimal`);
  from there on the first place holds 10 to 18 and prints as a letter, up to i for the largest value
  (`Numbers.LargestBeginsWithLetter`).
- `FastFind` reports an address equal to the base of a range that is not the first as not found
  (`CountryFind.OwnBaseNotFound`), and the end of the last range as found.
- A division by zero in `my_mulldiv` gives a quotient of all ones and leaves the dividend as remainder.

## Model

| member | source | states |
|---|---|---|
| DnsName.ConvertDomain | dnsd.cpp:1194-1233 | in place over any earlier bytes, the dotted text becomes the compressed name; earlier bytes and bytes behind the text are untouched, and the position returned is the first behind the name |
| DnsName.LabelLengths | dnsd.cpp:1203-1217 | the first loop turns the dots into label lengths: length-prefixed labels closed by a zero byte |
| DnsName.FindEarlier | dnsd.cpp:1221-1223 | trying every earlier byte, label start or not, with the C-string comparison finds the first place below 256 and before the name that spells the suffix |
| DnsName.FindSuffix | dnsd.cpp:1219-1231 | the loop stops at the first suffix found earlier, or at the root |
| DnsName.Compress | dnsd.cpp:1219-1232 | two bytes overwrite that suffix by a pointer to it |
| DnsName.MatchLiesBefore | dnsd.cpp:1221-1223 | a match begun anywhere before a suffix ends before the name being written begins, so no name points into itself |
| Bytes.StrCaseEqMeaning | dnsd.cpp:1223 | comparing two C strings inside a message compares exactly the second one's bytes, letter case aside |
| DnsDecode.DecodeName | dnsd.cpp:1388-1428 | on any bytes, pointer cycles included, decoding stops, reads within 65 bytes of its start or before it, and returns the position behind the first pointer or the last byte read; with a text it writes at most 62 characters and a NUL into the buffer, without one a zero on the byte before the buffer and nothing else |
| DnsDecode.DecodeTurn | dnsd.cpp:1399-1421 | one turn either stops, spends one of 35 hops on a pointer to before the start, or spends room on a label |
| DnsDecode.HoldsText | dnsd.cpp:1397-1425 | DecodeName leaves a text if and only if the name is the zero byte in place or its pointers, followed before its start and at most 35 of them, lead to a label of 1 to 62 bytes |
| DnsDecode.PointerToRoot | dnsd.cpp:1399-1421 | a message where a pointer to an earlier zero byte leaves none |
| DnsDecode.DecodeText | dnsd.cpp:1410-1423 | the text never exceeds 62 characters |
| DnsDecode.DecodeNext | dnsd.cpp:1403-1427 | the position returned lies behind the start and at most 65 bytes on |
| DnsDecode.CycleStops | dnsd.cpp:1401-1406 | a pointer that leads back to itself is followed 35 times in all and then given up, with what was decoded so far |
| DnsSpelling.SpelledIsRead | dnsd.cpp:1388-1428 | RFC 1035 section 4.1.4 for the reader: labels of 1 to 63 bytes and pointers mixed in any way, each pointer to any place before the name's start up to 0x3FFF, at most 35 of them, are read as their dotted text if that has 1 to 62 characters; the position returned is where the name ends in place, behind its first pointer or its zero byte |
| DnsSpelling.LongIsCut | dnsd.cpp:1410-1425 | a longer name is cut behind the last label that fits; if the first does not, no text is left |
| DnsSpelling.FittingIs | dnsd.cpp:1410-1412 | what fits is as many labels, each with a dot behind it, as 63 bytes hold |
| DnsSpelling.RootIsRead | dnsd.cpp:1397-1425 | the root in place is the empty text and takes one byte; behind pointers, at most 35, it leaves no text |
| DnsRoundTrip.NameReadsBack | dnsd.cpp:1194-1233 | RFC 1035 section 4.1.4: a name written behind any bytes is decoded equal up to letter case and ends where the writer stopped, as long as the places it points at still spell what they did |
| DnsRoundTrip.NameRoundTrip | dnsd.cpp:1388-1428 | so for every earlier message, name and later bytes |
| DnsRoundTrip.PointerIsLongestSuffix | dnsd.cpp:1219-1231 | the pointer replaces the longest suffix that occurs anywhere in bytes 12 to 255 of the message; its target lies below 256 and wholly before the name |
| DnsRoundTrip.WalkLabels | dnsd.cpp:1399-1421 | any bytes that spell a suffix, wherever the search found them, decode to that suffix without following a pointer |
| DnsRoundTrip.WalkName | dnsd.cpp:1399-1427 | from any label on, written bytes decode to the rest of the name |
| DnsRecord.AddRR | dnsd.cpp:1273-1386 | owner, fixed part, length and data stand behind the earlier bytes, the length being the real one and names compressed against all that came before them; RecordReadsBack says what those bytes are |
| DnsRecord.PatchedBody | dnsd.cpp:1384 | patching RDLENGTH last is as if the right length had been written at first |
| DnsRecord.WireTtl | dnsd.cpp:1310-1313 | a TTL within sixty days is sent as it is; an absolute time as what is left of it, or as a minute if it is past or too far off |
| DnsRecord.ReadReply | dnsd.cpp:392-460 | on any bytes reading stops, reads at most 335 bytes past the message, hands over exactly the records of the recursive parse and counts those of the wanted type among the first ancount |
| DnsRecord.ReadRecord | dnsd.cpp:396-458 | one turn: stops at a low type byte or length byte that is no positive char, else takes one record and moves to the next |
| DnsRecord.ReadData | dnsd.cpp:418-453 | address, SOA, name, preference and name, or opaque bytes, by type |
| Bytes.CStrIs | dnsd.cpp:441-448 | a copied name is the decoded text up to its first NUL |
| DnsForeign.RecordIsRead | dnsd.cpp:394-401 | a record of any server: the owner it spells, and type and TTL as its bytes weigh, high byte first, the TTL shifted by the expiry modulo 2^32 |
| DnsForeign.BytesAreRead | dnsd.cpp:420-454 | the four bytes of an address; of a type without names, as many bytes as the length says |
| DnsForeign.NamesAreRead | dnsd.cpp:435-448 | of a name server, alias or pointer the name spelled, of a mail exchanger the two preference bytes and the name |
| DnsForeign.SoaIsRead | dnsd.cpp:427-434 | of a start of authority both names, the second where the first ends in place, and the twenty bytes behind it |
| DnsForeign.StopsAt | dnsd.cpp:403 | reading stops exactly where the low type byte is not positive or the low length byte negative, as signed chars |
| DnsForeign.WantedCounts | dnsd.cpp:417-418 | the count is the number of records, among the first ancount, whose low type byte is the wanted one |
| DnsRecordRoundTrip.MatchAvoidsLength | dnsd.cpp:1314-1384 | no place a name in record data can point at includes the RDLENGTH byte |
| DnsRecordRoundTrip.PatchCarries | dnsd.cpp:1384 | so patching that byte changes no place such a name points at |
| DnsRecordRoundTrip.DataReadsBack | dnsd.cpp:418-453 | record data is read back, names in it up to letter case |
| DnsRecordRoundTrip.RecordReadsBack | dnsd.cpp:394-458 | a record written behind any bytes is accepted and read back the same, and the reader stops where the writer did; behind the owner stand the type in two bytes, 0 and 1 for class IN, the TTL sent in four, a length that leads exactly to the record's end, and the data by type |
| DnsRecordRoundTrip.HeadOnWire | dnsd.cpp:1307-1314 | type, class, TTL and length by position |
| DnsRecordRoundTrip.DataIsOnWire | dnsd.cpp:1317-1384 | NS, CNAME and PTR data is a name from end to end, MX data two bytes and a name, an address four bytes, any other data the bytes themselves |
| DnsRecordRoundTrip.RecordsReadBack | dnsd.cpp:392-460 | so for any run of records written one after another |
| DnsRecordRoundTrip.MessageRoundTrip | dnsd.cpp:1273-1386 | RFC 1035 section 4.1.3: for every earlier message, run of records and later bytes, each record stands byte for byte in its place, one ending where the next begins; reading with rtyp 0 gives the same types, TTLs and data, names up to letter case, and consumes exactly the bytes written |
| DnsRecordRoundTrip.ExpiryAside | dnsd.cpp:400-401 | a reply's records differ from a transfer's in their TTLs only, by the time and 20 seconds modulo 2^32 |
| DnsRecordRoundTrip.WriteThenRead | dnsd.cpp:392-460 | the same through both methods |
| DnsRecordRoundTrip.BigEndianReadsBack | dnsd.cpp:1313-1314 | a TTL survives the network byte order both ways |
| DnsHash.MkNameIgnoresCase | dnsd.cpp:293-298 | names equal up to letter case hash alike |
| DnsHash.MkName3 | dnsd.cpp:293-298 | the loop computes the hash |
| DnsHash.HashOfTwo | dnsd.cpp:293-298 | the hash of ab is 555: the second letter is turned by the sum so far, and the sum is weighed by the count |
| DnsHash.HashOfHighByte | dnsd.cpp:295-296 | a byte above 127 counts as a negative number |
| Bytes.LowerMeets | dnsd.cpp:637 | bytes compare equal exactly if they are the same or the two cases of one letter A to Z |
| DnsIndex.DropKeeps | dnsd.cpp:583-596 | dropping a live record under its own hash keeps the index right, and its bucket's count was not zero |
| DnsIndex.FillKeeps | dnsd.cpp:559-566 | filling a free slot keeps the index right |
| DnsIndex.RewriteKeeps | dnsd.cpp:420-449 | filling in data or TTL does not touch the index |
| DnsIndex.RehashStep | dnsd.cpp:575-578 | one turn of the rebuild extends a right index by one slot |
| DnsIndex.RebuiltIsRight | dnsd.cpp:568-581 | the index rebuilt from the slots is right |
| DnsEvict.EvictAsWritten | dnsd.cpp:364-377 | SetRecord as written keeps a right index right if and only if nothing live is evicted or both records share a bucket |
| DnsEvict.RehashDue | dnsd.cpp:583-596 | removing from a bucket that counts none makes a rehash due with the next lookup, from one that counts more than one a step nearer |
| DnsEvict.EvictFromZero | dnsd.cpp:364-377 | so an eviction while the incoming bucket counts none leaves a rehash due behind the whole store, and the next lookup is exact |
| DnsEvict.EvictHides | dnsd.cpp:364-377 | from any windows that cover, whatever the counts, it leaves a live record outside its window if and only if it evicts a live one while the incoming bucket counts one and has another |
| DnsEvict.CoveredScan | dnsd.cpp:664-689 | a window that covers its bucket shows DelDup the first duplicate of the whole array |
| DnsEvict.ScanHides | dnsd.cpp:681-683 | DelDup hides the filled record if and only if it drops a duplicate while the count reads one |
| DnsEvict.StoreHides | dnsd.cpp:420-455 | the whole store as written, from windows that cover: they still do if and only if neither its eviction nor its DelDup hides a record |
| DnsEvict.StoreFromRight | dnsd.cpp:420-455 | from a right index the whole store keeps the index right if and only if no live record of another bucket is evicted, and every record in its window if and only if that or the incoming bucket has not exactly one live record |
| DnsEvict.EvictHidesARecord | dnsd.cpp:364-377 | a full cache of any size, its index just rebuilt, and a store after which a live unexpired record is outside its window with no rehash due |
| DnsEvict.ReplyHalfLost | dnsd.cpp:384-461 | a cache of any size with a free slot and an expired record, and a reply of two addresses of one name, the first of which ends up outside its window with no rehash due |
| DnsIndex.FreeSlotIsUnique | dnsd.cpp:697-727 | what FindFree promises names one slot only |
| DnsIndex.PlainFindIs | dnsd.cpp:626-643 | the answer of a scan over every slot with the lookup's own test is the first slot that passes it |
| DnsIndex.HitsByName | dnsd.cpp:293-298 | under the hash of the name asked for, in any letter case, the hits are exactly the live unexpired records of that name |
| DnsIndex.HitsSurvive | dnsd.cpp:628-636 | freeing expired records on the way changes no answer |
| DnsIndex.NextHit | dnsd.cpp:1623-1631 | going on from the slot behind a hit gives the next |
| DnsIndex.AllHitsAre | dnsd.cpp:1623-1631 | the list of hits holds every one, in slot order, once |
| DnsIndex.FirstDupIs | dnsd.cpp:676-687 | DelDup's victim is the first duplicate |
| DnsIndex.DelDupExact | dnsd.cpp:653-694 | where only the filled record may have a double: DelDup leaves none and drops nothing but a same record if and only if the first duplicate is of the filled record's type |
| DnsIndex.DelDupLeavesOne | dnsd.cpp:681-683 | and then the survivor has one of both TTLs and neither is later |
| DnsIndex.DelDupDropsOtherType | dnsd.cpp:678-679 | two records of different types, one of which DelDup drops for the other |
| DnsIndex.StoredApart | dnsd.cpp:455 | filling a slot makes at most the filled record a double |
| DnsIndex.CountUpdate | dnsd.cpp:559-566 | changing one slot moves a bucket's number of live records by at most that slot |
| DnsStored.StaticStays | dnsd.cpp:627-636 | a record whose TTL is at most sixty days is static: no lookup frees it at any time |
| DnsStored.HitUntil | dnsd.cpp:626-643 | a record is a hit for its name, in any letter case, while its TTL has not run out, and a static one always |
| DnsStored.HostsYieldLast | dnsd.cpp:697-727 | outside the cache no live record is overwritten while a slot is free, however old it is |
| DnsStored.SourcedMerged | dnsd.cpp:681-683 | a record refreshed by a duplicate has one of both TTLs |
| DnsStored.StepSourced | dnsd.cpp:360-727 | one step, under any index, leaves only records that come from those there and those stored |
| DnsStored.RunSourced | dnsd.cpp:360-727 | so over any run: every live record is one that was there or was stored, but for its TTL, which is that of one with the same name, data and hash |
| DnsStored.AnswersSourced | dnsd.cpp:598-650 | so every answer of a lookup comes from a record stored before under that name, up to letter case, and is not past the TTL of one with the same bytes, unless that TTL is static |
| DnsCache.NSRecordArray.constructor | dnsd.cpp:3630-3642 | an empty cache has a right index |
| DnsCache.NSRecordArray.UpdHash | dnsd.cpp:559-566 | window widened, count raised |
| DnsCache.NSRecordArray.DelHash | dnsd.cpp:583-596 | count lowered, an emptied window reset, a miscount or a narrower window noted |
| DnsCache.NSRecordArray.Rehash | dnsd.cpp:568-581 | from any index at all, a right one |
| DnsCache.NSRecordArray.Drop | dnsd.cpp:632-633 | dropping a record keeps a right index right |
| DnsCache.NSRecordArray.FindFree | dnsd.cpp:697-727 | the first slot free or, in the cache, expired, else the first of lowest TTL |
| DnsCache.NSRecordArray.SetRecord | dnsd.cpp:360-381 | as written, from any index: the slot taken, its new record and the new index; a right index stays right if and only if nothing live is evicted or both records share a bucket |
| DnsCache.NSRecordArray.SetRecordOwnHash | dnsd.cpp:360-381 | with the evicted record's hash: a right index stays right always |
| DnsCache.NSRecordArray.DelDup | dnsd.cpp:653-694 | the first duplicate in the filled record's window goes, and the later TTL stays; if there is none in it, nothing changes |
| DnsCache.NSRecordArray.Store | dnsd.cpp:420-455 | SetRecord, data and DelDup: the free slot is taken and at most a duplicate goes; as written, exactly when a right index stays right, when every record stays in its window, and that the first duplicate is gone if so; evicting while the incoming bucket counts none leaves a rehash due |
| DnsCache.NSRecordArray.FastFindRec | dnsd.cpp:598-650 | under any index what it returns is a hit; with windows that cover, whatever the counts, or after the rehash it does when due, it is the plain scan's answer, though expired records are freed on the way |
| DnsCache.NSRecordArray.FindAll | dnsd.cpp:1623-1631 | the callers' loop gathers hits only, in slot order, each once; the first is the plain scan's while windows cover, and with a right index they are all those the array held when it started |
| DnsCache.NSRecordArray.RemoveNS | dnsd.cpp:537-557 | exactly the NS records naming that server go |
| DnsCache.NSRecordArray.Run | dnsd.cpp:360-727 | over any run of stores, lookups, removals and rehashes, as written or mended: no lookup answers what is no hit; a step leaves a right index right if and only if it evicts no live record of another bucket or is mended, and is then what the plain operation without an index does; from a right index it hides a record if and only if moreover the incoming bucket had exactly one; while windows cover, first answers are exact; a rehash makes any index right |
| DnsCache.PlainRunKeeps | dnsd.cpp:420-455 | over a run of plain operations no two records are ever the same and names stay under their hashes, as long as no store's DelDup drops a record of another type |
| DnsCache.TypedRun | dnsd.cpp:420-455 | and none does where stored bytes fix the type |
| DnsReply.AddRRfromReply | dnsd.cpp:384-461 | the whole loop: exactly the records of the parse go through the store in turn, and the count returned is of those of the wanted type among the first ancount |
| DnsReply.LengthFits | dnsd.cpp:341-348 | the length of a decoded record's name and data together never exceeds its one byte |
| DnsReply.AddressDetermines | dnsd.cpp:422-425 | the number kept for an address gives back its four bytes |
| DnsReply.AddressBytes | dnsd.cpp:422-425 | that number has the first byte lowest |
| DnsReply.DataRoom | dnsd.cpp:420-454 | the data each type's slot holds and the bytes it leaves to spare |
| DnsReply.ServerForgotten | dnsd.cpp:537-557 | a record stored from a message is taken by RemoveNS exactly if it is an NS record naming that server, in any letter case |
| DnsReply.KeptOn | dnsd.cpp:360-455 | a record not past its TTL outlives another's store while there is room: its slot is left alone or merged with the same record |
| DnsReply.AllKept | dnsd.cpp:384-461 | so every record of a run of stores is there after it |
| DnsReply.AllRight | dnsd.cpp:360-381 | with free slots for all of them ahead of the first live record past its TTL, stores as written keep a right index right |
| DnsReply.AllRoomFree | dnsd.cpp:697-727 | if no live record is past its TTL, all room is such slots |
| DnsReply.StoreAndFind | dnsd.cpp:384-461 | from end to end: records of types that can be told apart, written, read out of a reply and stored under a right index with free slots for all of them ahead of the first expired one (mended: with room for all of them), are each found by any spelling of their names until their TTLs run out, with the same type, data and address, if nothing happens in between; and everything found is live, of that name, not past its TTL unless static, and comes from the records there before and those of the message, its TTL being that of one with the same bytes |
| HeapBlocks.WalkTiles | heap.cpp:40 | following headers from 0 lands exactly on the sentinel, meets every block, and the sizes sum to the sentinel's index |
| HeapBlocks.PayloadsApart | heap.cpp:55-93 | no two live payloads share a word or touch a header |
| HeapBlocks.RunInside | heap.cpp:104-109 | blocks of one run share its end |
| HeapBlocks.JoinTiles | heap.cpp:106-107 | joining a block with the free one behind it keeps the tiling |
| HeapBlocks.JoinLives | heap.cpp:106-107 | and every live payload |
| HeapBlocks.ClaimTiles | heap.cpp:72-78 | splitting and marking a block keeps the tiling |
| HeapBlocks.ClaimLives | heap.cpp:72-83 | a claimed block is the one new payload, zeroed, and the rest are as they were |
| HeapBlocks.ReleaseKeeps | heap.cpp:121-123 | clearing the used bit takes away that payload alone |
| HeapBlocks.WriteKeeps | heap.cpp:116-140 | a user's write into its payload changes that payload alone and no header |
| HeapAlloc.WordsCover | heap.cpp:58-64 | the rounded request has room for its bytes and a header if and only if at most 0xFFFFFFF8 bytes are asked for, and never a whole word more |
| HeapAlloc.NoWordsAsked | heap.cpp:58-64 | exactly four requests round to no words at all |
| HeapAlloc.NoWordsClaimed | heap.cpp:72-78 | a free block taken for one of them is a dead end for everything that follows headers, and no set of blocks tiles the array any more |
| HeapAlloc.Heap.constructor | heap.cpp:40 | one free block and the sentinel |
| HeapAlloc.Heap.JoinForward | heap.cpp:132-137 | a free block takes in exactly the rest of its run; no payload changes |
| HeapAlloc.Heap.Compact | heap.cpp:95-113 | every run the scan reaches becomes one block, the size reported is the largest of them, and no payload changes |
| HeapAlloc.Heap.Free | heap.cpp:116-140 | that payload alone is gone |
| HeapAlloc.Heap.Memset4 | heap.cpp:48-53 | exactly the words asked for are set |
| HeapAlloc.Heap.Scan | heap.cpp:68-90 | the first free block large enough is claimed; none is exactly when there is none |
| HeapAlloc.Heap.Claim | heap.cpp:70-89 | a new zeroed payload of the rounded size |
| HeapAlloc.Heap.Alloc | heap.cpp:55-93 | at most two scans; a new zeroed payload and all others as they were, or null exactly when no run of free blocks the scan reaches totals the rounded request |
| HeapAlloc.RunOne | heap.cpp:55-140 | one operation keeps the heap tiled and every other block as it was; a request is answered exactly when a run is large enough |
| HeapAlloc.RunAll | heap.cpp:55-140 | over any run of requests, releases, writes and compactions, each block holds at the end what it would as a memory of its own, pointers are distinct, and the live blocks are exactly those held |
| HeapAlloc.NullMeansNoRun | heap.cpp:68-92 | when the scan finds no run of w words, no run at all exceeds w words |
| HeapAlloc.LoneFreeWord | heap.cpp:68-92 | a heap with a free run of one word that refuses a request of one |
| LzIndex.PositionsAre | pkbig.cpp:101-105 | a word's positions are exactly where it starts, increasing |
| LzIndex.OffTotal | pkbig.cpp:96-97 | all buckets together take four bytes a word and three a position |
| LzIndex.OffApart | pkbig.cpp:96-97 | no two buckets overlap |
| LzMatch.FitsExactly | pkbig.cpp:88-97 | the buckets fit their buffer if and only if the input is at most 436907 bytes |
| LzIndex.FillStep | pkbig.cpp:101-105 | one turn adds one position to one bucket and disturbs none |
| LzMatch.Cache.InitCache | pkbig.cpp:88-112 | the bucket of every word holds exactly the positions where it starts, increasing, closed by a zero entry |
| LzMatch.Cache.CountWords | pkbig.cpp:92-95 | each word's number of places |
| LzMatch.Cache.PlaceBuckets | pkbig.cpp:96-97 | bucket starts from counts, in place |
| LzMatch.Cache.SetM3 | pkbig.cpp:85-86 | three zero bytes take a number, and no other byte changes |
| LzMatch.MatchLength | pkbig.cpp:128-129 | the whole length of a match and no more, inside the input but for a first pair at its last byte |
| LzMatch.Cache.Fbest | pkbig.cpp:116-155 | the match it returns repeats the input, at a distance within what is out, is at most 256 long and worth its bytes; which match that is; and that it returns none only if the one it settles on is not worth a token or there is no candidate |
| LzMatch.ChoiceIsUnique | pkbig.cpp:126-142 | that rule, the longest match, ties to the nearest, one byte given up for nearness, settles on one place only |
| LzMatch.KeepsByLength | pkbig.cpp:130-132 | of two matches exactly one is kept: the nearer, unless the farther is longer by two bytes, or by one where it is not it alone that is more than 32768 back |
| LzMatch.WorthByLength | pkbig.cpp:145-148 | two bytes are worth a token from up to 255 back, three or four from up to 24575, five or more from anywhere |
| LzTokens.TokenBytes | pkbig.cpp:184-199 | the bytes of a token: zero and a byte, or the length less one and a distance in one byte for a length of 2, three for a length of 5 and more from more than 32767 back with 65536 bytes out, else two, and how they weigh |
| LzTokens.DistanceSurvives | pkbig.cpp:189-199 | every distance survives the 8, 16 or 23-bit split with its marker bit |
| LzTokens.MarkMeaning | pkbig.cpp:194-196 | the marker bit makes the value read above 0x7FFF and costs only the bit the third byte carries |
| LzTokens.TokenSurvives | pkbig.cpp:359-371 | the decoder reads the very token that was put, at cursors that were the streams' lengths, whatever follows |
| LzTokens.InStep | pkbig.cpp:356-374 | at every token the decoder's five cursors and output are where the encoder's were |
| LzTokens.CopyRepeats | pkbig.cpp:372 | a forward copy that may read what it wrote gives back a repeating stretch of input |
| LzPack.Packer.Emit | pkbig.cpp:184-199 | one token's bytes go to their streams and to no others |
| LzPack.Packer.LZZPk | pkbig.cpp:159-220 | the streams spell tokens that stand for the input and at most one byte more, each token the best where it starts; no stream overflows |
| LzPack.CopyForward | pkbig.cpp:372 | byte by byte forwards over itself |
| LzPack.LZZUnpk | pkbig.cpp:353-388 | on streams a packer wrote, the tokens' bytes, nothing past them, and the length if the checksum agrees, else 0 |
| LzPack.PackUnpack | pkbig.cpp:159-388 | for every non-empty input whose buckets fit, unpacking what was packed gives it back, checksum agreed, with at most one byte written past it |
| Md5Transform.MD5Transform | md5.cpp:210-300 | the unrolled rounds compute the 64 table-driven steps of RFC 1321 section 3.4 |
| Md5Transform.Round1 | md5.cpp:218-234 | steps 1 to 16, whatever the registers |
| Md5Transform.Round2 | md5.cpp:236-252 | steps 17 to 32 |
| Md5Transform.Round3 | md5.cpp:255-271 | steps 33 to 48 |
| Md5Transform.Round4 | md5.cpp:273-289 | steps 49 to 64 |
| Md5.CounterCounts | md5.cpp:150-153 | both words together count bits modulo 2^64, carry and top bits included |
| Md5.BufferIndex | md5.cpp:147 | the low word alone tells how much is buffered, for messages of any length |
| Md5.MD5Context.constructor | md5.cpp:122-132 | the empty message |
| Md5.MD5Context.MD5Update | md5.cpp:138-176 | the context stands for the message and the input behind it, blocks folded and rest buffered |
| Md5.MD5Context.FoldBlocks | md5.cpp:155-170 | as many whole blocks as there are are folded, with no counter wrapping |
| Md5.MD5Context.MD5Final | md5.cpp:181-206 | the digest of RFC 1321 sections 3.1 to 3.5 of all that was hashed, and a context wiped clean |
| Md5.EndlessLoop | md5.cpp:164 | once buffered bytes and input reach 2^32 the loop's test holds at every turn |
| Md5.PaddedInPieces | md5.cpp:193-198 | both closing updates append exactly the standard's padding |
| Md5.HashChunks | md5.cpp:122-206 | however a message is cut, the digest is that of the whole |
| Md5Known.FChooses | md5.cpp:84 | F takes y's bit where x has a one and z's elsewhere |
| Md5Known.GChooses | md5.cpp:85 | G takes x's bit where z has a one and y's elsewhere |
| Md5Known.HIsParity | md5.cpp:86 | any two words take H back to the third |
| Md5Known.IChooses | md5.cpp:87 | I compares x and y where z has a one and turns y's bit over elsewhere |
| Md5Known.FirstState | md5.cpp:128-131 | the first state's bytes, low byte first, count up and down as in RFC 1321 section 3.3 |
| Md5Known.Step | md5.cpp:99-118 | step i on given words: which function, word, shift and constant it takes and what it leaves |
| Md5Known.EmptyDigest | md5.cpp:181-206 | RFC 1321 section A.5: the digest of no bytes is d41d8cd98f00b204e9800998ecf8427e |
| Md5Known.LettersAndDigitsDigest | md5.cpp:181-300 | and that of the 62 letters and digits, over two blocks, d174ab98d277d9f5a5611c2c9f419d9f |
| BoundedPrint.SprintfPars.Flush | msprintfchk.cpp:46-56 | as much as fits is copied and accounted for, and nothing else changes |
| BoundedPrint.BFILE.PutChar | bvprintfv.cpp:371-388 | a character waits in the buffer, and a full buffer is flushed |
| BoundedPrint.BFILE.PutString | bvprintfv.cpp:289-320 | a string, across any number of flushes, up to where the target is full |
| BoundedPrint.BFILE.PutNext | bvprintfv.cpp:204-388 | one turn puts what the character or conversion stands for |
| BoundedPrint.BFILE.Bvprintf | bvprintfv.cpp:185-391 | the whole rendering is put, or the target is full and holds its beginning |
| BoundedPrint.Mvsprintfchk | msprintfchk.cpp:58-72 | the target holds exactly the first min(length, et - t - 1) bytes of the full rendering and a NUL, all else as it was; a target with no room is left alone; what is returned |
| BoundedPrint.Finish | msprintfchk.cpp:69-70 | the last flush and the NUL complete it |
| BoundedPrint.StringRenders | bvprintfv.cpp:290-312 | %s prints its argument up to the first NUL, and nothing for a null pointer |
| BoundedPrint.EscapeRenders | bvprintfv.cpp:364-377 | a percent sign before any other character prints that character |
| BoundedPrint.LiteralRenders | bvprintfv.cpp:370-377 | a format without percent signs prints itself |
| BoundedPrint.OwnArguments | bvprintfv.cpp:290 | a format takes its arguments in order, one for each %s, and no others matter |
| BoundedPrint.JoinFrom | bvprintfv.cpp:204-388 | what stands behind a piece of a format goes on with the arguments that piece left |
| BoundedPrint.PiecesRender | bvprintfv.cpp:204-388 | a format put together from pieces renders as the renderings of its pieces in order, each with its own arguments |
| Numbers.MyMulldiv | bvprintf.cpp:90-120 | quotient and remainder of every 64-bit dividend by every nonzero 64-bit divisor; all ones for zero |
| Numbers.DividingOn | bvprintf.cpp:108-116 | one turn shifts in one bit, without overflow, and keeps the division right |
| Numbers.Uitoa | bvprintf.cpp:67-83 | every 32-bit value: the characters of its digits and where the number starts |
| Numbers.MyUlltoa | bvprintf.cpp:122-142 | every 64-bit value: the same through my_mulldiv |
| Numbers.PrintedExactly | bvprintf.cpp:122-142 | what stands from there on means exactly the number, with no leading zero and a NUL behind; it is digits of the base throughout if and only if the place values cover the number |
| Numbers.PrintedInDecimal | bvprintf.cpp:122-142 | in decimal and 64 bits the characters are all digits if and only if the value is below 10^19 |
| Numbers.LargestBeginsWithLetter | bvprintf.cpp:134-135 | the largest value begins with the letter i |
| Numbers.DigitsMean | bvprintf.cpp:71-79 | the digits, read in their base, are the number |
| Numbers.PrintStep | bvprintf.cpp:73-78 | each turn prints one digit and leaves the rest |
| Numbers.PlaceValues | bvprintf.cpp:235-248 | the first place values the callers pass cover every 32-bit value, every 64-bit value in octal and hexadecimal, and every value below 10^19 in decimal |
| Numbers.Atoui | conf.cpp:74-78 | the reader's loop, in decimal and hexadecimal |
| Numbers.ReadDigits | conf.cpp:108-112 | digits that spell a 32-bit value are read as that value |
| Numbers.ReadsBack | conf.cpp:74-78 | reading inverts printing on every 32-bit value, in decimal and hexadecimal |
| Numbers.PrintAndRead | bvprintf.cpp:67-83 | the same through both methods |
| CountryFind.RangeOf | cstat.cpp:60-65 | a range begins at its word without the low five bits, and these say which of 32 sizes, 1 to 2147483648, it has |
| CountryFind.FastFind | cstat.cpp:52-81 | the search ends with the base of the range that answers, and 0 exactly when none does |
| CountryFind.AnswersOnce | cstat.cpp:52-81 | at most one range of a country answers |
| CountryFind.OwnBaseNotFound | cstat.cpp:52-81 | a base that is not the first is not found |
| CountryFind.FindCntr | cstat.cpp:84-101 | the first country answering within 254 of a base, else the first of the nearest, and none exactly when none answers |
| CountryFind.OnlyClaimantFound | cstat.cpp:84-101 | the country whose range strictly holds an address is found if the address is in no other country's range and ends no other's last |

## Left out

- DnsRecord.AddRR: only wc = 1 with no IF_DOWN list; wc = 0 and wc = 2, SOA writing and the address substitution are not modelled.
- DnsReply.AddRRfromReply: where DecodeName leaves no text, what its buffers held before is a parameter, and the byte before them belongs to the caller's frame, which is not modelled.
- DnsCache.NSRecordArray.FastFindRec: one array, its `next` being null; wildcard and SOA suffix matching in `FindRec` are not modelled.
- DnsCache.NSRecordArray.SetRecordOwnHash: not the code as written but as its other callers of DelHash have it.
- DnsCache.NSRecordArray.Store: memory for the data is always granted, so a record has data exactly while it is live.
- DnsReply.StoreAndFind: for the code as written, room that is expired records ahead of free slots is not counted; what a store into one of them does is DnsEvict.StoreFromRight.
- HeapAlloc.Heap.Alloc: the four requests that round to no words; what they do is HeapAlloc.NoWordsClaimed. The debugging signature words are not modelled.
- LzPack.PackUnpack: only input whose buckets fit, as LzMatch.FitsExactly says; the entropy coder between packer and unpacker is the identity and the checksum any function of the bytes; the header and the clearing of stream buffers are not modelled.
- LzPack.LZZUnpk: only streams a packer wrote; on others the original checks neither distances nor the ends of its streams, so that what it reads is not determined by them.
- LzMatch.Cache.InitCache: the per-word counters are an array of their own instead of the token buffer reused, and setting bits on zero bytes is a store.
- BoundedPrint.Mvsprintfchk: literals and plain %s only; widths, precision, padding, numeric conversions and carriage-return insertion are not modelled.
- Numbers.MyUlltoa: the fast 32-bit path of `bvprintfv.cpp`, which does the same division by machine.
- CountryFind.FindCntr: loading the file of ranges; the ranges are a value.
- Files, sockets, threads, TLS and every request handler (FTP, POP3, HTTP, proxy, VPN): input and output with little to specify.
- `SetDNSServ` and the recursion request table: network control flow.
- Zone-file parsing, FastCGI reassembly, DHCP leases, base64, gzip chunks, address-list parsing and the regular expressions.
- `qsort.cpp` and `mlist.h`: a sort and a list of the textbook kind, used by none of the code above.
