# Verified models of Knot DNS

This project models the data structures at the heart of Knot DNS and proves what
they are for. `dafny verify dfyconfig.toml` checks everything.

**The QP-trie (`src/contrib/qp-trie/trie.c`).** A trie is a root node and heap
objects: twig arrays and keys, each an allocation with an identity that is live or
freed, and a copy-on-write bit where the source keeps it (the first node of an array,
the key itself). `TrieTree` is the meaning of a root: a tree whose leaves, read from
left to right, are the stored entries. The read-only calls (`TrieSearch`, `TrieWalk`,
`TrieLeq`, `TrieWildcard`, `TrieIter`) are loops over a stack of node pointers, proved
against positions in that list. The changing calls (`TriePush`, `TrieInsert`,
`TrieDelete`, `TrieCleanup`) take and return the trie's memory; `TrieStore.Store` is
the object they change. One invariant, `TrieCow.Inv`, says what trie.c:1187-1226
describes in prose: the old and the new trie are both whole, at most one object is
marked on each way down, both roots reach the same marked subtrees, the exclusive
regions are disjoint, and every live object belongs to one of the two tries. The main
result is `TrieStore.Store.Run`: any sequence of calls over any number of transactions
acts on plain maps, readers of the old trie see the map from before the transaction,
and outside a transaction nothing is leaked or left marked.

**Names (`src/libknot/dname.c`).** `DnameWire` checks, measures and unpacks names with
compression pointers, against a relation between memory positions and label lists.
`DnameLf` is the lookup format and its order, `CanonicalZone` joins it with the trie:
a less-or-equal search by lookup format finds the canonical predecessor of a name, and
a wildcard lookup the asterisk label below its closest encloser. `DnameText`,
`DnameToStr`, `DnameSpelling`, `DnameFromStr` and `DnameRoundTrip` are the text form.

**Record sets (`src/libknot/rdataset.c`).** `Rdataset` is the packed buffer, and
`RdatasetOps.Set` the object whose operations are set operations. Its buffer is an
array that the operations move octets in, and `Memory.Mm` the allocator that says
which arrays are not released; sets may share a buffer.

**Smaller parts.** `Svcb` (sorting and checking service parameters), `ConnPool` (a pool
under a mutex, and every interleaving of its users), `Base32hex` and `Base32hexCodec`,
and `SipHash`.

How C is rendered: integers are unbounded and every wrap that can matter is written out
(the byte counter of SipHash, the octets of Base32hex, the size limits of record sets).
A pointer into memory is a position; a null pointer is `None` or `null`. Memory is given
back through `TrieHeap.Free` and `TrieHeap.Realloc` or `Memory.Mm.Free` and
`Memory.Mm.Realloc`, which demand that it is live, so that a second release, or a use
after release, would fail to verify. Allocation always succeeds, and a reallocation
moves the memory. A bitmap is the increasing list of its set bits, from 0 (end of key)
to 16. Two-octet lengths of record data are stored low octet first. The clock and the
verdict of the callback on a pooled connection are parameters. Where comments and code
differ, the code is followed.

Four findings. Byte order of lookup formats is canonical order exactly on the labels
that the format shows, in which a zero octet inside a label ends a label
(`DnameLf.Cmp`); for names with such octets this need not be the canonical order, and
two names can share a format (`DnameLf.ZeroConfuses`); `DnameLf.WithNull` tells these
names. Printing a name into a given buffer needs room for the wire form as well as for
the text (`DnameToStr.ToStr`): a buffer that holds the text and its zero octet is
refused exactly if it has no octet to spare, the name is not the root, and nothing in
it is escaped, however long it is (`DnameToStr.ToStrFits`, and an input in
`DnameToStr.LetterRefused`). Reading the text of the root into a given buffer takes two
octets, although the root is one (`DnameFromStr.FromStr`, and the input in
`DnameFromStr.RootRefused`); into memory of its own it is read. The Base32hex decoder
keeps the padding of earlier groups and goes on reading (`Base32hexCodec.DecodesExactly`):
it accepts exactly the well-formed texts as long as no padding stands before the last
group (`Base32hexCodec.AcceptedExactly`), but also some texts with padding inside
(an input in `Base32hexCodec.PaddingInside`).

## Model

| member | source | states |
|---|---|---|
| Nibbles.NibOrder | src/contrib/qp-trie/trie.c:255-267 | keys that agree on earlier half-bytes are in byte order if their half-bytes are; end of key sorts first |
| Nibbles.EndedTogether | src/contrib/qp-trie/trie.c:255-267 | keys that end at the same half-byte and agree before it are equal |
| Bytes.Compare | src/contrib/qp-trie/trie.c:309-325 | the sign of the key comparison is the left-justified unsigned octet order, zero exactly for equal keys |
| TrieTree.TwigOffIsRank | src/contrib/qp-trie/trie.c:247-252 | the offset of a bit is its rank: all twigs before it have smaller bits, all others have not |
| TrieTree.EntriesSorted | src/contrib/qp-trie/trie.c:92-117 | a trie that keeps the branch invariant lists its keys in strictly ascending octet order |
| TrieTree.MapOfSorted | src/contrib/qp-trie/trie.c:429-432 | the list of entries is a plain map with as many keys as entries |
| TrieSearch.GetTry | src/contrib/qp-trie/trie.c:435-452 | exact lookup is lookup in the map of all entries |
| TrieSearch.FindDiff | src/contrib/qp-trie/trie.c:659-678 | the index found is that of the first half-byte in which two keys differ, for equal keys none |
| TrieSearch.FindLeaf | src/contrib/qp-trie/trie.c:645-658 | the leaf reached shares with the key the longest run of half-bytes that any stored key shares |
| TrieSearch.FindBranch | src/contrib/qp-trie/trie.c:641-705 | exact if and only if the key is stored; otherwise no stored key agrees further, and the stack ends at the shallowest node whose index reaches the difference |
| TrieWalk.LastLeaf | src/contrib/qp-trie/trie.c:712-727 | the leaf reached is the last entry of the subtree |
| TrieWalk.FirstLeaf | src/contrib/qp-trie/trie.c:730-741 | the leaf reached is the first entry of the subtree |
| TrieWalk.PrevLeaf | src/contrib/qp-trie/trie.c:748-771 | the entry just before the position, or none if there is none; the end-of-key shortcut is taken exactly on a branch that has that twig |
| TrieWalk.NextLeaf | src/contrib/qp-trie/trie.c:780-808 | the entry just after a leaf, or the first entry of a branch |
| TrieWalk.PrefixLeaf | src/contrib/qp-trie/trie.c:811-830 | the longest stored proper prefix of the current key, or none if no stored key is one |
| TrieLeq.PathOrder | src/contrib/qp-trie/trie.c:837-877 | a key that agrees with a subtree lies above everything left of it and below everything right of it |
| TrieLeq.LeqAtBranch | src/contrib/qp-trie/trie.c:848-876 | the answer when the key leaves all stored keys at a branch; the end-of-key shortcut cannot be taken there |
| TrieLeq.LeqAtEdge | src/contrib/qp-trie/trie.c:851-876 | the answer when the key leaves all stored keys above a node that is not the root |
| TrieLeq.GetLeqStack | src/contrib/qp-trie/trie.c:837-877 | the position found is that of the greatest entry not above the key, found exactly if it is stored |
| TrieLeq.GetLeq | src/contrib/qp-trie/trie.c:879-900 | equal, strict predecessor or none, each exactly when the map says so, with the value of that key |
| TrieWildcard.GetTryWildcard | src/contrib/qp-trie/trie.c:457-491 | the key itself, else the wildcard key of the closest encloser, else nothing; what this means for names is in CanonicalZone |
| TrieWildcard.LastMatchingZero | src/contrib/qp-trie/trie.c:470-480 | the end of the last whole label that the key shares with the leaf found |
| TrieIter.TrieIt.Begin | src/contrib/qp-trie/trie.c:1019-1034 | an iterator stands on the first entry, or is finished if there is none |
| TrieIter.TrieIt.Current | src/contrib/qp-trie/trie.c:1073-1090 | key and value at the iterator are the entry at its position |
| TrieIter.TrieIt.Next | src/contrib/qp-trie/trie.c:1092-1097 | one position on, finished exactly behind the last |
| TrieIter.TrieIt.Prev | src/contrib/qp-trie/trie.c:1118-1123 | one position back, finished exactly before the first |
| TrieIter.TrieIt.NextLoop | src/contrib/qp-trie/trie.c:1099-1109 | one position on, cyclically |
| TrieIter.TrieIt.PrevLoop | src/contrib/qp-trie/trie.c:1125-1135 | one position back, cyclically |
| TrieIter.TrieIt.Parent | src/contrib/qp-trie/trie.c:1137-1142 | moves to the longest stored proper prefix of the current key, or finishes if there is none |
| TrieIter.TrieIt.GetLeqIt | src/contrib/qp-trie/trie.c:902-922 | the iterator stands on the key exactly if it is stored, else on the last entry below it with all later entries above the key, or is finished exactly if all entries are above |
| TrieIter.TrieIt.Resume | src/contrib/qp-trie/trie.c:1187-1206 | an iterator keeps its place when memory is changed around its trie |
| TrieIter.VisitAll | src/contrib/qp-trie/trie.c:1019-1097 | begin and repeated next visit every entry exactly once in ascending order |
| TrieIter.NextThenPrev | src/contrib/qp-trie/trie.c:1092-1123 | prev undoes next |
| TrieEdit.WFReplace | src/contrib/qp-trie/trie.c:954-986 | replacing a subtree by one with fitting keys keeps the branch invariant everywhere above |
| TrieEdit.MapInsert | src/contrib/qp-trie/trie.c:924-991 | one entry more in a subtree is one key more in the map |
| TrieEdit.MapDelete | src/contrib/qp-trie/trie.c:495-526 | one entry less in a subtree is one key less in the map |
| TrieRegions.Decompose | src/contrib/qp-trie/trie.c:1187-1206 | the objects of a trie are its exclusive region and, disjoint from it, what lies below the marked objects |
| TrieRegions.FlagsAreFrontier | src/contrib/qp-trie/trie.c:1187-1226 | the marked objects of a trie are exactly the entrances of its shared region |
| TrieRegions.PushFrontier | src/contrib/qp-trie/trie.c:1297-1311 | for the trie that keeps the object: unmarking it and marking its children moves it, and it alone, into the exclusive region |
| TrieRegions.PushAt | src/contrib/qp-trie/trie.c:1297-1311 | for the trie that gets the copy: the copy is the only new exclusive object |
| TrieCow.OwnNotShared | src/contrib/qp-trie/trie.c:1187-1206 | what a trie owns exclusively is what the other trie does not reach |
| TrieCow.EditStep | src/contrib/qp-trie/trie.c:1204-1206 | an edit inside the new trie's exclusive region keeps the transaction invariant and the old trie |
| TrieCow.PushStep | src/contrib/qp-trie/trie.c:1297-1344 | copying a marked object keeps the transaction invariant and the old trie |
| TriePush.MarkCow | src/contrib/qp-trie/trie.c:1281-1294 | the object that a node points to joins the marked ones and no other does; contents, nodes and the set of live objects stay, and marks stay only where the layout keeps them |
| TriePush.PushdownOne | src/contrib/qp-trie/trie.c:1297-1311 | both tries keep their meaning, the node on top owns a fresh array, and its children are marked instead of it |
| TriePush.CopyKey | src/contrib/qp-trie/trie.c:1328-1340 | both tries keep their meaning and the leaf on top owns a fresh key |
| TriePush.CowPushdown | src/contrib/qp-trie/trie.c:1313-1344 | afterwards no object on the way to the top of the stack is marked, the stack leads the same way, and both tries keep their meaning |
| TrieInsert.AddToBranch | src/contrib/qp-trie/trie.c:954-986 | a new twig in a branch adds the key with a null value to the new map and nothing else |
| TrieInsert.AddBranch | src/contrib/qp-trie/trie.c:967-986 | a new branch adds the key with a null value to the new map and nothing else |
| TrieInsert.GetIns | src/contrib/qp-trie/trie.c:924-997 | the value pointer belongs to the key, in a leaf that the new trie owns alone; a missing key is added with a null value; the old trie is unchanged |
| TrieInsert.SetValue | src/contrib/qp-trie/trie.c:1374-1377 | a write through the returned pointer changes the value of that key in the new map only |
| TrieDelete.DelFound | src/contrib/qp-trie/trie.c:495-526 | removes the leaf, collapses a branch of two, frees exactly what is gone, and returns the value |
| TrieDelete.Del | src/contrib/qp-trie/trie.c:529-550 | removal from the map, or no change exactly if the key is not stored |
| TrieDelete.ItDel | src/contrib/qp-trie/trie.c:1144-1166 | deleting at an iterator removes the key it stands on |
| TrieDelete.DelCow | src/contrib/qp-trie/trie.c:1379-1401 | removal from the new map, or no change exactly if the key is not stored; the old trie is unchanged |
| TrieCleanup.Cleanup | src/contrib/qp-trie/trie.c:1404-1430 | frees exactly the exclusive region, each object once, and takes the marks off exactly the frontier |
| TrieStore.EndTransaction | src/contrib/qp-trie/trie.c:1404-1451 | cleaning up one trie leaves the other whole, without marks, and owner of every live object; freed is exactly what only the first one reached |
| TrieStore.Store.Create | src/contrib/qp-trie/trie.c:327-340 | a new trie is the empty map |
| TrieStore.Store.Get | src/contrib/qp-trie/trie.c:435-452 | lookup in the current map |
| TrieStore.Store.GetOld | src/contrib/qp-trie/trie.c:435-452 | lookup in the old map while a transaction is open |
| TrieStore.Store.Weight | src/contrib/qp-trie/trie.c:429-432 | the weight is the number of keys |
| TrieStore.Store.GetOrInsert | src/contrib/qp-trie/trie.c:924-997 | without a write, a missing key has a null value in the current map; the old trie stays the same |
| TrieStore.Store.PutVal | src/contrib/qp-trie/trie.c:924-997 | the current map gets the key and value, the old trie stays the same |
| TrieStore.Store.Delete | src/contrib/qp-trie/trie.c:529-550 | the current map loses the key, the old trie stays the same |
| TrieStore.Store.DeleteAt | src/contrib/qp-trie/trie.c:1144-1166 | outside transactions, the current map loses the key at the iterator, which is then finished |
| TrieStore.Store.DeleteByIterator | src/contrib/qp-trie/trie.c:902-1166 | moving an iterator to a key and deleting there is removal from the map |
| TrieStore.Store.Begin | src/contrib/qp-trie/trie.c:1346-1366 | old and new trie are equal and share everything |
| TrieStore.Store.Commit | src/contrib/qp-trie/trie.c:1433-1441 | the new trie stays, exactly the objects only the old one reached are freed, no mark is left |
| TrieStore.Store.Rollback | src/contrib/qp-trie/trie.c:1443-1451 | the old trie stays, exactly the objects only the new one reached are freed, no mark is left |
| TrieStore.Store.Run | src/contrib/qp-trie/trie.c:924-1451 | every run of insertions, writes, deletions by key or by iterator, and starts and ends of transactions acts on plain maps, with isolation of the old map, and leaves no object leaked or marked outside transactions |
| TrieStore.Store.VisitOld | src/contrib/qp-trie/trie.c:1187-1206 | in every interleaving with the operations of a transaction, a reader of the old trie visits its entries once each and in order |
| TrieStore.Store.Transaction | src/contrib/qp-trie/trie.c:1346-1451 | a committed transaction leaves the map after all its operations, a rolled back one the map before them |
| DnameWire.ChainUnique | src/libknot/packet/wire.h:1001-1049 | a position in memory is read as at most one list of labels |
| DnameWire.WireCheck | src/libknot/dname.c:76-140 | terminates and accepts exactly the positions whose labels are complete, of at most 63 octets, through backward pointers only, and of at most 255 octets in all; the result is the size in place; each error exactly in its case |
| DnameWire.NameSize | src/libknot/dname.c:510-531 | the size up to the first pointer or the terminal label |
| DnameWire.SeekLabel | src/libknot/packet/wire.h:1028-1041 | follows pointers to a real label of the same name |
| DnameWire.NextLabel | src/libknot/packet/wire.h:1043-1049 | goes to the rest of the name behind its first label |
| DnameWire.RealSize | src/libknot/dname.c:534-551 | the size of the name without compression |
| DnameWire.Unpack | src/libknot/dname.c:190-219 | writes the uncompressed wire form if it fits and nothing behind it; each error exactly in its case |
| DnameWire.UncompressedName | src/libknot/dname.c:76-140 | the wire form of every valid name passes the check without a packet and has its own length as size |
| DnameWire.ChainIsWire | src/libknot/dname.c:510-531 | a name read without pointers is the wire form of its labels |
| DnameWire.CompressedReads | src/libknot/packet/wire.h:1001-1026 | labels and the two octets of a pointer to offset p read as these labels and what is read at p, exactly if p lies before the pointer, and take the labels and two octets in place |
| DnameWire.CheckCompressed | src/libknot/dname.c:76-219 | a name compressed by a pointer to an earlier one passes the check with the size up to the pointer and unpacks to the whole name |
| DnameWire.UnusedTypes | src/libknot/dname.c:76-140 | octets 64 to 191 begin no name |
| DnameWire.CheckedUnpack | src/libknot/dname.c:76-219 | a name that passes the check has the size reported, always unpacks into 255 octets, to the length of realsize, and reads as the same labels without a packet |
| DnameLf.LfOrder | src/libknot/dname.c:643-677 | for names without inner zero octets, octet order of lookup formats is the canonical order of section 6.1 of RFC 4034 |
| DnameLf.LfInjective | src/libknot/dname.c:765-791 | different names without inner zero octets have different lookup formats |
| DnameLf.PartsLf | src/libknot/dname.c:765-791 | any name has the lookup format of its labels cut at their zero octets |
| DnameLf.ZeroConfuses | src/libknot/dname.c:765-791 | two different valid names, one with a zero octet, share a lookup format |
| DnameLf.Lf | src/libknot/dname.c:765-791 | writes length and lookup format to the end of the 255 octets of storage and leaves the rest unchanged |
| DnameLf.CmpKeys | src/libknot/dname.c:657-676 | memcmp on the common length and then the lengths give octet order |
| DnameLf.Cmp | src/libknot/dname.c:643-677 | for all names, the sign is the canonical order of the labels shown by the lookup format, which are the name's own labels if it has no inner zero octet |
| DnameLf.WithNull | src/libknot/dname.c:710-718 | true exactly if some label has a zero octet |
| CanonicalZone.LeqIsCanonical | src/contrib/qp-trie/trie.c:837-900 | a less-or-equal answer on lookup formats is the canonical answer on names |
| CanonicalZone.FindPrevious | src/libknot/dname.c:765-791 | searching a trie of lookup formats by a name finds it, its canonical predecessor, or reports that there is none |
| CanonicalZone.WildKeyOfName | src/contrib/qp-trie/trie.c:484-490 | the key made from the lookup format of a name is that of the name with the label of one asterisk in front |
| CanonicalZone.PrefixIsSuffix | src/libknot/dname.c:765-791 | lookup formats start alike exactly if the names end alike |
| CanonicalZone.WildcardIsByName | src/contrib/qp-trie/trie.c:457-491 | enclosers of a key are the existing ancestors of its name, and the answer is that of the asterisk label in front of the closest one |
| CanonicalZone.FindWildcard | src/contrib/qp-trie/trie.c:457-491 | looking a name up by its wire form answers with its own entry, else with that of the asterisk label in front of its closest encloser, else with nothing |
| DnameText.TextBound | src/libknot/consts.h:35-45 | the text of a valid name has at most 1004 characters |
| DnameText.LongestText | src/libknot/consts.h:35-45 | a valid name has a text of exactly 1004 characters |
| DnameText.RoundTrip | src/libknot/dname.c:222-472 | reading the text of a name gives its labels back |
| DnameText.OctetText | src/libknot/dname.c:262-313 | letters, digits and - _ * / are printed as they are, the other 27 punctuation characters without the number sign behind a backslash, all other octets as a backslash and three decimal digits |
| DnameText.PlainText | src/libknot/dname.c:262-267 | labels of letters, digits and - _ * / are printed as they are, each with a dot |
| DnameSpelling.ReadsWhatIsSpelled | src/libknot/dname.c:388-447 | for all texts: read as a name exactly if each octet of each label is spelled as it is, behind a backslash or in three digits, with dots between labels and perhaps at the end |
| DnameToStr.PrintByte | src/libknot/dname.c:262-313 | writes the escape of one octet, and fails exactly if a given buffer has no room for it and a zero octet |
| DnameToStr.ToStr | src/libknot/dname.c:222-332 | writes the text and a zero octet; never fails with memory of its own, with a given buffer exactly if the text or the wire form does not fit |
| DnameText.WireLonger | src/libknot/dname.c:228-234 | the wire form is longer than the text exactly for names other than the root in which nothing is escaped, and then by one octet |
| DnameToStr.ToStrFits | src/libknot/dname.c:228-234 | of the buffers that hold the text and a zero octet, exactly one without an octet to spare is refused, exactly for those names |
| DnameToStr.LetterRefused | src/libknot/dname.c:228-234 | an input: the name of one letter is refused by three octets |
| DnameToStr.ToStrMax | src/libknot/dname.c:222-332 | 1005 octets are always enough |
| DnameFromStr.ParseShort | src/libknot/dname.c:346-367 | the estimate made from the text is never too small |
| DnameFromStr.ReadText | src/libknot/dname.c:388-447 | the loop succeeds exactly on texts of names that fit the buffer, and has then written their wire form |
| DnameFromStr.FromStr | src/libknot/dname.c:335-472 | reads exactly the texts of valid names that fit, except the text of the root into a given buffer of one octet, and the result passes the wire check |
| DnameFromStr.RootRefused | src/libknot/dname.c:369-394 | the input: the root, whose wire form is one octet, is not read into one octet |
| DnameRoundTrip.PrintAndRead | src/libknot/dname.c:222-472 | printing and reading back gives the same wire form, with own memory or with buffers of 1005 and 255 octets |
| Rdataset.RecordAt | src/libknot/rdataset.c:25-37 | stepping over padded records finds each record at its place |
| Rdataset.RecordLayout | src/libknot/rdata.h:52-75 | records start at even offsets, with two octets of length, the data, and a zero octet behind odd data |
| Rdataset.EncodeInjective | src/libknot/rdata.h:52-75 | a buffer is that of one list of records only |
| Rdataset.SortedUnique | src/libknot/rdataset.c:208-225 | strictly increasing lists of the same set are equal |
| RdatasetOps.Seek | src/libknot/rdataset.c:25-37 | the offset of a record |
| RdatasetOps.MemberOf | src/libknot/rdataset.c:228-248 | the early exit decides set membership |
| RdatasetOps.FindPos | src/libknot/rdataset.c:39-50 | the position of a record, none exactly if it is not in the set |
| RdatasetOps.Place | src/libknot/rdataset.c:180-205 | the place to insert keeps the order, also by the shortcut for larger sets; a duplicate is found |
| Memory.MemMove | src/libknot/rdataset.c:79-105 | an overlapping move up or down copies the octets as they were and touches nothing else |
| Memory.Mm.Realloc | src/contrib/mempattern.c:63-80 | the common part is kept, the old buffer is released and the new one is live |
| RdatasetOps.Set.AddAt | src/libknot/rdataset.c:52-87 | refuses exactly a full set, keeping the buffer; otherwise releases the buffer for one with the record in its place |
| RdatasetOps.Set.Add | src/libknot/rdataset.c:174-205 | set insertion; no room exactly if the record is new and the set full; the buffer moves exactly if the record was added |
| RdatasetOps.Set.AddBeside | src/libknot/rdataset.c:174-205 | another set becomes invalid exactly if it shares the buffer and the record was added |
| RdatasetOps.Set.RemoveAt | src/libknot/rdataset.c:90-125 | removes one record from the buffer, in place, and from the set, and releases what it took |
| RdatasetOps.Set.RemoveBeside | src/libknot/rdataset.c:90-125 | another set becomes invalid exactly if it shares the buffer |
| RdatasetOps.Set.Member | src/libknot/rdataset.c:228-248 | set membership |
| RdatasetOps.Set.Eq | src/libknot/rdataset.c:208-225 | set equality |
| RdatasetOps.Set.Subset | src/libknot/rdataset.c:251-266 | set inclusion, also with a shared buffer or a null set |
| RdatasetOps.Set.Merge | src/libknot/rdataset.c:269-286 | set union; without room, the union with the records before the first that did not fit; the other set stays as it is, and with a shared buffer nothing is changed or released |
| RdatasetOps.Set.Intersect | src/libknot/rdataset.c:289-311 | set intersection as a new set, whose buffer is the only new memory; no room exactly if the records before the last of it already take more than a set may grow from |
| RdatasetOps.Set.Intersect2 | src/libknot/rdataset.c:314-343 | set intersection in place; the other set stays as it is, and no memory is leaked |
| RdatasetOps.SameSet | src/libknot/rdataset.c:289-343 | equal sets have equal buffers, so that both intersections store the same octets |
| RdatasetOps.Set.Subtract | src/libknot/rdataset.c:346-372 | set difference; with a shared buffer both sets end empty and it is released once |
| Svcb.Rotate | src/libzscanner/functions.c:921-928 | the three copies move the last part of a range to its front |
| Svcb.ParamLayout | src/libzscanner/functions.c:894-935 | key and length of a parameter are stored with the high octet first, then the value |
| Svcb.KeyOctetsSorted | src/libzscanner/functions.c:894-935 | the key octets of sorted parameters are in octet order |
| Svcb.Sort | src/libzscanner/functions.c:894-935 | a duplicate is reported exactly if the key is there, with nothing changed; otherwise the parameters are in strictly increasing order, a permutation of those before and the new one, and the last key is the greatest |
| Svcb.Scanner.Append | src/libzscanner/scanner_body.rl:1796-1808 | every parameter written keeps the parameters sorted |
| Svcb.AppendAll | src/libzscanner/functions.c:894-935 | a whole record is taken exactly if no key is given twice, and ends up sorted |
| Svcb.Check | src/libzscanner/functions.c:937-980 | for any mandatory list: accepted exactly if it is strictly increasing and its keys are those of later parameters; the kind of error tells what is wrong |
| Svcb.SortedMandatory | src/libzscanner/functions.c:888-892 | for a list that was sorted, strictly increasing means free of duplicates |
| ConnPool.TimeCmp | src/contrib/time.h:87-90 | earlier than, with zero as never |
| ConnPool.Pool.Pop | src/contrib/conn_pool.c:161-170 | one slot is emptied and its descriptor taken out |
| ConnPool.Pool.Push | src/contrib/conn_pool.c:202-215 | one empty slot is filled |
| ConnPool.Pool.Take | src/contrib/conn_pool.c:172-192 | takes out the first connection in use to the same destination host and port from the same source host, none exactly if there is none; the source port plays no part |
| ConnPool.Pool.Get | src/contrib/conn_pool.c:172-200 | that connection goes to the caller or is closed, and nothing else leaves the pool |
| ConnPool.Pool.FindSlot | src/contrib/conn_pool.c:226-242 | the first empty slot, or in a full pool one with the least time |
| ConnPool.Pool.Put | src/contrib/conn_pool.c:217-248 | into the first empty slot; a full pool gives out a connection with the least time instead |
| ConnPool.Pool.GetOld | src/contrib/conn_pool.c:47-69 | takes out one connection older than the time, none exactly if there is none, and tells the oldest time that stays |
| ConnPool.Pool.Drain | src/contrib/conn_pool.c:126-141 | closes every connection and leaves the pool empty |
| ConnPool.Run | src/contrib/conn_pool.c:47-248 | in every interleaving the count is that of occupied slots, and each descriptor is in exactly one of the pool, the callers and the closed ones |
| Base32hex.TextOrder | src/contrib/base32hex.c:83-163 | texts of inputs of equal length are in the octet order of the inputs |
| Base32hex.DigitsNum | src/contrib/base32hex.c:102-109 | the digits of a group write the same number as its octets |
| Base32hex.CharIs | src/contrib/base32hex.c:26-29 | the 32 characters and the padding character |
| Base32hex.DecIs | src/contrib/base32hex.c:36-81 | the value of every character, in either case |
| Base32hexCodec.RoundTrip | src/contrib/base32hex.c:196-325 | decoding the text of any octets, also upper-cased, gives the octets |
| Base32hexCodec.KnownTexts | src/contrib/base32hex.c:83-163 | the six examples of section 10 of RFC 4648 |
| Base32hexCodec.DecodesExactly | src/contrib/base32hex.c:216-287 | all texts that are accepted, character by character |
| Base32hexCodec.AcceptedExactly | src/contrib/base32hex.c:216-287 | without padding before the last group: characters of the alphabet and 0, 1, 3, 4 or 6 padding characters |
| Base32hexCodec.PaddingInside | src/contrib/base32hex.c:216-287 | an input: a text with padding inside, which is the text of no octets, is read as two octets |
| Base32hexCodec.Reencoded | src/contrib/base32hex.c:83-325 | a text accepted this way comes back from its octets, up to case, exactly if its last character has no spare bits set |
| Base32hexCodec.Encode | src/contrib/base32hex.c:83-163 | writes the text and nothing behind it; each error exactly in its case |
| Base32hexCodec.Decode | src/contrib/base32hex.c:196-325 | writes the octets that the groups stand for; each error exactly in its case |
| Base32hexCodec.EncodeThenDecode | src/contrib/base32hex.c:83-325 | every permitted input comes back from its text in either case |
| SipHash.BlocksConcat | src/contrib/openbsd/siphash.c:95-103 | absorbing whole blocks in two parts is absorbing them at once |
| SipHash.KnownAnswer | tests/contrib/test_siphash.c:40 | the published value of SipHash-2-4 for the message of the octets 0 to 14 |
| SipHash.KnownEmpty | tests/contrib/test_siphash.c:25 | the published value for no octets |
| SipHash.KnownLonger | tests/contrib/test_siphash.c:45 | the published value for the octets 0 to 19 |
| SipHash.WordNum | src/contrib/openbsd/siphash.c:95-103 | a word is the number that its octets write, the least significant first |
| SipHash.LastWord | src/contrib/openbsd/siphash.c:115-119 | for all messages, the last word is the number of the octets left, and the length modulo 256 in the top octet |
| SipHash.CountWraps | src/contrib/openbsd/siphash.c:81-82 | the wrapped count still gives the buffer position and the length octet |
| SipHash.Context.Update | src/contrib/openbsd/siphash.c:73-106 | the context after an update is that of the longer message |
| SipHash.Context.End | src/contrib/openbsd/siphash.c:110-127 | the result is that of the zero-padded last block with the length octet, whatever stale octets were in the buffer |
| SipHash.HashParts | src/contrib/openbsd/siphash.c:56-127 | any split of a message into updates gives the one-shot hash of the message |

## Left out

- Allocation failures, prefetching and the packing of nodes into machine words.
- Application callbacks on values during transactions (marking and cleaning up values); only the trie's own objects are tracked.
- TrieInsert.GetIns, TrieDelete.DelFound, TriePush.CowPushdown: the trie's memory is a map from identities to objects that these operations take and return; sharing is explicit in the identities, the order of single writes inside one operation is not.
- Iteration that skips suffixes (trie_it_next_nosuffix), trie_apply, trie_dup and trie_free.
- A null set or null record as an argument of knot_rdataset_add, and a null receiver of the other set operations, which only return an error.
- SipHash.Context.DoRounds: a round is one function of the state, not fourteen assignments.
- Svcb: the scanner's own checks of remaining room and the sorting of the mandatory list by the C library.
- ConnPool: thread start-up, sleeping, and probing of sockets; the clock is not zero and -1 is not a descriptor.
- Case folding of names, suffix matching and bailiwick tests.
- Zone file syntax, record type descriptors, transaction signatures, DNSSEC, network and file access.
