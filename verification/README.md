# Verified models of the search engine's core data structures

A Dafny model of the parts of this repository whose correctness is a property of a whole
structure or a whole run: the DOM tree of the HTML parser, the codecs that must undo each other,
the sorters and mergers, and the fast structures that must agree with a simple one.

The model keeps the form of the code. What updates fields is a class whose methods update the same
fields; what loops is a loop; what only computes is a function. Each method is proved against a
specification on values, and the laws are proved about that specification.

| files | what they model |
|---|---|
| `Wrappers`, `Rows`, `Ordering`, `Merging`, `Bytes`, `Varint`, `Utf8`, `Text`, `Decimal`, `Offsets`, `Hashing` | values shared by the rest: rows of siblings, sorting, multisets of lists, little-endian and variable-length integers, UTF-8, byte offsets, the multiplicative hash |
| `OrderedForest`, `TreeOrder`, `DomTree`, `DomIter`, `DomSink`, `DomText` | the five-link DOM tree, its edits, its double-ended iterators, moving children, text |
| `SerdeLeaf`, `SerdeBincode`, `SerdeLayout`, `SerdeCursor` | the bridge from serde to bincode and its byte layout |
| `WarcFormat`, `WarcReader`, `WarcRoundTrip`, `WarcFile`, `WarcForeign`, `WarcCursor` | the WARC writer and reader, one record at a time and whole files, written here or elsewhere |
| `IterableStore`, `ExternalSort`, `StoreMerge`, `IterMerge`, `TopK` | stores, the external merge sort, the two k-way mergers, the buffered top k |
| `SimHash`, `IntMap`, `TtlCache`, `HyperLogLog` | near-duplicate table, hash table, expiring cache, cardinality sketch |
| `Summarizer`, `LspPosition`, `Executor` | overlapping windows of words, editor positions, mapping over a thread pool |

## Where the code does less than one might expect

For each, the member named states exactly when the promise holds.

- A DOM edit accepts a node that contains the place it goes to, and closes a cycle
  (`OrderedForest.EditForestIff`).
- The contents of a value survive the serde bridge exactly when every sequence and map in it
  announces its own length (`SerdeBincode.RoundTripIff`). A missing length is refused; one that is
  too small is taken at its word (`SerdeBincode.ShortLength`).
- The WARC writer does not check the size of an ingestion document or a URL for line feeds, and
  validates the document only after it has begun the metadata record. With line-feed-free URLs,
  `WarcFile.FileReadsBack` gives the items of every file: a document that is too large costs its
  own page; a refused write makes errors of the next page's request, after which every good page is
  read under the URL of the page after it, until a document that is too large sets the reader right.
  The accepted pages come back exactly when neither happens (`WarcFile.FileGivesBackIff`).
- The word windows can lose text, but only when the overlap is one less than the window size
  (`Summarizer.WordsCoveredIff`, `Summarizer.LeadingSpaceLosesAll`).
- A full expiring cache evicts its oldest entry although the key inserted is already there
  (`TtlCache.SparedIff`). What it does keep is every unexpired key among the last insertions
  (`TtlCache.TtlCache.Get`).
- A hash table without bins stops the program at its first use, and collecting an empty iterator of
  known length makes one (`IntMap.LookUpInEmpty`). One made with a single bin never grows
  (`IntMap.IntMap.Insert`).
- A cache of maximal size zero stops at its first insertion (`TtlCache.TtlCache.Insert`), and so
  does a sketch of fewer than two registers in a build with overflow checks
  (`HyperLogLog.HyperLogLog.Add`).
- An editor position whose column runs past its line names a character of a later line
  (`LspPosition.BackTrip`); one whose column falls inside a character stops a build with overflow
  checks (`LspPosition.PositionToByteOffset`).
- A hash whose bits after the index are all zero gets rank 65 in the sketch, whatever the number of
  index bits (`HyperLogLog.RankIs`).

## What enters as a parameter

- Clock readings of the cache, which do not run backwards.
- The text formats of dates and ingestion documents, and the guess at a body's encoding when it is
  not UTF-8 (`WarcFormat.Formats`). Dates and valid documents print on one line and parse back.
- The binary codec of stored items (`IterableStore.Codec`), which decodes what it encoded.
- The order of items and the sort key, a total preorder or total order.
- The hash function of the sketch, any function on 64-bit words.
- Whether the build checks arithmetic for overflow.
- The order in which pool jobs finish, any at all, including jobs that never send a result.

## Model

| member | source | states |
|---|---|---|
| `DomTree.Node.constructor` | crates/kuchiki/src/tree.rs:203-212 | a new node has no links |
| `DomTree.Node.Detach` | crates/kuchiki/src/tree.rs:378-410 | the link updates of `detach` turn the five links of every node into those of the forest in which the node alone has left its row |
| `DomTree.Node.Append` | crates/kuchiki/src/tree.rs:413-428 | the link updates of `append`, after the detach it starts with, are exactly those of a node joining the end of the children |
| `DomTree.Node.Prepend` | crates/kuchiki/src/tree.rs:431-447 | the same for the front of the children |
| `DomTree.Node.InsertAfter` | crates/kuchiki/src/tree.rs:450-471 | the same for the place after a sibling, with or without a parent |
| `DomTree.Node.InsertBefore` | crates/kuchiki/src/tree.rs:474-495 | the same for the place before a sibling, with or without a parent |
| `DomTree.Dom.Detach` | crates/kuchiki/src/tree.rs:378-410 | from any state whose links describe a forest, the links afterwards describe the forest with the node removed from its row and from its parent's children |
| `DomTree.Dom.Append` | crates/kuchiki/src/tree.rs:413-428 | the links become those of remove-then-append on lists, for any two different nodes, and describe a forest again if and only if the node does not contain its new parent |
| `DomTree.Dom.Prepend` | crates/kuchiki/src/tree.rs:431-447 | the same for remove-then-prepend |
| `DomTree.Dom.InsertAfter` | crates/kuchiki/src/tree.rs:450-471 | the same for remove-then-insert after the sibling |
| `DomTree.Dom.InsertBefore` | crates/kuchiki/src/tree.rs:474-495 | the same for remove-then-insert before the sibling |
| `DomTree.Dom.NewNode` | crates/kuchiki/src/tree.rs:203-212 | a new node joins the forest as a row of its own and disturbs no other |
| `OrderedForest.LinksAgree` | crates/kuchiki/src/tree.rs:346-374 | in a well-formed forest the sibling links are mutually inverse, and first and last child are exactly the children without a previous and without a next sibling |
| `OrderedForest.DetachedForest` | crates/kuchiki/src/tree.rs:378-410 | detaching keeps a forest well-formed and free of cycles, and its links are those the five assignments write |
| `OrderedForest.AppendedForest` | crates/kuchiki/src/tree.rs:413-428 | appending keeps the shape well-formed with the links of joining after the old last child, and keeps it free of cycles if the node does not contain its new parent |
| `OrderedForest.PrependedForest` | crates/kuchiki/src/tree.rs:431-447 | the same for prepending |
| `OrderedForest.InsertedAfterForest` | crates/kuchiki/src/tree.rs:450-471 | the same for inserting after |
| `OrderedForest.InsertedBeforeForest` | crates/kuchiki/src/tree.rs:474-495 | the same for inserting before |
| `OrderedForest.EditKeepsForest` | crates/kuchiki/src/tree.rs:378-495 | each of the five edits leaves a well-formed shape of the same nodes, and one without cycles if the moved node is not an ancestor of where it goes |
| `OrderedForest.PlacedCyclic` | crates/kuchiki/src/tree.rs:413-495 | a node placed below one of its own descendants closes a cycle: no ranking of the nodes fits any more |
| `OrderedForest.EditForestIff` | crates/kuchiki/src/tree.rs:378-495 | an edit of a forest leaves a forest if and only if the moved node is not an ancestor of where it goes |
| `OrderedForest.RunKeepsForest` | crates/kuchiki/src/tree.rs:378-495 | every run of allowed edits, of any length, ends in a well-formed forest of the same nodes without cycles |
| `OrderedForest.ReinsertedInPlace` | crates/kuchiki/src/tree.rs:413-495 | taking a node out and inserting it before its old next sibling, or appending it to its old parent when it was last, changes nothing at all |
| `TreeOrder.StepsInverse` | crates/kuchiki/src/iter.rs:357-404 | a step of the traversal forwards and a step backwards are inverses of each other |
| `TreeOrder.TourIsWalk` | crates/kuchiki/src/iter.rs:357-404 | the recursive Start/End tour of a subtree is the walk the links prescribe, edge by edge |
| `TreeOrder.TourDistinct` | crates/kuchiki/src/iter.rs:357-404 | no edge occurs twice in a tour, so a walk over it ends |
| `TreeOrder.StartsArePreorder` | crates/kuchiki/src/iter.rs:315-337 | the Start edges of a tour are the nodes of the subtree in tree order |
| `TreeOrder.PreorderMembers` | crates/kuchiki/src/iter.rs:128-144 | tree order lists a node exactly when it is in the subtree |
| `TreeOrder.PreorderDistinct` | crates/kuchiki/src/iter.rs:128-144 | tree order lists no node twice |
| `DomIter.Siblings.Children` | crates/kuchiki/src/iter.rs:107-119 | the iterator starts with all children, in order |
| `DomIter.Siblings.Next` | crates/kuchiki/src/iter.rs:263-294 | yields the first of the siblings left, or ends exactly when none is left |
| `DomIter.Siblings.NextBack` | crates/kuchiki/src/iter.rs:263-294 | yields the last of the siblings left |
| `DomIter.Traverse.Inclusive` | crates/kuchiki/src/iter.rs:147-152 | the edges left are the whole tour of the node |
| `DomIter.Traverse.Exclusive` | crates/kuchiki/src/iter.rs:158-167 | the edges left are the tour without the node's own two edges; none for a leaf |
| `DomIter.Traverse.Next` | crates/kuchiki/src/iter.rs:357-404 | takes the first edge left, following only the five links |
| `DomIter.Traverse.NextBack` | crates/kuchiki/src/iter.rs:357-404 | takes the last edge left, following only the five links |
| `DomIter.Descendants.Inclusive` | crates/kuchiki/src/iter.rs:125-135 | what is left is the subtree in tree order |
| `DomIter.Descendants.Exclusive` | crates/kuchiki/src/iter.rs:137-143 | what is left is the subtree in tree order without its root |
| `DomIter.Descendants.Next` | crates/kuchiki/src/iter.rs:315-337 | skips to the next Start edge: the first node left in tree order |
| `DomIter.Descendants.NextBack` | crates/kuchiki/src/iter.rs:315-337 | skips back to a Start edge: the last node left in tree order |
| `DomIter.PulledEnds` | crates/kuchiki/src/iter.rs:253-294 | under any interleaving of pulls from both ends, the items taken are a prefix and a reversed suffix that cover the sequence once each |
| `DomSink.ReparentChildren` | crates/kuchiki/src/parser.rs:213-219 | ends, although it moves the children it iterates over: the new parent has its own children followed by all of the source's in order, the source has none left, and nothing else changes; for the source itself as new parent, the children stay as they are |
| `DomSink.MoveNext` | crates/kuchiki/src/parser.rs:213-219 | one round of the loop: after the child is moved, the iterator still holds exactly the children not yet moved |
| `DomText.TextContents` | crates/kuchiki/src/tree.rs:284-293 | the result is the text of the text nodes of the subtree in tree order |
| `DomText.AppendText` | crates/kuchiki/src/parser.rs:145-158 | the exact new shape and the text of every node, in both branches; the new text lands in one place of what the parent reads as, which is its end where text nodes have no children |
| `DomText.AppendTextBefore` | crates/kuchiki/src/parser.rs:161-174 | the exact new shape and the text of every node, in both branches; the parent reads as the text before the landing place, the new text and the text after it |
| `DomText.LandsBefore` | crates/kuchiki/src/parser.rs:161-174 | where text nodes have no children, the landing place is right before the sibling: after the parent and everything below its earlier children |
| `DomText.ReadTogether` | crates/kuchiki/src/parser.rs:145-174 | the text before and the text after the landing place are together what the parent read as |
| `TreeOrder.LeafInserted` | crates/kuchiki/src/tree.rs:474-495 | in tree order a new leaf comes between everything up to its place among the children and everything from there on |
| `SerdeLeaf.LeafRoundTrip` | crates/core/src/bincode_utils.rs:115-243 | every integer width, float bits, character, string and byte string decodes to itself and leaves the bytes after it |
| `SerdeLeaf.DecodedLeafTyped` | crates/core/src/bincode_utils.rs:115-243 | a decoded primitive is in the range of its type |
| `SerdeBincode.EncodeSucceeds` | crates/core/src/bincode_utils.rs:573-889 | a value whose sequences and maps announce their own length is encoded without an error |
| `SerdeBincode.RoundTrip` | crates/core/src/bincode_utils.rs:105-491 | decoding the encoder's bytes followed by any suffix gives the value and exactly that suffix, for every schema and nested value |
| `SerdeBincode.RoundTripIff` | crates/core/src/bincode_utils.rs:711-744 | the items, fields, entries and variants of a value survive the round trip, announced lengths aside, if and only if every sequence and map in it announces its own length |
| `SerdeBincode.ShortLength` | crates/core/src/bincode_utils.rs:711-715 | a length that is too small is taken at its word: the sequence is read cut off, and its other items are left as the bytes after it |
| `SerdeBincode.DecodedHasSchema` | crates/core/src/bincode_utils.rs:245-491 | whatever bytes the decoder accepts, the result is a value of the schema that announces its lengths |
| `SerdeBincode.EncodingPrefixFree` | crates/core/src/bincode_utils.rs:573-889 | no encoding of a schema is a proper prefix of another, and different values have different encodings |
| `SerdeLayout.VarintLayout` | crates/core/src/bincode_utils.rs:593-655 | a number below 251 is its own byte; any other is the least tag whose width holds it and its little-endian bytes |
| `SerdeLayout.VarintRead` | crates/core/src/bincode_utils.rs:122-243 | each tag is read with its width, a tag wider than the type and tag 255 are errors |
| `SerdeLayout.SignedLayout` | crates/core/src/bincode_utils.rs:593-611 | a signed number is laid out like an unsigned one: twice its size, less one if negative |
| `SerdeLayout.FixedLayout` | crates/core/src/bincode_utils.rs:589-647 | eight-bit numbers are their two's complement byte, floats the little-endian bytes of their bits |
| `SerdeLayout.TextLayout` | crates/core/src/bincode_utils.rs:641-655 | a string is laid out like the byte string of its UTF-8 form, a byte string like a sequence of bytes, a character like its own UTF-8 form |
| `Utf8.Layout` | crates/core/src/bincode_utils.rs:645-647 | the UTF-8 form of a character: how many bytes by its code point, and which bits of it each byte carries |
| `SerdeLayout.BoolLayout` | crates/core/src/bincode_utils.rs:589-591 | a boolean is written and read like an enumeration of two empty variants |
| `SerdeLayout.OptionWritten` | crates/core/src/bincode_utils.rs:657-667 | an option is written like an enumeration whose variant 0 is empty and whose variant 1 is the value |
| `SerdeLayout.OptionRead` | crates/core/src/bincode_utils.rs:245-255 | on every byte string an option is read like that enumeration: the same value, the same rest, the same error |
| `SerdeLayout.VariantLayout` | crates/core/src/bincode_utils.rs:669-709 | a variant is laid out like the pair of its 32-bit index and its content, a newtype like its content, a unit like nothing |
| `SerdeLayout.MapWritten` | crates/core/src/bincode_utils.rs:740-744 | a map is written like the sequence of its key-value pairs |
| `SerdeLayout.MapRead` | crates/core/src/bincode_utils.rs:347-400 | on every byte string a map is read like a sequence of pairs: the same entries, the same rest, the same error |
| `SerdeLayout.SeqWritten` | crates/core/src/bincode_utils.rs:711-715 | a sequence is its announced length as a 64-bit number and then its items one after the other |
| `SerdeLayout.TupleWritten` | crates/core/src/bincode_utils.rs:717-719 | the fields of a tuple are written one after the other with nothing between them |
| `SerdeCursor.SerdeEncoder.Serialize` | crates/core/src/bincode_utils.rs:573-763 | the buffer grows by the encoding; on an error the old contents are still its beginning |
| `SerdeCursor.SerdeDecoder.Deserialize` | crates/core/src/bincode_utils.rs:105-425 | the cursor moves past the value decoded, and errors are those of the specification |
| `SerdeCursor.SerdeDecoder.DeserializeItems` | crates/core/src/bincode_utils.rs:294-332 | counting the announced length down reads exactly that many elements |
| `SerdeCursor.WriteThenRead` | crates/core/src/bincode_utils.rs:21-55 | writing through the encoder and reading through the decoder returns the value |
| `WarcRoundTrip.RawRoundTrip` | crates/core/src/warc.rs:469-582 | any record of one-line fields and any content, blank lines and version lines included, is read back with its header map and content, and reading stops right after it |
| `WarcRoundTrip.RequestRoundTrip` | crates/core/src/warc.rs:244-257 | a written request is read back, with or without a date |
| `WarcRoundTrip.ResponseRoundTrip` | crates/core/src/warc.rs:343-357 | a written response is read back with its body and payload type, whatever the body |
| `WarcRoundTrip.PayloadRoundTrip` | crates/core/src/warc.rs:306-333 | a payload type is recovered from its name |
| `WarcRoundTrip.InfoRoundTrip` | crates/core/src/warc.rs:727-752 | the info record is read back with its type, its length and its content, and reading stops right after it |
| `WarcRoundTrip.MetadataRoundTrip` | crates/core/src/warc.rs:392-446 | a written metadata record is read back with its fetch time and document, if the document is within its size bound |
| `WarcRoundTrip.RecordRoundTrip` | crates/core/src/warc.rs:588-675 | the three records of a page are collected into the page that was written, and nothing after them is touched |
| `WarcRoundTrip.FileRoundTrip` | crates/core/src/warc.rs:727-815 | a whole file, info record first, reads back as the list of pages that was written, and then ends |
| `WarcRoundTrip.FileRoundTripIff` | crates/core/src/warc.rs:588-815 | for accepted writes with any URLs, the file reads back as written if and only if no URL holds a line feed and every document is at most 262144 bytes |
| `WarcRoundTrip.UnreadableRecord` | crates/core/src/warc.rs:392-446 | a page that fails that condition is never read back as it was written |
| `WarcRoundTrip.CollectedUrl` | crates/core/src/warc.rs:469-582 | whatever the bytes, a URL that was read holds no line feed |
| `WarcFile.FileReadsBack` | crates/core/src/warc.rs:588-815 | for every list of writes with line-feed-free URLs, accepted or refused, the exact list of items read: pages, size errors, the errors after a refused write, and the pages that are then read under the URL of the next one |
| `WarcFile.FileGivesBackIff` | crates/core/src/warc.rs:754-815 | such a file gives back the accepted pages if and only if no write was refused and every document fits |
| `WarcFile.AfterRefused` | crates/core/src/warc.rs:784-815 | a refused write costs the next record its version line, and at the end of the file its own content length |
| `WarcFile.RequestSkipped` | crates/core/src/warc.rs:469-485 | the rest of that request comes out as six or seven unknown versions, and then reading stands before its response |
| `WarcFile.ShiftedRun` | crates/core/src/warc.rs:588-675 | from there on each good page is read with the URL of the page after it, and the last is lost |
| `WarcForeign.VersionRead` | crates/core/src/warc.rs:469-488 | a first line is of a known version if and only if its first seven characters are WARC/1. in either case |
| `WarcForeign.NoVersionRead` | crates/core/src/warc.rs:469-488 | such a line costs itself and nothing after it |
| `WarcForeign.FieldsAre` | crates/core/src/warc.rs:490-525 | the header holds, under each upper-cased name, the value of the last line of that name, and no other names |
| `WarcForeign.RecordRead` | crates/core/src/warc.rs:469-582 | a record of any such lines, ended by either kind of line end, and any content is read with that header and content |
| `WarcForeign.SplitsFirst` | crates/core/src/warc.rs:346-348 | a text splits at the least place where a blank line stands |
| `WarcForeign.ResponseRead` | crates/core/src/warc.rs:343-357 | of any response or revisit, the body is the text after the first blank line, and there is an error if there is none; it is taken if and only if its content type is absent or begins with application/http |
| `WarcForeign.RequestRead` | crates/core/src/warc.rs:244-257 | a request gives its target and the date that parses, and an error without a target |
| `WarcForeign.MetadataRead` | crates/core/src/warc.rs:588-675 | a metadata record is taken if and only if its content type is absent or begins with application/warc-fields |
| `WarcForeign.OtherRead` | crates/core/src/warc.rs:588-675 | a record of another type is passed over |
| `WarcForeign.PageRead` | crates/core/src/warc.rs:588-675 | the three records of a page, in any order and with others among them, are collected into the page |
| `WarcForeign.ForeignFile` | crates/core/src/warc.rs:585-675 | a file of an opening record and any such pages is read as those pages |
| `WarcForeign.OtherLine` | crates/core/src/warc.rs:401-424 | a metadata line that is neither marked nor a fetch time says nothing |
| `WarcForeign.TimeLine` | crates/core/src/warc.rs:412-422 | a fetch time is a number between blanks; a second one and one over 64 bits are errors |
| `WarcForeign.DocumentLine` | crates/core/src/warc.rs:403-446 | a document follows its marker and spaces; a second, an oversized, an unparsable and an invalid one are errors |
| `WarcForeign.MarkedLine` | crates/core/src/warc.rs:403-409 | a marked line without a colon is malformed |
| `WarcForeign.LinesTaken` | crates/core/src/warc.rs:401-424 | such lines in any order are read if and only if they give no second time and no second document |
| `WarcForeign.MetadataRecordRead` | crates/core/src/warc.rs:392-431 | metadata is read if and only if it is within its size and its lines, however ended, give one time and at most one document; it then holds those |
| `WarcRoundTrip.OversizedDocument` | crates/core/src/warc.rs:392-446 | a document that does not fit costs its own page and no other: reading goes on right after it |
| `WarcCursor.WarcWriter.Write` | crates/core/src/warc.rs:754-815 | the buffer grows by the page's three records, or up to the cut when the document is invalid; only accepted pages are counted |
| `WarcCursor.RecordIterator.NextRawRecord` | crates/core/src/warc.rs:469-582 | the loop over header lines and the exact read of the content yield the specified record or error and the specified rest |
| `WarcCursor.RecordIterator.Next` | crates/core/src/warc.rs:588-675 | the loop over raw records yields the specified item, skips the first info record and counts reads; `WarcForeign.PageRead` says what that item is for records of any origin |
| `WarcCursor.MetadataFromRaw` | crates/core/src/warc.rs:392-431 | the loop over lines, with its size and duplicate checks, computes the specified metadata or error |
| `WarcCursor.ReadRecords` | crates/core/src/warc.rs:585-675 | iterating to the end yields the list that the round trip and `WarcForeign.ForeignFile` are stated about |
| `WarcCursor.WriteThenRead` | crates/core/src/warc.rs:585-815 | writing any such list with the writer and reading with the iterator yields that list of items |
| `SimHash.Partition` | crates/core/src/simhash.rs:78-86 | the four masks cut a word into disjoint parts that together are the word |
| `SimHash.CountByBlock` | crates/core/src/simhash.rs:65-86 | the ones of a word are the ones of its four blocks together |
| `SimHash.DistanceIs` | crates/core/src/simhash.rs:65-67 | the distance is the number of bit positions at which two words differ |
| `SimHash.DistanceZero` | crates/core/src/simhash.rs:65-67 | it is zero if and only if the words are equal |
| `SimHash.Pigeonhole` | crates/core/src/simhash.rs:95-104 | words at Hamming distance at most 3 agree on at least one block |
| `SimHash.Block.Contains` | crates/core/src/simhash.rs:95-104 | finds only hashes that differ from the query in at most three bits, and finds every such hash that shares the block |
| `SimHash.Table.Insert` | crates/core/src/simhash.rs:125-130 | keeps the table in step with the list of inserted hashes |
| `SimHash.Table.Contains` | crates/core/src/simhash.rs:132-135 | true if and only if some inserted hash differs from the query in at most three bits |
| `IterableStore.SliceIsFrames` | crates/file-store/src/iterable.rs:164-173 | the bytes between two item starts are exactly the frames of the items between them, so offsets partition the file |
| `IterableStore.IterableStoreWriter.Write` | crates/file-store/src/iterable.rs:109-126 | appends the item's frame and returns its start and size; starts are contiguous |
| `IterableStore.IterableStoreReader.Next` | crates/file-store/src/iterable.rs:179-199 | on any bytes, what a read at the offset finds, a fault included; in front of framed items, the next of them |
| `IterableStore.ReadsAny` | crates/file-store/src/iterable.rs:179-199 | eight little-endian bytes are the number of the bytes that are then decoded, whoever wrote them, and the next read starts right after those |
| `IterableStore.ReadsCut` | crates/file-store/src/iterable.rs:179-199 | a file cut inside the length of a frame ends there, and one cut inside its item is a fault |
| `IterableStore.IterableStoreReader.Slice` | crates/file-store/src/iterable.rs:164-173 | any range inside the data, and a fault outside it; a range that holds framed items reads them |
| `IterableStore.SliceItems` | crates/file-store/src/iterable.rs:164-173 | a slice from one item's start to another's start reads exactly the items between |
| `IterableStore.WriteThenRead` | crates/file-store/src/iterable.rs:93-199 | what is written is read back in order |
| `ExternalSort.Store` | crates/core/src/external_sort.rs:47-82 | a stored chunk is a sorted permutation of the chunk |
| `ExternalSort.StoredChunk.Next` | crates/core/src/external_sort.rs:100-119 | reads the length and then that many bytes: the next item stored, and none exactly at the end |
| `ExternalSort.Sort` | crates/core/src/external_sort.rs:146-182 | for every chunk size, the chunks together hold exactly the input |
| `ExternalSort.SortedIterator.Next` | crates/core/src/external_sort.rs:251-262 | yields a least item of all that is left and takes exactly that one away |
| `ExternalSort.SortAll` | crates/core/src/external_sort.rs:146-262 | the iterator yields a sorted permutation of the input, for every input and chunk size |
| `StoreMerge.PeekOrder` | crates/file-store/src/peekable.rs:62-75 | ordering exhausted readers last is a total preorder |
| `StoreMerge.Peekable.Next` | crates/file-store/src/peekable.rs:47-59 | yields what the reader has left, one item ahead |
| `StoreMerge.SortedIterableStoreReader.Next` | crates/file-store/src/iterable.rs:244-252 | yields a least item left in any reader, and none only when all are exhausted |
| `StoreMerge.ReadMerged` | crates/file-store/src/iterable.rs:228-252 | the merge of sorted readers is a sorted permutation of everything in them |
| `IterMerge.Peekable.Next` | crates/core/src/iter_ext.rs:73-84 | yields what the iterator has left, one item ahead |
| `IterMerge.SortSortedBy.MinBy` | crates/core/src/iter_ext.rs:118-130 | the chosen iterator is the first with a least head, exhausted ones last |
| `IterMerge.SortSortedBy.Next` | crates/core/src/iter_ext.rs:118-130 | yields the head of the stable merge and leaves its tail |
| `IterMerge.MergedKeepsLists` | crates/core/src/iter_ext.rs:118-130 | the items of the merge that came from an iterator are that iterator's items in its order: nothing lost, added or swapped |
| `IterMerge.MergedIsStable` | crates/core/src/iter_ext.rs:118-130 | the merge of sorted iterators is sorted, and equal items keep the order of their iterators |
| `TopK.SortedK` | crates/core/src/lib.rs:346-375 | the result is a sorted part of the input, and its keys are the first min(k, n) keys of the sorted input |
| `TopK.KeptTruncate` | crates/core/src/lib.rs:365-370 | truncating a full buffer at the k-th key drops nothing that could still be among the first k |
| `TopK.RankBelow` | crates/core/src/lib.rs:365-370 | k items under a bound in the buffer put its k-th smallest key under the bound, so the threshold never rises |
| `TopK.FirstKeys` | crates/core/src/lib.rs:372-374 | sorted items not above anything dropped carry the first keys of the whole |
| `Hashing.MixInverts` | crates/core/src/hyperloglog.rs:4310-4313 | the wrapping product with the multiplier is undone by its inverse modulo 2^64 |
| `IntMap.SortByKeyIs` | crates/core/src/intmap.rs:83-83 | sorting a bin keeps its entries and makes distinct keys strictly increase |
| `IntMap.IntMap.Get` | crates/core/src/intmap.rs:109-115 | faults if and only if the table has no bins; otherwise binary search in the key's bin returns the value of the mathematical map |
| `IntMap.IntMap.GetMutAndSet` | crates/core/src/intmap.rs:117-123 | faults if and only if the table has no bins; writing through the reference replaces the value of a present key and changes nothing otherwise |
| `IntMap.IntMap.Insert` | crates/core/src/intmap.rs:71-86 | faults if and only if the table has no bins; otherwise the map gains or replaces the entry, `len` stays the number of keys, and with two bins or more the load stays at most one and a half |
| `IntMap.IntMap.Grow` | crates/core/src/intmap.rs:88-107 | rehashing every entry into more bins keeps the map and its invariants |
| `IntMap.Rehashed` | crates/core/src/intmap.rs:97-106 | bins made of the entries that belong in each, sorted, represent the same map |
| `IntMap.FromIter` | crates/core/src/intmap.rs:134-152 | the table of all entries, later ones winning; a fault if and only if the iterator gives zero as the bound of its length and yields an item |
| `IntMap.LookUpInEmpty` | crates/core/src/intmap.rs:134-152 | looking up any key in the table made from an empty iterator of known length faults |
| `TtlCache.TtlCache.Get` | crates/core/src/ttl_cache.rs:63-73 | without a maximal size the answer is that of the log of all insertions; with one it is so for every key among the last so many insertions, and otherwise the log's answer or none |
| `TtlCache.FreshStep` | crates/core/src/ttl_cache.rs:63-73 | right after an insertion the log gives the value for less than the time to live, and nothing from then on; other keys keep their answer |
| `TtlCache.InsertThenGet` | crates/core/src/ttl_cache.rs:44-73 | a value inserted and asked for later is found if and only if less than the time to live has passed |
| `TtlCache.TtlCache.Insert` | crates/core/src/ttl_cache.rs:44-61 | faults if and only if the maximal size is zero; otherwise keeps both maps and the duplicate-free queue in step, in time order and within the maximal size, loses no recent unexpired key, and spares every unexpired key if and only if there is room to spare |
| `TtlCache.TtlCache.Prune` | crates/core/src/ttl_cache.rs:75-99 | drops from the front of the queue what is over size and then what is expired, and nothing else; with a maximal size of zero it takes from an empty queue |
| `TtlCache.UnexpiredIs` | crates/core/src/ttl_cache.rs:86-98 | stopping at the first unexpired key drops exactly the expired ones |
| `TtlCache.PruningSpares` | crates/core/src/ttl_cache.rs:75-99 | pruning spares every unexpired key among the last insertions |
| `TtlCache.AddedComplete` | crates/core/src/ttl_cache.rs:44-61 | after pruning and inserting, no recent unexpired key is missing |
| `TtlCache.SparedIff` | crates/core/src/ttl_cache.rs:44-84 | an insertion evicts an unexpired key if and only if the queue is full and its front is neither expired nor the key inserted, also when the key is there already |
| `HyperLogLog.RankIs` | crates/core/src/hyperloglog.rs:4385-4396 | the rank is the place of the first one after the index bits; no one at all gives 65 |
| `HyperLogLog.SlotBelow` | crates/core/src/hyperloglog.rs:4380-4389 | the index is within the registers |
| `HyperLogLog.SlotIs` | crates/core/src/hyperloglog.rs:4389-4389 | the index is the number written by the first bits of the hash, and no other register belongs to it |
| `HyperLogLog.SameSetSameRegisters` | crates/core/src/hyperloglog.rs:4354-4396 | the registers are determined by the set of items: order and repetition do not matter |
| `HyperLogLog.UnionSummarised` | crates/core/src/hyperloglog.rs:4531-4535 | the greater of each pair of registers sketches the union of the sets |
| `HyperLogLog.MergeLaws` | crates/core/src/hyperloglog.rs:4531-4535 | merging is commutative, associative and idempotent |
| `HyperLogLog.SameSetSameSketch` | crates/core/src/hyperloglog.rs:4354-4396 | two runs over the same set of items, in any order and with any repetitions, end with the same registers |
| `HyperLogLog.MergedSketches` | crates/core/src/hyperloglog.rs:4354-4535 | merging the registers of two runs gives those of one run over both |
| `HyperLogLog.HyperLogLog.Add` | crates/core/src/hyperloglog.rs:4385-4396 | faults if and only if there are fewer than two registers and, in a build without overflow checks, none at the place of the hash; otherwise the sketch of the set with the item, and only the register that the first bits of the hash name may change |
| `HyperLogLog.HyperLogLog.Clear` | crates/core/src/hyperloglog.rs:4402-4404 | the sketch of no items |
| `HyperLogLog.HyperLogLog.Merge` | crates/core/src/hyperloglog.rs:4531-4535 | the sketch of both sets together |
| `HyperLogLog.HyperLogLog.MergeInto` | crates/core/src/hyperloglog.rs:4537-4541 | the same into a third sketch, whatever it held |
| `HyperLogLog.FromIter` | crates/core/src/hyperloglog.rs:4354-4362 | the sketch of the set of the items, or a fault if and only if one of them does not fit |
| `Offsets.CeilCharBoundary` | crates/core/src/lib.rs:212-220 | the first character boundary from the index on; an index past the end comes back unchanged |
| `Offsets.ByteLenIs` | crates/core/src/lib.rs:212-220 | the byte length of a text is the length of its UTF-8 form |
| `Offsets.IndexAtSound` | crates/optics-lsp/src/lib.rs:320-322 | a boundary offset is the byte length of a prefix |
| `Summarizer.OverlappingSents.constructor` | crates/core/src/summarizer.rs:67-82 | the run to come is that of the whole text |
| `Summarizer.OverlappingSents.Next` | crates/core/src/summarizer.rs:88-143 | yields the next window of the run as a slice of the text with its byte range, and leaves the rest of the run; `Summarizer.WindowsAre` says which windows those are |
| `Summarizer.OverlappingSents.Scan` | crates/core/src/summarizer.rs:93-117 | one pass over the characters queues the last places where a next window may start |
| `Summarizer.WindowsAdvance` | crates/core/src/summarizer.rs:88-143 | starts strictly increase, ranges lie in the text, and no window has more words than its size |
| `Summarizer.WindowsAre` | crates/core/src/summarizer.rs:88-143 | for every window of the run: where it ends, whether it is the last, and where the next one starts, in terms of the whitespace places of the text |
| `Summarizer.AllCovered` | crates/core/src/summarizer.rs:88-143 | when overlap + 1 is less than the window size, each character is in some window or is the one whitespace between two neighbours, and with an overlap of at least 1 all are in one |
| `Summarizer.CoveredIff` | crates/core/src/summarizer.rs:88-143 | a word character is in no window exactly when overlap + 1 equals the window size and a doubled or leading whitespace before it ended the run |
| `Summarizer.WordsCoveredIff` | crates/core/src/summarizer.rs:88-143 | every word of a text is in some window if and only if that does not happen, read off the text alone |
| `Summarizer.LeadingSpaceLosesAll` | crates/core/src/summarizer.rs:127-131 | a text on which it does happen: nothing but an empty window comes out |
| `LspPosition.PosIs` | crates/optics-lsp/src/lib.rs:319-336 | the position counts the line feeds before the offset and the bytes since the last one, carriage returns included, both cast to 32 bits |
| `LspPosition.PosExists` | crates/optics-lsp/src/lib.rs:320-322 | an offset has a position exactly when it is a character boundary of the text |
| `LspPosition.PositionToByteOffset` | crates/optics-lsp/src/lib.rs:338-355 | for any text, the offset of the first character from the start of the line on at which the wrapping column counter is zero, and none if there is none; in a build with overflow checks it faults if and only if the column falls inside a character |
| `LspPosition.RoundTrip` | crates/optics-lsp/src/lib.rs:319-355 | every boundary inside the text whose position fits in 32 bits comes back from it, and the end of the text gives none |
| `LspPosition.RoundTripIff` | crates/optics-lsp/src/lib.rs:319-355 | where the line number fits, it does so if and only if no earlier boundary of the line lies a multiple of 2^32 bytes before it |
| `LspPosition.SmallText` | crates/optics-lsp/src/lib.rs:319-336 | in a text below 2^32 bytes every position fits in 32 bits |
| `LspPosition.NoUnderflow` | crates/optics-lsp/src/lib.rs:345-347 | the position of a boundary never falls inside a character, so counting its column down never goes below zero |
| `LspPosition.PosInjective` | crates/optics-lsp/src/lib.rs:319-336 | no two boundaries have the same position, if both positions fit in 32 bits |
| `LspPosition.BackTrip` | crates/optics-lsp/src/lib.rs:319-355 | a position comes back from its offset if and only if its column is within its line |
| `Executor.Gather` | crates/core/src/executor.rs:83-98 | the placeholders give every result in its place, or an error when one is missing |
| `Executor.PresentIs` | crates/core/src/executor.rs:89-96 | flattening keeps the length exactly when no placeholder is empty, and then shifts nothing |
| `Executor.RunInPlace` | crates/core/src/executor.rs:57-88 | at every point of every run, a position holds its own job's result once that job has finished |
| `Executor.PoolMatchesSequential` | crates/core/src/executor.rs:54-101 | for every order of completion the pool returns what the sequential map returns; with a job lost it returns an error |

## Left out

- Reference counts, weak links and `Node::drop`: a link to a parent or sibling is assumed to resolve while the tree is in use.
- DOM ancestors, the other sibling iterators, element and text filters, selectors, XPath, the serializer, attributes and templates: they wrap the iterators modelled here.
- DomTree.Dom.Append: requires two different nodes; the code would make a node its own parent.
- DomTree.Dom.Prepend: requires two different nodes, as for appending.
- DomTree.Dom.InsertAfter: requires that the node is neither the sibling nor its parent; the code would make it its own sibling or parent.
- DomTree.Dom.InsertBefore: requires the same.
- DomSink.ReparentChildren: requires that no child contains the new parent; the code would close a cycle while it iterates.
- Decoding into borrowed strings and bytes, which has a decoder of its own.
- Floats are carried as their bits.
- Compression of WARC files, downloading, opening files and the deduplicating writer: the stream is plain bytes in memory.
- Header names are upper-cased for ASCII letters only; the code upper-cases all of Unicode.
- WarcRoundTrip.FileRoundTrip: like the other results about files, for bodies and metadata shorter than 2^64 bytes and 64-bit times, as all values in memory are.
- Hashing a text to its simhash and the similarity ratio: statistics over tokens.
- Sorting and selection of the standard library are an insertion sort and a selection with the promised contract; the binary heaps are a search for a least element, which leaves open which of several equal items comes first.
- IntMap.IntMap.Grow: the growth factor 1.5 is exact, where the code multiplies in floating point.
- Byte offsets of the stores do not wrap at 2^64, and seeking and the constant-width stores are not modelled.
- HyperLogLog.FromIter: the binary logarithm of the number of registers is exact, where the code rounds a float.
- The estimate, its bias tables and its error bounds: floating-point statistics.
- LspPosition.RoundTripIff: requires a line number below 2^32, the range of the protocol's numbers.
- LspPosition.BackTrip: requires a line number below 2^32 at the character named.
- LspPosition.PosInjective: requires positions that fit in 32 bits; others are cast and can coincide.
- Scoring of passages and the choice of the best ones.
- The panic of a pool job, which the pool raises again; the model only knows that the job sent nothing.
