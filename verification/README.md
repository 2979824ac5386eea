# A verified model of gcr's egg and gck cores

This project models, in Dafny, the parts of the gcr repository whose correctness rests on invariants over mutable
state or on two pieces of code agreeing with each other, and proves what they promise.

* **Secure memory** (`Layout`, `Rings`, `Blocks`, `SecureMemory`, `MetadataPool`): blocks of locked words cut into
  cells, whose first and last word point back at out-of-band records kept on two rings. A byte of memory is either
  cleared, written by a client, or part of a guard pointer, so that scrubbing is a property of the contents.
  `Block.at` is the ghost map from the word a cell starts at to its record, size and request; `View()` maps each
  live allocation to its bytes; `Manager` adds the list of blocks.
* **The DER engine** (`Numerals`, `Headers`, `Tlvs`, `DerParser`, `DerWriter`, `Schema`, `Matching`, `Builder`,
  `Encodings`, `Outlines`, `Values`, `Reencoding`, `DefinitionTable`, `ObjectIds`): ITU-T X.690 headers and TLV trees
  as functions, the parser and the writer as methods proved against them, the schema matcher, the size pass of
  encoding, the octets that are written, the ASN.1 values that nodes stand for and when decoding gives them back
  (`Values.Meaning` is what a node was set to, `Values.Held` what one holds after decoding, `Values.Clear` what a
  caller can check before), the preorder definition table and the object identifier codec.
* **The PKCS#11 enumerator** (`Enumeration`, `Enumerators`, `EnumeratorCalls`, `CheckOut`): six states that own
  resources and are rewound, chained enumerators, any batching of calls, and how states are checked out and in.
* **Arithmetic and streams** (`Decimals`, `KeyDerivation`, `WireFormat`, `WireBuffer`): decimal text to base 256 by
  halving in place, HKDF and PBKDF2 over an uninterpreted keyed hash, the growing wire buffer.
* **Shared attribute values** (`Attributes`, `SharedValues`) and **asynchronous calls** (`Calls`, `Dispatch`):
  reference counts against the pointers there are, over every interleaving of operations.

The environment enters as parameters: whether the system grants pages or records, what an allocator, a device, a hash
or a cancellable answers. The parser and the builder are functions with recursion like the C code's; what the C code
does step by step is a method with the C fields in a class or with loops over arrays. `dafny verify dfyconfig.toml`
checks everything.

## Findings

Where the code does not do what one would expect of it, the model keeps the code, exhibits an input and proves when
it does.

| what fails | an input | exactly when it holds |
|---|---|---|
| an allocation may fail although the system refuses nothing, because a new block is sized without the two guard words; the unused block stays on the list | `SecureMemory.DefaultSizeFails` | `SecureMemory.Manager.AllocFull`, `SecureMemory.FreshBlockServes` |
| what is built may not have the sizes the writer comes to, because an ANY keeps the header sizes it was read with | `Builder.LongHeaderKept` | `Builder.BuiltSized`, `Builder.SetFromSized`, `Builder.SetRawSized`, `Reencoding.DecodedBuiltSized`, `Headers.ShortExactly` |
| accepted data is not written back octet by octet when a header is not in shortest form, or a length is cut short | `Tlvs.CutLengthRead` | `Tlvs.WrittenBack` |
| a tag of five septets may wrap around, and is read and written back as another tag of the same size | `Headers.WrappedTagRead` | `Headers.HeaderWrittenBack`, `Headers.ShortExactly` |
| an object identifier with a zero septet inside an arc is written but cannot be read | `ObjectIds.ZeroSeptetRefused` | `ObjectIds.OidRoundTrip`, `ObjectIds.ReturnsExactly` |
| an object identifier whose first two arcs do not fit one octet is written and read as another one, without a failure | `ObjectIds.SecondArcTooLarge` | `ObjectIds.ReturnsExactly` |
| in a SEQUENCE OF inside a SEQUENCE OF the later lists get as many blank elements as the first one had too many | `Matching.NestedListsDiffer` | `Matching.NestedCount` |
| what is encoded may be refused, or decoded as something else: for an explicit tag of class APPLICATION, a SET that is not in the order of its tags, an absent member that takes the tag of the next one | `Reencoding.ApplicationTagRefused`, `Reencoding.SetOrderRefused` | `Reencoding.DecodedBack` |
| a string in constructed form is accepted, and gone when it is encoded again | `Reencoding.ConstructedLost` | `Reencoding.ConstructedDecoded` |
| the tag inside an explicit tag is not looked at | `Reencoding.InnerTagIgnored` | `Reencoding.ExplicitDecoded` |
| checking out a chain of enumerators loses the states behind one that is running another call | `CheckOut.StateLost` | `CheckOut.Borrow` |
| with default attributes an object that cannot be read counts as found, so that a call for one object may return none although there are others | `EnumeratorCalls.ObjectMissed` | `EnumeratorCalls.NextReturnsNone`, `EnumeratorCalls.NextMisses` |
| making room for values leaks those that are still there; all callers empty the attributes before | `SharedValues.ValueLeaks` | `SharedValues.Heap.CommitIn`, `SharedValues.Heap.Retrieve` |

The comment at gck/gck-call.c:135 says that the callback is not called for a cancelled call; the code leaves out the
completion function and does call the callback (gck/gck-call.c:149-154), and so does `Dispatch.CallClass.Decide`.

## Model

| member | source | states |
|---|---|---|
| Layout.SizeToWords | egg/egg-secure-memory.c:303-306 | a length is rounded up to words |
| Layout.MergeContents | egg/egg-secure-memory.c:603-634 | joining a cell with its unused right neighbour and rewriting the guards keeps tiling, guards, scrubbing and every allocation's bytes |
| Layout.CutContents | egg/egg-secure-memory.c:524-546 | cutting the front off an unused cell keeps them too |
| Layout.StealContents | egg/egg-secure-memory.c:738-747 | and so does moving the border between a used cell and its unused right neighbour |
| Layout.Scrubbed | egg/egg-secure-memory.c:593-594 | every byte written by a client lies inside the requested bytes of a live allocation |
| Layout.AllocationsDisjoint | egg/egg-secure-memory.c:440-489 | the bytes of two allocations and their guard words never overlap |
| Layout.EmptyBlockIsOneCell | egg/egg-secure-memory.c:980-1012 | no two unused cells touch, so that a block without allocations is one unused cell over all its words |
| Layout.EatenOnce | egg/egg-secure-memory.c:725-747 | after eating its right neighbour a cell has no unused right neighbour |
| Layout.WordsAddUp | egg/egg-secure-memory.c:1299-1305 | the sizes of all cells add up to the block's words |
| Rings.Insert | egg/egg-secure-memory.c:343-365 | inserting into a circular doubly linked ring gives a ring with the record in front, turned by one |
| Rings.Remove | egg/egg-secure-memory.c:368-396 | removing a record leaves a ring of the others and clears the record's links |
| Rings.RingMirror | egg/egg-secure-memory.c:815-826 | the links of a cell on a ring and of its neighbours name each other |
| Blocks.Block.constructor | egg/egg-secure-memory.c:928-977 | a new block is one unused cell over its words with guards and one record of the pool |
| Blocks.Block.NeighbourBefore | egg/egg-secure-memory.c:440-463 | the cell in front, found through the guard word, is the cell that ends where this one starts, or there is none |
| Blocks.Block.NeighbourAfter | egg/egg-secure-memory.c:466-489 | the cell behind likewise |
| Blocks.Block.FindRoom | egg/egg-secure-memory.c:514-525 | the search along the unused ring finds a fitting cell whenever the block has one |
| Blocks.Block.SecAlloc | egg/egg-secure-memory.c:492-566 | a new cleared allocation beside the unchanged others, in the first unused cell that is large enough: all of it or, when more than four words would be left, its first words, and the others stay one unused cell; refused exactly when no cell is large enough, or that one would have to be parted and there is no record |
| Blocks.Block.SecFree | egg/egg-secure-memory.c:569-636 | the allocation goes, all others keep their bytes; merging keeps the invariant, and records of merged cells are returned |
| Blocks.Block.SecRealloc | egg/egg-secure-memory.c:667-765 | it stays where it is if and only if its cell and an unused one behind it have the words, and then has those it needs, or all when no more than four were left; else it moves, or fails when nothing is refused exactly if no other cell is large enough; the bytes there are kept up to the shorter length, on failure all of them; a cell that grew or moved shows only cleared bytes; at most one neighbour is eaten |
| Blocks.Block.Expand | egg/egg-secure-memory.c:725-747 | the loop that eats or robs the right neighbour keeps everything and ends with exactly the words that there are for it; what it takes is no room that another request of that size could have |
| Blocks.Block.Absorb | egg/egg-secure-memory.c:603-634 | one record takes over another cell's words; the dropped record and no other is returned to the pool |
| Blocks.Block.SecValidate | egg/egg-secure-memory.c:801-846 | the walk visits every cell, and none of its assertions fires |
| Blocks.Block.SecRecords | egg/egg-secure-memory.c:1283-1310 | one record for every cell; their sizes add up to the block's |
| Blocks.Block.CountsLive | egg/egg-secure-memory.c:555 | n_used is the number of live allocations |
| Blocks.Block.LinksMirror | egg/egg-secure-memory.c:815-826 | the neighbours on the ring of any cell point back at it |
| Blocks.Block.Dismantle | egg/egg-secure-memory.c:980-1012 | destroying a block without allocations returns exactly one record, over all words, and none is left |
| Blocks.Block.Write | egg/egg-secure-memory.c:639-664 | storing inside an allocation changes those bytes only |
| Blocks.ServeTwo | egg/egg-secure-memory.c:536-552 | a new block serves a second request if and only if it has room for both and the first did not have to take all of it; the second is right behind the first |
| SecureMemory.Manager.AllocFull | egg/egg-secure-memory.c:1019-1072 | with nothing refused it succeeds exactly if a block has room or a new one is large enough; else only an unused block is added |
| SecureMemory.Manager.FreeFull | egg/egg-secure-memory.c:1172-1211 | the allocation goes, its block with it exactly if it was the last one |
| SecureMemory.Manager.ReallocFull | egg/egg-secure-memory.c:1075-1163 | the pointer and the blocks stay the same if and only if the cell and an unused one behind it have the words; with nothing refused it fails exactly if, besides, no block has room and a new one is too small; content is kept also through a new block; on failure no allocation changes and at most an unused block is added; the old block goes exactly with its last allocation; all others are as before |
| SecureMemory.Manager.FindBlock | egg/egg-secure-memory.c:1181-1185 | the block a pointer lies in is found |
| SecureMemory.Manager.Destroy | egg/egg-secure-memory.c:980-1012 | none of its assertions fires, and the other blocks are untouched |
| SecureMemory.Manager.ScrubbedEverywhere | egg/egg-secure-memory.c:593-594 | in every block client bytes lie in live allocations only |
| SecureMemory.FreshBlockServes | egg/egg-secure-memory.c:950-955 | a new block holds its request exactly if rounding up to pages left sixteen bytes |
| SecureMemory.DefaultSizeFails | egg/egg-secure-memory.c:1048-1053 | a request of 16384 bytes fails and leaves an unused block |
| SecureMemory.BlocksForTwo | egg/egg-secure-memory.c:1019-1072 | two requests that a new block holds together need no second block |
| MetadataPool.Pool.Take | egg/egg-secure-memory.c:214-222 | an item that was not handed out is, cleared |
| MetadataPool.Pool.Return | egg/egg-secure-memory.c:257-266 | an item handed out comes back |
| MetadataPool.Pool.UsedCounts | egg/egg-secure-memory.c:214-216 | used is the number of items handed out |
| MetadataPool.Records.Alloc | egg/egg-secure-memory.c:167-223 | an item nobody has, from a pool that has one or a new one; none only if none is left and no pages are granted |
| MetadataPool.Records.Free | egg/egg-secure-memory.c:226-269 | the item comes back, and its pool is unmapped exactly with its last item |
| MetadataPool.Records.Conserved | egg/egg-secure-memory.c:167-269 | used and the unused stack together are the items of a pool |
| Headers.HeaderReadBack | egg/egg-asn1x.c:700-843 | a written header is read back, whatever follows |
| Headers.HeaderWrittenBack | egg/egg-asn1x.c:1378-1420 | an accepted header is written back octet by octet if and only if it was in shortest form |
| Headers.HeaderShrinks | egg/egg-asn1x.c:1378-1420 | written back, no header gets longer |
| Headers.ShortExactly | egg/egg-asn1x.c:700-843 | a header is as short as the written one if and only if its tag is in shortest form or wraps around, and its length is in shortest form or cut behind its first octet |
| Headers.WrappedChanges | egg/egg-asn1x.c:725-749 | a tag that wraps around is written back in as many octets, but others |
| Headers.WrappedTagRead | egg/egg-asn1x.c:725-749 | the tag 17 * 2^28 is read as 2^28 |
| Headers.FewTagSeptets | egg/egg-asn1x.c:1384-1400 | the septets of a tag below 2^56 fit the eight octets there are for them |
| Tlvs.RoundTrip | egg/egg-asn1x.c:931-958 | parsing what is written of a sized tree gives the tree |
| Tlvs.WrittenBack | egg/egg-asn1x.c:1489-1509 | accepted data is written back unchanged if and only if all its headers are in shortest form |
| Tlvs.ParsedSpanned | egg/egg-asn1x.c:846-928 | the children's spans exactly fill the contents of their parent |
| Tlvs.EncodedShrinks | egg/egg-asn1x.c:1423-1486 | written back, accepted data never gets longer |
| Tlvs.SizedSize | egg/egg-asn1x.c:1423-1486 | off and len of a sized tree are what is written |
| Tlvs.ParsedSized | egg/egg-asn1x.c:846-928 | the sizes found by parsing are the writer's if and only if no header is longer than the writer's |
| Tlvs.ParsedProper | egg/egg-asn1x.c:846-928 | then the tree may be given to the writer |
| Tlvs.MadeSized | egg/egg-asn1x.c:1423-1486 | what was made around TLVs that were read has the writer's sizes if and only if no header that was read was longer |
| Tlvs.FitProper | egg/egg-asn1x.c:1423-1486 | what was made around TLVs with short headers may be given to the writer |
| Tlvs.CutLengthRead | egg/egg-asn1x.c:786-794 | a length that stops short is read as zero |
| DerParser.ParseClsTag | egg/egg-asn1x.c:700-760 | the loop over the septets computes the tag of the specification, or rejects |
| DerParser.ParseLengthAt | egg/egg-asn1x.c:763-816 | the loop over the length octets computes the length of the specification, or rejects |
| DerParser.ParseClsTagLen | egg/egg-asn1x.c:819-843 | the header of the specification, if its contents fit |
| DerParser.ParseDerTag | egg/egg-asn1x.c:846-928 | the parser that advances a position is the recursive specification |
| DerParser.ParseDerData | egg/egg-asn1x.c:931-958 | one tree takes all of the data, or the data is rejected |
| DerWriter.UnparseLen | egg/egg-asn1x.c:1346-1375 | it writes, or only counts, exactly the octets of the length |
| DerWriter.UnparseClsTagLen | egg/egg-asn1x.c:1378-1420 | it writes, or only counts, exactly the header, inside the room there is |
| DerWriter.UnparseDer | egg/egg-asn1x.c:1423-1486 | it writes exactly off and len octets, the encoding, and nothing else |
| DerWriter.UnparseToBytes | egg/egg-asn1x.c:1489-1509 | the buffer is filled with the encoding |
| Matching.MatchSound | egg/egg-asn1x.c:1238-1294 | a match pairs the TLVs with a strictly increasing, leftmost choice of nodes that agree; all others may be absent and are cleared |
| Matching.MatchExactly | egg/egg-asn1x.c:1238-1294 | matching succeeds if and only if there is such a choice and each chosen node decodes its TLV |
| Matching.NoneFurtherLeft | egg/egg-asn1x.c:1238-1294 | no other choice of agreeing nodes is further left |
| Matching.WalkAnything | egg/egg-asn1x.c:1238-1294 | the loop over siblings is the specification |
| Matching.ElementsInOrder | egg/egg-asn1x.c:1015-1049 | the TLVs of a SEQUENCE OF go, in order, into the child and blank copies of it |
| Matching.ElementCount | egg/egg-asn1x.c:1015-1049 | how many children a repeated node has afterwards |
| Matching.NestedCount | egg/egg-asn1x.c:1015-1049 | a later inner list has the right number of elements if and only if the first had at most one |
| Matching.NestedListsDiffer | egg/egg-asn1x.c:1015-1049 | the lists [1, 2] and [3] give a second list of two |
| Builder.BuiltSized | egg/egg-asn1x.c:1832-1889 | what is built has the sizes the writer comes to if and only if no header that was read into an ANY in it is longer than the writer's, however the ANY was filled |
| Builder.WrappedSized | egg/egg-asn1x.c:1810-1829 | wrapping in an explicit tag keeps that |
| Builder.BuiltProper | egg/egg-asn1x.c:1832-1889 | what is built of a sound node may be given to the writer |
| Builder.EncodedIsRead | egg/egg-asn1x.c:1489-1509 | encoding a sound node and parsing the octets gives what was built |
| Builder.BuiltMade | egg/egg-asn1x.c:1832-1889 | what is built has the writer's sizes, but for what was read |
| Builder.SetFromHolds | egg/egg-asn1x.c:3086-3106 | setting an ANY from another node keeps that, and keeps a tree sound |
| Builder.SetRawHolds | egg/egg-asn1x.c:3130-3160 | so does setting it from octets with short headers |
| Builder.SetFromSized | egg/egg-asn1x.c:3086-3106 | an ANY set from another node is built with the writer's sizes if and only if that node is |
| Builder.SetRawSized | egg/egg-asn1x.c:3130-3160 | an ANY set from octets is built with the writer's sizes if and only if no header of the octets is longer |
| Builder.RawKept | egg/egg-asn1x.c:3108-3160 | octets that are set and got again are the same if and only if all their headers are in shortest form |
| Builder.LongHeaderKept | egg/egg-asn1x.c:1720-1735 | an ANY read from a length of two octets for 1 is not sized |
| Builder.CollectChildren | egg/egg-asn1x.c:1754-1807 | the loop links the children that are built and adds up their sizes |
| Encodings.ValueOctets | egg/egg-asn1x.c:1648-1665 | an untagged value is the number that X.680 gives its type, its length and its octets, for every type of value |
| Encodings.BitStringOctets | egg/egg-asn1x.c:1667-1685 | a bit string is 3, a length, its number of empty bits and its octets with those bits zero |
| Encodings.UnsignedOctets | egg/egg-asn1x.c:1687-1717 | an unsigned integer is written as octets whose two's complement is its number |
| Encodings.ContainerOctets | egg/egg-asn1x.c:1753-1807 | a sequence, set or list is 0x30 or 0x31, a length and what its children are written as, in order; exactly when it is written though it is empty |
| Encodings.ChoiceOctets | egg/egg-asn1x.c:1737-1751 | a choice is its first chosen alternative |
| Encodings.ExplicitOctets | egg/egg-asn1x.c:1809-1829 | an explicit tag is one more header around the octets there would be without it |
| Encodings.ImplicitOctets | egg/egg-asn1x.c:1626-1646 | an implicit tag takes the place of the type's own |
| Outlines.OneAlike | egg/egg-asn1x.c:1204-1222 | which octets a node accepts depends on definitions only, not on what it or its lists hold, and decoding keeps them |
| Values.AbsentExactly | egg/egg-asn1x.c:1832-1889 | nothing is written for a node exactly if it is not set to anything |
| Values.MembersBack | egg/egg-asn1x.c:1237-1294 | members that were written are decoded as what they were set to, each in its place, if and only if they are where they are looked for |
| Values.ElementsBack | egg/egg-asn1x.c:1015-1050 | the elements of a list are, in order, if and only if each of them is |
| Values.ChoiceBack | egg/egg-asn1x.c:1737-1751 | the alternative is, if and only if all in front of it refuse its octets |
| Values.OneBack | egg/egg-asn1x.c:1204-1222 | what is written for any node is decoded by its schema as what the node was set to if and only if the node is clear |
| Reencoding.DecodedHolds | egg/egg-asn1x.c:1297-1329 | what holds of every TLV of some data holds of every ANY it is decoded into, and definitions stay |
| Reencoding.DecodedBuiltSized | egg/egg-asn1x.c:1297-1329 | decoded data is built again with the writer's sizes if and only if no header that was read into an ANY is longer |
| Reencoding.ShortDecodedSized | egg/egg-asn1x.c:1297-1329 | it is when no header of the data is longer |
| Reencoding.ReencodedIsRead | egg/egg-asn1x.c:1297-1329 | data with short headers, decoded and encoded again, is read as what was built |
| Reencoding.ValueDecoded | egg/egg-asn1x.c:1082-1127 | a value is accepted for its tag, a bit string for its empty bits as well, and the node then holds exactly its octets |
| Reencoding.ConstructedDecoded | egg/egg-asn1x.c:1129-1164 | a value in constructed form is accepted for ten types of strings only, and the node then holds none of it |
| Reencoding.PrimitiveRefused | egg/egg-asn1x.c:1082-1127 | a sequence, set or list in primitive form is refused |
| Reencoding.ExplicitDecoded | egg/egg-asn1x.c:1174-1183 | around a value with an explicit tag, tag and class of the outer header are looked at, not the tag inside; the node holds the octets inside |
| Reencoding.DecodedBack | egg/egg-asn1x.c:1297-1329 | what a sound node is encoded to is decoded by its schema, which may be the node itself, as what the node was set to, every part in its place, if and only if the node is clear |
| Reencoding.ApplicationTagRefused | egg/egg-asn1x.c:1175-1177 | an explicit tag of class APPLICATION is written and refused |
| Reencoding.SetRefused | egg/egg-asn1x.c:1002-1009 | a set that is written is refused when its members are not in the order of their tags |
| Reencoding.SetOrderRefused | egg/egg-asn1x.c:1002-1009 | there is such a set |
| Reencoding.ConstructedLost | egg/egg-asn1x.c:1129-1164 | there is a string that is accepted and for which nothing is written |
| Reencoding.InnerTagIgnored | egg/egg-asn1x.c:1174-1183 | an octet string is taken for an integer |
| DefinitionTable.FirstChild | egg/egg-asn1x.c:4127-4138 | the first child of the tree an entry stands for |
| DefinitionTable.NextSibling | egg/egg-asn1x.c:4099-4124 | the next sibling, behind the entries of its subtree |
| DefinitionTable.VisitChildren | egg/egg-asn1x.c:4099-4138 | first child and next sibling visit exactly the children, in order |
| DefinitionTable.Create | egg/egg-asn1x.c:4393-4422 | one pass over the preorder table rebuilds the tree and stops behind it |
| ObjectIds.WriteObjectId | egg/egg-asn1x.c:2514-2569 | the loop writes what the specification says and strictly fewer octets than the text has characters |
| ObjectIds.WrittenShorter | egg/egg-asn1x.c:3632-3636 | so a buffer of the text's length is never full |
| ObjectIds.ReadObjectId | egg/egg-asn1x.c:2456-2511 | the loop reads what the specification says |
| ObjectIds.OidRoundTrip | egg/egg-asn1x.c:2456-2569 | a canonical identifier that was written is read back if no later arc has a zero septet inside, and refused otherwise |
| ObjectIds.ReturnsExactly | egg/egg-asn1x.c:2456-2569 | any identifier is written and read back the same if and only if it is canonical and no later arc has a zero septet inside |
| ObjectIds.TextInjective | egg/egg-asn1x.c:2456-2511 | no two identifiers have the same text |
| ObjectIds.ZeroSeptetRefused | egg/egg-asn1x.c:2486-2493 | 1.2.16384 is written and not read |
| ObjectIds.SecondArcTooLarge | egg/egg-asn1x.c:2541-2546 | 1.40.1 is written, and not read back as that |
| ObjectIds.AtoinDecimal | egg/egg-asn1x.c:181-191 | decimal digits of an int are read as that int |
| Decimals.Decode | egg/egg-decimal.c:31-103 | the result is the minimal big-endian form of the number the text stands for; none for text that is empty or no number |
| Decimals.Halve | egg/egg-decimal.c:83-90 | one pass halves the digits in place |
| Decimals.HalvedVal | egg/egg-decimal.c:83-90 | halving and the bit that comes out are quotient and remainder by two |
| Decimals.RoomForBits | egg/egg-decimal.c:74-80 | the bits never leave the buffer |
| Decimals.Finished | egg/egg-decimal.c:93-97 | the octets from the first that is not zero on are the result |
| KeyDerivation.Hkdf | egg/egg-hkdf.c:34-110 | all octets of the output are written, the first of T(1), T(2), ... of section 2.3 of RFC 5869 |
| KeyDerivation.Pbkdf2 | egg/egg-symkey.c:524-599 | the output is the first octets of T_1, T_2, ... of section 5.2 of RFC 8018 |
| KeyDerivation.Pbkdf2Block | egg/egg-symkey.c:564-589 | one block is the exclusive or of the chain |
| KeyDerivation.IntOctets | egg/egg-symkey.c:572-577 | the number of a block is four octets, most significant first, 0, 0, 0, 1 for the first block |
| KeyDerivation.XorFromFirst | egg/egg-symkey.c:564-589 | starting from zeros is starting from U_1 |
| KeyDerivation.GenerateSimple | egg/egg-symkey.c:104-207 | key and iv together are the first octets of the chained digests |
| WireFormat.FindsItem | egg/egg-buffer.c:243-582 | each get finds what the matching add appends and leaves off behind it |
| WireFormat.ArrayOctets | egg/egg-buffer.c:393-406 | no string is four octets 255, others are their length in four octets and then theirs, below 2^31 - 1 of them |
| WireFormat.ReadBack | egg/egg-buffer.c:243-582 | the gets for any items return them all, from any place on |
| WireBuffer.Buffer.Reserve | egg/egg-buffer.c:169-199 | the contents are kept, room is made exactly when it is there or granted, with at most twice the request |
| WireBuffer.Buffer.Reset | egg/egg-buffer.c:92-99 | the contents are gone, and all memory is cleared |
| WireBuffer.Buffer.Append | egg/egg-buffer.c:222-230 | the octets are appended exactly when there is room for them |
| WireBuffer.Buffer.AddUint16 | egg/egg-buffer.c:274-281 | two octets, most significant first |
| WireBuffer.Buffer.AddUint32 | egg/egg-buffer.c:330-337 | four octets |
| WireBuffer.Buffer.AddUint64 | egg/egg-buffer.c:370-375 | eight octets, or the first four of them on failure |
| WireBuffer.Buffer.AddByteArray | egg/egg-buffer.c:394-406 | a length and the octets, or the length that stands for none |
| WireBuffer.Buffer.AddString | egg/egg-buffer.c:457-469 | as an array; a string too long is refused without being counted |
| WireBuffer.Buffer.AddStringv | egg/egg-buffer.c:516-537 | a count and each string |
| WireBuffer.Buffer.GetUint32 | egg/egg-buffer.c:353-367 | the number that stands there, or a counted failure |
| WireBuffer.Buffer.GetByteArray | egg/egg-buffer.c:421-454 | the array that stands there, none, or a counted failure |
| WireBuffer.Buffer.GetString | egg/egg-buffer.c:472-513 | a string without a zero octet |
| WireBuffer.Buffer.GetStringv | egg/egg-buffer.c:540-582 | the vector that stands there |
| WireBuffer.Buffer.AddItems | egg/egg-buffer.c:222-537 | items of any types are appended one after the other, all of them when the allocator does not refuse |
| WireBuffer.Buffer.GetItem | egg/egg-buffer.c:243-582 | the get for the type of an item tells whether the item stands there, and where it ends |
| WireBuffer.Buffer.AddAndGet | egg/egg-buffer.c:222-582 | whatever items are added, one get after the other returns them all and the last ends where the buffer does |
| Enumeration.KeptCount | gck/gck-enumerator.c:512-557 | as many objects are kept as were found if and only if all can be read |
| Enumeration.ModulesFound | gck/gck-enumerator.c:214-476 | what the searches find, without what is dropped, are the objects of the modules, slot by slot |
| Enumeration.OfferedExactly | gck/gck-enumerator.c:250-476 | the objects of the modules are exactly those that a search finds in a session of a slot whose token is there and asked for, with their attributes |
| Enumeration.TakenAndLeft | gck/gck-enumerator.c:498-563 | what a run takes and what it leaves are all there is, and it leaves something only with enough taken |
| Enumeration.RunKeeps | gck/gck-enumerator.c:803-808 | a run moves nothing that is ahead, and gets what is wanted or all there is when no object is dropped |
| Enumeration.NoneTaken | gck/gck-enumerator.c:498-557 | a run for one object gets none if and only if none is found or the first one cannot be read |
| Enumeration.OwnsExactly | gck/gck-enumerator.c:140-211 | references released one after the other are those held |
| Enumerators.State.Rewind | gck/gck-enumerator.c:150-162 | going back releases what later states added and nothing else: what the state it goes back to has stays, with its references |
| Enumerators.State.ModulesForward | gck/gck-enumerator.c:214-247 | the next module's slots; nothing ahead moves |
| Enumerators.State.SlotsForward | gck/gck-enumerator.c:250-322 | the next slot whose token matches; nothing ahead moves |
| Enumerators.State.SlotForward | gck/gck-enumerator.c:325-365 | a session, or back to the slots |
| Enumerators.State.FindForward | gck/gck-enumerator.c:413-476 | all objects of the search are queued, each with a reference on the session |
| Enumerators.State.ResultsForward | gck/gck-enumerator.c:479-564 | exactly which objects become results, and when it goes back for more |
| Enumerators.State.Step | gck/gck-enumerator.c:803-808 | every step keeps what the run will come to, the resources and the references, and comes nearer to the end |
| Enumerators.State.Run | gck/gck-enumerator.c:803-808 | the loop ends, with exactly the results that a run takes and exactly the rest it leaves, objects dropped or not |
| Enumerators.State.Cleanup | gck/gck-enumerator.c:165-211 | no reference is left |
| Enumerators.State.ForSession | gck/gck-enumerator.c:758-783 | its state may be entered if and only if there is a token info |
| EnumeratorCalls.ExtractResult | gck/gck-enumerator.c:1088-1115 | the first result waiting in the chain |
| EnumeratorCalls.ExtractResults | gck/gck-enumerator.c:1118-1137 | as many as wanted if they are there, in order |
| EnumeratorCalls.Perform | gck/gck-enumerator.c:792-817 | states run in order, each for what is still wanted, until there is enough, for any devices and results left over or not |
| EnumeratorCalls.Next | gck/gck-enumerator.c:1154-1183 | the first object at hand, or the one that a run brings |
| EnumeratorCalls.NextN | gck/gck-enumerator.c:1203-1241 | the objects at hand, and then those that a run for the missing ones brings |
| EnumeratorCalls.NextAsync | gck/gck-enumerator.c:1257-1320 | the call in two halves, cancelled or not |
| EnumeratorCalls.AllCalls | gck/gck-enumerator.c:1154-1241 | any calls one after the other |
| EnumeratorCalls.RunPartsKeep | gck/gck-enumerator.c:792-817 | running a chain loses nothing, adds nothing and moves nothing |
| EnumeratorCalls.RunPartsFair | gck/gck-enumerator.c:792-817 | when no state drops objects it gets what is wanted or all there is, in order |
| EnumeratorCalls.NextConserves | gck/gck-enumerator.c:1203-1241 | whatever devices answer, no object is lost, none is returned twice, and no more than wanted |
| EnumeratorCalls.NextKeepsPromise | gck/gck-enumerator.c:1185-1202 | when no state drops objects, a call returns the next ones in order, exactly as many as wanted or as are left |
| EnumeratorCalls.RanPromised | gck/gck-enumerator.c:1292-1320 | so does the call in two halves, when it is not cancelled |
| EnumeratorCalls.NextReturnsNone | gck/gck-enumerator.c:1154-1183 | a call for one object returns none if and only if none is at hand and every state finds none, or one that cannot be read first |
| EnumeratorCalls.NextMisses | gck/gck-enumerator.c:1139-1183 | it does so although an object is ahead if and only if one is found behind such a first one |
| EnumeratorCalls.ObjectMissed | gck/gck-enumerator.c:1154-1183 | there is such a session |
| EnumeratorCalls.CallsConserve | gck/gck-enumerator.c:1154-1241 | over any calls no object is lost and none is returned twice |
| EnumeratorCalls.CallsInOrder | gck/gck-enumerator.c:1154-1241 | when no state drops objects, any calls together return a prefix of what is ahead in order; an empty answer means exhausted |
| EnumeratorCalls.CallsOffered | gck/gck-enumerator.c:1154-1241 | any calls on any chain return only such objects, and all of them once nothing is left and nothing was dropped |
| EnumeratorCalls.CallsOnModules | gck/gck-enumerator.c:1154-1241 | so do calls on a new enumerator over some modules, and in their order |
| CheckOut.CheckOut | gck/gck-enumerator.c:1006-1059 | the states are taken and linked, each pointing back at its enumerator |
| CheckOut.CheckIn | gck/gck-enumerator.c:1062-1085 | the states of a chain are put back and unlinked |
| CheckOut.Borrow | gck/gck-enumerator.c:1006-1085 | afterwards all is as before if and only if no idle enumerator stands behind a busy one |
| CheckOut.NextObjects | gck/gck-enumerator.c:1154-1241 | a whole call takes the states, runs them as `EnumeratorCalls` says and puts them back, each in its enumerator |
| CheckOut.LoseThird | gck/gck-enumerator.c:1006-1059 | the state behind a busy enumerator is gone |
| CheckOut.StateLost | gck/gck-enumerator.c:1006-1059 | there are such enumerators |
| Attributes.AliveWhileUsed | gck/gck-attributes.c:119-149 | a value is alive if and only if some attribute of some builder or set points at it |
| Attributes.FindAllSet | gck/gck-attributes.c:1054-1064 | after setting all, each kind is found with the last attribute of its kind, other kinds as before |
| Attributes.NothingLeftOver | gck/gck-attributes.c:2378-2405 | references left over are none if and only if no attribute had a value |
| SharedValues.Heap.BuilderClear | gck/gck-attributes.c:332-338 | the value is given up, every count is right again |
| SharedValues.Heap.BuilderClearOrPush | gck/gck-attributes.c:356-370 | the first attribute of the kind, emptied, or a new one |
| SharedValues.Heap.BuilderCopy | gck/gck-attributes.c:373-393 | the copy shares the value, also when it replaces one that shared it |
| SharedValues.Heap.AddData | gck/gck-attributes.c:491-513 | a new attribute with octets of its own, empty or invalid |
| SharedValues.Heap.SetData | gck/gck-attributes.c:533-555 | it replaces the first of its kind |
| SharedValues.Heap.AddAll | gck/gck-attributes.c:852-862 | all attributes of a set are appended |
| SharedValues.Heap.SetAll | gck/gck-attributes.c:1054-1064 | all attributes of a set are set |
| SharedValues.Heap.Steal | gck/gck-attributes.c:1291-1315 | the attributes move to a new set, no count changes |
| SharedValues.Heap.RefSink | gck/gck-attributes.c:2276-2288 | a floating reference becomes the caller's |
| SharedValues.Heap.Unref | gck/gck-attributes.c:2299-2317 | the last reference gives up the set's values, and only those |
| SharedValues.Heap.Clear | gck/gck-attributes.c:1361-1379 | the builder gives up its values |
| SharedValues.Heap.PrepareIn | gck/gck-attributes.c:2347-2375 | all attributes are emptied |
| SharedValues.Heap.CommitIn | gck/gck-attributes.c:2378-2405 | every attribute with a length gets room; no value leaks if and only if there was none |
| SharedValues.Heap.Retrieve | gck/gck-enumerator.c:527-536 | emptying attributes, writing any lengths and making room leaks nothing |
| SharedValues.ValueLeaks | gck/gck-attributes.c:2378-2405 | an attribute added with a value and committed in leaves a count that is not right |
| Calls.AliveWhileQueued | gck/gck-call.c:112-172 | a call in the pool, in the queue or with a thread is not finalized |
| Calls.OnePlaceOnly | gck/gck-call.c:112-172 | a call is in one place at a time, and in none when it is done |
| Calls.FinalizedIsDone | gck/gck-call.c:226-248 | a finalized call was done |
| Calls.CalledBack | gck/gck-call.c:145-154 | a call is called back exactly once if it is done and somebody waits for it, and never otherwise |
| Calls.FinalizedCalledBack | gck/gck-call.c:226-248 | whoever waited for a call that is finalized was called back |
| Calls.NotStuck | gck/gck-call.c:158-172 | some thread can go on if and only if something is under way |
| Calls.OutOfEnergy | gck/gck-call.c:112-172 | when nothing is left to do every call is done |
| Calls.RunLength | gck/gck-call.c:112-172 | a run is no longer than the calls there are, those made and the results refused allow |
| Dispatch.CallClass.Go | gck/gck-call.c:501-502 | a prepared call goes to the thread pool |
| Dispatch.CallClass.AsyncGo | gck/gck-call.c:494-503 | one completed call is processed before that |
| Dispatch.CallClass.ProcessCompleted | gck/gck-call.c:157-172 | the first completed call is done, or waits to be performed again; the thread is as before |
| Dispatch.CallClass.StartWork | gck/gck-call.c:112-124 | a thread takes the first call that waits |
| Dispatch.CallClass.Prepare | gck/gck-call.c:475-491 | a new call has one reference, its maker's |
| Dispatch.CallClass.Short | gck/gck-call.c:529-539 | a prepared call is completed without being performed |
| Dispatch.CallClass.FinishWork | gck/gck-call.c:112-124 | the result is stored and the call queued, its reference with it |
| Dispatch.CallClass.Pop | gck/gck-call.c:158-172 | the first completed call |
| Dispatch.CallClass.Decide | gck/gck-call.c:127-155 | cancelled or accepted calls are done and answered once, others are to be performed again with a reference more |
| Dispatch.CallClass.Push | gck/gck-call.c:145-147 | the call is in the pool again |
| Dispatch.CallClass.Release | gck/gck-call.c:166-168 | the reference that came with the call goes, the last one finalizes it |

## Left out

- Locks, valgrind marks, `pool_version`, the fallback allocator, `mlock` and page counts: the environment of secure
  memory. That a pointer belongs to no block is not modelled; every pointer given is one that was handed out.
- The blocks of the list are a sequence, not linked through `next`.
- Blocks take their records from an abstract pool whose hand-outs and returns they account for; that the pool is the
  one of `MetadataPool` is not part of the model.
- Tlvs.RoundTrip: indefinite lengths and tags or lengths of 2^31 and more are not covered.
- DerParser.ParseLengthAt: rejects the indefinite form, which is BER and not DER and which the code reads.
- DerParser.ParseClsTagLen: rejects headers with an indefinite length.
- DerParser.ParseDerTag: rejects trees with indefinite lengths, which the code reads up to the end of contents.
- DerParser.ParseDerData: rejects data with indefinite lengths.
- DerWriter.UnparseDer: requires tags below 2^56, the septets its buffer has room for.
- Schema nodes and TLV trees are values; failure strings, validation, time parsing and the typed getters and setters of
  nodes are not modelled.
- Reencoding.DecodedBack: the elements of a SET OF are written in the order of the node; the code sorts their octets.
- Encodings.ContainerOctets: so are they there.
- SharedValues.Heap.BuilderCopy: the attribute that is copied stands in another holder than the builder.
- Login, interaction, URI parsing, object types and the mutex of the enumerator; a session handle is never zero.
- WireBuffer.Buffer.Reserve: sizes do not wrap around at the width of `size_t`.
- WireBuffer.Buffer.GetString: the allocator of the result never refuses.
- `egg-hex.c`, `egg-padding.c` and `egg-armor.c`, `generate_pkcs12`, Diffie-Hellman, DN printing,
  slots, sessions and passwords: easier round trips, tables or wrappers.
