# Codecs and their data structures, verified

This project models the codecs that ship with the engine and proves that they do what they are for.

* **Printing doubles** (`crossover/lua_cjson/dtoa.c`, `g_fmt.c`): the little-endian bignums, the shared
  list of powers of five, the long division that makes the digits, and the layout as text. The main results are
  `FixedDigits.Mode2`: the digits made on the bignum path are the double, correctly rounded at the last of them, ties to even; and
  `FormatDouble.Format`: so is the number that the printed text reads back as, in at most 21 characters.
* **Protobuf** (`crossover/lua_pb.h`): the hash table with its displaced entries and relative links, the
  interned names and the cache in front of them, the page pool, the two indexes of a message type, the unrolled
  varint readers, group skipping, and the output buffer. Main results: every look-up in any run of table operations
  answers as a finite map does, but for key 0 once another key was removed (`PbTableRuns.Run`, `PbTable.Table.Set`);
  a skip is clean exactly where an encoded value is next (`Groups.CleanIffEncoded`); where a group ends depends on what
  follows it exactly where a value in it lacks bytes (`GroupExtent.ExtentSettledIff`); a cached name lookup is the
  uncached one whatever the cache holds (`Names.NameTable.Name`).
* **The Lua serializer** (`crossover/lua_seri.c`): packing succeeds exactly where no value is nested too deep, and
  unpacking then gives the same list of values, for any border, any traversal order and through the 128-byte blocks
  (`Seri.Pack`, `Seri.Unpack`).
* **JSON** (`crossover/lua_cjson/lua_cjson.c`, `strbuf.c`, `strbuf.h`): encoding succeeds exactly where a value can be
  encoded, and decoding gives it back exactly where its tables are sequences or have string keys (`JsonEncode.Encode`,
  `JsonDecode.Decode`). The unchecked appends stay in their buffers.
* **BSON** (`engine/lua_bson.cpp`): an encoded document decodes to the same map (`BsonEncode.Encode`), indexing follows
  the boundaries of decoding, and a replacement in place is an update of the decoded map (`BsonDocument.Document.Replace`).

One module per file. `Arith`, `ByteNumbers`, `Doubles` and `Reading` hold shared vocabulary. What the C code changes in place is a
class or an array here, and the methods on it are proved against functions on values; where a parser recurses on a
cursor, the functions (`SeriFormat`, `JsonText`, `BsonFormat`, `Groups`) say what any bytes mean, and the methods are
proved to compute them, the errors included. What these functions themselves mean is said in plain numbers and bytes by
`SeriMeaning`, `JsonMeaning`, `BsonTypes` and `WireTypes`.

Where the code does not keep a property in full, the exact condition is proved:

* `pb_resizetable` inserts empty slots under key 0, so an entry removed earlier can overwrite the payload of key 0 when the
  table grows. `PbTable.Table.Set` says exactly when it does, and `PbTableRuns.RemovalLosesKeyZero` is a run from a new
  table in which it happens. All other keys, and key 0 while only itself was removed, answer as in a map.
* `pb_readgroup` ignores a value that cannot be skipped and reads a tag in the middle of it, so what follows a group can
  change where it ends (`Groups.FailedSkipIsPassedOver`). The extent is the same whatever follows if and only if on the way to
  the end tag, inner groups included, no value of fixed or announced length lacks bytes (`GroupExtent.ExtentSettledIff`).
* `lreplace` cuts an integer to 32 bits without a check, and rounds one to a double (`Bson.StoredIff`, `Doubles.ConvertedIff`).
* The BSON encoder writes keys with a zero byte. A document below the size limit whose tagged strings are well formed is given
  back by decoding exactly where no key at any depth holds one (`BsonEncode.Encode`).
* A JSON text gives back a table with holes, or with keys of both kinds, changed (`JsonEncode.FaithfulIff`).

## Model

| member | source | states |
|---|---|---|
| Bignum.MultAdd | crossover/lua_cjson/dtoa.c:617-672 | in place, the number becomes b·m+a, in a larger Bigint if the carry needs one; no 64-bit overflow |
| Bignum.Mult | crossover/lua_cjson/dtoa.c:810-918 | a fresh Bigint that is the product, row by row; its leading zeros are dropped |
| Bignum.MulAddWords | crossover/lua_cjson/dtoa.c:640-660 | words and carry together are the old words times m plus a |
| Bignum.AddRow | crossover/lua_cjson/dtoa.c:851-865 | one row adds a·y at place j and touches nothing above it |
| Bignum.Cmp | crossover/lua_cjson/dtoa.c:1038-1071 | its sign is the order of the two values |
| Bignum.Diff | crossover/lua_cjson/dtoa.c:1073-1165 | the absolute difference, and the sign says which was larger |
| Bignum.QuoRem | crossover/lua_cjson/dtoa.c:2124-2246 | with the divisor's top word in [2^27, 2^28), so that its increment fits 32 bits: returns floor(b/S) and leaves b mod S |
| Bignum.QuotientEstimate | crossover/lua_cjson/dtoa.c:2154-2154 | the one-word estimate is the quotient or one less |
| Bignum.ReduceWords | crossover/lua_cjson/dtoa.c:2165-2202 | subtracts q·S in one pass with two carries, and no borrow is left |
| BignumShift.HiZeroBits | crossover/lua_cjson/dtoa.c:711-744 | the shift that brings the top bit of a word to bit 31 |
| BignumShift.LoZeroBits | crossover/lua_cjson/dtoa.c:746-792 | divides out exactly the largest power of two |
| BignumShift.LShift | crossover/lua_cjson/dtoa.c:979-1037 | a fresh Bigint that is b·2^k |
| BignumShift.RShift | crossover/lua_cjson/dtoa.c:1679-1711 | in place, floor(b/2^k), for every k |
| BignumShift.Increment | crossover/lua_cjson/dtoa.c:1644-1674 | b+1, in a larger Bigint if all words overflow |
| BignumShift.AnyOn | crossover/lua_cjson/dtoa.c:1713-1741 | whether b mod 2^k is not zero |
| PowersOfFive.Powers.Pow5Mult | crossover/lua_cjson/dtoa.c:920-977 | b·5^k for every k; the shared list only grows and node i stays 625^(2^i) |
| PowersOfFive.Powers.Grow | crossover/lua_cjson/dtoa.c:960-973 | the next node is the square of the last |
| PowersOfFive.Square5Next | crossover/lua_cjson/dtoa.c:960-973 | squaring 5^(4·2^i) gives the next entry |
| Decimal.RoundHalfEvenNearest | crossover/lua_cjson/dtoa.c:4306-4334 | the rounding used as specification is the nearest integer, and even at a tie |
| Decimal.RoundHalfEvenCross | crossover/lua_cjson/dtoa.c:4157-4173 | equal fractions are rounded alike |
| Dtoa.D2B | crossover/lua_cjson/dtoa.c:1278-1409 | b·2^e is the significand in its unit, for normal and subnormal doubles, and bits is its width |
| Dtoa.DShift | crossover/lua_cjson/dtoa.c:2111-2122 | the shift after which the top word of the divisor is in [2^27, 2^28) |
| Dtoa.AlignedTop | crossover/lua_cjson/dtoa.c:2111-2122 | an aligned value has such a top word, which is what quorem requires |
| DigitLoop.Generate | crossover/lua_cjson/dtoa.c:4289-4302 | the digits so far and the remainder make up the dividend; stops when the remainder is zero |
| DigitLoop.RoundOff | crossover/lua_cjson/dtoa.c:4320-4328 | adds one in the last place through any run of 9s, and says when it carries out |
| DigitLoop.TrimZeros | crossover/lua_cjson/dtoa.c:4329-4335 | the shortest digits of the same value |
| DigitLoop.Digits | crossover/lua_cjson/dtoa.c:4289-4335 | for S ≤ b < 10·S: at most ilim digits, first and last not zero, whose value is b/S rounded half to even at digit ilim |
| DigitLoop.DividedRounds | crossover/lua_cjson/dtoa.c:4306-4320 | comparing twice the remainder with S, with the parity of the last digit at a tie, decides the rounding |
| FixedDigits.Prepare | crossover/lua_cjson/dtoa.c:4095-4156 | the two bignums are in the ratio of the double to 10^k |
| FixedDigits.CorrectEstimate | crossover/lua_cjson/dtoa.c:4157-4173 | an estimate of k that is one too large is put right |
| FixedDigits.Mode2 | crossover/lua_cjson/dtoa.c:3653-4360 | on the bignum path, with the exponent estimate right or one too large: at most ndigits digits and a decimal point that are the double rounded half to even at digit ndigits |
| FixedDigits.EstimateTooLarge | crossover/lua_cjson/dtoa.c:4157-4165 | b < S exactly where k is one too large |
| GFmt.Layout | crossover/lua_cjson/g_fmt.c:56-109 | an infinity or NaN is copied behind its sign; else reading the text back gives the digits times their power of ten and the sign, in all three layouts; which layout it is depends on the number and the precision alone, no zeros lead or trail that need not, and it is at most 21 characters for precision up to 14 |
| FormatDouble.DoubleDigits | crossover/lua_cjson/dtoa.c:3736-3767 | the special cases: sign, infinity, NaN and zero, and otherwise the rounded digits, with a point within 400 places |
| FormatDouble.DoubleExponent | crossover/lua_cjson/dtoa.c:3770-3850 | the decimal exponent of every finite double is between -360 and 342, so it never is the mark of an infinity |
| FormatDouble.RoundedReads | crossover/lua_cjson/g_fmt.c:56-109 | digits and layout together: the text's number is the double rounded half to even to the precision |
| FormatDouble.Format | crossover/lua_cjson/g_fmt.c:41-116 | with digits from the bignum path, the text of every finite double reads back as that double, rounded half to even to as many digits as the precision, with its sign; it has an exponent exactly where the number is below 10^-4 or at least 10^precision; at most 21 characters for precision up to 14 |
| Doubles.NextDouble | crossover/lua_cjson/dtoa.c:1278-1409 | from each double to the next it is one unit, across the subnormals and every change of exponent |
| GFmt.LayoutExponent | crossover/lua_cjson/g_fmt.c:66-91 | the exponential layout reads back as its digits and exponent |
| GFmt.LayoutSmall | crossover/lua_cjson/g_fmt.c:92-99 | so does the layout with zeros after the point |
| GFmt.LayoutPlain | crossover/lua_cjson/g_fmt.c:100-108 | and the plain one, where zeros may be added |
| GFmt.BelowIff | crossover/lua_cjson/g_fmt.c:66-66 | the point is at most at place k exactly where the number is below 10^k |
| GFmt.NumberInBytes | crossover/lua_cjson/g_fmt.c:56-109 | what the independent reader takes: minus sign, digits, point and digits, exponent, in bytes |
| GFmt.ExponentReads | crossover/lua_cjson/g_fmt.c:74-91 | the exponent digits, written from the largest power down, are read back |
| PbTable.PlaceOk | crossover/lua_pb.h:891-896 | a key put at its empty main position leaves every chain and key as it should be |
| PbTable.ChainOk | crossover/lua_pb.h:884-889 | so does a key put in a free slot and linked behind its main position |
| PbTable.DisplaceOk | crossover/lua_pb.h:876-883 | so does moving the entry that is not at its main position out of the way |
| PbTable.FullTable | crossover/lua_pb.h:868-920 | a table whose slots are all live but slot 0 holds a key for each of them |
| PbTable.Table.Get | crossover/lua_pb.h:922-933 | finds the entry of a key exactly where the map has it |
| PbTable.Table.Set | crossover/lua_pb.h:935-940 | the map gets the key with a zero payload if it was absent; every other payload stays, growth included; key 0 turns to zero exactly where the table grows over a hole |
| PbTable.Table.NewKey | crossover/lua_pb.h:868-897 | as much for an absent key, and terminates: after growing it grows no more |
| PbTable.Table.Insert | crossover/lua_pb.h:868-897 | grows exactly where there is no free slot and the main position is taken, which without deletions means that every slot but slot 0 is live; says which slots change otherwise and where lastfree goes, and what growth does to key 0 |
| PbTable.Table.Resize | crossover/lua_pb.h:899-920 | the same map in at least the requested size; key 0 loses its payload exactly where a removed entry leaves a hole |
| PbTable.Table.Store | crossover/lua_pb.h:1261-1279 | writing a payload updates that key alone |
| PbTable.Table.Clear | crossover/lua_pb.h:1282-1291 | emptying an entry removes that key alone, and its link stays for the others |
| PbTableRuns.Run | crossover/lua_pb.h:862-940 | in every run from an empty table each look-up answers as the finite map does then; for key 0 it may be zero instead, but only after another key was removed |
| PbTableRuns.RemovalLosesKeyZero | crossover/lua_pb.h:868-940 | a run from a new table in which growth after a removal loses what key 0 holds, whatever it is |
| PbTableRuns.TenGrows | crossover/lua_pb.h:872-878 | with slots 1 to 6 live and slot 7 given out but emptied, the search finds no free slot for key 10 and the table grows over a hole |
| Varint.ReadWrite | crossover/lua_pb.h:690-717 | a number written in fewer than k groups is read back, with exactly its length, whatever follows |
| Varint.WrittenIsRead | crossover/lua_pb.h:475-493 | so every 64-bit number survives |
| Varint.Slow | crossover/lua_pb.h:411-425 | value modulo 2^64 and length of the varint, or 0; or-ing seven bits at a time is adding them |
| Varint.Fallback32 | crossover/lua_pb.h:427-446 | the unrolled reader in wrapping 32-bit arithmetic agrees, and never indexes past the slice |
| Varint.Fallback64 | crossover/lua_pb.h:448-466 | so does the one with three 28-bit parts |
| Varint.Slice.ReadVarint32 | crossover/lua_pb.h:475-485 | whichever reader is chosen: the low 32 bits and the length; the cursor stays on failure |
| Varint.Slice.ReadVarint64 | crossover/lua_pb.h:487-493 | the same in 64 bits |
| Varint.Write32 | crossover/lua_pb.h:690-700 | the shortest encoding, in at most five bytes |
| Varint.Write64 | crossover/lua_pb.h:702-717 | the shortest encoding, in at most ten bytes |
| Groups.SkipVarint | crossover/lua_pb.h:583-589 | up to the first byte without a continuation bit; the cursor stays where there is none |
| Groups.SkipBytes | crossover/lua_pb.h:591-601 | a length and what it counts, or nothing |
| Groups.SkipValue | crossover/lua_pb.h:567-581 | takes what SkipLen says, for every tag, and restores the cursor on failure |
| Groups.ReadGroup | crossover/lua_pb.h:547-565 | the body up to the matching end tag; the mutual recursion terminates; the cursor is restored on failure |
| Groups.SkipsValue | crossover/lua_pb.h:567-581 | whatever follows, skipping takes exactly the encoding of a well-formed value |
| Groups.ScansBody | crossover/lua_pb.h:547-565 | whatever follows, the body of a well-formed group is found, nested groups included |
| Groups.Parse | crossover/lua_pb.h:567-581 | what a clean skip takes is the encoding of some well-formed value |
| Groups.CleanIffEncoded | crossover/lua_pb.h:547-581 | skipping is clean if and only if an encoded value of that type is next |
| Groups.CleanGroupExtends | crossover/lua_pb.h:547-565 | a group without a failed skip is found, and what follows it changes nothing |
| Groups.FailedSkipIsPassedOver | crossover/lua_pb.h:562-562 | a group whose extent depends on what follows it, because a failed skip is ignored |
| WireTypes.FixedWidths | crossover/lua_pb.h:567-581 | wire type 1 takes eight bytes and 5 takes four, or nothing; 4, 6 and 7 are never skipped |
| WireTypes.NumberSkipped | crossover/lua_pb.h:583-589 | wire type 0: a written number of any size is skipped exactly, whatever follows |
| WireTypes.ChunkSkipped | crossover/lua_pb.h:591-601 | wire type 2: a length and what it counts |
| WireTypes.ItemSkipped | crossover/lua_pb.h:567-581 | so every field value, groups in groups included, is skipped under the tag 8·number + type |
| WireTypes.InnerFound | crossover/lua_pb.h:547-565 | a group of such fields ends at the tag 8·number + 4, whatever follows |
| GroupExtent.ScanIsFirstEnd | crossover/lua_pb.h:547-565 | a group ends at the first end tag outside a value, and is found exactly where that tag has its number |
| GroupExtent.SettledExtends | crossover/lua_pb.h:547-581 | where no value on the way to that tag lacks bytes, more bytes do not move it |
| GroupExtent.Starved | crossover/lua_pb.h:547-581 | where one does, some bytes complete it and leave no end tag in what was there |
| GroupExtent.EndSettledIff | crossover/lua_pb.h:547-581 | so the first end tag, of whatever number, is independent of what follows if and only if no value lacks bytes |
| GroupExtent.ExtentSettledIff | crossover/lua_pb.h:547-581 | and so is the extent that is found |
| GroupExtent.CleanIsSettled | crossover/lua_pb.h:547-581 | a group without a failed skip meets this condition |
| GroupExtent.SettledNotClean | crossover/lua_pb.h:547-565 | a group with a failed skip that meets it too: an inner group with the wrong end tag |
| PbBuffer.Buffer.Prepare | crossover/lua_pb.h:719-735 | room for the bytes, the text kept; fails only beyond half the size limit |
| PbBuffer.Buffer.AddSlice | crossover/lua_pb.h:737-744 | appends all or nothing |
| PbBuffer.Buffer.AddLength | crossover/lua_pb.h:746-758 | what was written from len on gets its length in front |
| PbBuffer.PrefixedIsOneValue | crossover/lua_pb.h:746-758 | and is then skipped as one length-delimited value |
| Pool.SlotsDisjoint | crossover/lua_pb.h:834-838 | no two slots share a byte |
| Pool.SlotClearOfLinks | crossover/lua_pb.h:834-839 | no slot reaches into the word that links the pages |
| Pool.LastOffset | crossover/lua_pb.h:834-834 | the loop over a new page starts at its last slot |
| Pool.Pool.Alloc | crossover/lua_pb.h:828-845 | a slot that was not live, apart from every live one; free and live slots stay a partition |
| Pool.Pool.NewPage | crossover/lua_pb.h:831-842 | all slots of the page but the first become free, and the pages stay linked |
| Pool.Pool.Free | crossover/lua_pb.h:847-848 | a live slot goes to the front of the free list |
| Pool.Pool.Write | crossover/lua_pb.h:812-848 | whatever an owner writes into its object, the pool stays valid |
| Pool.Pool.FreePool | crossover/lua_pb.h:818-826 | every page is released once |
| Fields.NewReachable | crossover/lua_pb.h:1273-1278 | which fields a new one makes unreachable: those that only the overwritten entry had |
| Fields.DeletedReachable | crossover/lua_pb.h:1286-1289 | after a deletion the field is reachable by neither index, all others as before |
| Fields.MessageType.NewField | crossover/lua_pb.h:1257-1280 | both indexes get the field; exactly the fields that became unreachable are freed; fieldCount counts the reachable ones |
| Fields.MessageType.DelField | crossover/lua_pb.h:1282-1291 | removes what is this field, and frees it once if it was reachable |
| Fields.MessageType.DelType | crossover/lua_pb.h:1231-1255 | every reachable field is freed, none twice, in any order |
| Names.CalculateHash | crossover/lua_pb.h:984-991 | the loop computes the hash of the name from its end in steps |
| Names.HashSteps | crossover/lua_pb.h:984-991 | which bytes count, and how one changes the hash |
| Names.NameTable.GetName | crossover/lua_pb.h:1052-1063 | an entry with this name and hash, or there is none |
| Names.NameTable.Name | crossover/lua_pb.h:1090-1110 | whatever the cache holds, the entry of the name, or null where there is none |
| Names.NameTable.Lookup | crossover/lua_pb.h:1093-1094 | the same without a cache |
| Names.NameTable.Resize | crossover/lua_pb.h:993-1016 | the same entries, relinked one by one into the buckets of the new table |
| Names.NameTable.NewEntry | crossover/lua_pb.h:1018-1035 | one entry more, at its bucket, with its hash |
| Names.NameTable.DeleteEntry | crossover/lua_pb.h:1037-1050 | unlinks this entry alone |
| Names.NameTable.NewName | crossover/lua_pb.h:1073-1088 | the name is there once, with one reference more in 16 bits; fails only beyond 2^28 names |
| Names.NameTable.DelName | crossover/lua_pb.h:1065-1071 | one reference less, and the last takes the entry away |
| ByteNumbers.LeRoundTrip | engine/lua_bson.cpp:123-161 | a number in k little-endian bytes is read back |
| ByteNumbers.TwosRoundTrip | crossover/lua_seri.c:140-171 | a signed number survives exactly where it fits the width |
| SeriBlocks.WriteBlock.Push | crossover/lua_seri.c:62-82 | appends the bytes across as many blocks as it takes; every block but the last stays full |
| SeriBlocks.WriteBlock.Flatten | crossover/lua_seri.c:531-553 | walking the chain copies exactly the text |
| SeriBlocks.ReadBlock.Read | crossover/lua_seri.c:115-125 | the next bytes, or nothing if there are not enough |
| SeriMeaning.PlainBytes | crossover/lua_seri.c:11-30 | nil is the byte 0, false 1 and true 9 |
| SeriMeaning.OpaqueBytes | crossover/lua_seri.c:172-185 | a double is the byte 66 and its eight bytes, light userdata the byte 3 and its eight |
| SeriMeaning.IntegerInBytes | crossover/lua_seri.c:139-171 | the first byte and the bytes behind it for every 64-bit integer, in numbers |
| SeriMeaning.StringInBytes | crossover/lua_seri.c:187-210 | the first byte and the length bytes of every string, in numbers |
| SeriMeaning.HeaderInBytes | crossover/lua_seri.c:213-224 | up to 30 items the first byte counts them, else it is 254 and an integer follows |
| SeriMeaning.NaNInWords | crossover/lua_seri.c:431-462 | a key is refused exactly where its exponent is all ones and its fraction is not zero |
| SeriMeaning.Refused | crossover/lua_seri.c:464-518 | the first bytes that start no value |
| SeriMeaning.NestingLimit | crossover/lua_seri.c:293-299 | tables nested 33 deep can be packed, and no deeper |
| SeriFormat.IntegerParts | crossover/lua_seri.c:139-171 | every 64-bit integer is read back from the width that its type byte announces |
| SeriFormat.IntegerEncoded | crossover/lua_seri.c:139-171 | so an integer is decoded from its bytes whatever follows |
| SeriFormat.StringEncoded | crossover/lua_seri.c:187-210 | so is a string, short or with a length of two or four bytes |
| Seri.WbInteger | crossover/lua_seri.c:139-171 | pushes those bytes |
| Seri.WbString | crossover/lua_seri.c:187-210 | pushes those bytes |
| Seri.Rawlen | crossover/lua_seri.c:216-216 | promises no more than a border |
| Seri.TableEncoded | crossover/lua_seri.c:213-254 | items up to any border, then pairs in any order, then nil are one encoding of the table |
| Seri.WbTableArray | crossover/lua_seri.c:213-234 | writes the items, holes as nil, and fails only if one cannot be packed |
| Seri.WbTableHash | crossover/lua_seri.c:236-254 | writes the other pairs in any order, and succeeds exactly where all can be packed |
| Seri.PackOne | crossover/lua_seri.c:293-337 | writes an encoding of the value exactly where nothing in it is unsupported or deeper than 32 tables |
| Seri.Pack | crossover/lua_seri.c:339-346 | a stream that unpacks to the same values, if and only if all can be packed |
| Seri.UnpackTable | crossover/lua_seri.c:431-462 | reads what DecodeTable says, errors included |
| Seri.UnpackOne | crossover/lua_seri.c:520-529 | reads what DecodeOne says |
| Seri.Unpack | crossover/lua_seri.c:555-607 | the values of any stream, or an error |
| StringBuffer.StrBuf.CalculateNewSize | crossover/lua_cjson/strbuf.c:139-164 | a size that holds the text and a terminator: doubled as often as needed, or exact to shrink |
| StringBuffer.StrBuf.Resize | crossover/lua_cjson/strbuf.c:169-185 | keeps the text |
| StringBuffer.StrBuf.EnsureEmptyLength | crossover/lua_cjson/strbuf.h:97-101 | room for len bytes, never by shrinking |
| StringBuffer.StrBuf.AppendCharUnsafe | crossover/lua_cjson/strbuf.h:124-127 | appends in place where there is room |
| StringBuffer.StrBuf.AppendMemUnsafe | crossover/lua_cjson/strbuf.h:136-140 | appends in place where there is room |
| StringBuffer.StrBuf.AppendString | crossover/lua_cjson/strbuf.c:187-203 | appends all, and does not reallocate where there is room |
| JsonString.EscapedBack | crossover/lua_cjson/lua_cjson.c:483-507 | reading the escape of a byte gives the byte |
| JsonString.QuotedBack | crossover/lua_cjson/lua_cjson.c:946-1004 | any bytes survive quoting, whatever follows the closing quote |
| JsonString.Quoted | crossover/lua_cjson/lua_cjson.c:492-497 | at most 6·len+2 bytes |
| JsonString.StringBody | crossover/lua_cjson/lua_cjson.c:946-1004 | a decoded string is shorter than what it was read from |
| JsonString.UnicodeEscape | crossover/lua_cjson/lua_cjson.c:880-936 | fewer bytes than the escape has; a surrogate pair is one scalar value, a lone surrogate an error |
| JsonString.Utf8Back | crossover/lua_cjson/lua_cjson.c:836-869 | the code point can be read back from its UTF-8 bytes |
| JsonString.Utf8Shape | crossover/lua_cjson/lua_cjson.c:836-869 | lead and continuation bytes as section 3 of RFC 3629 has them |
| JsonMeaning.ScalarOfPair | crossover/lua_cjson/lua_cjson.c:895-921 | the surrogate pair of a code point gives that code point |
| JsonMeaning.PairMeaning | crossover/lua_cjson/lua_cjson.c:880-936 | the two escapes of a pair in a string are read as UTF-8 that denotes its code point |
| JsonMeaning.UnitMeaning | crossover/lua_cjson/lua_cjson.c:880-936 | so is the escape of any code unit that is not a surrogate |
| JsonMeaning.LoneSurrogate | crossover/lua_cjson/lua_cjson.c:895-912 | a surrogate alone is an error |
| JsonMeaning.LetterRead | crossover/lua_cjson/lua_cjson.c:454-463 | the eight letters behind a backslash in numbers; any other is an error |
| JsonMeaning.EscapesWritten | crossover/lua_cjson/lua_cjson.c:173-207 | how each of the 256 bytes is written |
| JsonString.ScalarUnique | crossover/lua_cjson/lua_cjson.c:895-921 | different surrogate pairs are different scalar values |
| JsonMeaning.WordsInBytes | crossover/lua_cjson/lua_cjson.c:1135-1150 | the bytes of true, false and null |
| JsonMeaning.SpaceSkipped | crossover/lua_cjson/lua_cjson.c:1080-1100 | the four bytes of white space are passed over |
| JsonMeaning.NoToken | crossover/lua_cjson/lua_cjson.c:1080-1157 | the bytes that start no token |
| JsonMeaning.PrefixedRead | crossover/lua_cjson/lua_cjson.c:1057-1074 | hexadecimal digits behind 0x and octal digits behind 0 are read back |
| JsonMeaning.OutOfRange | crossover/lua_cjson/lua_cjson.c:1057-1074 | the digits of any integer are read as it, or as the nearest 64-bit one |
| JsonPieces.StrtollBack | crossover/lua_cjson/lua_cjson.c:1057-1074 | the decimal text of any 64-bit integer is read back, its zero as octal included |
| JsonPieces.DecimalLength | crossover/lua_cjson/lua_cjson.c:612-620 | and fits the room that is reserved for it |
| JsonPieces.StringParses | crossover/lua_cjson/lua_cjson.c:483-507 | a quoted string is one value |
| JsonPieces.ArrayParses | crossover/lua_cjson/lua_cjson.c:585-604 | items with commas in brackets are read back as the table of these items |
| JsonPieces.ObjectParses | crossover/lua_cjson/lua_cjson.c:660-701 | members with commas in braces are read back as the table of these members |
| JsonPieces.WholeText | crossover/lua_cjson/lua_cjson.c:1322-1360 | a text that is one value is decoded as it |
| JsonEncode.AppendString | crossover/lua_cjson/lua_cjson.c:483-507 | appends the quoted string; every unchecked append has room |
| JsonEncode.ArrayLength | crossover/lua_cjson/lua_cjson.c:513-554 | in any order of keys: the largest key of an array, -1 for an object, a failure exactly for a sparse array |
| JsonMeaning.SequenceEncoded | crossover/lua_cjson/lua_cjson.c:513-554 | every sequence whose items can be encoded is encoded, within the depth |
| JsonMeaning.SparseRefused | crossover/lua_cjson/lua_cjson.c:544-552 | a table of positive integer keys, the largest n, is refused if and only if n is above 10 and above twice the number of its entries |
| JsonMeaning.ObjectEncoded | crossover/lua_cjson/lua_cjson.c:660-701 | any other table is refused if and only if a key is neither a string nor an integer |
| JsonMeaning.KeyWritten | crossover/lua_cjson/lua_cjson.c:672-690 | a string key is written as it is, an integer key as text that is read back as it |
| JsonMeaning.NestingEncoded | crossover/lua_cjson/lua_cjson.c:556-576 | tables nested 1000 deep are encoded, and no deeper |
| JsonMeaning.NestingDecoded | crossover/lua_cjson/lua_cjson.c:1188-1199 | and so are texts decoded |
| JsonMeaning.TextEnds | crossover/lua_cjson/lua_cjson.c:1350-1356 | more than one value in a text is an error; a zero byte ends it |
| JsonEncode.AppendArray | crossover/lua_cjson/lua_cjson.c:585-604 | items 1 to the largest key, holes as null; succeeds exactly where all entries can be encoded |
| JsonEncode.AppendObject | crossover/lua_cjson/lua_cjson.c:660-701 | members in any order of keys; succeeds exactly where all keys and entries can be encoded |
| JsonEncode.AppendData | crossover/lua_cjson/lua_cjson.c:704-742 | writes a text that reads back as what can be read back of the value |
| JsonEncode.FaithfulIff | crossover/lua_cjson/lua_cjson.c:513-742 | what is read back is the value itself if and only if its tables are sequences or string-keyed and it has no nil |
| JsonEncode.Encode | crossover/lua_cjson/lua_cjson.c:744-773 | a text exactly where the value can be encoded; decoding it gives the value back exactly where it is faithful; an empty table is {} |
| JsonDecode.Parser.AppendUnicodeEscape | crossover/lua_cjson/lua_cjson.c:880-936 | appends what UnicodeEscape says, and never reads behind the terminating zero |
| JsonDecode.Parser.NextStringToken | crossover/lua_cjson/lua_cjson.c:946-1004 | the string that StringBody says; unchecked appends stay in a buffer as large as the text |
| JsonDecode.Parser.NextToken | crossover/lua_cjson/lua_cjson.c:1080-1157 | the token at the cursor, with the cursor behind it |
| JsonDecode.Parser.ProcessValue | crossover/lua_cjson/lua_cjson.c:1291-1320 | the value that starts with the token; the depth is as before |
| JsonDecode.Parser.ParseObjectContext | crossover/lua_cjson/lua_cjson.c:1201-1249 | the members up to the closing brace, or an error, also for more than 1000 levels |
| JsonDecode.Parser.ParseArrayContext | crossover/lua_cjson/lua_cjson.c:1252-1287 | the items up to the closing bracket, or an error |
| JsonDecode.Decode | crossover/lua_cjson/lua_cjson.c:1322-1360 | the value of any text, or an error |
| BsonTypes.ArrayIndexOf | engine/lua_bson.cpp:503-505 | the item named i has the key i + 1 |
| BsonTypes.AnyIndexOf | engine/lua_bson.cpp:503-505 | any decimal name, negative ones too, in 32 bits |
| BsonTypes.ArrayFields | engine/lua_bson.cpp:485-624 | fields named 0 to n - 1 make exactly the keys 1 to n, each with the value of its field |
| BsonTypes.ArrayDocument | engine/lua_bson.cpp:485-624 | and so does a whole array document |
| BsonTypes.DocumentFrame | engine/lua_bson.cpp:485-495 | a document has its length ahead and a zero at its end |
| BsonTypes.FixedTypes | include/lua_bson.h:22-40 | types 1, 7, 8 and 17 in numbers, with their sizes |
| BsonTypes.EmptyTypes | include/lua_bson.h:22-40 | types 10, 127 and 255 take no bytes |
| BsonTypes.IntegerTypes | include/lua_bson.h:22-40 | types 16 and 18 are integers of four and eight bytes in two's complement |
| BsonTypes.TextType | include/lua_bson.h:22-40 | type 2 is text with its length and a zero, both counted |
| BsonTypes.BinaryType | include/lua_bson.h:22-40 | type 5 has a length that does not count the subtype |
| BsonTypes.BlockTypes | include/lua_bson.h:22-40 | types 12 to 15 |
| BsonTypes.RegexType | include/lua_bson.h:22-40 | type 11 is two strings with their zeros |
| BsonTypes.DateRead | engine/lua_bson.cpp:548-553 | type 9: milliseconds of 64 bits, cut to seconds towards zero, in 32 bits |
| BsonTypes.ReplaceableTypes | engine/lua_bson.cpp:626-708 | the types that have a fixed size, in numbers |
| BsonTypes.ReplacedBy | engine/lua_bson.cpp:745-814 | which argument each of them takes |
| BsonTypes.NestingLimit | engine/lua_bson.cpp:397-400 | documents nested 129 deep are encoded, and no deeper |
| BsonFormat.SameLength | engine/lua_bson.cpp:626-708 | where unpack_dict reads a value, lmakeindex moves by the same length |
| BsonFormat.ValueLocal | engine/lua_bson.cpp:485-624 | a value depends on its own bytes alone |
| Bson.DecodableIsIndexable | engine/lua_bson.cpp:626-708 | a document that can be decoded can be indexed |
| Bson.PatchFields | engine/lua_bson.cpp:745-814 | replacing the bytes of an indexed field updates its key in the decoded map, unless the key comes again |
| Bson.PatchKeepsIndex | engine/lua_bson.cpp:745-814 | and leaves the index as it was |
| Bson.DistinctLater | engine/lua_bson.cpp:485-624 | with distinct keys no key comes again |
| Bson.StoredIsRead | engine/lua_bson.cpp:710-795 | the bytes written for a new value are read as what is stored |
| Bson.StoredIff | engine/lua_bson.cpp:760-790 | what is stored equals the argument exactly where an integer fits the 32 bits or the double of its field, and a boolean and a number are one |
| Doubles.ConvertedIsNearest | engine/lua_bson.cpp:761-762 | an integer given for a double is rounded half to even to 53 bits, a carry included |
| Doubles.ConvertedIff | engine/lua_bson.cpp:761-762 | and it stays the same number exactly where nothing is set below its highest 53 bits |
| Bson.EntryIdBack | engine/lua_bson.cpp:697-757 | type and offset are got back from the index entry for documents below 2^26 bytes |
| Bson.EntriesFit | engine/lua_bson.cpp:626-708 | every entry is a field of fixed size inside the document |
| BsonDocument.Reader.ReadCString | engine/lua_bson.cpp:101-116 | up to the next zero, or an error at the end |
| BsonDocument.UnpackDict | engine/lua_bson.cpp:485-624 | the map of any document, or an error |
| BsonDocument.PatchDocument | engine/lua_bson.cpp:745-814 | a patched document can be decoded, with the same index and the updated map |
| BsonDocument.Document.MakeIndex | engine/lua_bson.cpp:626-708 | the index of all fields of fixed size, exactly where the walk succeeds |
| BsonDocument.Document.Replace | engine/lua_bson.cpp:745-814 | succeeds exactly where the argument can be converted to the field's type; decoding then gives the old map with this key updated; the index stays right for the next replacement |
| BsonEncode.Buffer.Reserve | engine/lua_bson.cpp:27-40 | room for the bytes by doubling, the text kept |
| BsonEncode.Buffer.WriteLength | engine/lua_bson.cpp:132-138 | overwrites the four bytes of a length and nothing else |
| BsonEncode.StringIsValue | engine/lua_bson.cpp:330-337 | a string with its length and zero is read back |
| BsonEncode.TaggedIsValue | engine/lua_bson.cpp:271-329 | a string that stands for another type is read back, if its content is what the type asks for |
| BsonEncode.RegexIsValue | engine/lua_bson.cpp:310-322 | so is a regular expression, split at its last zero but one |
| BsonEncode.FieldAdded | engine/lua_bson.cpp:397-410 | a field behind others adds its key to what they decode to |
| BsonEncode.AppendOne | engine/lua_bson.cpp:253-350 | appends one field that is read as the key and the value, exactly where the value can be encoded; its type in numbers, 16 and four bytes for an integer of 32 bits |
| BsonEncode.PackDict | engine/lua_bson.cpp:397-410 | in any order of keys, a document with its length in front; fails exactly for an unsupported value or more than 128 levels |
| BsonEncode.DecodedNames | engine/lua_bson.cpp:485-624 | no name at any depth of a decoded document holds a zero byte |
| BsonEncode.Encode | engine/lua_bson.cpp:850-857 | below the size limit and with well-formed tagged strings, decoding gives the map back if and only if no name at any depth holds a zero byte; without these it does so only there |

## Left out

- Shortest digits (modes 0 and 1), hexadecimal floats, NaN parsing, `fpconv_strtod` and the floating-point shortcuts of `dtoa`: the repository prints in mode 2, and floating-point arithmetic is not modelled. The estimate of the decimal exponent is a parameter, right or one too large.
- The free list of bignums (`Balloc`, `Bfree`): each Bigint is fresh, so reuse of freed memory is not modelled.
- FormatDouble.Format: the doubles that the floating-point shortcuts of `dtoa` would print go through the bignum path here.
- FixedDigits.Mode2: the shortcuts are left out and the estimate is a parameter; infinities, NaN and zero are handled before this part, in `FormatDouble.DoubleDigits`, and are not its inputs.
- Bignum.MultAdd: a zero of no words only takes the addend 0; the C code would store another addend and still count no words.
- Bignum.Mult: both factors have a word, as all products in the repository do.
- Bignum.Cmp: a zero of no words is not compared with a zero of one word, which the C code calls smaller.
- Bignum.Diff: both sides have a word.
- BignumShift.LShift: the number is positive; of a zero the C code makes one with leading zero words.
- BignumShift.Increment: the number has a word.
- PowersOfFive.Powers.Pow5Mult: the number is positive.
- Dtoa.DShift: the divisor is positive, as every divisor is.
- PbTable.Table.Resize: failing allocations, and sizes times entry sizes beyond 32 bits, are not modelled.
- Fields.MessageType.NewField: the two indexes are maps, the default value and the one-of index of a type are left out, and the 28-bit width of the counter is not modelled.
- Fields.MessageType.DelType: the one-of index and its names are left out.
- Names.NameTable.NewName: names are shorter than 65536 bytes, as the 16-bit length requires; freeing the whole table is left out.
- Names.NameTable.NewEntry: the same; a longer name would be stored with a cut length and never be found.
- The `.pb` descriptor loader: plumbing over readers that are covered.
- Seri.Pack: `__pairs` metamethods are left out; tables that are keys are compared by what they hold and not by identity; the `int` total length of a stream and borders of 2^31 or more are not modelled. Light userdata and floats are eight opaque bytes, and a float key with an integer value, which Lua would store as an integer, is not converted.
- SeriFormat.DecodeString: lengths from 2^31 are errors here; the C code takes them for negative.
- JsonText.NumberToken: a number with a fraction or an exponent is read by `fpconv_strtod`, which is not part of this model; it is an error here. Floats are not encoded either, as 14 digits lose information.
- JsonDecode.Parser.NextToken: the same.
- JsonDecode.Decode: the same.
- JsonEncode.ArrayLength: keys are strings and integers below 2^31 - 1, where the C code would overflow an int; float keys are left out.
- JsonEncode.AppendData: floats are left out.
- JsonEncode.Encode: the configuration is the default one (sparse arrays are refused, ratio 2, safe up to 10, depth 1000), keys are below 2^31, and integer widths of buffer sizes are not modelled.
- JsonText.AfterItem: an array of more than 2^31 - 1 items is an error here, where the C counter would overflow.
- StringBuffer.StrBuf.CalculateNewSize: growth in linear steps ignores the requested size and is left out; the default is exponential.
- BsonFormat.DecodeValue: negative lengths are errors here; the C reader moves backwards on them.
- BsonDocument.UnpackDict: the same.
- BsonDocument.Document.MakeIndex: the same.
- BsonDocument.Document.Replace: what Lua makes of a numeric string that is given for a double is a parameter; a nil argument is not modelled.
- BsonEncode.Encode: arrays are left out, as their keys come from digit tables that nothing fills, and so are number keys, userdata that is copied as it is, `__pairs` metamethods and the generation of object ids. Documents of 2^31 bytes or more overflow their length field.
- BsonEncode.AppendOne: a tagged string that claims to be a regular expression has a zero byte inside; without one the C code computes lengths below zero and copies from outside the string.
- BsonEncode.PackDict: keys are strings.
- BsonEncode.TaggedIsValue: what an ill-formed tagged string is read as depends on the bytes that follow it, so only the well-formed ones are covered.
- Sockets, threads, events, databases and the registration of Lua functions: system calls and thin wrappers.
