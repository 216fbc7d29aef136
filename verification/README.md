# Models of gzip, lzop, fsck and dpkg in BusyBox 1.18.4

This project models four programs of BusyBox and proves what they promise. Each part keeps
the form of its source: what works by changing buffers, counters and tables in place is a
class or a method over arrays, proved against functions; what is computed is a function.

**gzip** (`archival/gzip.c`). The whole compressor, from the bits up: the 16 bit bit buffer
and the output buffer (`BitWriting`), the heap and the merging of the two least frequent
nodes (`Heap`, `Merging`, `BuildTree`), code lengths and the repair of those that are too
long (`FirstPass`, `LengthLimit`, `Relength`, `CodeLengths`), canonical codes
(`PrefixCodes`, `GenCodes`), run-length coded headers (`RunLengths`, `BitLengthTree`),
the token buffers and blocks (`Blocks`, `CompressBlock`, `FlushBlock`), hash chains in a
sliding window (`Hashing`, `HashChains`, `SlidingWindow`), the lazy matching loop
(`LazyParse`, `Deflate`) and the checksum (`Crc32`). The partners of all of it are `Inflate`
and `GzipFile`, an unpacker written from RFC 1951 and RFC 1952 that shares nothing with the
encoder but the tables of those documents. The main theorem, `Deflate.Gzip`, says that this
unpacker makes the input of what is written, for every input and however reads deliver it.
So that it cannot be wrong in the same way as the encoder, all that the two share is fixed
once more by laws in plain numbers and bits: `Crc32Standard` (the remainder is that of the generator
polynomial), `CodeOrder` (what makes a code canonical), `DeflateStandard` (bits, types,
lengths, distances, headers), `GzipFile.Frame` (the bytes around the data), and, for what
the compressor is free to choose, `LazyRule`, `HashBits` and `RunRule`. Beside it:

- The search for matches misses nothing among the strings it may look at
  (`SlidingWindow.Window.LongestMatch`), and the tokens sent are exactly those that lazy
  matching chooses (`Deflate.Round`, `LazyParse.Parsed`).
- Near the end of the input a search reads bytes behind the lookahead. What that can change,
  and when, is stated exactly (`Lookahead`, `LateSearch`).
- The code of a block costs no more than any prefix code for its frequencies if and only if
  some cheapest code fits the limit (`BuildTree.ExactlyCheapest`): breaking ties by depth
  makes the lowest tree (`HuffmanHeight`). A tree deeper than the limit needs a total
  frequency of Fib(limit + 3), so with the limit of 15 bits, blocks of up to 2582 tokens
  always have an optimal code for literals and lengths (`HuffmanDepth`,
  `FlushBlock.ShortBlockIsOptimal`).
- The sizes that the choice of an encoding is made by are the sizes of what is sent
  (`FlushBlock.PlanBlock`), and the choice is the smallest (`FlushBlock.FlushBlock`).

**lzop** (`archival/lzop.c`). `LzoOptimize` is the pass that rewrites a compressed LZO1X
block in place, label by label; `Lzo1x` is the decoder it is measured against. The rewritten
block decodes to the same bytes. `LzoEncoding` is the other side of the format: what the
compressor of `lzo1x_9x.c` writes for a text decodes to that text, however the text is cut
into literals and matches. `Adler32` shows that late reduction changes nothing and never
overflows 32 bits, `Adler32Standard` that the checksum is that of RFC 1950.

**fsck** (`e2fsprogs/fsck.c`). `FsckCheckAll` is the scheduler of `fsck -A`. A log of starts
and ends records the run, and what is promised of a run is said about every prefix of the
log: which checks may be alive together, in what order they start, that none waits without
need, that each entry is checked once, and that the run ends. Which devices share a disk is
said by the forms of their names (`FsckDevices.MayShare`).

**dpkg** (`archival/dpkg.c`). Version comparison (`DpkgVersions`), the double hashing tables
(`DoubleHashing`, `Interning`, `PackageTable`), dependency fields as edges (`PackageEdges`,
`PackageFields`) and the dependency phase of `check_deps` (`DependencyCheck`), which is
shown to decide exactly what the control data of all packages ask for of the tables.
`ControlSyntax` and `DependencyLaw` say the same in the words of the files: dependencies as
they are written, states and fields by their names, and versions by their characters.
`InstalledVersions` says how that differs from what is installed, and exactly when.

What the environment decides is arbitrary in the model: how much a read delivers, which
child ends next and with what exit code, whether a process can be had, and how a key is
mixed before it is hashed.

## Model

| member | source | states |
|---|---|---|
| Deflate.Gzip | pm-tests/busybox-src/busybox-1.18.4/archival/gzip.c:1995-2034 | for every input, every time stamp and every way the reads split the input: unpacking the file written, by a decoder of RFC 1952 and RFC 1951 that shares nothing with the encoder but tables, gives exactly the input, and nothing stands behind the member; the first ten bytes and the last eight are, number by number, those of RFC 1952, with the complement of the remainder as the checksum; and the tokens are those of lazy matching, each round of it by the rules of LazyRule, which give all limits as numbers |
| Deflate.Zip | pm-tests/busybox-src/busybox-1.18.4/archival/gzip.c:1960-1990 | header, deflated data, checksum and size make a gzip file that unpacks to exactly the input: magic number, method and flags are right, the deflated data decode to the input and end in the byte before the checksum, checksum and size are those of the input; the tokens in all blocks together are those that the rounds of lazy matching choose |
| Deflate.PutTrailer | pm-tests/busybox-src/busybox-1.18.4/archival/gzip.c:1985-1989 | behind the deflated data the four bytes each of the complement of crc and of isize, low byte first, complete the file, and nothing stays in the output buffer |
| GzipFile.MakesFile | pm-tests/busybox-src/busybox-1.18.4/archival/gzip.c:1966-1989 | a header of ten bytes, bits that decode to the data whatever follows them, checksum and size: the unpacker accepts just that and gives the data |
| Crc32.Update | pm-tests/busybox-src/busybox-1.18.4/libbb/crc32.c:57-66 | looking bytes up in the table gives the remainder that dividing bit by bit gives, from any remainder on |
| Crc32.FillTable | pm-tests/busybox-src/busybox-1.18.4/libbb/crc32.c:23-44 | each entry of the table is eight steps of the division without data |
| Crc32.LookUp | pm-tests/busybox-src/busybox-1.18.4/libbb/crc32.c:57-66 | one look-up with a byte is eight steps with its bits |
| Crc32.ChecksumFits | pm-tests/busybox-src/busybox-1.18.4/archival/gzip.c:1985-1987 | the complement of the remainder is a 32 bit number |
| Crc32Standard.RemainderLaw | pm-tests/busybox-src/busybox-1.18.4/libbb/crc32.c:25-66 | the remainder is that of the standard: with it, the message as a polynomial over the integers modulo 2, its first 32 bits complemented, times x^32 is a multiple of x^32 + x^26 + x^23 + x^22 + x^16 + x^12 + x^11 + x^10 + x^8 + x^7 + x^5 + x^4 + x^2 + x + 1, and its degree is below 32 |
| Crc32Standard.PolynomialBit | pm-tests/busybox-src/busybox-1.18.4/libbb/crc32.c:25 | the constant of the code holds exactly the powers of that generator below x^32, the highest at the lowest bit |
| Crc32Standard.CheckValue | pm-tests/busybox-src/busybox-1.18.4/libbb/crc32.c:57-66 | the checksum of the nine bytes 31 to 39 is cbf43926 |
| Deflate.Deflate | pm-tests/busybox-src/busybox-1.18.4/archival/gzip.c:1702-1805 | the whole loop keeps: what has been sent decodes to a prefix of the input, and the tokens waiting in the buffers continue it up to the current position; at the end all the input is covered, the list of all tokens is exactly what the rounds of lazy matching send, no match is from further back than MAX_DIST, and crc and isize are those of the input; the result is the number of bytes written modulo 2^29, so just that if and only if they are below 2^32 bits |
| Deflate.Round | pm-tests/busybox-src/busybox-1.18.4/archival/gzip.c:1711-1800 | one round keeps the loop invariant, moves on by at least one byte and sends exactly what lazy matching promises: the match of the round before, with its length and distance, if it has at least three bytes and the one found now is not longer; else the byte before strstart, if it has not been sent; the match found now then waits, with its length and distance. The match found is the result of a search that can be told from the window alone |
| LazyRule.SearchIs | pm-tests/busybox-src/busybox-1.18.4/archival/gzip.c:1715-1742 | what a search finds, without any of the predicates it is proved with: the strings looked at are those with the same hash down to some place, the first at most 32506 back and the others nearer, not more than 4096 of them, or 1024 if the old match has 32 bytes, and all there are unless a match has 258; the match is the longest of them and the nearest of its length, if longer than the old one; cut at the lookahead, with three bytes from further than 4096 not counting |
| LazyRule.ParsedByTheRules | pm-tests/busybox-src/busybox-1.18.4/archival/gzip.c:1711-1800 | every round of a whole input reads what the input says, searches by that rule, sends the match found before if it has three bytes and the one found now is not longer, or else the byte kept, and hands on just what the rule says to the next round |
| Deflate.Send | pm-tests/busybox-src/busybox-1.18.4/archival/gzip.c:1746-1790 | the decision is carried out: the tokens sent, the place reached, and what waits are those that the decision says |
| Deflate.Search | pm-tests/busybox-src/busybox-1.18.4/archival/gzip.c:1715-1742 | the head of the chain is the last position with the same hash; no search is made without a head, with a long enough match already or too far back; else the result is the longest string down to where the search ended, cut to the lookahead, and a match of three bytes from further than TOO_FAR counts as none |
| Deflate.TakeMatch | pm-tests/busybox-src/busybox-1.18.4/archival/gzip.c:1746-1770 | exactly one token is sent, the match of the round before with its length and distance; it covers its bytes of the input, all strings in it get on their chains and the loop invariant holds behind it |
| Deflate.TakeLiteral | pm-tests/busybox-src/busybox-1.18.4/archival/gzip.c:1771-1782 | exactly one token is sent, the byte of the input before strstart, and the match that waits is still one |
| Deflate.FlushHere | pm-tests/busybox-src/busybox-1.18.4/archival/gzip.c:1680-1686 | ending a block loses no input, and the next one starts at strstart |
| Deflate.FlushLast | pm-tests/busybox-src/busybox-1.18.4/archival/gzip.c:1801-1804 | the last block ends the stream on a whole byte, and all of it decodes to the input |
| Deflate.CopyRepeats | pm-tests/busybox-src/busybox-1.18.4/archival/gzip.c:1746-1748 | copying byte by byte from a distance where the input repeats itself gives the input, also when source and destination overlap |
| Deflate.BlockBytes | pm-tests/busybox-src/busybox-1.18.4/archival/gzip.c:1680-1686 | whenever block_start is not negative, the bytes of the current block are all still in the window, wherever it has slid |
| SlidingWindow.Window.LongestMatch | pm-tests/busybox-src/busybox-1.18.4/archival/gzip.c:582-656 | the result is prev_length, with match_start unchanged, or the true length of the match at match_start and longer; every string with the same hash above a position low agrees in no more bytes, and every one above match_start in fewer; all these are within reach, the head of the chain is one of them, and low is as far back as allowed, or the match is of the maximal length, or exactly the permitted number of strings with that hash lie from low on |
| Lookahead.OutcomeUnique | pm-tests/busybox-src/busybox-1.18.4/archival/gzip.c:610-655 | that determines the result: length and place are the same, wherever the search ends |
| Lookahead.InputOnly | pm-tests/busybox-src/busybox-1.18.4/archival/gzip.c:632-639 | with at least 258 bytes of lookahead the result of a search is the same whatever stands behind it in the window |
| Lookahead.BehindMatters | pm-tests/busybox-src/busybox-1.18.4/archival/gzip.c:1730-1733 | with less lookahead, but three bytes, some bytes behind it change length or place found if and only if some string that is looked at agrees in all of the lookahead |
| Lookahead.SameWhenCut | pm-tests/busybox-src/busybox-1.18.4/archival/gzip.c:1732-1733 | whatever the bytes behind are: the same is found, or both matches reach the end of the lookahead and are cut to it |
| Lookahead.PlaceMayDiffer | pm-tests/busybox-src/busybox-1.18.4/archival/gzip.c:644-645 | an instance: two windows with the same three bytes of lookahead in which matches at different places are found, both of length three when cut off |
| LateSearch.BeforeTheEnd | pm-tests/busybox-src/busybox-1.18.4/archival/gzip.c:608 | the assertion on strstart holds in every round until all input has been read, and the result of the search depends on the input alone |
| LateSearch.AtTheEnd | pm-tests/busybox-src/busybox-1.18.4/archival/gzip.c:608 | once all has been read, it holds at every place left if and only if the window has at most WINDOW_SIZE - MIN_LOOKAHEAD + 1 bytes of input from its start |
| LateSearch.LookaheadNeeded | pm-tests/busybox-src/busybox-1.18.4/archival/gzip.c:608 | a lookahead of at least MIN_LOOKAHEAD, and no smaller one, makes sure of it |
| LateSearch.AssertionFails | pm-tests/busybox-src/busybox-1.18.4/archival/gzip.c:608 | an instance: compressing 65279 zeros, however they are read, makes a search at a place where it does not hold |
| SlidingWindow.SearchedAll | pm-tests/busybox-src/busybox-1.18.4/archival/gzip.c:582-656 | a search that came down to the limit has missed nothing: no match closer than MAX_DIST is longer, whatever its hash, but for one with the string at index 0, which the source leaves out |
| SlidingWindow.Window.TryMatch | pm-tests/busybox-src/busybox-1.18.4/archival/gzip.c:611-645 | a result of 0 means the string at cur is no longer than the best, anything else is its full match length |
| SlidingWindow.Window.Compare | pm-tests/busybox-src/busybox-1.18.4/archival/gzip.c:630-642 | the unrolled comparison with one bound check every eighth byte finds exactly the length of the common prefix, at most 258 |
| SlidingWindow.NoBetter | pm-tests/busybox-src/busybox-1.18.4/archival/gzip.c:614-622 | a difference in any of the four bytes compared first excludes a longer match |
| HashChains.HashMatch | pm-tests/busybox-src/busybox-1.18.4/archival/gzip.c:624-629 | the third byte need not be compared: equal hashes and two equal bytes imply it |
| HashChains.MatchHash | pm-tests/busybox-src/busybox-1.18.4/archival/gzip.c:1659-1700 | strings that agree in three bytes have the same hash, so every match is on the chain |
| HashChains.OneMoreLink | pm-tests/busybox-src/busybox-1.18.4/archival/gzip.c:652-653 | following a link passes exactly one string of the same hash, so that counting links counts candidates |
| HashChains.ChainsInsert | pm-tests/busybox-src/busybox-1.18.4/archival/gzip.c:1695-1700 | after an insertion each chain lists exactly the earlier positions of its hash within WSIZE, latest first |
| HashChains.ChainsMoved | pm-tests/busybox-src/busybox-1.18.4/archival/gzip.c:544-554 | subtracting WSIZE from the entries, or clearing the smaller ones, keeps exactly the part of every chain that is still in the window |
| Hashing.RollingHash | pm-tests/busybox-src/busybox-1.18.4/archival/gzip.c:1665 | the running hash equals the hash of the last three bytes alone, whatever came before |
| Hashing.ThirdByte | pm-tests/busybox-src/busybox-1.18.4/archival/gzip.c:624-629 | strings with equal hash and equal first two bytes are equal in the third |
| HashBits.HashBit | pm-tests/busybox-src/busybox-1.18.4/archival/gzip.c:1665 | bit k of the hash of three bytes is bit k of the last, bit k - 5 of the second and bit k - 10 of the first, added modulo 2, for the thirteen bits there are |
| SlidingWindow.Window.InsertString | pm-tests/busybox-src/busybox-1.18.4/archival/gzip.c:1695-1700 | the string joins its chain and the old head returned is the last position with the same hash, or 0 |
| SlidingWindow.Window.SkipMatch | pm-tests/busybox-src/busybox-1.18.4/archival/gzip.c:1753-1766 | every string of a match is put on its chain, and the window ends up right behind the match |
| SlidingWindow.Window.FillWindow | pm-tests/busybox-src/busybox-1.18.4/archival/gzip.c:518-566 | position in the input, start of the block, distance of the last match and all chains are the same before and after, also when the window slides; more lookahead comes in unless the input is at its end |
| SlidingWindow.Window.Slide | pm-tests/busybox-src/busybox-1.18.4/archival/gzip.c:532-556 | sliding moves the upper half down, keeps what stands where in the input, and keeps the distance of match_start even if that wraps around |
| SlidingWindow.SlideEntries | pm-tests/busybox-src/busybox-1.18.4/archival/gzip.c:544-554 | both loops together: each entry follows the bytes it points to, or becomes 0 |
| SlidingWindow.SameDistance | pm-tests/busybox-src/busybox-1.18.4/archival/gzip.c:539-540 | the distance computed from match_start in 32 bits is unchanged by sliding, wrap-around included |
| SlidingWindow.Window.FileRead | pm-tests/busybox-src/busybox-1.18.4/archival/gzip.c:407-420 | a read delivers the next bytes of the input, at most as many as asked for, and none only at its end; crc and isize are those of all bytes so far |
| SlidingWindow.Window.LmInit | pm-tests/busybox-src/busybox-1.18.4/archival/gzip.c:1824-1860 | the window mirrors the start of the input, the chains are empty and the hash of the first two bytes is taken in |
| Blocks.Trees.Tally | pm-tests/busybox-src/busybox-1.18.4/archival/gzip.c:1467-1518 | one token more is in l_buf, d_buf, flag_buf and the frequencies, which afterwards are those of exactly the tokens so far; a flush is asked for exactly if a buffer is full, or at every 4096th token if less than half of them are matches and a guess at the size, summed over the tokens, is below half the input |
| Blocks.FrequencyRoom | pm-tests/busybox-src/busybox-1.18.4/archival/gzip.c:1467-1487 | no frequency counted in a block comes near the limit of 16 bits |
| Blocks.Trees.InitBlock | pm-tests/busybox-src/busybox-1.18.4/archival/gzip.c:978-995 | the buffers hold no token, and the frequencies count the end-of-block symbol only |
| FlushBlock.FlushBlock | pm-tests/busybox-src/busybox-1.18.4/archival/gzip.c:1574-1656 | whatever was sent before, a decoder carries on from the old output to the old output with the tokens of the block applied; of the three encodings the smallest in whole bytes is used, with the ties of the source; trees come from the frequencies of the block as build_tree makes them; compressed_len is the number of bits sent modulo 2^32, so just that if and only if it is below 2^32 |
| FlushBlock.PlanBlock | pm-tests/busybox-src/busybox-1.18.4/archival/gzip.c:1579-1594 | opt_len and static_len are the exact sizes in bits of the dynamic and the fixed encoding of the block, and both stay far from 2^32; literal, distance and length trees are Huffman trees of the frequencies that the tokens have |
| FlushBlock.ShortBlockIsOptimal | pm-tests/busybox-src/busybox-1.18.4/archival/gzip.c:1582-1585 | for 1 to 2582 tokens no prefix code of any lengths takes fewer bits for the literals and lengths of the block: the limit of 15 bits cannot matter |
| FlushBlock.NothingCheaper | pm-tests/busybox-src/busybox-1.18.4/archival/gzip.c:1200-1283 | the lengths of a tree over two or more symbols cost no more than any prefix code if the Huffman tree is not too deep, or the total frequency is below Fib(limit + 3) |
| DeflateStandard.KindIs | pm-tests/busybox-src/busybox-1.18.4/archival/gzip.c:1605-1642 | the kind of a block, from the numbers of bits alone: stored, static and dynamic are told apart by sizes in bytes, three bits more than the block rounded up |
| FlushBlock.BlockFits | pm-tests/busybox-src/busybox-1.18.4/archival/gzip.c:1596-1606 | no dynamic block takes more than 2^21 bits, so the sums in 32 bits do not overflow |
| FlushBlock.StoredFits | pm-tests/busybox-src/busybox-1.18.4/archival/gzip.c:1620-1632 | a block is stored only if its length fits the 16 bit length field |
| FlushBlock.SendStored | pm-tests/busybox-src/busybox-1.18.4/archival/gzip.c:1628-1632 | a stored block decodes to its bytes, and compressed_len keeps up with the padding |
| FlushBlock.SendStatic | pm-tests/busybox-src/busybox-1.18.4/archival/gzip.c:1635-1637 | a block with the fixed codes decodes to its tokens |
| FlushBlock.SendDynamic | pm-tests/busybox-src/busybox-1.18.4/archival/gzip.c:1639-1643 | a block with its own codes, sent behind its header, decodes to its tokens |
| BlockFormat.StoredBlock | pm-tests/busybox-src/busybox-1.18.4/archival/gzip.c:1628-1632 | three type bits, padding, length, complement and bytes: the decoder adds exactly these bytes and goes on behind them, from any bit position |
| BlockFormat.FixedBlock | pm-tests/busybox-src/busybox-1.18.4/archival/gzip.c:1635-1636 | a decoder that knows only the fixed lengths of section 3.2.6 of RFC 1951 reads back the tokens |
| BlockFormat.DynamicBlock | pm-tests/busybox-src/busybox-1.18.4/archival/gzip.c:1639-1642 | a decoder that learns the code lengths from the header alone reads back the tokens |
| BlockFormat.DecodesChain | pm-tests/busybox-src/busybox-1.18.4/archival/gzip.c:1680-1686 | blocks one after the other decode as one stretch |
| DeflateStandard.TypesAre | pm-tests/busybox-src/busybox-1.18.4/archival/gzip.c:1628-1639 | the three bits before a block are its end mark and its type with the low bit first: 0 stored, 1 static, 2 dynamic |
| DeflateStandard.StoredIs | pm-tests/busybox-src/busybox-1.18.4/archival/gzip.c:490-510 | a stored block is, byte by byte, its length with the low byte first, the complements of both, and the data |
| DeflateStandard.BytesAre | pm-tests/busybox-src/busybox-1.18.4/archival/gzip.c:427-447 | bit k of byte i is the bit sent as number 8 i + k |
| DeflateStandard.BitsAre | pm-tests/busybox-src/busybox-1.18.4/archival/gzip.c:427-465 | numbers are sent from their low bit on, codes from their high bit on |
| CompressBlock.SendBlock | pm-tests/busybox-src/busybox-1.18.4/archival/gzip.c:1523-1566 | reading l_buf, d_buf and the flag bits back gives the tokens that were tallied; their codes and the end-of-block code go out in that order |
| CompressBlock.SendLength | pm-tests/busybox-src/busybox-1.18.4/archival/gzip.c:1542-1549 | code and extra bits of a length, as section 3.2.5 of RFC 1951 has them |
| CompressBlock.SendDistance | pm-tests/busybox-src/busybox-1.18.4/archival/gzip.c:1550-1560 | code and extra bits of a distance, taken from dist less one |
| DeflateStandard.LengthSent | pm-tests/busybox-src/busybox-1.18.4/archival/gzip.c:756-760 | which code a length has and what follows it, from the numbers alone: lengths 3 to 10 have codes of their own, and from code 265 on four codes each are followed by 1 to 5 bits |
| DeflateStandard.DistanceSent | pm-tests/busybox-src/busybox-1.18.4/archival/gzip.c:762-766 | the same for distances: four codes without extra bits, and then two codes each for 1 to 13 bits |
| Tokens.ReadsTokens | pm-tests/busybox-src/busybox-1.18.4/archival/gzip.c:1523-1566 | with any complete code lengths for the tokens, decoding the encoded tokens and the end-of-block code gives the tokens applied to the output, and stops right behind |
| Blocks.GuessIs | pm-tests/busybox-src/busybox-1.18.4/archival/gzip.c:1497-1505 | the sum over the distance codes is the sum over the tokens: a byte each, and five bits and the extra bits for a match |
| DeflateStandard.BlockEnds | pm-tests/busybox-src/busybox-1.18.4/archival/gzip.c:1494-1514 | a block ends at 8191 tokens or 8192 matches; and at a multiple of 4096 tokens exactly if less than half of them are matches and eight bits a token, with five and the extra bits for each distance, make less than half the input of the block |
| TokenCosts.TokensCost | pm-tests/busybox-src/busybox-1.18.4/archival/gzip.c:1087-1090 | the cost summed from frequencies, code lengths and extra bits equals the number of bits that the tokens and the end-of-block code take |
| Blocks.CtInit | pm-tests/busybox-src/busybox-1.18.4/archival/gzip.c:1869-1952 | all tables and both static trees agree with sections 3.2.5 and 3.2.6 of RFC 1951 |
| StaticTables.InitLengths | pm-tests/busybox-src/busybox-1.18.4/archival/gzip.c:1883-1896 | length_code maps each length to the code whose range it is in, with 258 at its own code, and base_length has the starts of the ranges |
| StaticTables.InitDists | pm-tests/busybox-src/busybox-1.18.4/archival/gzip.c:1898-1914 | dist_code, indexed directly below 256 and by multiples of 128 above, maps each distance to the code whose range it is in |
| StaticTables.InitStaticLiterals | pm-tests/busybox-src/busybox-1.18.4/archival/gzip.c:1921-1942 | the static literal codes are the canonical codes of the fixed lengths, reversed for sending |
| StaticTables.InitStaticDistances | pm-tests/busybox-src/busybox-1.18.4/archival/gzip.c:1944-1948 | the static distance codes, filled in without gen_codes, are canonical all the same |
| StaticTables.FixedIsCode | pm-tests/busybox-src/busybox-1.18.4/archival/gzip.c:1938-1941 | with the two symbols that are never sent, the fixed literal code takes up the code space exactly, and so do the 32 distance codes |
| BuildTree.BuildTree | pm-tests/busybox-src/busybox-1.18.4/archival/gzip.c:1200-1283 | for any frequencies: every symbol that occurs gets a length up to the limit, the code space is used up exactly, a more frequent symbol never has the longer code, and the codes are canonical; codes are forced on exactly as many symbols as two are missing; opt_len and static_len grow by the exact cost of the symbols; the code is cheapest unless the merge tree, which heap and tree still show, is deeper than the limit; and no cheapest code has a shorter longest word than that tree is deep |
| BuildTree.ExactlyCheapest | pm-tests/busybox-src/busybox-1.18.4/archival/gzip.c:1178-1185 | the code is the cheapest of all if and only if some cheapest code has no word above the limit |
| HuffmanHeight.HeightIsLeast | pm-tests/busybox-src/busybox-1.18.4/archival/gzip.c:1005-1006 | the tie-break by depth: in every cheapest code some item, with the height it comes with, reaches as far up as the tree does that always merges the two least by frequency and then depth |
| HuffmanHeight.CheapestReaches | pm-tests/busybox-src/busybox-1.18.4/archival/gzip.c:1005-1006 | a cheapest code within some limit exists only if that tree is no higher |
| TreeHeight.FatherHeight | pm-tests/busybox-src/busybox-1.18.4/archival/gzip.c:1260 | the eight bits of a depth never overflow, as a tree of height h weighs Fib(h + 2) at least |
| TreeHeight.TreeIsLow | pm-tests/busybox-src/busybox-1.18.4/archival/gzip.c:1251-1274 | the tree that was built is no deeper than that tree is high |
| HuffmanOptimal.NoPrefixCodeIsCheaper | pm-tests/busybox-src/busybox-1.18.4/archival/gzip.c:1178-1185 | a code that costs what the merging paid is no more expensive than any prefix code at all for these frequencies, whatever its lengths |
| HuffmanCost.HuffmanIsLeast | pm-tests/busybox-src/busybox-1.18.4/archival/gzip.c:1248-1272 | always replacing the two least weights by their sum pays the least total: every assignment of lengths within Kraft's inequality costs at least as much |
| HuffmanCost.PrefixCodeKraft | pm-tests/busybox-src/busybox-1.18.4/archival/gzip.c:1142-1175 | Kraft's inequality, for arbitrary prefix codes |
| HuffmanCost.HuffmanBeatsPrefixCodes | pm-tests/busybox-src/busybox-1.18.4/archival/gzip.c:1248-1272 | so merging pays no more than any prefix code costs |
| HuffmanOptimal.CheapestFrequentShorter | pm-tests/busybox-src/busybox-1.18.4/archival/gzip.c:1178-1185 | in a cheapest code no symbol has a longer code than a less frequent one |
| HuffmanTree.CostIsInternalWeight | pm-tests/busybox-src/busybox-1.18.4/archival/gzip.c:1251-1272 | frequency times depth, over the leaves, is the sum of the weights of all fathers |
| HuffmanTree.DepthsUnique | pm-tests/busybox-src/busybox-1.18.4/archival/gzip.c:1067-1076 | the order in the heap array determines all depths |
| HuffmanTree.DeepIfInternal | pm-tests/busybox-src/busybox-1.18.4/archival/gzip.c:1072-1075 | lengths overflow exactly if some father lies at the limit or below |
| HuffmanTree.ClampedSpace | pm-tests/busybox-src/busybox-1.18.4/archival/gzip.c:1072-1076 | clamping the depths takes exactly as many units of code space too much as there are fathers at or below the limit |
| HuffmanTree.ClampedLeaves | pm-tests/busybox-src/busybox-1.18.4/archival/gzip.c:1098-1110 | enough leaves are clamped for the repair to move |
| HuffmanDepth.DeepIsHeavy | pm-tests/busybox-src/busybox-1.18.4/archival/gzip.c:1064-1066 | a tree deeper than the limit needs a total frequency of at least Fib(limit + 3): 2584 for the limit 15, 55 for the limit 7 |
| CodeLengths.GenBitlen | pm-tests/busybox-src/busybox-1.18.4/archival/gzip.c:1046-1131 | lengths within the limit that use up the code space exactly, the exact cost of them, and the statistics in bl_count; if no node of the tree is too deep, what the merging paid, else lengths that fall along the heap array, rarer symbols first |
| FirstPass.AssignDepths | pm-tests/busybox-src/busybox-1.18.4/archival/gzip.c:1064-1091 | the first pass gives each node its depth, clamped, whatever order the tree was built in, and counts lengths, overflows and costs exactly |
| LengthLimit.Repair | pm-tests/busybox-src/busybox-1.18.4/archival/gzip.c:1098-1110 | for every oversubscribed count of lengths the loop ends without running off the array, with the code space used exactly and the same number of codes; each step takes the longest code below the limit and no other, makes it one bit longer, and gives it a brother from the limit |
| LengthLimit.SomeShortCode | pm-tests/busybox-src/busybox-1.18.4/archival/gzip.c:1100-1102 | while the space is oversubscribed there is a code below the limit, so the inner search stops |
| LengthLimit.MovedSpace | pm-tests/busybox-src/busybox-1.18.4/archival/gzip.c:1103-1109 | each step of the repair frees exactly one unit of code space |
| Relength.DealLengths | pm-tests/busybox-src/busybox-1.18.4/archival/gzip.c:1112-1130 | dealing the repaired lengths out along the heap array gives every leaf one, each length as often as counted, and corrects opt_len by exactly the change in cost |
| Heap.PqDownHeap | pm-tests/busybox-src/busybox-1.18.4/archival/gzip.c:1011-1033 | the heap property from the next node on extends to the given one; the queue stays the same bag of nodes, nothing else in the array moves |
| Heap.FirstIsSmallest | pm-tests/busybox-src/busybox-1.18.4/archival/gzip.c:1187-1191 | in a heap no node is smaller than the first, by frequency and then depth |
| BuildTree.TakeSmallest | pm-tests/busybox-src/busybox-1.18.4/archival/gzip.c:1193-1198 | the node taken comes first of all in the queue, by frequency and then by depth; the others remain, and they are a heap again |
| BuildTree.LinkNode | pm-tests/busybox-src/busybox-1.18.4/archival/gzip.c:1255-1269 | the two nodes get their father, whose frequency is the sum, and are put down in order |
| BuildTree.MergeOnce | pm-tests/busybox-src/busybox-1.18.4/archival/gzip.c:1251-1272 | one merge takes two lightest nodes, and the sorted order, the sum paid and the frequencies of the rest stay right |
| BuildTree.MergeAll | pm-tests/busybox-src/busybox-1.18.4/archival/gzip.c:1248-1274 | merging ends with one node, the nodes in the order of their removal are a Huffman tree, and its height is that which merging first nodes first comes to |
| BuildTree.MergeSymbols | pm-tests/busybox-src/busybox-1.18.4/archival/gzip.c:1209-1274 | all of build_tree up to gen_bitlen: heap array, fathers and sums form a Huffman tree of the frequencies, symbols were forced only if fewer than two occur, and what was paid is the least there is |
| ForcedCodes.FillQueue | pm-tests/busybox-src/busybox-1.18.4/archival/gzip.c:1216-1223 | the queue holds exactly the symbols that occur, max_code is the last of them |
| ForcedCodes.ForceTwo | pm-tests/busybox-src/busybox-1.18.4/archival/gzip.c:1225-1239 | two symbols at least are in the queue afterwards; each one forced did not occur before, and is paid for in advance |
| GenCodes.BiReverse | pm-tests/busybox-src/busybox-1.18.4/archival/gzip.c:455-465 | sent from its low end, the result is the code from its high end |
| GenCodes.FirstCodes | pm-tests/busybox-src/busybox-1.18.4/archival/gzip.c:1152-1154 | next_code has the canonical first code of each length, and 16 bits are enough |
| GenCodes.Generate | pm-tests/busybox-src/busybox-1.18.4/archival/gzip.c:1142-1175 | each symbol with a length gets its canonical code, reversed, and lengths are left alone |
| PrefixCodes.PrefixFree | pm-tests/busybox-src/busybox-1.18.4/archival/gzip.c:1142-1175 | of any two symbols neither code is a prefix of the other |
| PrefixCodes.CodeFits | pm-tests/busybox-src/busybox-1.18.4/archival/gzip.c:1155-1159 | no code overflows its length |
| PrefixCodes.CodesFillKraft | pm-tests/busybox-src/busybox-1.18.4/archival/gzip.c:1152-1159 | the codes up to each length fill exactly the space that the Kraft sum says, so a complete code ends in all ones |
| CodeOrder.CodesInOrder | pm-tests/busybox-src/busybox-1.18.4/archival/gzip.c:1142-1175 | in the order of lengths, and of symbols within a length, each code is the one before, plus one, with zeros behind it: what makes a code canonical, stated on bit strings without counting |
| CodeOrder.FirstIsZero | pm-tests/busybox-src/busybox-1.18.4/archival/gzip.c:1142-1175 | the first code in that order is all zeros |
| CodeOrder.FixedLiteral | pm-tests/busybox-src/busybox-1.18.4/archival/gzip.c:1921-1943 | the fixed codes are the bit patterns of section 3.2.6 of RFC 1951: 8 bits from 00110000, 9 from 110010000, 7 from 0000000, 8 from 11000000 |
| CodeOrder.FixedDistance | pm-tests/busybox-src/busybox-1.18.4/archival/gzip.c:1944-1948 | and those of distances are the numbers of five bits |
| PrefixCodes.ReadsSymbol | pm-tests/busybox-src/busybox-1.18.4/archival/gzip.c:1142-1175 | where the code of a symbol stands in a stream, the canonical decoder reads just that symbol |
| RunLengths.RoundTrip | pm-tests/busybox-src/busybox-1.18.4/archival/gzip.c:1292-1396 | expanding the run-length items of any lengths up to 15 gives the lengths back, every repeat count fits its bits, and there are no more items than lengths |
| RunLengths.ScanTree | pm-tests/busybox-src/busybox-1.18.4/archival/gzip.c:1292-1338 | bl_tree counts exactly the items that the lengths will be sent as |
| RunLengths.SendTree | pm-tests/busybox-src/busybox-1.18.4/archival/gzip.c:1345-1396 | what goes out is those items, so scan and send never disagree |
| RunLengths.ReadsItems | pm-tests/busybox-src/busybox-1.18.4/archival/gzip.c:1345-1396 | a decoder expands exactly what was sent |
| RunRule.RunIsCoded | pm-tests/busybox-src/busybox-1.18.4/archival/gzip.c:1292-1396 | what a run of n equal lengths is sent as, wherever it stands: zeros by 138 at once, then what is left as one item, or one by one if less than three; another length once, unless it came before, and then six at once, or one by one if less than three are left |
| DeflateStandard.ItemSent | pm-tests/busybox-src/busybox-1.18.4/archival/gzip.c:1345-1396 | the symbols 0 to 18 and the 2, 3 or 7 bits behind 16, 17 and 18, which count from 3, 3 and 11 |
| DeflateStandard.OrderIs | pm-tests/busybox-src/busybox-1.18.4/archival/gzip.c:772-774 | the lengths of that code are sent with the repeats and zero first, and the others from the middle outwards |
| BitLengthTree.BuildBlTree | pm-tests/busybox-src/busybox-1.18.4/archival/gzip.c:1403-1430 | opt_len grows by the exact size of the header, the code for the lengths is a Huffman code within 7 bits, and all code lengths that matter will be sent |
| BitLengthTree.LastCode | pm-tests/busybox-src/busybox-1.18.4/archival/gzip.c:1417-1424 | behind the index found no code length has a code |
| BitLengthTree.EnoughCodes | pm-tests/busybox-src/busybox-1.18.4/archival/gzip.c:1411-1424 | the index is at least 4, so that the field of blcodes - 4 never is negative |
| BitLengthTree.SendAllTrees | pm-tests/busybox-src/busybox-1.18.4/archival/gzip.c:1438-1460 | the header is exactly the bits from which both trees can be read |
| BitLengthTree.ItemsCost | pm-tests/busybox-src/busybox-1.18.4/archival/gzip.c:1411-1427 | frequencies times lengths is the size of the run-length coded lengths |
| TreeHeader.ReadsHeader | pm-tests/busybox-src/busybox-1.18.4/archival/gzip.c:1438-1460 | a decoder reads back both tables of lengths and stands right behind the header |
| BitWriting.BitWriter.SendBits | pm-tests/busybox-src/busybox-1.18.4/archival/gzip.c:427-447 | the bits of the value follow all bits sent before, low end first, whether or not the 16 bit buffer overflows and is put away |
| BitWriting.BitWriter.Put16 | pm-tests/busybox-src/busybox-1.18.4/archival/gzip.c:374-383 | low byte first, also at the end of the output buffer |
| BitWriting.BitWriter.FlushOutbuf | pm-tests/busybox-src/busybox-1.18.4/archival/gzip.c:354-361 | nothing is lost when the output buffer is written |
| BitWriting.BitWriter.BiWindup | pm-tests/busybox-src/busybox-1.18.4/archival/gzip.c:471-483 | what was sent is a prefix of whole bytes, fewer than eight bits longer |
| BitWriting.BitWriter.CopyBlock | pm-tests/busybox-src/busybox-1.18.4/archival/gzip.c:490-507 | alignment, length, its complement and the bytes follow what was sent |
| LzoOptimize.Lzo1xOptimize | pm-tests/busybox-src/busybox-1.18.4/archival/lzop.c:78-328 | the block changed in place still decodes to what it decoded to before, all of which is in the output buffer; the status says whether bytes are left behind the end mark |
| LzoOptimize.Optimizer.Step | pm-tests/busybox-src/busybox-1.18.4/archival/lzop.c:108-316 | from any label, one stretch of the code up to the next label keeps: the changed bytes decode like the original ones, litp and lit describe the run in front, and something is left less to do |
| LzoOptimize.Optimizer.Near | pm-tests/busybox-src/busybox-1.18.4/archival/lzop.c:149-195 | a two byte match joins the literals around it exactly under the conditions of the source, and the bytes stay the same if neither applies |
| LzoOptimize.Optimizer.MatchM2 | pm-tests/busybox-src/busybox-1.18.4/archival/lzop.c:197-227 | a three byte match is dissolved exactly if it is between two long runs and the sum fits |
| LzoOptimize.Optimizer.MatchFar | pm-tests/busybox-src/busybox-1.18.4/archival/lzop.c:228-293 | M3 and M4 matches are read as the format says; a three byte one is dissolved exactly if a rewriting applies; the end mark is found exactly where it stands |
| LzoOptimize.Optimizer.ReadFarMatch | pm-tests/busybox-src/busybox-1.18.4/archival/lzop.c:229-255 | length and distance of an M3 or M4 match, and the end mark |
| LzoOptimize.Optimizer.ReadCount | pm-tests/busybox-src/busybox-1.18.4/archival/lzop.c:114-119 | the count that the zeros and the byte behind them stand for |
| LzoOptimize.Optimizer.Extend | pm-tests/busybox-src/busybox-1.18.4/archival/lzop.c:157-167 | a match that becomes literals of the run before leaves the meaning of the block alone |
| LzoOptimize.Optimizer.JoinShort | pm-tests/busybox-src/busybox-1.18.4/archival/lzop.c:168-191 | so does one that joins a short run and a long one, though literals move and a header goes into the gap |
| LzoOptimize.Optimizer.JoinLong | pm-tests/busybox-src/busybox-1.18.4/archival/lzop.c:211-227 | and one between two long runs |
| LzoOptimize.Optimizer.Copy2 | pm-tests/busybox-src/busybox-1.18.4/archival/lzop.c:47-54 | the two bytes written are what the match copies, also at distance 1 |
| LzoOptimize.Optimizer.Copy3 | pm-tests/busybox-src/busybox-1.18.4/archival/lzop.c:56-70 | the three bytes written are what the match copies, also at distances 1 and 2 |
| LzoRewrite.ExtendShort | pm-tests/busybox-src/busybox-1.18.4/archival/lzop.c:157-167 | in any stream, changing the count and the bytes behind a match keeps decoding on course up to the end of the longer run |
| LzoRewrite.MergeShort | pm-tests/busybox-src/busybox-1.18.4/archival/lzop.c:168-191 | in any stream, so does the one byte header of a run made of a short run, a match and a long run |
| LzoRewrite.MergeLong | pm-tests/busybox-src/busybox-1.18.4/archival/lzop.c:211-227 | and the one byte header of a run made of two long ones |
| Lzo1x.RunExtends | pm-tests/busybox-src/busybox-1.18.4/archival/lzop.c:108-316 | decoding never takes back output |
| LzoEncoding.BlockDecodes | pm-tests/busybox-src/busybox-1.18.4/archival/libarchive/lzo1x_9x.c:504-595 | for every text, however it is cut into literals and matches, and whatever follows: decoding the bytes that a LZO1X compressor writes for it gives the text and ends behind the end mark. Matches of 2 bytes at 1 to 1024 behind one to three literals, of 3 bytes at 2049 to 3072 behind more, of 3 to 8 at 1 to 2048, of any length from 3 on at 1 to 16384 and at 16385 to 49151; all forms of runs; the bytes are given by arithmetic and share nothing with the decoder |
| LzoEncoding.NearAboveM2 | pm-tests/busybox-src/busybox-1.18.4/archival/lzop.c:133-142 | the near match behind a long run reaches on from exactly where the match of two bytes ends |
| LzoEncoding.CodeMatch | pm-tests/busybox-src/busybox-1.18.4/archival/libarchive/lzo1x_9x.c:504-569 | a match is put down in those bytes, in the form the compressor chooses |
| LzoEncoding.StoreRun | pm-tests/busybox-src/busybox-1.18.4/archival/libarchive/lzo1x_9x.c:572-595 | a run is put down with its header, or counted in the last byte but one of what stands before it |
| LzoEncoding.LenOfCodedMatch | pm-tests/busybox-src/busybox-1.18.4/archival/libarchive/lzo1x_9x.c:616-643 | the number of bytes predicted is that of the bytes put down, and -1 exactly if no form can carry the match |
| Adler32.LzoAdler32 | pm-tests/busybox-src/busybox-1.18.4/archival/lzop.c:439-466 | with reductions only every 5552 bytes and 32 bit sums, the result is that of the checksum reduced after every byte; 1 without a buffer |
| Adler32.Pieces | pm-tests/busybox-src/busybox-1.18.4/archival/lzop.c:484-491 | the checksum of two pieces in turn is the checksum of the whole |
| Adler32.NoOverflow | pm-tests/busybox-src/busybox-1.18.4/archival/lzop.c:444-446 | between reductions both sums stay below 2^32 |
| Adler32.PerByteIsSums | pm-tests/busybox-src/busybox-1.18.4/archival/lzop.c:455-464 | reducing late is reducing early |
| Adler32Standard.AdlerIs | pm-tests/busybox-src/busybox-1.18.4/archival/lzop.c:439-466 | the checksum of a whole text is that of RFC 1950: one plus the sum of all bytes, and the sum of all bytes each counted as often as there are bytes from it on, plus their number, both modulo 65521 |
| Adler32Standard.Whole | pm-tests/busybox-src/busybox-1.18.4/archival/lzop.c:629-673 | so the checksum computed from the initial value is |
| Adler32Standard.BaseIsLargestPrime | pm-tests/busybox-src/busybox-1.18.4/archival/lzop.c:443 | 65521 is a prime, and no other number from there on below 65536 is |
| Adler32Standard.NmaxIsLargest | pm-tests/busybox-src/busybox-1.18.4/archival/lzop.c:444-446 | the bound of the comment holds for n bytes if and only if n is at most 5552 |
| FsckCheckAll.Checker.CheckAll | pm-tests/busybox-src/busybox-1.18.4/e2fsprogs/fsck.c:736-846 | for every fstab, every set of options and every way children end: at each moment of the run the checks alive are within max_running and serialize, and, unless all may run in parallel, no two of them may share a disk: neither is without a known disk, and the names do not start with the same one, /dev/hda, /dev/sd0a or /dev/rd/c0d0 with any letter or digit there; nothing starts before all of the lower passes is over, but for the root check; the first root filesystem, if wanted and not to be run in parallel, is checked first, and no other check starts before that is over; whenever checks have been started and one ends, every check of the pass that has not been started is held up by the limit or by one that is running; num_running is in the end the number of checks that never had a child; unless the root check stopped the run, every entry that is wanted is checked exactly once and none else; every check ends; the result is the OR of all exit codes |
| FsckCheckAll.Checker.RunPasses | pm-tests/busybox-src/busybox-1.18.4/e2fsprogs/fsck.c:783-845 | the loop over the passes ends, with every entry done, every check over and the status complete |
| FsckCheckAll.Checker.Sweep | pm-tests/busybox-src/busybox-1.18.4/e2fsprogs/fsck.c:786-829 | one scan starts only what may run, and all of it: what it leaves of the pass has to wait for a running check, unless it has stopped at the limit; a pass is called done only if nothing of it is left; and a scan that starts nothing and is not done leaves a child to wait for, so that the main loop gets ahead |
| FsckCheckAll.Checker.CheckRoot | pm-tests/busybox-src/busybox-1.18.4/e2fsprogs/fsck.c:756-782 | the first root filesystem is checked, alone, exactly if it is wanted and not to be run in parallel, and that is over before anything else; it stops the run exactly if its status is above EXIT_NONDESTRUCT; what is ignored, skipped or checked already is marked done |
| FsckCheckAll.Checker.FsckDevice | pm-tests/busybox-src/busybox-1.18.4/e2fsprogs/fsck.c:573-601 | a check is counted in num_running even if it has no child, so that the number is always that of the children and of all checks that never had one |
| FsckCheckAll.Checker.Execute | pm-tests/busybox-src/busybox-1.18.4/e2fsprogs/fsck.c:499-561 | a child becomes the head of the list with the base of its device, unless none could be started; with noexecute there is none |
| FsckCheckAll.Checker.WaitOne | pm-tests/busybox-src/busybox-1.18.4/e2fsprogs/fsck.c:382-474 | any one child may end: exactly that one leaves the list, and its exit code is logged |
| FsckCheckAll.Checker.WaitMany | pm-tests/busybox-src/busybox-1.18.4/e2fsprogs/fsck.c:482-493 | all children end, or at least one if there is any; the result is the OR of their codes |
| FsckCheckAll.Checker.DeviceAlreadyActive | pm-tests/busybox-src/busybox-1.18.4/e2fsprogs/fsck.c:607-642 | whether a running check excludes this device, and never if all may run in parallel: exactly if one of those running may share a disk with it, by the names alone |
| FsckRuns.ExclusiveAdd | pm-tests/busybox-src/busybox-1.18.4/e2fsprogs/fsck.c:607-642 | looking at the head of the list only for md devices is enough: adding a device that is not active keeps all running checks on different disks |
| FsckRuns.ActiveStays | pm-tests/busybox-src/busybox-1.18.4/e2fsprogs/fsck.c:607-642 | a device that has to wait still has to when another check has been started |
| FsckRuns.ActiveForAReason | pm-tests/busybox-src/busybox-1.18.4/e2fsprogs/fsck.c:607-642 | a device is turned away only if some running check is on its disk, or one of the disks is unknown, or one is a md device |
| FsckRuns.LiveDistinct | pm-tests/busybox-src/busybox-1.18.4/e2fsprogs/fsck.c:559-560 | while nothing is started twice, no entry has two children alive |
| FsckDevices.SameDisk | pm-tests/busybox-src/busybox-1.18.4/e2fsprogs/fsck.c:164-265 | all devices whose names start with the base of one have that base, and a base is its own |
| FsckDevices.MdBase | pm-tests/busybox-src/busybox-1.18.4/e2fsprogs/fsck.c:183-186 | exactly the md devices count as the md disk |
| FsckDevices.BaseOf | pm-tests/busybox-src/busybox-1.18.4/e2fsprogs/fsck.c:164-208 | the base of /dev/hd or /dev/sd, a digit or none, a letter and any text is what stands before that text, and so for /dev/rd/c, a digit, d and a digit |
| FsckDevices.NoOtherBase | pm-tests/busybox-src/busybox-1.18.4/e2fsprogs/fsck.c:164-265 | no other device has a base, md devices aside |
| FsckDevices.ApartIs | pm-tests/busybox-src/busybox-1.18.4/e2fsprogs/fsck.c:164-265 | bases keep two devices apart if and only if the names say that they are on different disks |
| FsckDevices.DisksDoNot | pm-tests/busybox-src/busybox-1.18.4/e2fsprogs/fsck.c:188-208 | devices of different disks are kept apart, whatever partition they are |
| FsckDevices.PartitionsShare | pm-tests/busybox-src/busybox-1.18.4/e2fsprogs/fsck.c:188-208 | all partitions of a disk, and the disk itself, share it |
| FsckRuns.ActiveIs | pm-tests/busybox-src/busybox-1.18.4/e2fsprogs/fsck.c:607-642 | a device has to wait if and only if some device being checked may share a disk with it |
| DpkgVersions.VersionComparePart | pm-tests/busybox-src/busybox-1.18.4/archival/dpkg.c:190-238 | the sign of the result is that of comparing keys in which text and numbers alternate; and where the texts part, by bytes: a tilde comes first, then the end or a digit, then letters, then all other signs, those of a kind by their codes, and numbers by their values however many zeros they have |
| DpkgVersions.KeyRules | pm-tests/busybox-src/busybox-1.18.4/archival/dpkg.c:190-238 | every comparison of keys follows the rules by bytes |
| DpkgVersions.KindsInOrder | pm-tests/busybox-src/busybox-1.18.4/archival/dpkg.c:190-213 | a version that goes on with a letter is before one that goes on with another sign, whatever stands before and behind; one with a tilde is before the one that ends there, and that is before both others |
| DpkgVersions.CodesInOrder | pm-tests/busybox-src/busybox-1.18.4/archival/dpkg.c:190-213 | letters among themselves, and other signs, go by their codes |
| DpkgVersions.AtoiValue | pm-tests/busybox-src/busybox-1.18.4/archival/dpkg.c:255-262 | an epoch that fits has the value of its decimal digits |
| DpkgVersions.VersionCompare | pm-tests/busybox-src/busybox-1.18.4/archival/dpkg.c:244-295 | the sign is that of epoch, then version, then revision |
| DpkgVersions.ParseWritten | pm-tests/busybox-src/busybox-1.18.4/archival/dpkg.c:255-283 | writing an epoch, a version and a revision and taking the text apart gives them back, if the colon is the first and the dash the last one |
| DpkgVersions.TestVersion | pm-tests/busybox-src/busybox-1.18.4/archival/dpkg.c:297-315 | the result is the relation that the operator stands for, of the order of epochs, versions and revisions that the rules by bytes give |
| DpkgVersions.OperatorsAgree | pm-tests/busybox-src/busybox-1.18.4/archival/dpkg.c:297-315 | of before, equal and after exactly one holds; the others are made of these; exchanging the versions exchanges before and after |
| DpkgVersions.OperatorsChain | pm-tests/busybox-src/busybox-1.18.4/archival/dpkg.c:297-315 | all relations are transitive, so they order versions, with those of equal keys side by side |
| DpkgVersions.OrderInjective | pm-tests/busybox-src/busybox-1.18.4/archival/dpkg.c:190-198 | no two characters other than digits compare equal |
| DoubleHashing.ProbesReach | pm-tests/busybox-src/busybox-1.18.4/archival/dpkg.c:155-164 | with a prime size every address is looked at, whatever start and step |
| DoubleHashing.SearchReaches | pm-tests/busybox-src/busybox-1.18.4/archival/dpkg.c:130-147 | so a search for any key comes to any slot, in fewer steps than there are slots |
| DoubleHashing.HashPrimes | pm-tests/busybox-src/busybox-1.18.4/archival/dpkg.c:39-77 | 16381, 10007 and 8191 are prime |
| DoubleHashing.PassedBy | pm-tests/busybox-src/busybox-1.18.4/archival/dpkg.c:172-188 | a search that comes to a free slot has seen every entry that was put down by the same search |
| Interning.NameTable.SearchNameHashtable | pm-tests/busybox-src/busybox-1.18.4/archival/dpkg.c:150-167 | the search ends, and the slot has the text: the old one if it was there, else a free one that is filled while all others stay |
| Interning.NeverFound | pm-tests/busybox-src/busybox-1.18.4/archival/dpkg.c:156-164 | in a table full of other texts no step of the search would ever end it |
| Interning.SameIndexSameText | pm-tests/busybox-src/busybox-1.18.4/archival/dpkg.c:150-167 | over any run of calls, two results are equal exactly if the texts were: comparing indices is comparing texts |
| PackageTable.Database.SearchPackageHashtable | pm-tests/busybox-src/busybox-1.18.4/archival/dpkg.c:317-338 | a package of that name with a version as asked for, or a free slot exactly if the whole table has none |
| PackageTable.Database.SearchStatusHashtable | pm-tests/busybox-src/busybox-1.18.4/archival/dpkg.c:172-188 | the status of that name, or a free slot exactly if the whole table has none |
| PackageTable.Database.GetStatus | pm-tests/busybox-src/busybox-1.18.4/archival/dpkg.c:653-673 | the slot of the word asked for of the status line |
| PackageEdges.AddField | pm-tests/busybox-src/busybox-1.18.4/archival/dpkg.c:405-475 | the edges of a field say its alternatives in order, behind an OR edge that counts them if there is more than one |
| PackageEdges.AddSplitDependencies | pm-tests/busybox-src/busybox-1.18.4/archival/dpkg.c:390-480 | the edges added, read back with the name table, are the items of the line in order; it fails exactly if some operator is unknown |
| ControlSyntax.LineRead | pm-tests/busybox-src/busybox-1.18.4/archival/dpkg.c:390-480 | every line written as control files are, with names, the five signs, versions, bars, commas, and any number of blanks where they may stand, is taken apart into just those clauses and alternatives, in order |
| ControlSyntax.AlternativeRead | pm-tests/busybox-src/busybox-1.18.4/archival/dpkg.c:418-466 | so is every alternative, with a condition or without |
| ControlSyntax.SignsAre | pm-tests/busybox-src/busybox-1.18.4/archival/dpkg.c:434-453 | the five signs stand for before, not after, equal, not before and after |
| PackageFields.ReadFields | pm-tests/busybox-src/busybox-1.18.4/archival/dpkg.c:593-640 | name, version and edges are those of the fields; a field given again counts last, and those of dependencies add up |
| PackageFields.InsertNode | pm-tests/busybox-src/busybox-1.18.4/archival/dpkg.c:646-649 | the package takes the place of one of that name and an equal version, or a free slot if there is none |
| PackageFields.FillPackageStruct | pm-tests/busybox-src/busybox-1.18.4/archival/dpkg.c:579-650 | the package stored says what the fields say, and nothing else in the table changes; without a version, or with an unknown operator, nothing is stored |
| PackageFields.IndexStatus | pm-tests/busybox-src/busybox-1.18.4/archival/dpkg.c:749-758 | afterwards the name has one status, about this package |
| PackageFields.IndexEntry | pm-tests/busybox-src/busybox-1.18.4/archival/dpkg.c:743-761 | one entry of the status file keeps both tables consistent: every status is about a package, and no name has two |
| DependencyCheck.PackageSatisfiesDependency | pm-tests/busybox-src/busybox-1.18.4/archival/dpkg.c:931-946 | installed for a pre-dependency, wanted for a dependency, and nothing without a status |
| DependencyCheck.SearchForProvides | pm-tests/busybox-src/busybox-1.18.4/archival/dpkg.c:356-369 | the next package that provides the name, and none has been passed by |
| DependencyCheck.EdgeMeaning | pm-tests/busybox-src/busybox-1.18.4/archival/dpkg.c:1081-1115 | the edge is met exactly if the alternative written in the control data is |
| DependencyCheck.EdgeSatisfied | pm-tests/busybox-src/busybox-1.18.4/archival/dpkg.c:1086-1115 | met directly, or by any one of those that provide it |
| DependencyCheck.CheckEdges | pm-tests/busybox-src/busybox-1.18.4/archival/dpkg.c:1064-1144 | counting alternatives down and skipping ahead over the flat list of edges decides exactly whether each dependency has an alternative that is met; the message about corrupt dependencies never comes |
| DependencyCheck.CheckDependencies | pm-tests/busybox-src/busybox-1.18.4/archival/dpkg.c:1032-1145 | the dependency phase goes well exactly if each dependency of each package wanted has an alternative that is met |
| DependencyCheck.CheckDeps | pm-tests/busybox-src/busybox-1.18.4/archival/dpkg.c:1032-1147 | the same from any tables filled before: the words looked up on the way change nothing in the answer |
| DependencyLaw.DependenciesAre | pm-tests/busybox-src/busybox-1.18.4/archival/dpkg.c:931-1147 | what the phase decides, in the words of the files: for every package whose status starts with install, each clause of its Pre-Depends and Depends has an alternative for which a package of the name and a fitting version is in the table and the name is installed, for Pre-Depends, or to be, for Depends; or which a package in that state provides |
| DependencyLaw.VersionIs | pm-tests/busybox-src/busybox-1.18.4/archival/dpkg.c:297-315 | which versions fit a condition, from its sign as it is written and the order of versions; one character of a doubled sign will do |
| DependencyLaw.StatusRead | pm-tests/busybox-src/busybox-1.18.4/archival/dpkg.c:653-671 | the three words of a status are what stands between its blanks, up to the end of the line |
| DependencyLaw.LastValueIs | pm-tests/busybox-src/busybox-1.18.4/archival/dpkg.c:594-640 | of several fields of a name the last one counts |
| InstalledVersions.InstalledIsMet | pm-tests/busybox-src/busybox-1.18.4/archival/dpkg.c:924-946 | an alternative met by a package that is installed, or wanted, in a version as asked for is always accepted |
| InstalledVersions.ExactlyInstalled | pm-tests/busybox-src/busybox-1.18.4/archival/dpkg.c:924-946 | alternatives are accepted only if met by the package that the status is about, if and only if every other package in the table with the name of one that is installed, or wanted, has an equal version |
| InstalledVersions.OlderVersionPasses | pm-tests/busybox-src/busybox-1.18.4/archival/dpkg.c:1099-1100 | an instance: with foo 1 installed and foo 2 in the table, a pre-dependency on foo (>= 2) is accepted |
| InstalledVersions.VersionsMatter | pm-tests/busybox-src/busybox-1.18.4/archival/dpkg.c:1102-1115 | the version asked for decides if and only if no package that is installed, or wanted, provides the name; otherwise any version asked for is accepted |
| InstalledVersions.ExactlyProvided | pm-tests/busybox-src/busybox-1.18.4/archival/dpkg.c:1105-1113 | providers are accepted only if installed, or wanted, as they are in the table, if and only if no other version in the table of such a package provides more |
| InstalledVersions.CheckIsSound | pm-tests/busybox-src/busybox-1.18.4/archival/dpkg.c:1032-1147 | the dependency phase never stops dependencies that are met, and lets no others pass if the table has no other version of a package that is installed, or wanted |
| ForcedCodes.ForcedIsTwo | pm-tests/busybox-src/busybox-1.18.4/archival/gzip.c:1230-1239 | a symbol other than 0 and 1 is forced if and only if symbol 1 is the only one to occur, and then it is 2 |
| SlidingWindow.WrapsWhen | pm-tests/busybox-src/busybox-1.18.4/archival/gzip.c:539 | match_start, with a match waiting, wraps around to -1 if and only if the match is MAX_DIST back and the window slides at the first place where it may |

## Left out

gzip:

- Deflate.Gzip: option parsing, file names and `fstat` are left out; the time stamp is any 32
  bit number.
- Reads that fail with an error are like the end of the input; failing writes are not
  modelled.
- The branch of `flush_block` for seekable output (`seekable()` is 0), the branch of
  `fill_window` for 16 bit machines, tracing, and the checks compiled in with `DEBUG`.
- Deflate.Zip: the input is of any length; positions in it are unbounded numbers, while all
  positions inside the window, `match_start` and `compressed_len` have the width of the
  source.
- GenCodes.BiReverse: at least one bit, as in every call of the source.
- SlidingWindow.Window.LongestMatch: what stands behind the window in memory is modelled as
  258 more bytes with any contents, which comparisons near the end of the input read.
- HuffmanOptimal.NoPrefixCodeIsCheaper: nothing is said about how close the repaired lengths
  are to the best ones within the limit when the Huffman tree is too deep.

lzop:

- LzoOptimize.Lzo1xOptimize: for blocks that decode, up to an end mark, into the output
  buffer. That is what its only caller hands over (`lzop.c:646-657`), straight from the
  compressor, and it ends the program on any other status. Without an end mark the source
  reads and writes behind its buffers.
- The LZO1Y dialect, the search of the compressor for matches, block and file headers.
- LzoEncoding.CodeMatch: the output buffer is a sequence that is returned; its address, by which
  the source tells the first run, is whether anything stands in it.

fsck:

- Signals to fsck itself, children that are not its own, progress indication, devfs names,
  the choice of a file system type and the parsing of fstab: which entries match is given.

dpkg:

- The conflict phase of `check_deps`, unpacking, configuring and removing packages, scripts,
  the writing of the status file, `set_status`, and the splitting of control data into
  fields.
- Interning.NameTable.SearchNameHashtable: how the characters of a key are mixed into a number
  is arbitrary; start and step are computed from that number as in the source. With more
  texts than slots the search does not end, which `Interning.NeverFound` shows.
- PackageEdges.AddSplitDependencies: lines without an empty field, fields without an empty
  alternative, and conditions with an operator. The source dereferences a null pointer in
  the first two cases and leaves the operator uninitialised in the last; more than 65535
  edges do not fit the count of the source.
- PackageFields.IndexEntry: an entry without a status line leaves the status uninitialised in
  the source; entries have one here.
- DpkgVersions.VersionCompare: the sign of the result is what is stated, and all that is used;
  the comment at `dpkg.c:240-243` says -1, 0 or 1.
- DpkgVersions.ParseWritten: an epoch that does not fit `int` is reduced modulo 2^32; C leaves
  it open.

Where the code and its comments differ, the code is followed:

- The comment that a forced code is that of symbol 0 or 1 (`gzip.c:1238`): see
  `ForcedCodes.ForcedIsTwo`. Symbol 2 has no extra bits either.
- `match_start` can become -1: see `SlidingWindow.WrapsWhen`. The distance is right all the
  same (`SlidingWindow.SameDistance`).
- `compressed_len` stops being the number of bits at 2^32: see `FlushBlock.FlushBlock`.
- A check that could not be started, or that is not to be executed, stays counted in
  `num_running`: see `FsckCheckAll.Checker.CheckAll`. A limit below zero lets one check run at
  a time.
- The assertion on `strstart` (`gzip.c:608`) can fail near the end of the input: see
  `LateSearch`.
- A dependency is to be met by a package that is installed, or wanted, but the status is
  found by name alone and a provider is not asked for its version: see `InstalledVersions`.
