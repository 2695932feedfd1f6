# Verified models of the algorithms in the vendored libraries

The command-line tool in `src/` rests on a handful of vendored libraries. This project models their hard algorithms in
Dafny and proves what they promise. Where the original changes things in place, so does the model: methods over arrays
and over classes with the original's variables as fields, each proved against a specification whose properties are then
proved as lemmas. `dafny verify dfyconfig.toml` checks everything.

**Option scanning** (`BlockRotation`, `OptionTable`, `OptionScanner`, `OptionRendering`, `Getopt`). `permute_args`
exchanges two adjacent blocks by following gcd many cycles; the proof shows that these cycles are disjoint, equally
long and cover both blocks. `getopt_internal` rearranges argv while it reads it; the loop that calls it is proved to
report what a plain left-to-right scan of the original arguments reports, and to leave argv as program, options with
their arguments, non-options, unread arguments. A letter cluster that runs into a final `-` makes it return without
moving on, so the loop ends exactly if the scan comes to no such cluster. Requests written as arguments, in all forms
that names, letters and values have and with all mistakes, come back from the scan as their events, and every command
line is one of these.

**Command registry** (`HashTable`, `HashTableIterator`, `CommandRegistry`). The chained hash table refines a finite map
over every operation, including the relinking of entries into a larger table; a walk passes every entry once, also when
it removes entries on its way; the search for a subcommand does not depend on hash order.

**Strings** (`BitSmear`, `Bstrings`, `SubstringSearch`, `FindReplace`, `ReadStream`, `SplitJoin`). Growth by powers of
two, the subsequence-first substring search, the three in-place replacement strategies, the buffered read stream with
sentinels and push-back, splitting and joining. Where two runs over the same stream may differ is settled exactly, for
core streams that give their bytes in any chunks.

**Codecs, layout, output** (`Sextets`, `Base64`, `Base64Text`, `UuCodec`, `UuText`, `Justify`, `WriteStream`). Round
trips for Base64 and for UU encoding through two nested streams, and for both what every text and every line decodes to,
from its characters alone; justification to a margin, the buffered writer.

**Unicode** (`Utf`, `Utf16`, `UtfText`). UTF-8 and UTF-16 (section 3 of RFC 3629, sections 2.1 and 2.2 of RFC 2781),
without the noncharacters that the library refuses. Plain words go through both transcoders, over one buffer, and come
back; what becomes of broken texts is settled exactly.

**HTML** (`HtmlSerializer`, `HtmlReader`). The tree walk without a stack equals the recursive serializer, except for
text that a condition on the tree singles out. A reader that knows the delimiters of HTML alone gets the tree back from
what is written, provided that nothing that is put out as it is looks like a delimiter.

`Arith` and `Seqs` hold facts about numbers and sequences, `Wrappers` the optional value.

The original's `int` is unbounded here except where its width decides the result (`BitSmear`, `CommandRegistry`, the
`INT_MAX` of `UuCodec`). Bits that are or-ed together never overlap in the codecs, so `|` is written as `+`, and shifts
and masks as products, quotients and remainders. Allocation succeeds. The read function behind a stream is a class that
offers its bytes in chunks of sizes given from outside; the write function is one that refuses writes given from
outside. A block of memory that has been given back, and memory behind an array, hold arbitrary bytes.

## Where the code differs from what it is said to do

* `getopt_internal` never returns -1 on an argument such as `-a-` when there is a table of long options
  (`OptionScanner.StallExample`). The calls end if and only if the scan comes to no argument that consists of letters
  without values and a final `-` (`OptionScanner.EndsUnlessStuck`).
* `bfindreplace` copies a replacement that is a part of the string only if it may be overwritten. A longer replacement
  that ends in front of the start position is not copied, and when the buffer has to grow it is read from the block that
  has been given back (`FindReplace.FreedExample`). All matches are replaced whatever that block holds if and only if
  this does not happen (`FindReplace.RightUnlessFreed`): it takes a replacement that is a part of the string, is longer
  than the searched string and ends in front of the start position, a match, and a result that with its terminator
  is at least as long as the capacity, or longer from 2^30 bytes on (`FindReplace.ReadsFreedMeans`).
* `bcatblk` does the same with a block of the string's own buffer (`Bstrings.CatFreedExample`): what it appends is right
  if and only if the block is empty or lies elsewhere or the buffer has room (`Bstrings.CatRightIff`).
* `bsreada` promises n bytes or all that remain. With an empty buffer and room for n bytes in the destination it reads
  the core stream once and gives what that read brings, which is what was promised if and only if the core stream offers
  that much (`ReadStream.BStream.Read`, `ReadStream.ShortRead`). A run of reads into new strings does not depend on the
  chunks of the core stream if and only if every read wants at most one byte, at least eight, or follows bytes that were
  put back and are not used up (`ReadStream.RunsAgreeIff`).
* `bsplitstrcb` passes over the character behind a separator of two or more characters, so a separator there does not
  split (`SplitJoin.SplitsAllIff`, `SplitJoin.SideBySide`).
* `bUuDecodeEx` decodes a last line without a line end again and again, up to `INT_MAX` bytes
  (`UuCodec.EndsWithLines`, `UuCodec.UnterminatedLine`), and returns NULL instead of an empty string. Without a counter
  a bad line stops a pass over the buffered lines before these are deleted, so they are decoded again and again. The
  output is only the lines in front of the bad one if and only if those that are still buffered, and that line itself,
  give no bytes, or `INT_MAX` bytes come before (`UuCodec.OnlyGoodIff`); for a string of up to 1024 bytes these are all
  lines in front (`UuCodec.DecodeString`, `UuCodec.StuckLine`). When the output comes to `INT_MAX` bytes, which
  `UuCodec.EndsWithLines` says when it does, `bconcat` computes `INT_MAX` + 1 for the last piece
  (deps/bstrlib/bstrlib.c:366-368), which an `int` cannot hold.
* `bInsertChrs` asks for room for the characters but not for the terminator, which lies behind the buffer if and only if
  the string comes to 2^30 bytes or more and the capacity was not larger already (`Justify.TerminatorFitsIff`,
  `Justify.TerminatorBehind`).
* `bJustifyMargin` is to left justify a line only if it is too long. A line with two words or more that is one character
  short of the width is left justified too, and stays short (`Justify.ReachesWidth`).
* `utf8ScanBackwardsForCodePoint` masks the bytes behind the lead byte without looking at them, so it finds code points
  in broken text where there are none. What it finds is there if and only if they are continuation bytes
  (`UtfText.ScanTrueIff`, `UtfText.ScanOfBrokenText`).
* `buAppendBlkUTF16` is to replace invalid code points by errCh. A high surrogate followed by a word below 0xDC00 is
  taken for a pair; the text is not the promised one if and only if that gives a legal code point other than errCh
  (`Utf16.NoticedIff`, with the case of an illegal errCh; `Utf16.BrokenPairSlips`). A high surrogate at the end is paired
  with the word that lies behind the array in memory. This counts the word behind a lone high surrogate as a part of the
  broken unit, as the code does: U+E001 behind U+D800 is lost with it (`Utf16.SwallowedWord`). When only the surrogate
  itself is to be replaced, `Utf16.StandardIff` gives the condition.
* `htmlNodeDumpInternal` carries one flag for raw text. It is cleared when any element is left and inherited by nested
  elements (`HtmlSerializer.RawFlagStrays`). The output is the intended one if and only if every text that escaping
  changes is a child of a raw-text element exactly when some raw-text element leads to it with no filled element in
  front on the way (`HtmlSerializer.FlaggedIffInPlace`).

## Model

| member | source | states |
|---|---|---|
| BlockRotation.Gcd | deps/argtable3/argtable3.c:1568-1584 | the result is positive and at most the second number |
| BlockRotation.GcdBezout | deps/argtable3/argtable3.c:1571-1584 | it divides both numbers and is an integer combination of them |
| BlockRotation.GcdGreatest | deps/argtable3/argtable3.c:1571-1584 | every common divisor divides it |
| BlockRotation.ComputeGcd | deps/argtable3/argtable3.c:1571-1584 | the remainder loop computes it |
| BlockRotation.NextRank | deps/argtable3/argtable3.c:1609-1613 | one step of the cycle leader stays in its residue class and moves to the next rank |
| BlockRotation.RankInjective | deps/argtable3/argtable3.c:1599-1613 | within a residue class ranks are distinct, so each class is one cycle |
| BlockRotation.CyclesCoverBlocks | deps/argtable3/argtable3.c:1599-1608 | there are gcd many disjoint cycles of length (n + m) / gcd, one from each start, and they cover both blocks |
| BlockRotation.FollowCycle | deps/argtable3/argtable3.c:1606-1619 | the inner loop moves every element of one cycle to its place and no other element |
| BlockRotation.PermuteArgs | deps/argtable3/argtable3.c:1585-1621 | two adjacent blocks are exchanged, each in order, and nothing else changes |
| OptionTable.Find | deps/argtable3/argtable3.c:1662-1667 | strchr: the first position, or none |
| OptionTable.Lookup | deps/argtable3/argtable3.c:1669-1708 | what is found has the word as a prefix of its name |
| OptionTable.LookupUnique | deps/argtable3/argtable3.c:1669-1708 | an exact name wins, and so does the only name a word abbreviates |
| OptionTable.FindLong | deps/argtable3/argtable3.c:1669-1708 | the search loop finds the exact name, else the first abbreviation unless another one would act differently |
| OptionTable.ReadLong | deps/argtable3/argtable3.c:1628-1787 | at least one argument is finished, and a long option is turned down only in favour of a letter |
| OptionTable.ReadOption | deps/argtable3/argtable3.c:1915-2010 | a step finishes arguments or leaves exactly the tail of the cluster |
| OptionTable.StuckOnlyOnDash | deps/argtable3/argtable3.c:1927-1930 | only a final - finishes nothing and leaves nothing |
| OptionScanner.ScanSplits | deps/argtable3/argtable3.c:1793-2010 | the reference scan splits the arguments into two subsequences and an untouched rest: none lost, repeated or reordered |
| OptionScanner.CallFollowsScan | deps/argtable3/argtable3.c:1793-2010 | a single call reports the first event of the scan from its state, and the scan goes on from there |
| OptionScanner.StallPersists | deps/argtable3/argtable3.c:1921-1930 | a scan that is going to stall still does after a call, and the call does not return -1 |
| OptionScanner.Ends | deps/argtable3/argtable3.c:1793-2010 | a scan that does not stall is ended by finitely many calls |
| OptionScanner.NeverEnds | deps/argtable3/argtable3.c:1921-1930 | a scan that stalls is not ended by any number of calls |
| OptionScanner.EndsIffNotStalled | deps/argtable3/argtable3.c:1793-2010 | the calls end if and only if the reference scan does not stall |
| OptionScanner.StuckExactly | deps/argtable3/argtable3.c:1921-1930 | a cluster finishes no argument if and only if it is plain letters followed by -, also with getopt_long_only tables |
| OptionScanner.StalledIff | deps/argtable3/argtable3.c:1915-2010 | the scan stalls if and only if it comes to an argument with such a cluster |
| OptionScanner.EndsUnlessStuck | deps/argtable3/argtable3.c:1793-2010 | the calls end if and only if it comes to none |
| OptionScanner.NoStuckArgumentEnds | deps/argtable3/argtable3.c:1921-1930 | arguments without such a cluster do not stall |
| OptionScanner.StallExample | deps/argtable3/argtable3.c:1921-1930 | the argument -a- never ends |
| OptionScanner.LetterValue | deps/argtable3/argtable3.c:1988-2009 | a value attached to an option letter or given as the next argument is reported the same, and the scan goes on the same; with getopt_long_only if neither form is a long option |
| OptionScanner.NameValue | deps/argtable3/argtable3.c:1662-1743 | so is the value of a long option, after = or as the next argument |
| OptionRendering.WordStands | deps/argtable3/argtable3.c:1669-1708 | every word stands for exactly one long option, or for none, or is torn between options that act differently, and it is only one of the three |
| OptionRendering.LongReads | deps/argtable3/argtable3.c:1709-1786 | a long option is reported with its value, none, or an error with optopt, in every combination of what it takes and what it is given; so are unknown and ambiguous names |
| OptionRendering.SingleReads | deps/argtable3/argtable3.c:1945-1991 | a letter that takes no value, or is none of the option letters, is reported and leaves the rest of its cluster |
| OptionRendering.LetterReads | deps/argtable3/argtable3.c:1988-2009 | a letter with a value is reported with the one that is attached, that is the next argument, or that is left out; a missing value is an error |
| OptionRendering.TailReads | deps/argtable3/argtable3.c:1915-2010 | whatever ends an option argument is read as one option with its event and the arguments that belong to it, also behind -W and in getopt_long_only tables |
| OptionRendering.ScanInvertsRendering | deps/argtable3/argtable3.c:1793-2010 | the scan of requests written as arguments, in front of any others, has exactly their events in front, mistakes included, sorts their arguments into options and operands, and goes on with the others |
| OptionRendering.ScanOfRequests | deps/argtable3/argtable3.c:1793-2010 | the scan of written requests alone |
| OptionRendering.ScanToEndMark | deps/argtable3/argtable3.c:1895-1912 | what stands behind -- is left alone |
| OptionRendering.EveryLineIsWritten | deps/argtable3/argtable3.c:1793-2010 | any arguments at all are written requests up to an end mark or a cluster that the scan does not get past |
| Getopt.Scanner.Permute | deps/argtable3/argtable3.c:1840-1845 | the skipped non-options go behind the options that follow them |
| Getopt.Scanner.Finish | deps/argtable3/argtable3.c:1838-1855 | at the end argv is in final order with optind at the boundary |
| Getopt.Scanner.SkipNonOption | deps/argtable3/argtable3.c:1856-1891 | a non-option joins the skipped block and nothing else changes |
| Getopt.Scanner.EndMark | deps/argtable3/argtable3.c:1895-1912 | -- counts as an option and ends the scan with argv in final order |
| Getopt.Scanner.Fetch | deps/argtable3/argtable3.c:1832-1913 | the scanner stands at the next option, or argv is in final order |
| Getopt.Scanner.ParseLongOptions | deps/argtable3/argtable3.c:1628-1787 | event, optarg, optopt and optind are those of reading a long option |
| Getopt.Scanner.ReadLetter | deps/argtable3/argtable3.c:1945-2010 | the same for an option letter, with place at the rest of its cluster |
| Getopt.Scanner.ReadCurrent | deps/argtable3/argtable3.c:1915-2010 | the same for the option at place |
| Getopt.Scanner.Next | deps/argtable3/argtable3.c:1793-2010 | one call of the scanner is one call on the arguments in reading order, however argv is rearranged |
| Getopt.Scanner.ParseTagged | deps/argtable3/argtable3.c:5294-5379 | calling until -1 gives the events of the reference scan, argv in final order, and optind behind the options |
| HashTable.PrimesAscend | deps/argtable3/argtable3.c:552-554 | the first listed size that is large enough is the least one |
| HashTable.Table.Create | deps/argtable3/argtable3.c:575-606 | an empty map in the least listed prime size greater than minsize; NULL if and only if minsize is above 2^30 |
| HashTable.Table.Search | deps/argtable3/argtable3.c:670-685 | the value of the key in the map, or nothing |
| HashTable.Table.Change | deps/argtable3/argtable3.c:874-892 | the value of an existing key is replaced; otherwise nothing happens |
| HashTable.Table.Insert | deps/argtable3/argtable3.c:647-668 | a new key is added, before which the table may grow |
| HashTable.Table.Expand | deps/argtable3/argtable3.c:608-641 | the same entries and the same map in the table of the next prime size, with its load limit; nothing at the last size |
| HashTable.Table.Relink | deps/argtable3/argtable3.c:627-634 | in-place relinking puts every entry into the bucket of its hash, none lost or doubled |
| HashTable.Table.Remove | deps/argtable3/argtable3.c:687-715 | the key goes, everything else stays |
| HashTable.BucketsPush | deps/argtable3/argtable3.c:660-667 | an entry put in front of its bucket leaves all buckets well linked |
| HashTable.BucketsRemove | deps/argtable3/argtable3.c:700-714 | so does one taken out anywhere |
| HashTableIterator.WalkVisitsOnce | deps/argtable3/argtable3.c:747-817 | the order of a walk holds every entry exactly once |
| HashTableIterator.Cursor.constructor | deps/argtable3/argtable3.c:747-768 | a walk starts at the first entry |
| HashTableIterator.Cursor.Advance | deps/argtable3/argtable3.c:782-817 | it goes on to the next entry with the right parent, or ends |
| HashTableIterator.Cursor.Remove | deps/argtable3/argtable3.c:819-846 | the current entry is taken out, and the walk goes on behind it with the right parent |
| CommandRegistry.Init | deps/argtable3/argtable3.c:4902-4904 | an empty registry |
| CommandRegistry.Register | deps/argtable3/argtable3.c:4910-4952 | the command is added, or replaces the one of that name |
| CommandRegistry.Run | deps/argtable3/argtable3.c:647-892 | any run of insertions that replace, removals, changes and searches acts like the same run on a finite map |
| CommandRegistry.WalkShowsKeys | deps/argtable3/argtable3.c:4975-4985 | a walk shows every registered name exactly once |
| CommandRegistry.RemoveOnWalk | deps/argtable3/argtable3.c:747-846 | a walk that removes any chosen names passes every entry once and leaves exactly the others |
| CommandRegistry.FindSubcmdIndex | src/app.c:52-71 | the least i from 1 on whose argv[i] is a registered name, or -1 |
| BitSmear.SmearStep | deps/bstrlib/bstrlib.c:82-93 | or-ing with a copy shifted by r doubles the number of leading ones |
| BitSmear.SnapUpLeastPower | deps/bstrlib/bstrlib.c:79-100 | the least power of two greater than i for 8 <= i < 2^30, at least 8, never less than i |
| Bstrings.CapacityExceeds | deps/bstrlib/bstrlib.c:79-115 | up to INT_MAX the capacity grows past the request if and only if that is below 2^30 or the capacity was larger already |
| Bstrings.CapacityMoves | deps/bstrlib/bstrlib.c:107-130 | and it grows at all if and only if the request is at least the capacity, or more from 2^30 bytes on |
| Bstrings.Bstring.Balloc | deps/bstrlib/bstrlib.c:107-170 | contents stay, the capacity grows as computed, and a reallocation copies no more than the old capacity |
| Bstrings.Bstring.Conchar | deps/bstrlib/bstrlib.c:388-399 | one character is appended |
| Bstrings.Bstring.Cat | deps/bstrlib/bstrlib.c:431-446 | a block that lies elsewhere is appended |
| Bstrings.Bstring.CatBlock | deps/bstrlib/bstrlib.c:431-446 | so is any block, also of the string itself, but with what the old buffer holds then if that moves |
| Bstrings.CatRightIff | deps/bstrlib/bstrlib.c:439-442 | what is appended is right whatever the old buffer holds if and only if the block is empty, lies elsewhere, or the buffer stays |
| Bstrings.CatFreedExample | deps/bstrlib/bstrlib.c:439-442 | an input for which it moves |
| Bstrings.Bstring.Delete | deps/bstrlib/bstrlib.c:1039-1062 | the part of the range that lies in the string goes; a range that ends before it starts is an error |
| Bstrings.Bstring.Pad | deps/bstrlib/bstrlib.c:1482-1530 | without a second string: the string is padded up to pos |
| Bstrings.Bstring.Insert | deps/bstrlib/bstrlib.c:1540-1583 | a block is inserted, with padding in front when pos is behind the end; a negative pos is an error |
| Bstrings.AppendsCopyLinear | deps/bstrlib/bstrlib.c:79-170 | after n appends the capacity is a power of two, and at most 2n bytes were copied |
| Bstrings.BuildByAppending | deps/bstrlib/bstrlib.c:388-399 | n appends to an empty bstring build the string with at most 2n bytes copied |
| SubstringSearch.IndexFrom | deps/bstrlib/bstrlib.c:1088-1096 | the least position of an occurrence from pos on, or BSTR_ERR |
| SubstringSearch.SkipMismatch | deps/bstrlib/bstrlib.c:1136-1143 | passing characters that do not fit skips no occurrence |
| SubstringSearch.Contiguous | deps/bstrlib/bstrlib.c:1160-1161 | a complete subsequence without gaps is the first occurrence |
| SubstringSearch.Restart | deps/bstrlib/bstrlib.c:1163-1166 | starting again behind a subsequence with gaps skips no occurrence |
| SubstringSearch.SearchUnrolled | deps/bstrlib/bstrlib.c:1130-1172 | the unrolled search returns the least position and stays in bounds |
| SubstringSearch.Binstr | deps/bstrlib/bstrlib.c:1097-1173 | so does the whole function, with its cases for bad positions and short patterns |
| FindReplace.SameTail | deps/bstrlib/bstrlib.c:1696-1712 | a search sees only what is behind its start |
| FindReplace.ReplaceStep | deps/bstrlib/bstrlib.c:1693-1716 | replacing all is replacing the first match and going on behind it |
| FindReplace.LiveMatch | deps/bstrlib/bstrlib.c:1696-1716 | the next match in the half rewritten buffer is the next one in the original |
| FindReplace.ReplaceEqual | deps/bstrlib/bstrlib.c:1693-1703 | overwriting matches in place replaces all |
| FindReplace.ReplaceShrinking | deps/bstrlib/bstrlib.c:1705-1729 | sliding the pieces to the left while searching replaces all |
| FindReplace.FinalReplaces | deps/bstrlib/bstrlib.c:1781-1797 | the pieces between the collected matches, with replacements between them, are the result |
| FindReplace.CollectMatches | deps/bstrlib/bstrlib.c:1745-1779 | the table holds the positions of all matches and the end |
| FindReplace.ReplaceExpanding | deps/bstrlib/bstrlib.c:1731-1804 | moving the pieces to the right, last one first, replaces all; where the replacement is read from a block given back, by what that block holds |
| FindReplace.FindReplaceEngine | deps/bstrlib/bstrlib.c:1660-1804 | replace-all on the original contents from pos on, also when the other strings are parts of the string, but with what the freed block holds where the replacement is read from there |
| FindReplace.ResultShowsReplacement | deps/bstrlib/bstrlib.c:1786-1797 | with a match, other replacement bytes make another result |
| FindReplace.RightUnlessFreed | deps/bstrlib/bstrlib.c:1684-1792 | all is replaced whatever that block holds if and only if it is not read |
| FindReplace.ReadsFreedMeans | deps/bstrlib/bstrlib.c:1681-1783 | it is read if and only if a longer replacement is a part of the string and ends in front of the start position, there is a match, and the result with its terminator is at least as long as the capacity, or longer from 2^30 bytes on |
| FindReplace.FreedExample | deps/bstrlib/bstrlib.c:1684-1792 | an input on which it is read |
| FindReplace.ReplaceOneByte | deps/bstrlib/bstraux.c:850-862 | for a single character it is a map over the characters |
| FindReplace.PassesEscape | deps/bstrlib/bstraux.c:844-862 | the four passes amount to one escape for each character |
| FindReplace.EscapedIsQuotable | deps/bstrlib/bstraux.c:844-862 | no quote or angle bracket is left, and every ampersand starts one of the four entities |
| FindReplace.UnescapeInvertsEscape | deps/bstrlib/bstraux.c:844-862 | reading the four entities in the escaped text gives every text back |
| FindReplace.EscapeInvertsUnescape | deps/bstrlib/bstraux.c:844-862 | a text without bare characters that need escaping is the escaped form of what is read in it |
| FindReplace.SgmlEncode | deps/bstrlib/bstraux.c:850-862 | the string becomes its escaped form |
| ReadStream.Scan | deps/bstrlib/bstrlib.c:2111-2112 | with a sentinel behind the bytes, the loop finds the first terminator |
| ReadStream.LineSkips | deps/bstrlib/bstrlib.c:2121-2146 | bytes without a terminator only lengthen the line |
| ReadStream.BStream.Open | deps/bstrlib/bstrlib.c:2041-2053 | nothing of the core stream is lost or read ahead |
| ReadStream.BStream.SetBufferLength | deps/bstrlib/bstrlib.c:2060-2066 | the length changes, what is still to be read does not |
| ReadStream.BStream.ReadLine | deps/bstrlib/bstrlib.c:2098-2224 | exactly the prefix through the first terminator, or all that is left, is appended; an error means nothing was left |
| ReadStream.BStream.ReadDirect | deps/bstrlib/bstrlib.c:2125-2154 | the same when it has to be read from the core stream, with the over-read pushed back |
| ReadStream.BStream.Read | deps/bstrlib/bstrlib.c:2235-2291 | old and new bytes add up and nothing is read ahead; n bytes or all come if and only if the one-read path is not taken or the core stream offers them |
| ReadStream.BStream.ReadWanted | deps/bstrlib/bstrlib.c:2268-2290 | the reads in a row bring what is wanted, or all |
| ReadStream.BStream.EofIsEnd | deps/bstrlib/bstrlib.c:2068-2071 | at the end of the stream nothing is left to be read |
| ReadStream.BStream.Unread | deps/bstrlib/bstrlib.c:2347-2350 | the bytes come before what was still to be read |
| ReadStream.Conserved | deps/bstrlib/bstrlib.c:2098-2350 | over any run, what was handed out on balance and what remains is what there was |
| ReadStream.RunsAgree | deps/bstrlib/bstrlib.c:2098-2350 | in a run whose reads are all full, what is handed out does not depend on chunks or buffer lengths |
| ReadStream.Differ | deps/bstrlib/bstrlib.c:2245-2258 | for every other run there is a stream of which a core stream that gives single bytes makes something else |
| ReadStream.RunsAgreeIff | deps/bstrlib/bstrlib.c:2098-2350 | a run hands out the same from slow and quick core streams, for every content, if and only if its reads are full |
| ReadStream.Run | deps/bstrlib/bstrlib.c:2098-2350 | every run of calls does what the specification of runs says, and exactly what is computed for it on a slow or a quick core stream |
| ReadStream.ShortRead | deps/bstrlib/bstrlib.c:2250-2258 | two bytes are wanted and are there, and one comes |
| SplitJoin.StrList.Append | deps/bstrlib/bstrlib.c:2788-2810 | an entry is added, with the table doubled when it is full |
| SplitJoin.JoinLength | deps/bstrlib/bstrlib.c:2379-2412 | the size worked out beforehand is the size of the join |
| SplitJoin.JoinBlk | deps/bstrlib/bstrlib.c:2369-2426 | the result is the join, in a block that it fills exactly |
| SplitJoin.SplitIsInverse | deps/bstrlib/bstrlib.c:2676-2692 | joining the parts restores the string, no part holds the character, and there is one part more than characters |
| SplitJoin.JoinIsInverse | deps/bstrlib/bstrlib.c:2676-2692 | any list without the character is what its join is split into |
| SplitJoin.SplitCb | deps/bstrlib/bstrlib.c:2676-2692 | the loop hands over exactly those parts |
| SplitJoin.BSplit | deps/bstrlib/bstrlib.c:2817-2838 | a list of exactly those parts |
| SplitJoin.JoinInvertsSplit | deps/bstrlib/bstrlib.c:2754-2781 | joining what splitting at a string gives restores the string, also for the empty separator |
| SplitJoin.SplitIsSplitAll | deps/bstrlib/bstrlib.c:2676-2692 | splitting at a byte splits at every one |
| SplitJoin.SplitsAllIff | deps/bstrlib/bstrlib.c:2754-2781 | splitting at a string splits at every separator if and only if that is one byte or no two stand side by side |
| SplitJoin.SideBySide | deps/bstrlib/bstrlib.c:2770-2777 | an input with two side by side, and what comes out |
| SplitJoin.AllPartsFree | deps/bstrlib/bstrlib.c:2736-2740 | the parts of the full splitting hold no separator |
| SplitJoin.ReplaceAllIsRejoined | deps/bstrlib/bstrlib.c:1660-1804 | replacing all is splitting at every match and joining with the replacement |
| SplitJoin.SplitStrCb | deps/bstrlib/bstrlib.c:2754-2781 | the loop hands over the parts, for separators of every length |
| Sextets.OctetsFromSextets | deps/bstrlib/bstraux.c:325-331 | three octets are restored from their four groups of six bits |
| Base64.SymbolRoundTrip | deps/bstrlib/bstraux.c:307-391 | the symbol tables are inverse, and no symbol is padding or a line end |
| Base64.FromIsEncode | deps/bstrlib/bstraux.c:318-345 | breaking before the next group is breaking behind every full line |
| Base64.Base64Encode | deps/bstrlib/bstraux.c:313-376 | the output is the encoded full lines of 57 bytes and the rest |
| Base64.NextQuad | deps/bstrlib/bstraux.c:405-497 | one turn of the outer loop reads up to four symbols |
| Base64.Base64DecodeEx | deps/bstrlib/bstraux.c:398-498 | bytes and truncation flag are those of the text, padded or not |
| Base64.RoundTrip | deps/bstrlib/bstraux.c:313-498 | decoding inverts encoding, without the flag, for every string |
| Base64.LinesFit | deps/bstrlib/bstraux.c:318-324 | no encoded line is longer than 76 characters |
| Base64Text.SymbolIsInAlphabet | deps/bstrlib/bstraux.c:307-307 | the encoder's symbols are the letters, digits, + and / in the order of the alphabet |
| Base64Text.DecodeSymbolIsPlace | deps/bstrlib/bstraux.c:381-391 | the decoder takes each character for its place in the alphabet, and tells = from what means nothing |
| Base64Text.DecodeMeans | deps/bstrlib/bstraux.c:398-498 | for every text: the flag is clear if and only if the symbols in front of the first = are whole groups and the text ends, or two over and == follows, or three over and = follows; the bytes are eight of the twelve bits of neighbouring symbols, three for each group and one or two for a padded rest |
| Base64Text.EncodedLength | deps/bstrlib/bstraux.c:313-376 | the number of characters that the encoder writes |
| Base64Text.EncodedInLines | deps/bstrlib/bstraux.c:313-376 | 76 characters of the alphabet and then CR and LF, with padding only at the end and only when the length is no multiple of 3 |
| UuCodec.UuEncode | deps/bstrlib/bstraux.c:727-758 | lines of up to 45 bytes with their length in front |
| UuCodec.LineRoundTrip | deps/bstrlib/bstraux.c:509-578 | decoding a line inverts encoding it, without complaint |
| UuCodec.RoundTrip | deps/bstrlib/bstraux.c:509-758 | so do the lines of a whole text, and nothing is behind the last line end |
| UuCodec.Decoder.DecodeOctets | deps/bstrlib/bstraux.c:528-565 | the three octets of a group, the soft errors and the ones that give the line up |
| UuCodec.Decoder.DecLine | deps/bstrlib/bstraux.c:509-578 | exactly the bytes of the line are appended, and a bad line is counted or reported |
| UuCodec.Decoder.DecodeWhole | deps/bstrlib/bstraux.c:638-660 | lines are decoded one after the other, none twice, and deleted |
| UuCodec.Decoder.DecodeTail | deps/bstrlib/bstraux.c:666-666 | what is behind the last line end is decoded and stays |
| UuCodec.Decoder.Part | deps/bstrlib/bstraux.c:620-683 | what is handed out and what is still owed is what was owed, with the tail once more at the end of the input |
| UuCodec.GoodIsAll | deps/bstrlib/bstraux.c:638-652 | without a bad line the lines in front of the first one are all |
| UuCodec.UuDecodeEx | deps/bstrlib/bstraux.c:594-683 | the decoded lines and then the tail for ever, cut at INT_MAX; an error if that is empty; the bad lines counted; where a bad line stops it, the lines through that one and then those still buffered once more |
| UuCodec.OnlyGoodIff | deps/bstrlib/bstraux.c:643-649 | the output is only the lines in front of the bad one if and only if nothing is repeated or INT_MAX comes first |
| UuCodec.DecodeString | deps/bstrlib/bstraux.c:594-613 | for a string that one read takes in, it is so if and only if the lines through the bad one give no bytes; otherwise they come twice at least |
| UuCodec.StuckLine | deps/bstrlib/bstraux.c:643-649 | an input on which a line comes twice |
| UuCodec.DecodeExInvertsEncode | deps/bstrlib/bstraux.c:594-758 | for an encoded string that is the string, with no bad line |
| UuCodec.EndsWithLines | deps/bstrlib/bstraux.c:662-683 | the output ends with the last terminated line if and only if the tail decodes to nothing or INT_MAX comes first, and comes to INT_MAX otherwise |
| UuCodec.UnterminatedLine | deps/bstrlib/bstraux.c:662-683 | a line without its end is such a tail |
| UuText.LineMeans | deps/bstrlib/bstraux.c:514-575 | what any line decodes to: nothing if its length does not fit or it is given up, otherwise its bytes, where what stands for nothing counts as zeros |
| UuText.GoodLineIff | deps/bstrlib/bstraux.c:514-578 | a line is good if and only if its first character stands for at most 45 bytes and every character that these need is in the line and one of the codes 32 to 96; then it holds their bits |
| UuText.CutLine | deps/bstrlib/bstraux.c:527-575 | an encoded line that is cut off in front of a character that is needed is bad; what is cut off or added behind them does not matter |
| UuText.EncodedInLines | deps/bstrlib/bstraux.c:727-758 | length character, four printable characters for every three bytes, CR and LF, and then the other lines |
| Justify.JustifyLeft | deps/bstrlib/bstraux.c:116-132 | in place, the words with single spaces between them, and still the same words |
| Justify.Finished | deps/bstrlib/bstraux.c:122-131 | what the compaction has written, less a space at the end, is that line |
| Justify.TerminatorFitsIff | deps/bstrlib/bstraux.c:98-110 | the terminator lies in the buffer if and only if the length stays below 2^30 or the capacity was larger already |
| Justify.TerminatorBehind | deps/bstrlib/bstraux.c:98-110 | an input for which it does not |
| Justify.InsertChrs | deps/bstrlib/bstraux.c:98-110 | the characters are inserted, behind padding if need be; none, or a negative position, are an error |
| Justify.GapStep | deps/bstrlib/bstraux.c:190-192 | a gap rounded to the nearest leaves the others between q and q + 1, and the last gap takes what is left |
| Justify.NextGapNearest | deps/bstrlib/bstraux.c:190-190 | a gap is the nearest whole number to an even share of the spaces that are left, the larger of two |
| Justify.ReachesWidth | deps/bstrlib/bstraux.c:180-184 | with two words or more the width is reached exactly if the line with single spaces is not longer, unless it is one character short |
| Justify.WordsOfLay | deps/bstrlib/bstraux.c:184-198 | words laid out with gaps are the words of the line |
| Justify.JustifyMargin | deps/bstrlib/bstraux.c:168-202 | exactly the width, the words in order, every gap q or q + 1 with q at least 1 and each nearest to an even share of the spaces that are left; else left justified |
| WriteStream.BWriteStream.WriteBstr | deps/bstrlib/bstraux.c:1070-1104 | delivered and buffered bytes are the old ones and the new ones, with fewer than minBuffSz buffered; after a refusal a prefix is delivered |
| WriteStream.BWriteStream.Flush | deps/bstrlib/bstraux.c:1056-1062 | everything is delivered and nothing buffered |
| WriteStream.BWriteStream.SetBuffLength | deps/bstrlib/bstraux.c:1135-1141 | the threshold changes and nothing else |
| WriteStream.BWriteStream.Close | deps/bstrlib/bstraux.c:1149-1160 | everything is delivered unless the sink refuses |
| WriteStream.Run | deps/bstrlib/bstraux.c:1056-1141 | over any run nothing is lost, repeated or reordered |
| WriteStream.Session | deps/bstrlib/bstraux.c:1024-1160 | an accepting sink gets exactly what was written |
| Utf.ParseSound | deps/bstrlib/utf8util.c:151-178 | what parses is the encoding of a legal code point |
| Utf.ParseComplete | deps/bstrlib/utf8util.c:151-178 | the encoding of a legal code point parses |
| Utf.Utf8Iterator.GetNextCodePoint | deps/bstrlib/utf8util.c:135-192 | a step goes on and yields a legal code point or errCh; if the text is followed by a NUL or cuts no sequence off, it goes exactly behind the code point, or behind the continuation bytes |
| Utf.WholeEncode | deps/bstrlib/utf8util.c:151-178 | in an encoded text no step looks behind the end |
| Utf.StepsOfEncode | deps/bstrlib/utf8util.c:135-192 | iterating over an encoded text gives its code points without an error |
| Utf.EncodeOfSteps | deps/bstrlib/utf8util.c:135-192 | a text without an error is the encoding of its code points |
| Utf.IsUTF8Content | deps/bstrlib/buniutil.c:26-35 | for such a text true if and only if it is the encoding of legal code points other than NUL |
| Utf.AppendCodePoint | deps/bstrlib/buniutil.c:139-173 | the encoding of a code point is appended |
| Utf.AppendBlkUcs4 | deps/bstrlib/buniutil.c:121-199 | the encodings are appended, with errCh for what is not legal; without one nothing is |
| Utf.IterateAppended | deps/bstrlib/buniutil.c:121-199 | iterating over what has been appended gives the code points, without an error |
| Utf.ScanFindsInText | deps/bstrlib/utf8util.c:46-116 | from any byte of an encoded text the distance and the value are those of the code point around it |
| Utf.ScanBackwards | deps/bstrlib/utf8util.c:46-116 | the result is that distance and value, or an error |
| UtfText.LegalMeans | deps/bstrlib/utf8util.c:25-26 | legal are the code points of 17 planes without the surrogates and the last two of each plane |
| UtfText.TableIsUnique | deps/bstrlib/utf8util.c:114-121 | the encoding of a code point is the one row of the table that gives it: lead byte by range, continuation bytes, bits put together |
| UtfText.ErrorStepIff | deps/bstrlib/utf8util.c:135-192 | a step of the iterator is an error if and only if no legal code point is encoded there, and then it skips one byte and all continuation bytes behind it |
| UtfText.ScanTrueIff | deps/bstrlib/utf8util.c:46-116 | in any text, what the scan finds does reach over the place it started from if and only if the bytes behind its lead byte are continuation bytes |
| UtfText.ScanOfBrokenText | deps/bstrlib/utf8util.c:79-87 | an input on which it does not |
| UtfText.ReplacedMeans | deps/bstrlib/buniutil.c:121-199 | nothing is appended if and only if something is illegal and errCh is too; otherwise legal code points stay and errCh takes the place of all others |
| UtfText.PairByTable | deps/bstrlib/buniutil.c:69-87 | a code point above the first plane is a high and a low surrogate with its 20 bits |
| UtfText.SkipMeans | deps/bstrlib/buniutil.c:55-60 | in any text, skipping goes to the byte that starts code point number pos, or to the end |
| UtfText.PackCuts | deps/bstrlib/buniutil.c:69-87 | without room enough the code points that fit are written, and a replacement if one word is left for a pair |
| Utf16.WordsOfPoints | deps/bstrlib/buniutil.c:244-266 | decoding well-formed words loses nothing |
| Utf16.PointsOfWords | deps/bstrlib/buniutil.c:69-87 | encoded code points are well-formed and decode to themselves |
| Utf16.NoticedIff | deps/bstrlib/buniutil.c:249-261 | what is appended has errCh for every broken unit if and only if no high surrogate and the word read next add up to a legal code point other than errCh, or the call fails anyway |
| Utf16.BrokenPairSlips | deps/bstrlib/buniutil.c:258-260 | a broken pair that comes out as a legal code point, one that does not, and a high surrogate at the end |
| Utf16.StandardIff | deps/bstrlib/buniutil.c:249-261 | what is appended has errCh for every surrogate without its partner and nothing else if and only if no word is lost behind one and none slips |
| Utf16.SwallowedWord | deps/bstrlib/buniutil.c:258-260 | an input on which a legal word is lost |
| Utf16.NextPoint | deps/bstrlib/buniutil.c:245-262 | one turn decodes a word or a pair |
| Utf16.AppendPoints | deps/bstrlib/buniutil.c:243-273 | the blocks of 64 make one text, and a failure takes back all of them |
| Utf16.AppendBlkUTF16 | deps/bstrlib/buniutil.c:215-274 | the words without their byte order mark are appended as UTF-8, with errCh for what is not legal; a high surrogate at the end takes the word behind the array |
| Utf16.SwappedText | deps/bstrlib/buniutil.c:201-241 | a text with swapped bytes, behind a swapped mark or with one passed in, is decoded like the text behind its mark or without one |
| Utf16.SkipsCodePoints | deps/bstrlib/buniutil.c:55-60 | skipping pos code points leaves the encoding of the others |
| Utf16.PackAll | deps/bstrlib/buniutil.c:69-87 | with room enough the words written are the encoding |
| Utf16.GetBlkUTF16 | deps/bstrlib/buniutil.c:46-96 | for such a text as many words as fit, their number, and zeros behind them; an error if there is no text |
| Utf16.RoundTrip | deps/bstrlib/buniutil.c:46-274 | encoding and decoding as the two functions do gives plain words back |
| Utf16.ThereAndBack | deps/bstrlib/buniutil.c:46-274 | plain words appended to an empty string and read back from its buffer are the same, with their number and zeros behind |
| HtmlSerializer.FlaggedExactly | deps/libxml2/HTMLtree.c:989-1022 | write by write, the carried flag gives the intended output if and only if it is right at every text that escaping changes |
| HtmlSerializer.FlaggedIffInPlace | deps/libxml2/HTMLtree.c:989-1072 | that is so if and only if every such text is a child of a raw-text element exactly when one leads to it with no filled sibling in front on the way |
| HtmlSerializer.RawTextAgrees | deps/libxml2/HTMLtree.c:989-1070 | it does when raw-text elements hold only text |
| HtmlSerializer.RawFlagStrays | deps/libxml2/HTMLtree.c:1015-1070 | a raw-text element that holds an element is written wrongly |
| HtmlSerializer.Enter | deps/libxml2/HTMLtree.c:848-1060 | what is written for a node on arrival, and whether the walk goes down |
| HtmlSerializer.Leave | deps/libxml2/HTMLtree.c:1076-1109 | what is written when its children are done |
| HtmlSerializer.GoDown | deps/libxml2/HTMLtree.c:989-994 | going down loses nothing of what is still to be written |
| HtmlSerializer.GoUp | deps/libxml2/HTMLtree.c:1070-1074 | neither does going up |
| HtmlSerializer.GoBeside | deps/libxml2/HTMLtree.c:1065-1068 | nor going to the next sibling |
| HtmlSerializer.Ascend | deps/libxml2/HTMLtree.c:1062-1114 | the inner loop closes what is done and stops at the next node or at the root |
| HtmlSerializer.NodeDumpInternal | deps/libxml2/HTMLtree.c:831-1116 | on a well-linked tree it ends with the recursive serialization under the carried flag, which is the intended one if and only if every text is in its place |
| HtmlReader.SingleReads | deps/libxml2/HTMLtree.c:848-1060 | what is written for a node that is not gone into, of any kind, is read back as that node with its name and contents |
| HtmlReader.SerReads | deps/libxml2/HTMLtree.c:831-1116 | a reader with a stack of open elements, which knows the delimiters alone, gets the tree back from the intended output: every node in its place, every element opened and closed once, every text escaped unless it is raw |
| HtmlReader.FlaggedReads | deps/libxml2/HTMLtree.c:831-1116 | so it does from the output under the carried flag, with texts escaped as that flag says |
| HtmlReader.OutputIsRead | deps/libxml2/HTMLtree.c:831-1116 | of a whole output nothing is left open or unread; when raw-text elements hold text alone, the tree as intended is read |

## Left out

- Allocation failure, destroying strings, write protection and NULL arguments: each is settled by one branch.
- `src/utils.c` and the rest of `src/app.c`: paths, files, logging and dispatch through libraries that are not part of this model.
- Printing, help text, error messages, `strtol` and other conversions, locale functions, the regular expression matcher of argtable3.
- Option scanning with POSIXLY_CORRECT, with option letters that do not start with `:`, and through plain `getopt`.
- HashTable.LoadLimit: the float product is an exact fraction, so rounding of very large sizes is not modelled.
- HashTable.Table.Insert: duplicate keys are excluded; argtable3.c:177-181 calls what a table with one returns undefined and asks callers to remove first, as the registry does.
- CommandRegistry.HashKey: characters are taken as unsigned bytes; where `char` is signed, names outside ASCII hash differently, on which no property depends.
- CommandRegistry.Register: names and values are compared and kept as values, so freeing them is not modelled.
- FindReplace.FindReplaceEngine: the other strings are parts of the string or lie elsewhere; references to what its buffer holds behind it are not modelled.
- Bstrings.Bstring.Balloc: `realloc` always moves the block; one that extends it in place would leave it readable.
- SplitJoin.StrList: the entries are byte sequences, not bstrings of their own, because nothing changes them in place.
- SplitJoin.JoinBlk: sizes beyond the int range are not refused.
- ReadStream.BStream.ReadLine: `bsreadlna` and `bsreadlnsa` are one method over a set of terminators, because they differ only in the test of a byte.
- `bsreadln`, `bsreadlns`, `bsread` and `bspeek`: they clear or copy around the operations that are modelled.
- ReadStream.BStream.Read: a core stream that reports an error or more bytes than it was asked for is not modelled.
- UuCodec.UuDecodeEx: without a counter, how long the lines through a bad one go on to be repeated depends on chunk sizes and is not described; the overflow at INT_MAX bytes is not modelled; the input stream is any stream, not only one over a string.
- Base64.Base64DecodeEx: where the original returns NULL without a place for the flag, the model returns the flag.
- Justify.JustifyMargin: the space is a byte; a width of 2^30 or more is excluded unless the line stays left justified or the capacity is larger than the width, because the terminator of `bInsertChrs` may lie behind the buffer.
- Justify.InsertChrs: a terminator behind the buffer is excluded; the condition is exact (`Justify.TerminatorFitsIff`).
- `bJustifyRight` and `bJustifyCenter`: `bJustifyLeft` followed by one insertion.
- Utf.Utf8Iterator.GetNextCodePoint: of a sequence that is cut off at the end of a text without a NUL it is only said that the step goes on and yields a legal code point or errCh, because the memory behind the text decides.
- Utf16.AppendBlkUTF16: that the word behind the array can be read is taken for granted.
- `bssplitstrcb`: it hands over its last piece without searching it.
- HtmlSerializer.NodeDumpInternal: encodings, meta tags and formatting are off, names are present, and the fallback for a corrupted tree is not modelled; what attributes, namespaces and the document type render to comes with the node.
- HtmlSerializer.FlaggedExactly: escaping is any function on strings, and outputs are compared write by write, not as one string of bytes.
- The C++ wrappers, the test programs and the other small files of the libraries.
