# qemt in Dafny

qemt is a set of small Unix tools written in C without a libc. This project models the parts of it that
compute something hard and proves what they are for. One module stands for one C file or one part of it:
code that updates state in place is a class or a method with loops, proved against a function or a relation,
and the properties of that function are lemmas.

- **Decompression** (`include/deflate.h`). `Bits`, `Words` and `BitReader` give the bit reader, which shifts and
  masks a 32-bit word, as a position in a bit string. `Huffman` and `HuffTable` give the code tables: canonical
  codes, decoding as the computation of a rank, the table builder as a stable counting sort. `Crc32` has the
  checksum, `CrcRemainder` the polynomial by which it is the remainder, `Output` the ring window, the buffer and the
  partial writes. `Deflate` says what the decompressor computes from the source bytes, `Inflate` is the decompressor
  over its parts, `DeflateRoundTrip` encodes blocks and proves that they come back, `HeaderCondition` says which
  dynamic headers the code is right about, `Truncation` exactly when the decompressor does not return, and
  `InflateExample` decodes two sources of a few bytes.
- **Lines** (`include/string.h`, `tools/grep.c`, `tools/uniq.c`). `Lines` has a file that may be read in any
  pieces and the line buffer that grep and uniq share; `Regex` the backtracking matcher, `RegexText` how patterns
  are written, `Grep` and `Uniq` the two streams.
- **Other text tools.** `CStrings` has the C string primitives, `Glob` the matcher of `tools/find.c`, `Sed` the
  substitution of `tools/sed.c`, `Diff` the edit script of `tools/diff.c`, and `DiffText` that its printed text
  determines it.
- **Archives** (`tools/tar.c`). `TarHeader` has the flat header block, its fields and paths, `TarArchive` what an
  archive is and what extracting and listing make of bytes, `TarTool` the program for every answer of the system,
  `TarExample` one archive byte by byte.
- **Hashes** (`include/sha256.h`, `include/md5.h`). `HashBlocks` has the padding and folding that both share,
  `Sha256` and `Md5` the two standards and the programs, `Sha256Example` and `Md5Example` the digest of "abc" in
  either.
- **Pipelines** (`tools/sh.c`). `Pipeline` has descriptor tables, pipes and the stages of a command line.

`dafny verify dfyconfig.toml` checks the whole project.

What the system decides is an argument or a nondeterministic choice: how much a read or write transfers,
whether a pipe or a fork fails, whether a command is found or a file can be opened, and what uninitialised
memory holds.

Where the code does not do what it is for, the code is modelled as it is, and a lemma says exactly when it
does:

- The Huffman table builder leaves room for the symbols without a code and the decoder does not expect that.
  The tables are right exactly when no length is zero or all are (`Huffman.BuildFaithfulIff`), and any one symbol
  that has a code is decoded rightly exactly when no length is zero (`Huffman.SymbolRightIff`;
  `Huffman.MisplacedSymbol` is an instance); `HeaderCondition.HeaderRightIff` says what that means for dynamic
  blocks. Round trips are stated for both layouts: `AsWritten` is the code, `Intended` the placement that RFC 1951
  means, a variant that is not the code.
- A truncated stream reads as zeros and need not end. `Truncation.NeverReturnsOn42` gives a source of 42 bytes on
  which the decompressor does not return as long as no write fails; `Truncation.NeverEndsIff` and
  `Truncation.StuckIff` say for exactly which sources it does not: those that run out within the symbols of a
  dynamic block whose first literal/length symbol is a literal, or a length with a distance.
  `Truncation.EndlessIsForever` says that never means never.
- A star in a file name pattern is not tried at the end of the name. The matcher is right on all names exactly
  when the pattern does not end in two stars (`Glob.MatchesLanguageIff`, `Glob.TwoStars`).
- uniq compares the first 4095 characters, up to a NUL. Its groups are the run-length encoding exactly when no line
  is longer or contains one (`Uniq.CollapseIsRunLengthIff`, `Uniq.HiddenByNul`, `Uniq.LongLines`).
- A path in an archive survives exactly if it has up to 100 bytes or a slash where it can be cut
  (`TarHeader.PathRebuilt`, `TarHeader.LongName`). A member comes back as it was exactly if in addition its size is
  below 8^11 and a link has a short target, anything else a mode that is not 0 (`TarArchive.UnchangedIff`).
- tar announces a file that it cannot open and leaves out its contents. What is created is the archive exactly if
  every file that is not empty can be opened (`TarTool.CreatedIff`, `TarTool.UnreadableFile`), as long as no read
  comes short; one that does puts the contents of a file out of step (`TarTool.CopiedIff`, `TarTool.TwoPieces`).
- grep and uniq stop before the end of a stream exactly when something comes behind 65535 characters without a
  newline (`Lines.StopsIff`, `Lines.TooLongLine`).
- The stages of a pipeline get the right descriptors exactly when the shell's descriptor 0 is open
  (`Pipeline.AllWiredIff`, `Pipeline.InputLost`).

## Model

| member | source | states |
|---|---|---|
| BitReader.InflateBits.Read | include/deflate.h:59-69 | for up to 24 bits, returns the little-endian value of the next n bits of the source read low bit first and moves the position by n; with fewer bits left it returns 0, keeps the position and has taken in all bytes |
| BitReader.InflateBits.Refill | include/deflate.h:60-64 | the refill keeps the position; afterwards either enough bits are there, with at most 7 more than asked for or the source used up, or the source is used up |
| BitReader.WithByteHolds | include/deflate.h:60-64 | or-ing a byte in above the n buffered bits makes the 32-bit buffer hold its bits behind them |
| BitReader.ReadHolds | include/deflate.h:65-68 | masking gives the value of the lowest n buffered bits, and shifting leaves the buffer holding the others |
| Words.NumberOf | include/deflate.h:59-69 | the number that a 32-bit word is, is the value of the bits it holds, low bit first |
| BitReader.InflateBits.EmptyIsValid | include/deflate.h:195-198 | dropping the buffer lands on a byte boundary: the position is then eight times the byte index |
| Bits.PackBits | include/deflate.h:59-69 | every bit string is the start of the bits of some byte string, so encodings can be given as bytes |
| Huffman.DecodeRankOfCode | include/deflate.h:97-109 | under Kraft's inequality, decoding the canonical code of a symbol followed by any bits gives its rank in (length, symbol) order and consumes exactly the code |
| Huffman.DecodeRankSound | include/deflate.h:97-109 | conversely, whatever rank is found, at the end of the input too, is that of a symbol whose canonical code are the bits consumed, followed by zeros if the input ended before |
| Huffman.BeyondIsWeight | include/deflate.h:100-106 | the first code beyond each length is the sum of Kraft's inequality, for every length vector |
| Huffman.CodeFits | include/deflate.h:97-109 | under Kraft's inequality every canonical code fits its length |
| Huffman.SortedAtRank | include/deflate.h:91-93 | a symbol stands at its rank among the symbols ordered by length and index |
| Huffman.DecodeOfCode | include/deflate.h:97-109 | with a faithful table, the code of a symbol decodes to that symbol |
| Huffman.BuiltFaithful | include/deflate.h:78-95 | the built table is faithful if no length is 0, and with the intended placement always |
| Huffman.BuildFaithfulIff | include/deflate.h:78-95 | the table as built is faithful, whatever memory held before, if and only if no length is 0 or all are |
| Huffman.SymbolRightIff | include/deflate.h:78-109 | under Kraft's inequality, any one symbol is decoded from its code as written, whatever memory held before, if and only if no length is 0 |
| Huffman.MisplacedSymbol | include/deflate.h:78-109 | with lengths 0, 1, 1 the code of symbol 2 is decoded to symbol 1 as written, to symbol 2 as intended |
| HuffTable.InflateHuff.CountLengths | include/deflate.h:82-83 | counts how many symbols have each length |
| HuffTable.InflateHuff.Offsets | include/deflate.h:87-89 | each length starts behind the shorter ones, the zero lengths included |
| HuffTable.InflateHuff.Place | include/deflate.h:91-93 | every write is in bounds and puts the symbols of each length in index order behind its start; other slots stay |
| HuffTable.InflateHuff.Build | include/deflate.h:78-95 | the table is the counts and, from count[0] on, the symbols with a code as a stable counting sort gives them |
| HuffTable.PlacedSorted | include/deflate.h:91-93 | the slots from count[0] on hold exactly the symbols with a code, by length and then by index |
| HuffTable.InflateHuff.DecodeSymbol | include/deflate.h:97-109 | the loop returns the table entry of the rank, or -1, with the table index in bounds for every count vector, over-subscribed ones too |
| Crc32.Crc32Update | include/deflate.h:18-23 | one byte is eight steps of the register, with the polynomial of CrcRemainder.PolyIsGenerator |
| Crc32.Crc32Buf | include/deflate.h:25-30 | is the register run over all bytes, complemented before and after; CrcRemainder.CheckValue is an instance |
| Crc32.StepLinear | include/deflate.h:21 | a step is linear over GF(2) |
| Crc32.StepInjective | include/deflate.h:21 | a step is injective |
| Crc32.FeedIsSteps | include/deflate.h:18-23 | xor-ing in a word at once and stepping is the same as feeding its bits one by one |
| Crc32.RunIsFeed | include/deflate.h:25-30 | the register after a byte string is the register fed with its bits, low bit first |
| Crc32.LittleEndianHolds | include/deflate.h:25-30 | the word of up to four bytes, the first one lowest, holds their bits low bit first |
| Crc32.RunIsSteps | include/deflate.h:25-30 | up to four bytes are as many steps on the register xor the little-endian word of them: words can be fed at once |
| Crc32.BurstDetected | include/deflate.h:25-30 | messages of one length that differ, and only within 32 consecutive bits, have different checksums |
| Crc32.FourBytesDetected | include/deflate.h:25-30 | a change within four consecutive bytes is always detected |
| CrcRemainder.PolyIsGenerator | include/deflate.h:18-23 | the constant of the code holds the coefficients of the generator of RFC 1952, x^32+x^26+x^23+x^22+x^16+x^12+x^11+x^10+x^8+x^7+x^5+x^4+x^2+x+1, from x^31 on, in its low bit first |
| CrcRemainder.EmptyIffMultiple | include/deflate.h:18-30 | fed with the coefficients of a polynomial, highest power first, the register is 0 if and only if it is a multiple of the generator |
| CrcRemainder.SameCrcIff | include/deflate.h:25-30 | two messages of one length have the same checksum if and only if their difference is a multiple of the generator |
| CrcRemainder.CheckValue | include/deflate.h:18-30 | the checksum of the digits 1 to 9 is 0xCBF43926 |
| Output.RingStep | include/deflate.h:165 | storing a byte keeps the window the last 32768 bytes of zeros followed by everything emitted |
| Output.WrapIndex | include/deflate.h:293-295 | the wrap-around of the 64-bit write position does not disturb the ring index |
| Output.CopyRepeats | include/deflate.h:292-297 | for every distance from 1 to 32768 a copy appends its length, and each byte repeats the one a distance before, in the history of a window of zeros followed by the output |
| Output.CopyPeriodic | include/deflate.h:292-297 | byte j of a copy is byte j modulo the distance of the last bytes of that history, so a copy longer than its distance is periodic |
| Output.Fd.Write | include/deflate.h:154 | a write takes any positive number of bytes up to all, or fails, which the descriptor counts |
| Output.InflateOut.Flush | include/deflate.h:149-162 | however writes are cut up, it succeeds exactly if no write fails; then the file has everything emitted, otherwise a prefix of it |
| Output.InflateOut.Put | include/deflate.h:164-168 | window, checksum, buffer and total account for one byte more |
| Output.InflateOut.Emit | include/deflate.h:164-172 | fails exactly if a write fails, which leaves the file with what it had and a prefix of what is emitted; otherwise the context invariant is kept: window, buffer, total and checksum are those of everything emitted |
| Output.InflateOut.CopyMatch | include/deflate.h:292-297 | for every distance from 1 to 32768 the ring gives what a copy from the full history gives, unless a write fails; then the file has a prefix of it |
| Output.InflateOut.WrittenSoFar | include/deflate.h:149-172 | the file has received exactly the whole buffers emitted |
| Output.InflateOut.GetCrc | include/deflate.h:312-314 | returns the checksum of everything emitted |
| Deflate.ExpandTurn | include/deflate.h:246-264 | an accepted turn of the code length loop adds at least one length, never goes past the total, and all lengths stay below 16 |
| Deflate.LengthTable | include/deflate.h:113-121 | the base lengths and extra bits in closed form: (i - 4) / 4 extra bits from the fifth symbol on, none before, and none for the last one, which is length 258 |
| Deflate.DistanceTable | include/deflate.h:123-131 | the base distances and extra bits in closed form: (i - 2) / 2 extra bits from the third symbol on, none before |
| Deflate.OrderTable | include/deflate.h:225-232 | the order in which the code length code lengths are sent, in closed form |
| Inflate.Inflater.StoredBlock | include/deflate.h:195-208 | a stored block yields its bytes, or fails when the input is too short; a write error is reported exactly if a write fails, and leaves a prefix |
| Inflate.Inflater.ExpandSymbol | include/deflate.h:246-264 | one turn of the code length loop, with the run clamped to the total, in the array |
| Inflate.Inflater.ReadLengths | include/deflate.h:237-265 | the code lengths are the run-length expansion clamped to hlit + hdist, or bad |
| Inflate.Inflater.ReadHeader | include/deflate.h:225-232 | the three counts and the lengths of the code length code, in their order of transmission |
| Inflate.Inflater.BuildFixed | include/deflate.h:210-222 | builds the two fixed code tables |
| Inflate.Inflater.BuildDynamic | include/deflate.h:223-269 | builds the two code tables of a dynamic block, or reports bad data |
| Inflate.Inflater.MatchPair | include/deflate.h:280-298 | a length-distance pair appends the copy it stands for, by the tables of Deflate.LengthTable and Deflate.DistanceTable, or is rejected; a write error is reported exactly if a write fails, and leaves a prefix |
| Inflate.Inflater.InflateBlock | include/deflate.h:195-302 | one block of any type is decoded to what the source bytes stand for, with the same four ways to end |
| Inflate.Inflater.InflateCodes | include/deflate.h:271-299 | the symbol loop emits what its symbols stand for; one that repeats itself goes on until a write fails, and is otherwise seen after any number of turns; a write error is reported exactly if a write fails, and leaves a prefix of what has been emitted |
| Inflate.Inflater.GoOn | include/deflate.h:271-299 | from the first turn that consumes nothing on, the loop is left only by a failing write, and any number of turns emit what the turns of the model emit |
| Inflate.LongValue | include/deflate.h:308 | the conversion to long keeps a number below 2^63, and gives of every other the signed one that is equal to it modulo 2^64 |
| Inflate.Inflater.InflateBlocks | include/deflate.h:191-303 | block after block up to the final one, with the same four ways to end |
| Inflate.InflateToFd | include/deflate.h:179-309 | if no write fails, the file gets exactly the decompressed bytes and their number is returned as a long; -1 on bad data, with the whole buffers written; no return exactly in the endless case, with the whole buffers of what has been emitted after some turn. If one fails it is the last, -1 is returned, and the file has what it had and a prefix of the output, of an endless one as far as it has come |
| DeflateRoundTrip.EveryMatch | include/deflate.h:113-131 | every length from 3 to 258 and every distance from 1 to 32768 is expressible |
| DeflateRoundTrip.CodesOfTokens | include/deflate.h:271-299 | decoding encoded tokens gives their LZ77 expansion and stops behind the end-of-block code |
| DeflateRoundTrip.ExpandOps | include/deflate.h:242-265 | the code length loop gives back the lengths that the run-length operations make up |
| DeflateRoundTrip.EveryRepeat | include/deflate.h:248-253 | symbol 16 with two extra bits can repeat the last length from three to six times |
| DeflateRoundTrip.EveryZeros | include/deflate.h:254-261 | symbol 17 with three extra bits gives from three to ten zeros, symbol 18 with seven from eleven to 138 |
| DeflateRoundTrip.HeaderOf | include/deflate.h:225-232 | the header of a dynamic block is read back |
| DeflateRoundTrip.FixedCodes | include/deflate.h:210-222 | both fixed codes use up the whole code space and have no zero length |
| DeflateRoundTrip.FixedCodeTable | include/deflate.h:210-222 | the code of every symbol of a fixed block, as section 3.2.6 of RFC 1951 lists it |
| DeflateRoundTrip.StoredOf | include/deflate.h:195-208 | a stored block after any fill bits, with any value in the unchecked complement, gives back its data |
| DeflateRoundTrip.BodyOf | include/deflate.h:195-302 | a stored, fixed or dynamic block is decoded to what it stands for; a dynamic one as written if no length of the literal code is 0 and, if some token refers back, none of the distance code |
| HeaderCondition.HeaderRightIff | include/deflate.h:223-302 | as written, a dynamic header with usable codes is decoded rightly with every token list, whatever memory held, if and only if no length of its literal code is 0, and none of its distance code unless no match can be written with it |
| DeflateRoundTrip.RoundTrip | include/deflate.h:179-309 | for every list of blocks, decoding its encoding gives the expansion and leaves the reader at the end of the final block, whatever the tables held before |
| DeflateRoundTrip.EveryTokenCodable | include/deflate.h:210-222 | the fixed codes have a code for every token, so every token list can be encoded |
| DeflateRoundTrip.EveryOutput | include/deflate.h:179-309 | every byte string is the expansion of some stream to which the round trip applies |
| DeflateRoundTrip.InflateOfCompress | include/deflate.h:179-309 | the same for the encoding packed into bytes |
| InflateExample.FixedExample | include/deflate.h:179-309 | the bytes 4B 44 02 00, a fixed block with a literal and a match, are decoded to twelve times the letter a, whatever memory held |
| InflateExample.StoredExample | include/deflate.h:179-309 | the bytes 01 03 00 FC FF 61 62 63, a stored block, are decoded to abc |
| Truncation.CallOnEncoded | include/deflate.h:179-309 | called on such an encoding, the decompressor writes exactly the expansion, returns its length, and has read to the end of the final block |
| Deflate.TurnProgress | include/deflate.h:271-299 | while input is left, every turn of the symbol loop consumes some |
| Truncation.DecodeAtEnd | include/deflate.h:97-109 | past the end of the input every table decodes to its first symbol, or to -1 if it has no codes, and the position stays |
| Truncation.StuckIff | include/deflate.h:271-299 | once the input is used up, the symbol loop never ends if and only if the first literal/length symbol of the tables is a literal, or a match length whose first distance symbol is a distance |
| Truncation.EndlessIff | include/deflate.h:271-299 | from any position, the symbol loop never ends if and only if its symbols use up the input and the tables are such |
| Truncation.NeverEndsIff | include/deflate.h:191-303 | as long as no write fails, the decompressor does not return if and only if its blocks come to a dynamic one of which that is true |
| Truncation.TurnsRepeat | include/deflate.h:271-299 | after every number n of turns from there the loop is still at the end of the input and has emitted at least n bytes more |
| Truncation.EndlessIsForever | include/deflate.h:271-299 | the loop is called endless if and only if it goes on after every number of turns |
| Truncation.CutOff | include/deflate.h:191-303 | a source that ends behind the code lengths of a dynamic block keeps the decompressor from returning if and only if the two tables are such |
| Truncation.CutOffInLiterals | include/deflate.h:191-303 | so does every such source whose literal/length code has no zero length and starts with a literal, whatever memory held before |
| Truncation.NeverReturnsOn42 | include/deflate.h:179-309 | there is a source of 42 bytes, final block or not, on which the decompressor does not return as long as no write fails, whatever memory held before |
| Truncation.FixedEnd | include/deflate.h:210-222 | past the end of the input the fixed code reads as symbol 256, the end of the block |
| Truncation.OnlyDynamicSticks | include/deflate.h:191-303 | stored and fixed blocks always come to an end |
| CStrings.StrNcpy | include/string.h:57-62 | copies, fills up with NULs and, for a shorter source, writes one NUL more than the count |
| CStrings.StrCmp | include/string.h:40-43 | 0 exactly for equal strings, otherwise the difference of the first characters that differ |
| CStrings.MemMove | include/string.h:112-122 | overlapping moves within an array keep the bytes, in both directions, and nothing else changes |
| Lines.UlongToStr | include/string.h:154-163 | the decimal digits of the number |
| Lines.NumberOfDecimal | include/string.h:154-163 | they denote the number |
| CStrings.LowerLetters | include/string.h:219 | the lower case of the alphabet, and every other character stays |
| Sed.StrStr | include/string.h:89-97 | the first occurrence at or after the start, if there is one |
| Regex.MatchHere | tools/grep.c:18-33 | true exactly if the text from the position on starts with a word of the pattern, whose elements are those of RegexText.ReadsBack, and is at its end for a final dollar; terminates |
| Regex.MatchStar | tools/grep.c:35-41 | true exactly if some run of the character, possibly empty, is followed by a match of the rest |
| Regex.MatchPlus | tools/grep.c:43-50 | the same with a run of at least one |
| Regex.MatchPattern | tools/grep.c:52-59 | true exactly if the pattern matches at the start, for a caret, or anywhere in the line |
| Regex.HereCons | tools/grep.c:18-33 | a pattern matches exactly if its first element takes a word and the rest matches behind it |
| Regex.MatchedSubstring | tools/grep.c:52-59 | on a line, a pattern without caret is found exactly if some substring is in its language |
| RegexText.ReadsBack | tools/grep.c:18-33 | elements written out, a special character behind a backslash, a repeated one in front of * or + and any one as a dot, read back from any place of a pattern, in front of its end or of a final dollar |
| RegexText.ReadIsWritable | tools/grep.c:18-33 | whatever is read from a pattern can be written so |
| RegexText.ReadsBackIff | tools/grep.c:18-33 | a list of elements reads back if and only if none that starts with * or + comes behind a dot or a single * or +; no pattern at all reads as another list |
| RegexText.FindsWritten | tools/grep.c:52-59 | a pattern so written, unless it starts with a repeated caret, is found exactly if some part of the line is in the language of its elements; behind a caret one at the start, in front of a dollar one at the end, with both the whole line |
| RegexText.Repetition | tools/grep.c:18-50 | ab*c matches any number of letters b, ab+c one or more, a.c exactly one |
| Regex.MatchPatternNoCase | tools/grep.c:62-71 | matches the lower-cased first 4095 characters of both |
| Regex.CaseIgnored | tools/grep.c:62-71 | the answer is the same for patterns and texts that differ only in case |
| Regex.NothingCutOffIff | tools/grep.c:62-71 | nothing is cut off if and only if there are up to 4095 characters; then it is matching in lower case |
| Lines.SplitJoin | tools/grep.c:88-116 | the lines put together again are the text, and none contains a newline |
| Lines.SplitAppend | tools/grep.c:88-116 | splitting goes on after a complete line |
| Lines.LineBuffer.Fill | tools/grep.c:83-86 | everything read is either a consumed line or in the buffer; nothing more is read only at the end, after an error, or if the buffer is full |
| Lines.LineBuffer.TakeLine | tools/grep.c:88-95 | takes the next line, unless it is incomplete and more may come; the last one also without a newline |
| Lines.LineBuffer.Shift | tools/grep.c:118-125 | keeps what is left of the buffer, at its front |
| Lines.StopsIff | tools/grep.c:83-86 | without a failed read, reading ends before the end of the stream if and only if something comes behind 65535 characters without a newline |
| Lines.ShortLines | tools/grep.c:83-86 | if all lines have fewer than 65535 characters, nothing does |
| Lines.TooLongLine | tools/grep.c:83-86 | 65536 characters without a newline are too many, 65535 are not |
| Grep.Searcher.Line | tools/grep.c:94-113 | a line is counted, matched against the pattern and printed with its number |
| Grep.GrepStream | tools/grep.c:73-136 | however reads cut up the stream, prints the selected ones of the lines read with their right numbers, or their count, and returns 0 exactly if there is one; if no read fails, these are the lines of the whole stream exactly if nothing comes behind 65535 characters without a newline |
| Grep.PrintsSelected | tools/grep.c:94-113 | what is printed are exactly the selected lines, each once, in order, behind a prefix with the number of its place; their number is what is counted |
| Grep.InvertedLines | tools/grep.c:98-103 | with the inverting switch exactly the other lines are selected, so both counts add up to the number of lines |
| Grep.SelectsWritten | tools/grep.c:98-99 | a line is selected exactly if a part of it is in the language of the elements written, or with the inverting switch exactly if none is |
| Grep.PrefixForms | tools/grep.c:105-110 | the name of the file and the number of the line, each with a colon, as the switches say |
| Uniq.Collapser.Line | tools/uniq.c:52-67 | an equal line adds to the count, another one starts a new group after the last one is printed |
| Uniq.Collapser.Remember | tools/uniq.c:62-64 | the buffer reads as the first 4095 characters of the line |
| Uniq.Collapser.Finish | tools/uniq.c:82-90 | the last group is printed too |
| Uniq.UniqStream | tools/uniq.c:30-90 | however reads cut up the stream, prints the report on the collapsed lines read; if no read fails, the whole stream is read exactly if nothing comes behind 65535 characters without a newline |
| Uniq.CountsAddUp | tools/uniq.c:52-67 | the counts add up to the number of lines, for all lines |
| Uniq.PrintsRepeated | tools/uniq.c:53-61 | with the switch for duplicates exactly the groups of two lines or more are printed, as without it |
| Uniq.PrintsTexts | tools/uniq.c:53-61 | without switches the texts of the groups are printed, one a line |
| Uniq.CountColumns | tools/uniq.c:54-59 | a count stands at the right of seven columns, or takes as many as it has digits, with a space behind it |
| Uniq.ShortLinesCollapse | tools/uniq.c:52-67 | for C strings of up to 4095 characters the groups are the run-length encoding: expanded they are the lines, neighbours differ |
| Uniq.CollapseIsRunLengthIff | tools/uniq.c:52-67 | for the lines of a stream, the groups are the run-length encoding if and only if every line has up to 4095 characters and no NUL |
| Uniq.HiddenByNul | tools/uniq.c:52-67 | two different lines that agree up to a NUL are counted as two equal ones |
| Uniq.LongLines | tools/uniq.c:52-67 | a line of 4096 characters is not recognised when it comes again, and loses its last one |
| Glob.MatchName | tools/find.c:11-31 | true exactly if the name is in the language of the pattern as the code reads its stars; terminates |
| Glob.EffectiveSound | tools/find.c:11-31 | whatever is accepted is in the language of the pattern |
| Glob.EffectiveStar | tools/find.c:14-21 | a star tries the rest at every position but the end of the name |
| Glob.MatchesLanguageIff | tools/find.c:11-31 | the answer is right for all names if and only if the pattern does not end in two stars |
| Glob.TwoStars | tools/find.c:11-31 | two stars do not match the empty name, which is in their language |
| Glob.GlobPlain | tools/find.c:25-28 | a pattern without stars and question marks is the only name in its language |
| Glob.GlobMarks | tools/find.c:14-24 | n question marks stand for the names of n characters, and with a star behind them for those of n or more |
| Sed.PiecesCut | tools/sed.c:68-95 | a line can be cut leftmost at the occurrences: joined around the searched text the pieces are the line, and it occurs nowhere earlier |
| Sed.CutUnique | tools/sed.c:68-95 | there is only one such cut |
| Sed.RestAtMatch | tools/sed.c:76-85 | at a match, the result is the text before it, the replacement and the result for the rest |
| Sed.SubstitutedIs | tools/sed.c:68-95 | however the line is cut leftmost, the result has the replacement between all pieces, or only between the first one and the rest of the line |
| Sed.CutOff | tools/sed.c:79-95 | a result is printed as it is if and only if it has up to 4095 characters, a longer one up to there |
| Sed.SedSubstitute | tools/sed.c:68-95 | prints the first 4095 characters of the line with the first, or every, occurrence of the leftmost cut replaced; the line itself for an empty search; terminates |
| Diff.SyncUnique | tools/diff.c:64-98 | the look-ahead has one result: the smallest distance below 100 with a match, the first file before the second |
| Diff.LooksAhead | tools/diff.c:65-98 | a match 99 lines ahead is found, and one further on is not |
| Diff.LookAhead | tools/diff.c:64-98 | prints the hunk for that result and moves behind it |
| Diff.SimpleDiff | tools/diff.c:54-132 | prints the hunks of the script, with their line numbers; every turn uses up lines |
| Diff.ScriptFits | tools/diff.c:54-132 | every hunk accounts for exactly the lines of both files at its place, and the lines between hunks are equal |
| Diff.FitsApplies | tools/diff.c:54-132 | a script that fits turns the first file into the second |
| Diff.FitsReversed | tools/diff.c:54-132 | its reversal fits the other way round |
| Diff.ScriptCorrect | tools/diff.c:54-132 | applied to the first file the script gives the second, reversed and applied to the second it gives the first |
| Diff.EmptyIffEqual | tools/diff.c:54-132 | the script is empty if and only if the files are equal |
| DiffText.TextDeterminesScript | tools/diff.c:54-132 | two scripts for lines without newlines that are printed alike are the same |
| DiffText.PrintedApplies | tools/diff.c:54-132 | whatever script is read from the printed text, it turns the first file into the second, and reversed the second into the first |
| DiffText.PrintedForms | tools/diff.c:64-109 | the three kinds of hunks as they are printed, with one line and with two |
| Diff.DiffLines | tools/diff.c:156-166 | returns 0 exactly for equal files, and prints the script |
| TarHeader.UlongToOct | tools/tar.c:39-45 | writes the last octal digits of the number and a NUL |
| TarHeader.OctToUlong | tools/tar.c:32-37 | reads the octal digits at the front of a field |
| TarHeader.OctRoundTrip | tools/tar.c:32-45 | a number of any size reads back modulo the power of eight that the field holds |
| TarHeader.TarChecksum | tools/tar.c:47-53 | the loops compute the checksum, which by TarHeader.ChecksumIsSum is the sum with the checksum field as spaces |
| TarHeader.Checksum | tools/tar.c:47-53 | is below 8^6, so that six octal digits hold it |
| TarHeader.ChecksumIsSum | tools/tar.c:47-53 | for every block, the sum of all its bytes once the eight from 148 on are spaces |
| TarHeader.ChecksumOfJoin | tools/tar.c:47-53 | for all fields, the sum of the block that has spaces as its checksum |
| TarHeader.SumOfEqual | tools/tar.c:47-53 | n equal bytes add up to n times their value |
| TarHeader.ChecksumOfFields | tools/tar.c:47-53 | does not depend on the field that holds it |
| TarHeader.JoinOverwritten | tools/tar.c:10-30 | writing at the start of a field changes that field alone |
| TarHeader.CopiedFields | include/string.h:57-62 | a string copied into a field puts one zero into the next field if it is shorter |
| TarHeader.WriteHeader | tools/tar.c:214-264 | the block is exactly the seventeen fields of the entry; no byte that a copy leaves beyond its field survives |
| TarHeader.AllFields | tools/tar.c:214-264 | mode and magic are written after the copies that reach into them |
| TarHeader.FindSlash | tools/tar.c:222-223 | the first slash at which both parts of a long path fit, or none if there is none |
| TarHeader.BuildPath | tools/tar.c:61-71 | the path in the array is prefix, slash and name, or the name alone |
| TarHeader.PathRebuilt | tools/tar.c:61-71 | a path is rebuilt if and only if it has at most 100 bytes or a slash at some i with len - 100 <= i < min(len, 155); otherwise its first 100 bytes are |
| TarHeader.LongName | tools/tar.c:61-71 | a name of 101 bytes without a slash loses its last one |
| TarHeader.HeaderReadsBack | tools/tar.c:214-264 | the checksum verifies, and path, mode, size, type and link target come back as far as their fields hold them |
| TarExample.SampleHeader | tools/tar.c:214-264 | the header of a directory a with mode 0755 and user and group 1000 is the block of 512 bytes written out, with the checksum 006140 |
| TarExample.InOctal | tools/tar.c:39-45 | four numbers in their fields, digit by digit |
| TarTool.CreateMember | tools/tar.c:292-323 | hands the header to write_all and, of a file that is not empty and can be opened, the contents as the reads give them, in blocks of their own; it goes on after a failed write, and without one nothing is missing |
| TarTool.Create | tools/tar.c:377-391 | hands all members as created and two zero blocks to write_all, and returns 0, whatever cannot be opened, comes short or fails; without a failed write the archive has exactly that |
| TarTool.ExtractData | tools/tar.c:163-176 | for every answer of the reads, the contents that they make up, or failure at the first block that is not whole |
| TarTool.ExtractMemberAt | tools/tar.c:120-177 | for every answer of the reads, does what the type says, and passes over the contents of a file that cannot be opened |
| TarTool.TarExtract | tools/tar.c:86-181 | for every answer of the reads, extracts any bytes as Extracted says: checksum errors, blocks that are not whole, zero blocks and the two-block end included |
| TarTool.TarList | tools/tar.c:183-212 | for every answer of the reads, the names that listing any bytes prints |
| TarTool.ExtractedWhole | tools/tar.c:86-181 | if no read comes short, extracting from reads is extracting the bytes, in the sense of the round trip |
| TarTool.ListedWhole | tools/tar.c:183-212 | and listing from reads is listing them |
| TarTool.ShortReadsFail | tools/tar.c:86-181 | however short the reads are, if none fails and every file can be opened, extracting either does exactly what the bytes say or returns 1 |
| TarTool.CopiedIff | tools/tar.c:305-317 | a file of n bytes is copied into whole blocks, whatever is in it, if and only if no read of it comes short |
| TarTool.TwoPieces | tools/tar.c:305-317 | a file of two bytes that is read in two pieces takes up two blocks instead of one |
| TarTool.CreatedIff | tools/tar.c:292-323 | if no read comes short, what is created is the archive if and only if every file that is not empty can be opened |
| TarTool.CreatedExtracted | tools/tar.c:86-181 | from files to files: then, with sizes below 8^11, extracting what was created gives every member back with status 0 if no read comes short, and the same or status 1 if none fails and all files can be opened |
| TarArchive.HeaderAlone | tools/tar.c:302-306 | a file that could not be opened leaves its header alone: extracting takes what comes behind it for its contents, or fails if there is too little |
| TarTool.UnreadableFile | tools/tar.c:302-306 | so a file of one byte 1 that could not be opened is extracted, with status 0, as one of a byte 0 |
| TarArchive.ExtractMember | tools/tar.c:86-181 | extracting a created member gives it back and goes on behind it, even if its data is all zero blocks |
| TarArchive.RoundTrip | tools/tar.c:86-181 | for any list of entries with sizes below 8^11, extracting the archive gives status 0 and every member back, whichever files can be opened |
| TarExample.SampleExtracted | tools/tar.c:86-181 | extracting that block and two zero blocks makes the directory with its mode |
| TarExample.ByType | tools/tar.c:120-147 | a valid block of type 1 makes a hard link, of type 2 a symbolic one, of type 5 a directory, and no other one does |
| TarExample.DefaultModes | tools/tar.c:121-177 | without a mode a directory gets 0755 and a file 0644 |
| TarArchive.UnchangedIff | tools/tar.c:86-181 | the first action of extracting a member gives it back unchanged if and only if its size is below 8^11, its path is faithful, and a link has a target of up to 99 bytes, anything else a mode that is not 0 |
| TarArchive.ListArchive | tools/tar.c:183-212 | listing the archive prints the same names |
| TarArchive.ListsWhatItExtracts | tools/tar.c:183-212 | for any bytes that extract without an error and in which directories and links have size 0, listing prints the names that extracting visits |
| HashBlocks.PaddedTail | include/sha256.h:84-99 | how the padding falls on the end of the message: one block, or two if the mark leaves no room for the length |
| HashBlocks.FoldPadded | include/sha256.h:84-99 | the digest state is the fold over the whole blocks followed by that tail |
| HashBlocks.AbsorbByte | include/sha256.h:75-82 | one byte more keeps the context the fold over the whole blocks and the rest in the buffer, with a 64-bit count that wraps around |
| HashBlocks.ZeroFill | include/sha256.h:88-95 | fills the buffer with zeros up to an index and leaves the rest |
| Sha256.Rotations | include/sha256.h:21-27 | the shifting macros are the rotations of FIPS 180-4 |
| Sha256.WordOfBytes | include/sha256.h:44-48 | the bytes of a word, high byte first, make up the word |
| Sha256.BytesOfWord | include/sha256.h:44-48 | and the word that four bytes make up has these bytes |
| Sha256.NextRound | include/sha256.h:56-60 | one turn of the loop is one round of section 6.2.2 |
| Sha256.LengthHeld | include/sha256.h:85-97 | read highest byte first, the length bytes of a message of n bytes are 8n modulo 2^64, which is 8n below 2^61 bytes |
| Sha256.Context.Transform | include/sha256.h:40-64 | adds the 64 rounds over the message schedule to the state |
| Sha256.Context.Update | include/sha256.h:75-82 | the context stands for the bytes hashed so far, followed by the new ones |
| Sha256.Context.Final | include/sha256.h:84-108 | the digest is that of everything hashed |
| Sha256.HashPieces | include/sha256.h:66-108 | for every way of cutting a message into update calls, the digest is that of the whole message |
| Sha256Example.DigestOfAbc | include/sha256.h:40-108 | the digest of abc is ba7816bf 8f01cfea 414140de 5dae2223 b00361a3 96177a9c b410ff61 f20015ad |
| Md5.Rotations | include/md5.h:25 | the shifting macro is a rotation for every shift amount |
| Md5.WordOfBytes | include/md5.h:49-53 | the bytes of a word, low byte first, make up the word |
| Md5.BytesOfWord | include/md5.h:49-53 | and the word that four bytes make up has these bytes |
| Md5.IndexIsWord | include/md5.h:57-60 | the index formulas give the word order listed in section 3.4 of RFC 1321 |
| Md5.Moved | include/md5.h:62-66 | moving all words on by one register turns the order in which an operation names the registers into that of the next |
| Md5.NextOperation | include/md5.h:55-67 | one turn of the loop is one operation of section 3.4, with the registers moved on |
| Md5.LengthHeld | include/md5.h:91-104 | read lowest byte first, the length bytes of a message of n bytes are 8n modulo 2^64, which is 8n below 2^61 bytes |
| Md5.Context.Run | include/md5.h:44-67 | after 64 turns the variables are the registers A, B, C and D |
| Md5.Context.Update | include/md5.h:82-89 | the context stands for the bytes hashed so far, followed by the new ones |
| Md5.Context.Final | include/md5.h:91-114 | the digest is that of everything hashed, with the length modulo 2^64 |
| Md5.HashPieces | include/md5.h:73-114 | for every way of cutting a message into update calls, the digest is that of the whole message |
| Md5Example.DigestOfAbc | include/md5.h:44-114 | the digest of abc is 90015098 3cd24fb0 d6963f7d 28e17f72 |
| Pipeline.Process.Pipe | tools/sh.c:279-280 | both ends get the lowest free descriptors, or the call fails and leaves -1 |
| Pipeline.RedirectedIff | tools/sh.c:297-299 | a stage gets exactly its input at 0, its output at 1 and the shell's other descriptors if and only if descriptor 0 is open in the shell or its pipe ends stay clear of 0 and 1 |
| Pipeline.Released | tools/sh.c:304-306 | after the closes the shell holds its own descriptors and the read end for the next stage |
| Pipeline.Execute | tools/sh.c:276-317 | for any number of stages and whatever pipe, fork or command fails, the shell's descriptors are as before on every return, a missing command returns 127, and exactly the forked stages execute a command; all of them are wired right if descriptor 0 is open in the shell, and, if nothing fails and there are two stages or more, only then |
| Pipeline.AllWiredIff | tools/sh.c:276-317 | in a run of two stages or more with all pipes and children there, all stages are wired right if and only if descriptor 0 is open in the shell |
| Pipeline.WiredAsAnswered | tools/sh.c:276-317 | so they are in every run that went as the system answered, if nothing fails |
| Pipeline.OnlyEnds | tools/sh.c:297-299 | a stage holds no other pipe end, so the write end of a pipe is open in one stage only |
| Pipeline.InputLost | tools/sh.c:297-299 | with descriptor 0 closed the second stage loses its input |

## Left out

- HuffTable.InflateHuff.Build: the storage of the code length table is kept from one dynamic block to the next, where C leaves it indeterminate; its first contents are arbitrary.
- Output.InflateOut.Emit: the position in the 64-bit counters wraps around, other integers of the decompressor stay small and are not bounded.
- Grep.GrepStream: the loop that grep and uniq have in common is written once, as Lines.LineBuffer; printing is taken to write everything.
- TarTool.Create: when writes fail, the archive has a prefix of what each was given, but their lengths are not arguments of the model; negative modification times are not modelled.
- TarTool.TarExtract: writing the contents of a file, the creation of parent directories and unlinking are taken to succeed, as actions on the file system; the verbose output is not modelled.
- TarHeader.Checksum: bytes are numbers from 0 to 255, the signedness of char in comparisons with digits makes no difference and is not modelled.
- Sed.SedSubstitute: parsing of the command, addresses and the main loop of sed.
- Diff.SimpleDiff: reading the files into arrays of at most 8192 lines, where blank lines end the reading; the script is not claimed to be minimal.
- Pipeline.Execute: parsing and variable expansion, redirections of single commands, the exit status of the last stage.
- Sha256.Context.Final: wiping or reuse of a finished context; the constant tables are transcribed, and tied to the standards by one message each.
- The complement of the length of a stored block and the checksum of a gzip file, which the program does not check; the gzip header parser.
- Directory walking, system call wrappers, argument parsing and usage texts of all tools.
- sort, wc, tr, head, tail, cut, nl, paste, dd and the tools that report on the system, which would add only easy members.
- The tools for networking and privileges.
