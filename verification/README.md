# Book formats and their indexes: a verified model

This project models the code of the reader and its server that takes book files apart: EPUB Canonical Fragment
Identifiers (CFIs), the MOBI and KF8 decoders, the ZIP index of comic book archives, the EPUB resource loader, the
dictionary index, and the order and naming rules of the library. Each part is modelled with the branches, constants and
error outcomes of the code, and its promises are proved for all inputs. Code that changes variables step by step is a
method or a class here, proved against a function of its inputs; what the code is for is proved about those functions.

The main results:

- **CFI text.** It is known what any text of lexemes is read as (`CfiReading.LexemesAreRead`,
  `CfiReading.IdentifierIsRead`). An identifier with plain sides is read back as its `Reread` form
  (`CfiRoundTrip.ParseToString`). Any identifier is tokenized as it was printed exactly when its sides are plain and
  no spatial offset is misread (`CfiExactness.PrintedTokensIff`), and comes back unchanged exactly when it is
  printable (`CfiSides.RoundTripIffPrintable`, for all but one kind, which is named under "Left out").
- **CFI tree.** Every single step, with any index and offset, leads where the standard says (`CfiSteps.LastStepIs`).
  With every text position of every document tree, the identifier printed, parsed and resolved is the same point of
  the document (`CfiDocument.PositionRoundTrip`), and the sign of the comparison is document order, zero only for one
  and the same point (`CfiOrder.CompareIsDocumentOrder`). Both are extended to ranges, up to the document range that
  is made from a selection's text (`CfiSelection.SelectionRoundTrip`).
- **CFI ranges.** Building a range loses no endpoint (`CfiRange.BuiltRangeKeepsEndpoints`). The comparison is
  antisymmetric everywhere; it is a total preorder on orderly identifiers, and for any three at all it is known
  exactly when each law of a preorder fails (`CfiTransitivity.CompareIsTransitiveIff`).
- **MOBI.** HUFF/CDIC decompression undoes compression with any canonical code
  (`HuffCanonical.CanonicalTextIsDecoded`, `HuffCode.TextExpands`), and the decompressor, which overwrites its
  dictionary while it recurses, returns what the recursion without a cache returns, from every dictionary state it can
  reach. PalmDOC decoding inverts its encoding and grows no input more than fivefold. The place of every byte of an
  assembled KF8 section is known (`Kf8.FragmentMoves`, `Kf8.EveryByteIsFromSomewhere`). Trailing entries, sections,
  anchors, links and the two-ended text buffer have their own round trips and conservation laws.
- **ZIP.** Reading what a specification writer lays out gives the members back, Zip64 fields included; and for any
  bytes at all an index that is returned stays inside the file, and it is known which records are passed over
  (`ZipRecords.EntryIsLostIff`).
- **Loader.** Over whole sessions each reference count is the number of live parents, nothing listed is revoked,
  exactly those items are live that a loaded section needs (`Loader.LiveIffReachable`), and after the last unload
  nothing is left and every URL has been revoked exactly once.
- **Dictionary, series, paths.** The search ends exactly when a condition on a single word holds, and lookup then
  returns the equal words, all of them exactly when no empty word is missed; series indices are totally ordered, by
  the numbers before and after the point; path segments have at most 255 bytes of UTF-8, keep whole code points and
  keep their extension.

## Files

| file | models |
|---|---|
| `Wrappers.dfy`, `Bytes.dfy`, `Decimal.dfy`, `Utf16.dfy`, `Utf8.dfy`, `Lex.dfy` | shared: outcomes, byte runs and little-endian numbers, decimal text, UTF-16 text and its UTF-8 encoding, lexicographic order |
| `CfiSyntax.dfy` | the CFI printer, tokenizer and parser |
| `CfiPrintable.dfy`, `CfiScan.dfy`, `CfiRoundTrip.dfy`, `CfiParsed.dfy` | what can be printed and is read back; tokenizing printed text; the round trip; what the parser returns |
| `CfiFields.dfy`, `CfiExactness.dfy`, `CfiTally.dfy`, `CfiSides.dfy` | the fields in printed text; which are misread; what a misread side does; which identifiers come back |
| `CfiReading.dfy`, `CfiExamples.dfy` | what any lexemes and tokens are read as; identifiers letter by letter |
| `CfiRange.dfy`, `CfiTransitivity.dfy` | collapsing, building and comparing ranges; when the comparison is transitive |
| `CfiDom.dfy`, `CfiPositions.dfy`, `CfiResolve.dfy`, `CfiSteps.dfy`, `CfiOrder.dfy`, `CfiIds.dfy`, `CfiDocument.dfy`, `CfiSelection.dfy` | the document tree: indexed child nodes, parts of a node, resolving, single steps, document order, ids, ranges and elements, selections |
| `PalmDoc.dfy`, `HuffCdic.dfy`, `TrailingEntries.dfy` | text records: two decompressors, and what is cut off before them |
| `HuffCode.dfy`, `HuffCanonical.dfy` | prefix codes and their tables, and what was compressed with them; canonical codes |
| `Mobi6.dfy`, `Kf8.dfy`, `RawBuffer.dfy` | sections, anchors and links; skeletons and fragments; the two-ended buffer |
| `ZipReader.dfy`, `ZipRecords.dfy` | the index reader; which records of any directory it passes over |
| `ZipWriter.dfy`, `ZipRoundTrip.dfy`, `ZipExamples.dfy` | the specification writer, the round trip, and archives byte by byte |
| `Loader.dfy` | the reference-counting protocol |
| `Dictionary.dfy`, `SeriesIndex.dfy` | dictionary lookup and chunked access, series order |
| `PathSegments.dfy`, `PathNames.dfy` | limiting path segments; what names and paths become |

## Conventions

- A tree node is named by the child positions that lead to it from the document element. The text of identifiers is a
  sequence of characters; a byte is a number below 256; words and paths are sequences of UTF-16 units, numbers below 65536.
- `Thrown` stands for the exception the code would raise, `None` for a returned `null`.
- Calls into code outside the model are parameters: lowering the case of a word, inflating, the matches of a page break
  pattern. A URL is a fresh number. A file read returns any number of bytes from one up to what is asked for and there.
- Asynchronous methods are taken one call at a time.

## Model

| member | source | states |
|---|---|---|
| CfiSyntax.Tokenizer | client/public/assets/foliate/epubcfi.js:21-79 | the loop over the trimmed characters and the final empty one pushes exactly the tokens of the state machine `Next`, for every string |
| CfiSyntax.RunAppend | client/public/assets/foliate/epubcfi.js:28-77 | the tokenizer's state is all that is carried from one character to the next: scanning two texts in a row is scanning their concatenation |
| CfiSyntax.Parser | client/public/assets/foliate/epubcfi.js:83-105 | the parser's loop gives the parts that the tokens say, and throws exactly when a field is set before any step |
| CfiScan.PrintedTokens | client/public/assets/foliate/epubcfi.js:11-136 | with plain sides, what is printed tokenizes to the tokens of its fields, whatever special characters, line ends or wrapper-like text its ids and texts hold; after a spatial offset that is not a number the others become character offsets |
| CfiRoundTrip.ParseToString | client/public/assets/foliate/epubcfi.js:83-136 | with plain sides, parsing the printed form gives the reread form, in which offsets of even steps, zero temporal offsets and spatial offsets after one that is not a number are lost, and a text that follows nothing is taken for the id |
| CfiRoundTrip.RereadIffPrintable | client/public/assets/foliate/epubcfi.js:118-129 | a part with a plain side is its own reread form if and only if it is printable: offset only on an odd step, temporal offset neither zero nor NaN, no spatial offset but the last NaN, a side only beside an id or text, texts only after an id or offset or all blank |
| CfiExactness.SideIsMisread | client/public/assets/foliate/epubcfi.js:65-75 | a side that holds a special character is never the value that the tokenizer reads where it was printed, whatever follows it |
| CfiExactness.PrintedTokensIff | client/public/assets/foliate/epubcfi.js:21-136 | for all identifiers with the numbers of a parser: the printed text is tokenized field by field if and only if every side is plain and no spatial offset but the last of its part is NaN |
| CfiParsed.ParsedIsCanonical | client/public/assets/foliate/epubcfi.js:21-116 | whatever the parser returns, for whatever text, holds its numbers in the form that these theorems ask for |
| CfiParsed.NumberIsRead | client/public/assets/foliate/epubcfi.js:36-58 | a number is read up to its second dot, as the decimal text of its whole part and its fraction without trailing zeros |
| CfiParsed.TruthyIff | client/public/assets/foliate/epubcfi.js:118-129 | a number is printed as a temporal offset if and only if it is one and has a digit other than zero |
| CfiExamples.ParagraphText | client/public/assets/foliate/epubcfi.js:21-136 | the first example of the standard is printed letter by letter, and read back from those letters |
| CfiExamples.ExcerptText | client/public/assets/foliate/epubcfi.js:107-136 | so is a range: what its ends share, its start and its end |
| CfiExamples.ExcerptIsBuilt | client/public/assets/foliate/epubcfi.js:138-168 | which is what is built from its two ends |
| CfiExamples.ExcerptEnds | client/public/assets/foliate/epubcfi.js:138-140 | and what it collapses to |
| CfiExamples.EverythingText | client/public/assets/foliate/epubcfi.js:118-129 | a step with an id, all offsets, texts and a side, with special characters, is printed letter by letter |
| CfiExamples.EverythingComesBack | client/public/assets/foliate/epubcfi.js:83-136 | and comes back from there |
| CfiReading.WrapperIsTakenOff | client/public/assets/foliate/epubcfi.js:10-14 | `epubcfi(` and `)` are taken off around any text of one line |
| CfiReading.LexemesAreRead | client/public/assets/foliate/epubcfi.js:21-79 | any text of lexemes, printed or not, with meaningless characters before and between them, is read as their tokens: digits by value, any number of places, texts and parameters |
| CfiReading.PartIsRead | client/public/assets/foliate/epubcfi.js:83-105 | a step and its fields make one part: the last offset, time and side, all places, the id when a text that is not empty comes first, and all other texts, in order |
| CfiReading.IdentifierIsRead | client/public/assets/foliate/epubcfi.js:102-116 | steps with fields, in paths between indirections, and these between commas, are read as a point, or as a range of the first three |
| CfiExamples.ParserThrowsIff | client/public/assets/foliate/epubcfi.js:83-105 | reading tokens throws if and only if one that sets a field comes before the first step |
| CfiExamples.OtherParametersAreIgnored | client/public/assets/foliate/epubcfi.js:83-105 | a parameter of another name than `s` changes no part |
| CfiExamples.SpacesMeanNothing | client/public/assets/foliate/epubcfi.js:21-23 | white space around an identifier changes no token |
| CfiSides.PrintableComesBack | client/public/assets/foliate/epubcfi.js:110-136 | every printable identifier comes back unchanged, plain sides being part of what is printable |
| CfiSides.RoundTripIffPrintable | client/public/assets/foliate/epubcfi.js:110-136 | parsing undoes printing if and only if every part is printable, whatever the sides, unless a side holds an odd run of carets and a side is printed twice |
| CfiSides.LongestSideIsLost | client/public/assets/foliate/epubcfi.js:65-75 | when carets in sides come in pairs, the longest side that is not plain is never read from anywhere, even where it is printed twice |
| CfiTally.ParseIsWithin | client/public/assets/foliate/epubcfi.js:83-116 | an identifier that is parsed holds no more letters than its tokens, and all sides they set if it holds as many |
| CfiRoundTrip.RereadSurvivesIff | client/public/assets/foliate/epubcfi.js:110-136 | with plain sides, what was read back once survives a second round trip if and only if no character offset was misread on an even step, and what was read back twice survives every further one |
| CfiRange.SharedLengthIsMaximal | client/public/assets/foliate/epubcfi.js:153-163 | the parent of a range takes the longest run of leading steps with the same index and no offset |
| CfiRange.DivideSteps | client/public/assets/foliate/epubcfi.js:148-163 | the loop splits both paths at that run, for paths of any two lengths |
| CfiRange.BuildRange | client/public/assets/foliate/epubcfi.js:142-168 | the printed range of the collapsed start of the first and the collapsed end of the second identifier |
| CfiRange.RangeOfKeepsEndpoints | client/public/assets/foliate/epubcfi.js:138-168 | within one document the range collapses to exactly `from`, and to an end that compares equal to `to` |
| CfiRange.BuiltRangeKeepsEndpoints | client/public/assets/foliate/epubcfi.js:110-168 | the same after printing and parsing the range |
| CfiRange.ComparePoints | client/public/assets/foliate/epubcfi.js:175-193 | the two nested loops compute the lexicographic order of steps, a prefix first, with offsets counted on the last step only |
| CfiRange.Compare | client/public/assets/foliate/epubcfi.js:170-194 | ranges by start and then by end, points by the loops |
| CfiRange.CompareAntisymmetric | client/public/assets/foliate/epubcfi.js:170-194 | swapping the arguments flips the sign, for all identifiers |
| CfiRange.CompareTransitive | client/public/assets/foliate/epubcfi.js:170-194 | a total preorder, strict steps kept, on identifiers whose indices are numbers and whose last steps have an offset exactly when they are odd |
| CfiTransitivity.CompareByKeys | client/public/assets/foliate/epubcfi.js:170-194 | the comparison, of points and ranges with any number of paths, compares keys one by one, in which a missing number ties with every other |
| CfiTransitivity.CompareIsTransitiveIff | client/public/assets/foliate/epubcfi.js:170-194 | for any three identifiers, each of the four laws (weak, strict, strict on one side, ties) fails if and only if, at the first key where they differ, the third has no number and what follows does not put it right |
| CfiTransitivity.CompareCanGoInCircles | client/public/assets/foliate/epubcfi.js:175-193 | three identifiers, each before the next, the last before the first |
| CfiTransitivity.MissingOffsetBreaksTies | client/public/assets/foliate/epubcfi.js:186-190 | a missing offset ties with two that differ |
| CfiTransitivity.NaNIndexBreaksTies | client/public/assets/foliate/epubcfi.js:180-183 | so does an index without digits, with no offset anywhere |
| CfiDom.IndexChildNodes | client/public/assets/foliate/epubcfi.js:199-244 | the reduction with its two unshifts and two pushes gives the prescribed layout: chunk, element, chunk, ..., chunk between two virtual elements |
| CfiPositions.LayoutIsWellLaid | client/public/assets/foliate/epubcfi.js:216-244 | in that layout slot `i` holds exactly the children whose step index is `i + 1`, in order |
| CfiPositions.EntryOfChild | client/public/assets/foliate/epubcfi.js:221-244 | at the index of a child stands the child, or the chunk of the text around it |
| CfiPositions.OnlyItsEntryMentions | client/public/assets/foliate/epubcfi.js:221-244 | no other index mentions it |
| CfiPositions.FindChild | client/public/assets/foliate/epubcfi.js:275-275 | the search for a node among the indexed entries gives twice the elements before it, plus two for an element and one for text |
| CfiPositions.CommentIsNotFound | client/public/assets/foliate/epubcfi.js:275-293 | a comment is not among them, and its step is removed |
| CfiPositions.MergedOffset | client/public/assets/foliate/epubcfi.js:279-286 | the sum over a chunk is the number of characters between the preceding element and the position |
| CfiPositions.NodeToParts | client/public/assets/foliate/epubcfi.js:272-294 | the recursion gives one part for every step of the way to the node, with its id and index, and the merged offset last |
| CfiPositions.PartSays | client/public/assets/foliate/epubcfi.js:272-294 | the part for each node on the way holds twice the elements before it and two for an element or one for text, its id, and an offset at the last one alone, counted from the element before a text |
| CfiResolve.PickTextNode | client/public/assets/foliate/epubcfi.js:263-269 | the loop picks the first text node of a chunk at whose end the offset is reached, with what is left of it |
| CfiResolve.PartsToNode | client/public/assets/foliate/epubcfi.js:246-270 | id first, then the descent step by step, with the virtual entries and missing nodes the code handles |
| CfiResolve.MergedOffsetsTellPointsApart | client/public/assets/foliate/epubcfi.js:276-286 | two positions of one chunk have the same merged offset if and only if no character lies between them |
| CfiResolve.WalkToNode | client/public/assets/foliate/epubcfi.js:252-260 | following the parts of a node leads to it, or to the chunk it is merged into |
| CfiSteps.StepIs | client/public/assets/foliate/epubcfi.js:216-260 | one step from any node with content, for every index: before the first child at 0, the child elements at even indices, the text between them at odd ones, the first or last child for missing text at the ends, after the last child behind them, and nothing past that |
| CfiSteps.StepElsewhere | client/public/assets/foliate/epubcfi.js:252-260 | a step throws from a node without content and from merged text, and stays nowhere once it is |
| CfiSteps.PickedIs | client/public/assets/foliate/epubcfi.js:262-269 | among merged text nodes the first that reaches the offset, counted from the preceding element, is picked, with the offset within it; none when no text reaches it or there is no offset |
| CfiSteps.LastStepIs | client/public/assets/foliate/epubcfi.js:246-270 | the parts of any element with any further part resolve to what that step stands for, with the offset of the part |
| CfiIds.FindIdIff | client/public/assets/foliate/epubcfi.js:246-250 | an id is found at a path if and only if the element there has it and none before it in document order does, and nowhere if and only if no element has it |
| CfiIds.IdWins | client/public/assets/foliate/epubcfi.js:246-250 | the first element that has the id of the last part is the result, whatever the steps |
| CfiResolve.ResolvePointParts | client/public/assets/foliate/epubcfi.js:221-294 | the parts of every text position resolve to the same point |
| CfiOrder.CompareIsDocumentOrder | client/public/assets/foliate/epubcfi.js:170-194 | for any two text positions of one tree the sign of the comparison is document order, and zero only for one and the same point |
| CfiDocument.FromRange | client/public/assets/foliate/epubcfi.js:296-302 | for ends in any node, text, element or comment: a collapsed selection gives a point, any other the range of its two ends; it throws at the document element, and at a comment whose parent holds nothing else |
| CfiDocument.CommentEnd | client/public/assets/foliate/epubcfi.js:290-294 | an end in a comment has the parts of the element around it, and throws when that holds nothing else |
| CfiDocument.EndComesBack | client/public/assets/foliate/epubcfi.js:118-129 | the end of a selection comes back from its text with all its parts, except that an offset in an element is lost: the round trip is exact if and only if the node is no element |
| CfiSelection.ToRange | client/public/assets/foliate/epubcfi.js:304-322 | start and end are resolved from the two collapsed forms, made boundary points, and set in this order on a new range; it throws for missing nodes and offsets past the end |
| CfiSelection.SidesOfNode | client/public/assets/foliate/epubcfi.js:312-320 | before and after a node are the boundary points of its parent around it, with all that is in the node between them |
| CfiSelection.SelectionRoundTrip | client/public/assets/foliate/epubcfi.js:296-322 | the document range that is made from a selection's text points to its two ends; when they are given in the wrong order, it is empty at the second |
| CfiSelection.OrderOfPoints | client/public/assets/foliate/epubcfi.js:170-194 | the tree order of boundary points agrees with the order that the comparison gives |
| CfiDocument.PositionRoundTrip | client/public/assets/foliate/epubcfi.js:246-310 | printed, parsed and resolved, every text position of every tree comes back as the same point |
| CfiDocument.SharedPartsAgree | client/public/assets/foliate/epubcfi.js:154-163 | in one document the steps that two positions share by index are the same parts, ids included |
| CfiDocument.RangeEnds | client/public/assets/foliate/epubcfi.js:296-302 | the range of two positions, printed and parsed, collapses to exactly the parts of each |
| CfiDocument.RangeRoundTrip | client/public/assets/foliate/epubcfi.js:296-310 | a selection's text resolves to its two points |
| CfiDocument.RangeOrder | client/public/assets/foliate/epubcfi.js:170-173 | selections are ordered by their start points in the document, then by their end points |
| CfiDocument.ElementRoundTrip | client/public/assets/foliate/epubcfi.js:246-294 | the parts of an element lead back to it if and only if it has no id or no element before it in document order has the same id |
| CfiDocument.FromElements | client/public/assets/foliate/epubcfi.js:325-334 | one pass over the indexed children gives every listed element the identifier of the general way |
| HuffCdic.Read32Bits | client/public/assets/foliate/mobi.js:356-363 | at any bit offset, the 32 bits from there as a big-endian number, zero past the end |
| HuffCdic.FindCode | client/public/assets/foliate/mobi.js:407-411 | the search by code length gives the code that the tables assign to the window |
| HuffCode.WordIsLookedUp | client/public/assets/foliate/mobi.js:407-415 | with the tables of a prefix code, a window gives the entry whose code word it begins with |
| HuffCode.TextIsDecoded | client/public/assets/foliate/mobi.js:402-425 | a text made of the code words of any entries and a padding shorter than a code is decoded to exactly those entries |
| HuffCode.TextExpands | client/public/assets/foliate/mobi.js:402-425 | decompression undoes compression: with a dictionary of plain and compressed entries, such a text expands to what its entries were written for |
| HuffCanonical.CanonicalIsCode | client/public/assets/foliate/mobi.js:370-411 | for any lengths of words that leave no window without a word, the canonical words, counted down from all ones, are a prefix code |
| HuffCanonical.TablesFit | client/public/assets/foliate/mobi.js:370-411 | the tables that the format prescribes for them, a word found by its first byte or by its length, are tables of that code |
| HuffCanonical.CanonicalTextIsDecoded | client/public/assets/foliate/mobi.js:370-425 | so every text in a canonical code is decoded, given the lengths alone |
| HuffCdic.Decompressor.Decompress | client/public/assets/foliate/mobi.js:402-425 | from every reachable dictionary state the result is that of the recursion without a cache, and every cached entry is its full expansion; it terminates when compressed entries refer to entries of lower rank |
| HuffCdic.MemoizedExpandsAlike | client/public/assets/foliate/mobi.js:416-421 | replacing any entries by their expansions changes no expansion |
| HuffCdic.MemoizedIsRanked | client/public/assets/foliate/mobi.js:416-421 | and keeps the ranking that termination needs |
| HuffCdic.EveryTextIsBelow | client/public/assets/foliate/mobi.js:402-425 | with a bound on the ranks, decompression asks nothing of the text |
| PalmDoc.DecompressPalmDOC | client/public/assets/foliate/mobi.js:329-354 | the loop decodes as the byte classes say, on every input |
| PalmDoc.DecodingInvertsEncoding | client/public/assets/foliate/mobi.js:329-354 | decoding the encoding of any list of literals, runs, overlapping copies and space pairs gives its text |
| PalmDoc.DecodeItem | client/public/assets/foliate/mobi.js:331-352 | one encoded item, wherever it stands, is decoded to what it adds to the text before it |
| PalmDoc.CopyBackRepeats | client/public/assets/foliate/mobi.js:345-348 | copying byte by byte from the growing output repeats the last bytes, overlapping or not |
| PalmDoc.AnyCopy | client/public/assets/foliate/mobi.js:348-348 | for any distance, zero and too large ones included, each copied byte is the one that stands so far before it, or zero where there is none |
| PalmDoc.PairIs | client/public/assets/foliate/mobi.js:342-347 | the two bytes of any pair are its distance and its length |
| PalmDoc.CutOffRun | client/public/assets/foliate/mobi.js:335-337 | a run that is cut off by the end gives the bytes that are there |
| PalmDoc.CutOffPair | client/public/assets/foliate/mobi.js:340-348 | a pair that is cut off by the end is one whose second byte is zero |
| PalmDoc.EveryTextEncodes | client/public/assets/foliate/mobi.js:329-354 | every text has an encoding |
| PalmDoc.GrowthIsAtMostFivefold | client/public/assets/foliate/mobi.js:329-354 | on every input, cut off or not, the output has at most five times its length |
| PalmDoc.FivefoldIsAttained | client/public/assets/foliate/mobi.js:340-349 | an input for which it has exactly that |
| TrailingEntries.GetVarLenFromEnd | client/public/assets/foliate/mobi.js:307-315 | the last four bytes in groups of seven bits, restarted at each marked byte |
| TrailingEntries.SizeIsRead | client/public/assets/foliate/mobi.js:307-315 | the size at the end of an entry is read whatever stands before it |
| TrailingEntries.RemoveTrailingEntries | client/public/assets/foliate/mobi.js:679-689 | the loop and the multibyte step cut off what the sizes say, including the case of size zero, which leaves nothing |
| TrailingEntries.RemovalLeavesSomethingIff | client/public/assets/foliate/mobi.js:681-682 | one removal leaves something if and only if the size read is at least one and below the record's length; and it then leaves all but that many bytes |
| TrailingEntries.ZeroSizeEmptiesTheRecord | client/public/assets/foliate/mobi.js:681-682 | a record whose last byte says zero is emptied |
| TrailingEntries.RemoveInvertsAppend | client/public/assets/foliate/mobi.js:679-683 | removing any number of appended entries gives the bytes before them |
| TrailingEntries.TrailingRoundTrip | client/public/assets/foliate/mobi.js:679-689 | the same with a multibyte tail between text and entries |
| TrailingEntries.CountBitsSet | client/public/assets/foliate/mobi.js:317-321 | the number of set bits |
| TrailingEntries.FlagsAnnounceEntries | client/public/assets/foliate/mobi.js:676-678 | a flag word counts exactly the kinds of entry it announces |
| RawBuffer.Reader.LoadHead | client/public/assets/foliate/mobi.js:1219-1226 | the head only grows, stays a prefix of the text, and no record past the last is requested |
| RawBuffer.Reader.LoadTail | client/public/assets/foliate/mobi.js:1228-1233 | the tail only grows, stays a suffix of the text, and no record before the first is requested |
| RawBuffer.Reader.LoadRaw | client/public/assets/foliate/mobi.js:1214-1236 | whatever has been loaded before, the slice of the whole text, loading from one end only |
| RawBuffer.Reader.LoadAll | client/public/assets/foliate/mobi.js:1214-1236 | a whole run of requests gives their slices |
| Mobi6.SectionsTile | client/public/assets/foliate/mobi.js:802-814 | the sections follow one another, each the slice between its two positions, and each but the first starts at a page break |
| Mobi6.TilesCover | client/public/assets/foliate/mobi.js:802-814 | together they are the whole text |
| Mobi6.FoundSectionContains | client/public/assets/foliate/mobi.js:967-973 | the section found for a byte is the only one that contains it, and none is found exactly past the end |
| Mobi6.InsertAnchors | client/public/assets/foliate/mobi.js:925-933 | the loop renders the raw bytes with an anchor at every reference |
| Mobi6.AnchorsErase | client/public/assets/foliate/mobi.js:922-933 | without the anchors these are the raw bytes |
| Mobi6.AnchorLands | client/public/assets/foliate/mobi.js:922-933 | each anchor has exactly the raw bytes before its offset on its left |
| Mobi6.FileposListIsSorted | client/public/assets/foliate/mobi.js:867-869 | the list made of all matches holds each reference once, by number |
| Mobi6.ResolveHref | client/public/assets/foliate/mobi.js:967-973 | a link to a position is resolved to the section that contains it and the id made of its digits |
| Mobi6.AnchorHasTheId | client/public/assets/foliate/mobi.js:925-973 | the anchor put at that position is an element with just that id |
| Mobi6.LinkLands | client/public/assets/foliate/mobi.js:867-973 | a link to a referenced byte resolves to its section, and in the rendered bytes its anchor stands directly before the byte, up to anchors at the same place |
| Kf8.SectionsTakeOneRun | client/public/assets/foliate/mobi.js:1086-1094 | the sections take the fragment table in order, without gap or overlap, and their lengths add up to the total |
| Kf8.SectionTakesItsRun | client/public/assets/foliate/mobi.js:1086-1094 | each section's run starts where the one before it ended, and its length is that of its skeleton and fragments |
| Kf8.LoadText | client/public/assets/foliate/mobi.js:1240-1259 | the loop splices the fragments into the skeleton one after the other, and records the selectors of their offsets |
| Kf8.SpliceIs | client/public/assets/foliate/mobi.js:1245-1249 | a fragment goes in at its insert offset from the start of the skeleton; past the end of the text at its end, and below its start as far from the end |
| Kf8.FragmentMoves | client/public/assets/foliate/mobi.js:1240-1249 | with insert offsets in range, each byte of a fragment stands where it went in, moved on by the fragments that go in before it later |
| Kf8.ByteMoves | client/public/assets/foliate/mobi.js:1240-1249 | and so does each byte of the skeleton |
| Kf8.EveryByteIsFromSomewhere | client/public/assets/foliate/mobi.js:1240-1249 | there is no other byte in the section |
| Kf8.FragmentStands | client/public/assets/foliate/mobi.js:1240-1249 | fragments in ascending order stand in the section at their own insert offsets |
| Kf8.SelectorIsSaved | client/public/assets/foliate/mobi.js:1250-1256 | the selector saved for a place is that of the raw bytes from there to the end of its own fragment, whatever is spliced where |
| Kf8.AssemblyConservesBytes | client/public/assets/foliate/mobi.js:1240-1249 | when the fragments tile the raw slice, the assembled section has its length and the same bytes |
| Kf8.AssemblyIsUndone | client/public/assets/foliate/mobi.js:1240-1249 | and taking the fragments out again, the last one first, gives the raw slice back in order |
| ZipReader.FileHandle.Read | server/src/common/cbz-zip-reader.ts:64-66 | one read of a file: any short count, none only when nothing is left |
| ZipReader.ReadExactly | server/src/common/cbz-zip-reader.ts:58-70 | however short the reads, the requested bytes, or null when they are not all in the file |
| ZipReader.ReadZip64Eocd | server/src/common/cbz-zip-reader.ts:72-89 | the locator right before the end record leads to the Zip64 record, each check failing to null |
| ZipReader.LastEndRecord | server/src/common/cbz-zip-reader.ts:99-103 | what the search finds is an end record whose comment reaches the end of the file |
| ZipReader.ReadEocd | server/src/common/cbz-zip-reader.ts:91-120 | the backward search takes the last end record, and the Zip64 one when a field is saturated |
| ZipReader.FindZip64Extra | server/src/common/cbz-zip-reader.ts:122-136 | the first Zip64 field among the extra fields, null when one overruns |
| ZipReader.ParseZip64EntryFields | server/src/common/cbz-zip-reader.ts:138-173 | saturated fields are taken from the extra data in the order uncompressed, compressed, offset |
| ZipReader.ReadDataStart | server/src/common/cbz-zip-reader.ts:175-187 | the data starts after the local header's own name and extra, if all lie in the file |
| ZipReader.ReadCbzZipIndex | server/src/common/cbz-zip-reader.ts:189-251 | the loop over the file returns the scan of the bytes between the directory's offset and its end, whatever the file's short reads |
| ZipReader.IndexDependsOnDirectory | server/src/common/cbz-zip-reader.ts:201-243 | no byte past the directory's end counts, apart from the local headers: files that agree on both have the same index |
| ZipReader.IndexIsSafe | server/src/common/cbz-zip-reader.ts:189-251 | for any bytes: at most one entry for every 46 bytes of a directory inside the file, every header before its data, and all data in the file and readable |
| ZipRecords.RecordsAreScanned | server/src/common/cbz-zip-reader.ts:205-243 | a directory of any records gives the entries of all of them up to what is no record, and null when the last is cut off |
| ZipRecords.EveryDirectorySplits | server/src/common/cbz-zip-reader.ts:205-217 | there are no other directories |
| ZipRecords.EntryIsLostIff | server/src/common/cbz-zip-reader.ts:219-240 | a record is passed over if and only if its fields are lost, no local header is where it points, or its data is not all in the file |
| ZipRecords.FieldsAreLostIff | server/src/common/cbz-zip-reader.ts:138-173 | fields are lost if and only if the Zip64 extra they are moved to is missing, too short, or has one beyond the safe integers |
| ZipRecords.DataStartIs | server/src/common/cbz-zip-reader.ts:175-187 | a local header is accepted if and only if it begins with P, K, 3, 4 and its name and extra are in the file |
| ZipRecords.ExtraIsSearched | server/src/common/cbz-zip-reader.ts:122-136 | the data of the first Zip64 field is found behind any others, and nothing where the fields end or overrun before one |
| ZipRecords.EveryExtraSplits | server/src/common/cbz-zip-reader.ts:122-136 | every extra is of one of these kinds |
| ZipReader.ExtractCbzZipEntry | server/src/common/cbz-zip-reader.ts:253-285 | the stored data as it is, deflated data inflated, null for other methods and for data out of range |
| ZipRoundTrip.ExtraIsFound | server/src/common/cbz-zip-reader.ts:122-136 | the Zip64 field is found behind any other extra fields |
| ZipRoundTrip.FieldsAreRead | server/src/common/cbz-zip-reader.ts:138-173 | whatever subset of the three fields is moved to the Zip64 extra, up to 2^53-1, their values come back |
| ZipRoundTrip.LocalHeaderIsRead | server/src/common/cbz-zip-reader.ts:175-187 | the data start of a written member is at its payload |
| ZipRoundTrip.CentralFields | server/src/common/cbz-zip-reader.ts:208-217 | every field the reader takes from a written directory record is at its offset, with its value or saturated |
| ZipRoundTrip.EntryIsRead | server/src/common/cbz-zip-reader.ts:206-240 | one written directory record with its local record gives the entry of its member |
| ZipRoundTrip.DirectoryIsRead | server/src/common/cbz-zip-reader.ts:201-243 | the scan of a written directory gives its members in order, and stops at what follows them |
| ZipRoundTrip.Zip64EocdIsRead | server/src/common/cbz-zip-reader.ts:72-89 | a written Zip64 record is found through its locator, and gives the directory's place and size |
| ZipRoundTrip.EndRecordIsFoundIff | server/src/common/cbz-zip-reader.ts:94-103 | the written end record is the one found if and only if no later position of it and its comment reads as an end record that reaches the end of the file |
| ZipRoundTrip.NoCommentSuffices | server/src/common/cbz-zip-reader.ts:99-103 | which is always so without a comment |
| ZipRoundTrip.ReadInvertsWrite | server/src/common/cbz-zip-reader.ts:91-251 | reading a written archive gives its entries in order and its comment, for any names, extras, payloads, gaps, Zip64 choices, and whatever follows the members in the directory |
| ZipRoundTrip.PayloadsAreRead | server/src/common/cbz-zip-reader.ts:189-285 | and the data of each entry is its member's payload |
| ZipExamples.PlainArchiveIsRead | server/src/common/cbz-zip-reader.ts:5-251 | an archive with one stored file, given byte by byte, is read |
| ZipExamples.WideArchiveIsRead | server/src/common/cbz-zip-reader.ts:5-251 | so is the one that keeps sizes and offsets in Zip64 fields |
| Loader.Loader.CreateURL | client/public/assets/foliate/epub.js:744-761 | a fresh URL with count one, listed under the parent if there is one |
| Loader.Loader.Ref | client/public/assets/foliate/epub.js:762-771 | a further parent is counted and listed once, a parent that lists it already is not |
| Loader.Loader.Unref | client/public/assets/foliate/epub.js:772-786 | one decrement is paid and every invariant holds again: what becomes unused is revoked with all that only it used |
| Loader.Loader.UnrefChildren | client/public/assets/foliate/epub.js:781-783 | the popping loop releases every child once, and leaves the lists of other open items alone |
| Loader.Loader.LoadItem | client/public/assets/foliate/epub.js:787-817 | an item is live afterwards if and only if it can be loaded, listed by its parent, with every live URL kept and none revoked |
| Loader.Loader.LoadReplaced | client/public/assets/foliate/epub.js:818-930 | all loadable references of a text are live and listed before its own URL is made |
| Loader.Loader.UnloadItem | client/public/assets/foliate/epub.js:992-994 | the section is gone and the invariants hold for the others |
| Loader.Loader.Run | client/public/assets/foliate/epub.js:744-994 | over any session of loads and unloads the invariants hold, and with no section loaded the maps are empty and every URL was revoked exactly once |
| Loader.CreatedIsConsistent | client/public/assets/foliate/epub.js:753-758 | making a URL keeps all three invariants |
| Loader.ReferencedIsConsistent | client/public/assets/foliate/epub.js:762-771 | so does one more parent |
| Loader.ReleasedIsConsistent | client/public/assets/foliate/epub.js:785-785 | so does paying a decrement that leaves a reference |
| Loader.TakenDownIsConsistent | client/public/assets/foliate/epub.js:776-780 | so does taking down an item whose last reference is paid |
| Loader.PoppedIsConsistent | client/public/assets/foliate/epub.js:782-783 | a popped child is live and owed exactly one decrement |
| Loader.ClosedIsConsistent | client/public/assets/foliate/epub.js:784-784 | an item whose list is empty can be forgotten |
| Loader.DroppedSectionIsOwed | client/public/assets/foliate/epub.js:992-994 | unloading a section leaves it owed exactly one decrement |
| Loader.ListedResourcesAreLive | client/public/assets/foliate/epub.js:744-817 | a live item lists exactly its loadable references, each of them live and not revoked, and counted once for every live parent and once as a section |
| Loader.LiveIffReachable | client/public/assets/foliate/epub.js:744-817 | between loads and unloads exactly those items are live to which loadable references lead from a loaded section |
| Loader.LiveItemIsNeeded | client/public/assets/foliate/epub.js:772-786 | a live item that is not a loaded section is referred to by a live item |
| Loader.NothingIsLeft | client/public/assets/foliate/epub.js:772-786 | without loaded sections, cache, counts and lists are empty and the URLs revoked exactly once |
| Dictionary.StrCmpIsTotalPreorder | client/public/assets/foliate/dict.js:11-14 | the comparison of UTF-16 units is reflexive, antisymmetric in sign and transitive, for any way of lowering the case |
| Dictionary.StrCmpIs | client/public/assets/foliate/dict.js:11-14 | zero exactly when the lowered words are the same, and negative exactly when the first is a beginning of the other or has the smaller unit where they first differ |
| Dictionary.SearchEndsIff | client/public/assets/foliate/dict.js:79-90 | from all words the recursion ends, sorted or not, if and only if there is not exactly one word or it compares equal; with no words it throws |
| Dictionary.SingleWordRepeats | client/public/assets/foliate/dict.js:85-89 | on one word that is not the query every turn calls itself with the same arguments |
| Dictionary.BisectFinds | client/public/assets/foliate/dict.js:79-90 | on sorted words, whenever the search ends: it throws exactly on no words, finds an equal word, and returns null exactly when there is none |
| Dictionary.CheckAdjacent | client/public/assets/foliate/dict.js:92-103 | the maximal run of equal non-empty words around the index, ascending; nothing for null |
| Dictionary.Lookup | client/public/assets/foliate/dict.js:104-106 | whenever the search ends, the run around the word it finds, the exception on no words, or nothing |
| Dictionary.LookupIsComplete | client/public/assets/foliate/dict.js:92-106 | on sorted words the indices of equal words only, ascending, none exactly when there are none; and all of them if and only if no empty word matches but the one the search found |
| Dictionary.EmptyWordsAreMissed | client/public/assets/foliate/dict.js:96-101 | two empty words, of which lookup returns the first alone |
| Dictionary.ReadChunks | client/public/assets/foliate/dict.js:64-70 | the chunks between the two indices, inflated and joined |
| Dictionary.Read | client/public/assets/foliate/dict.js:60-73 | the requested slice of the uncompressed data, unless its end falls past the last chunk |
| Dictionary.ReadFailsIff | client/public/assets/foliate/dict.js:63-64 | which for ranges inside the data happens exactly at the very end of data that fills its last chunk |
| SeriesIndex.SegmentsCompareByValue | packages/types/src/series-index.ts:20-31 | digit strings of any length are compared as the integers they denote |
| SeriesIndex.ValidIff | packages/types/src/series-index.ts:1-9 | an index is valid if and only if it is digits, or digits, a point and digits, in at most twenty characters |
| SeriesIndex.OrderOfIndices | packages/types/src/series-index.ts:33-48 | for any digits before and after the points: by the number before, none after before any, by the number after, then by the text |
| SeriesIndex.EqualNumbersByText | packages/types/src/series-index.ts:47-47 | by the text is at the first character that differs |
| SeriesIndex.FiveTwoIsBeforeFiveTen | packages/types/src/series-index.ts:33-48 | 5.2 comes before 5.10 |
| SeriesIndex.CompareByKeys | packages/types/src/series-index.ts:33-48 | whole part by value, then no fraction before any, then fraction digits by value, then the text |
| SeriesIndex.SeriesIndicesAreTotallyOrdered | packages/types/src/series-index.ts:33-48 | zero only for identical indices, opposite signs when swapped, transitive |
| PathSegments.Utf8ByteLength | packages/types/src/pattern-resolver.ts:229-239 | the loop counts the bytes of the UTF-8 encoding, unpaired surrogates as three bytes each |
| PathSegments.Utf8LengthCountsBytes | packages/types/src/pattern-resolver.ts:229-239 | the sizes of the code points add up to the length of the encoding |
| Utf8.DecodingInvertsEncoding | packages/types/src/pattern-resolver.ts:229-239 | that encoding, given bit by bit, is decoded to the code points of the text |
| Utf16.PointsSpellText | packages/types/src/pattern-resolver.ts:229-239 | and the code points spell the text, surrogate pairs and unpaired surrogates alike |
| PathSegments.JoiningAddsNoBytes | packages/types/src/pattern-resolver.ts:229-239 | a concatenation is never longer than its parts, and may be shorter where two surrogates meet |
| PathSegments.TruncateUtf8 | packages/types/src/pattern-resolver.ts:241-253 | the loop stops before the first code point that does not fit |
| PathSegments.TruncationIsLongest | packages/types/src/pattern-resolver.ts:241-253 | the result is the longest prefix that parts no surrogate pair and whose encoding is within the bound |
| PathSegments.HashSegment | packages/types/src/pattern-resolver.ts:255-261 | the 32-bit hash over code points, in hexadecimal, padded |
| PathSegments.HashTextShape | packages/types/src/pattern-resolver.ts:255-261 | always eight ASCII characters |
| PathNames.KnownHashes | packages/types/src/pattern-resolver.ts:255-261 | the 32-bit FNV-1a values of no, one and one supplementary code point |
| PathNames.HashOfPoints | packages/types/src/pattern-resolver.ts:255-261 | the hash mixes in the code points of the text one after the other |
| PathNames.HashTextValue | packages/types/src/pattern-resolver.ts:255-261 | the text is the hash in hexadecimal |
| PathSegments.SegmentFits | packages/types/src/pattern-resolver.ts:263-278 | a truncated segment has at most 255 bytes, and no slash that was not there |
| PathNames.LimitedSegmentIs | packages/types/src/pattern-resolver.ts:263-278 | a segment of at most 255 bytes is unchanged; a longer one is the longest stem that leaves room, then a tilde, the hash of the whole segment and its extension; or, without room for any stem, the longest beginning of the segment |
| PathSegments.TruncationKeepsExtension | packages/types/src/pattern-resolver.ts:263-278 | and still ends in its extension when that leaves room for a stem |
| PathSegments.CasingLowersApart | packages/types/src/pattern-resolver.ts:215-218 | what that asks of lower-casing holds of every rule, dependent on the context or giving several units for one, under which the units of the extension come from single units alone |
| PathSegments.AsciiIsApart | packages/types/src/pattern-resolver.ts:215-218 | as ASCII extensions do where a dotted capital I gives two units and a capital sigma depends on its place |
| PathSegments.SplitInvertsJoin | packages/types/src/pattern-resolver.ts:280-284 | splitting a joined path gives its segments back |
| PathSegments.LimitedSegments | packages/types/src/pattern-resolver.ts:280-284 | limiting a path limits each of its segments, the last one with the extension, and adds or removes none |
| PathSegments.EverySegmentFits | packages/types/src/pattern-resolver.ts:293-307 | every segment of a resolved path has at most 255 bytes of UTF-8 |
| PathNames.FullPathSegments | packages/types/src/pattern-resolver.ts:215-227 | before it is limited, the segments of the path are those of the resolved text, with the file name in the folder and the extension on the last one |
| PathNames.ResolvedPathSegments | packages/types/src/pattern-resolver.ts:280-307 | afterwards each of them as limited |
| PathSegments.EndingIsInLastSegment | packages/types/src/pattern-resolver.ts:280-284 | a slash-free ending of a path is the ending of its last segment |
| PathSegments.FullPathHasExtension | packages/types/src/pattern-resolver.ts:220-227 | before it is limited, the last segment of a path ends in the extension, whatever its case, with any file name and any slashes in it |
| PathSegments.ResolvedPathHasExtension | packages/types/src/pattern-resolver.ts:293-307 | for any file name, its last segment still ends in the extension when that leaves room for a stem |

## Where the code does less than one might expect

- `compare` treats a missing offset, or an index without digits, as equal to any other. Three identifiers can each be before
  the next (`CfiTransitivity.CompareCanGoInCircles`); `CfiTransitivity.CompareIsTransitiveIff` says exactly when.
- `partToString` drops offsets of even steps and zero temporal offsets, a text that follows nothing is read as an id, and
  after a NaN the spatial offsets are read as character offsets. `CfiRoundTrip.PlainRoundTripIffPrintable` says exactly
  when nothing is lost as long as sides are plain.
- Sides are printed without escapes, and one that holds `^`, `;`, `=` or `]` is misread
  (`CfiExactness.SideIsMisread`). `CfiExactness.PrintedTokensIff` says exactly which identifiers are tokenized as they were
  printed, and `CfiSides.RoundTripIffPrintable`, up to the case named below, which come back.
- The offset of a selection's end in an element is lost; `CfiDocument.EndComesBack`.
- An element that shares its id with an earlier one is resolved to the earlier one; `CfiDocument.ElementRoundTrip`.
- `Index.bisect` calls itself without end on a single word that is not the query (`Dictionary.SingleWordRepeats`), and only
  then; `Dictionary.SearchEndsIff`.
- `checkAdjacent` stops at an empty word, so equal empty words are missed (`Dictionary.EmptyWordsAreMissed`), and no others;
  `Dictionary.LookupIsComplete`.
- `DictZip.read` indexes one chunk too far when a range ends at the very end of data that fills its last chunk;
  `Dictionary.ReadFailsIff`.
- A trailing entry whose size reads as zero empties the whole record, since `subarray(0, -0)` is empty
  (`TrailingEntries.ZeroSizeEmptiesTheRecord`); `TrailingEntries.RemovalLeavesSomethingIff` says when anything is left.

## Left out

- CFI arguments given as text to `collapse`, `buildRange` and `compare`: they are parsed first, which `CfiSyntax.Parse` models.
- Rounding of numbers in CFI text: indices and offsets are unbounded, and temporal and spatial numbers are kept as decimal text.
- Node filters of the CFI functions.
- CfiSides.RoundTripIffPrintable: leaves open identifiers in which some side holds an odd run of carets, and some part prints
  its side twice, after its id and after its texts. None of these is printable, and none is tokenized as it was printed
  (`CfiExactness.PrintedTokensIff`); whether the parser can make the same identifier of other tokens is not decided.
- CfiSelection.SelectionRoundTrip: is about ends in text; for an end in an element `CfiDocument.EndComesBack` and
  `CfiDocument.ElementRoundTrip` say what comes back and what it resolves to.
- A CFI with a single comma is parsed, but not collapsed or compared, since its end is not set.
- `joinIndir`, `fake` and the Calibre helpers of `epubcfi.js`: thin adaptors.
- Dictionary.StrCmpIsTotalPreorder: lowering the case is a parameter.
- Decoding of UTF-8 names and comments, and of section text after assembly.
- Inflating and Huffman tables of deflate: a parameter.
- Header records of HUFF/CDIC, EXTH, NCX and index tables; the header of DictZip files and the index files of dictionaries.
- Matching of page breaks and of `filepos` references by regular expression: their results are parameters of `Mobi6`.
- Kf8.LoadText: the search for an attribute in decoded text is a parameter; loading the raw bytes is `RawBuffer.Reader.LoadRaw`.
- ZipReader.ReadCbzZipIndex: names and the comment stay bytes, where the code decodes them as UTF-8.
- Loader.Loader.LoadItem: leaves out load events, direct URLs, the rewriting of text, items that fail to load, and manifests in which an item refers to itself; a section is loaded only while it is not live.
- Loader.Loader.LoadReplaced: the references of a text are a given list, and rewriting the text is left out.
- The loader's `destroy`, which revokes every URL that is still cached.
- Interleaved asynchronous calls of the loader and of the text buffer.
- Placeholder expansion and sanitising of path segments before the last stage: the resolved text is any text.
- Integers above 2^53, except in `ZipReader`, where the bound is part of the code.
- `createCbzZipEntryReadStream`: a stream over the same bytes as `ExtractCbzZipEntry`.
