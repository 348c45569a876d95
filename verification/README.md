# TTyPack text engine and terminal machines

A model of the parts of TTyPack where most depends on several functions and an
unbounded loop, and proofs of what they promise.

* **Text foundation.** `Bytes`, `Utf8`, `Grapheme`, `GraphemeRules`,
  `ClusterPattern`, `Clusters` and `PropertyTable`: the UTF-8 codec, the
  grapheme-cluster segmenter against the rules of section 3.1.1 of UAX #29 and
  against its pattern of a cluster, and how clusters behave when text is cut or
  joined.
* **Document engine.** `LineIndexes`, `TextBuffer`, `TextSharing` and `TextLines`
  (positions, the copy-on-write buffer, aliasing, lines), `UndoHistory`, `Diff`,
  `Search`, `MultiEdit`, `CursorMotion`, `CursorLaws`, `TextCursor`, `WordWrap`,
  `WrapLaws` and `ReflowText`.
* **Terminal machines.** `Automatons`, `AutomatonLaws` and `AutomatonRoundTrip`
  (the escape-sequence parser), `Decimal`, `InputProto` and `Puppets` (the input
  protocol, both directions), `Terminals`, `TerminalControls`, `TerminalTape` and
  `TerminalChunks` (the emulator).
* **Smaller algorithms.** `TextLayout`, `Damages` and `HistoryFile`.

Text is any sequence of bytes, malformed UTF-8 included. Code that changes state
is a class or a method with the loops of the source; each is proved equal to a
function of the same text, and the theorems are about those functions. The table
that classifies code points is a parameter of everything above the codec: a
result holds for every table, or for every table that treats ASCII as the
shipped one does (`Clusters.AsciiTable`, which `PropertyTable.ShippedTable`
proves of the shipped one). The cluster width of `TextLayout` is a parameter too.

Positions are counted in clusters, so an edit can move what is before it when
bytes join into one. `Clusters.NeverJoin` says of which bytes no text can do
that; the results about many edits of one text speak of texts over such bytes,
and `MultiEdit.SplicesWhereBytesNeverJoin` proves that no other bytes will do.

Where the code and its documentation disagree, the model follows the code:

* `docs/manual/06-text-engine.md:11` speaks of a piece table; the buffer is a
  shared string that is copied when it is edited while shared.
* A comment at `include/TTyTk/TTyTk-Automaton.hpp:152` lists 0x9C as a string
  terminator; line 86 catches that byte first, so it never ends a string.
* GB9c is absent, and GB11 is coded as ExtPict (Extend or ZWJ)* ZWJ x ExtPict.
* An escaped `.` in a pattern is still a wildcard.
* `Emulator::put` compares a signed `char` with 0x20, so bytes from 0x80 up are
  not printed.

Results that needed a condition the code does not check, each with its exact
condition or a concrete input: the column after the CR of a CR LF, edits and
undos on the wrong side of a transaction, a space extended by a combining mark
in `reflow`, key and mouse events that do not survive the input protocol, tabs
in history records and a history file that is not closed, replacements that join
with what is before them, cursors that share an offset, input cut inside an
escape sequence of the emulator, and a damage region that reaches the largest
`size_t`.

## Model

| member | source | states |
|---|---|---|
| `Utf8.DecodeOne` | include/TTyTk/TTyTk-Encoding.hpp:21-66 | one code point and its length, tied to the specification function by its loop |
| `Utf8.EncodeAll` | include/TTyTk/TTyTk-Encoding.hpp:91-121 | the encoding of a list of code points |
| `Utf8.DecodeAll` | include/TTyTk/TTyTk-Encoding.hpp:71-80 | the list of code points of any byte string |
| `Utf8.ValidateAll` | include/TTyTk/TTyTk-Encoding.hpp:123-136 | the two-test validity check |
| `Utf8.DecodeOneErrors` | include/TTyTk/TTyTk-Encoding.hpp:26-65 | U+FFFD with length one is returned exactly when the bytes there start with the encoding of no scalar value |
| `Utf8.DecodeOneComplete` | include/TTyTk/TTyTk-Encoding.hpp:33-65 | the encoding of a scalar value, wherever it stands, is read back as that value and its whole length |
| `Utf8.DecodeOneSound` | include/TTyTk/TTyTk-Encoding.hpp:60-65 | whatever is read is U+FFFD for one non-ASCII byte, or a scalar value whose encoding is exactly the consumed bytes |
| `Utf8.DecodeEncode` | include/TTyTk/TTyTk-Encoding.hpp:71-121 | decode(encode(cs)) is cs for every list of scalar values, and cs with the other values replaced by U+FFFD for every list |
| `Utf8.EncodeDecode` | include/TTyTk/TTyTk-Encoding.hpp:71-136 | encode(decode(s)) == s if and only if validate(s) |
| `Utf8.ValidateIsWellFormed` | include/TTyTk/TTyTk-Encoding.hpp:123-136 | validate(s) if and only if s is the encoding of some list of scalar values (D92) |
| `Grapheme.FindNextBreak` | include/TTyTk/TTyTk-Grampheme.hpp:118-150 | the end of the cluster, computed with the three loop flags; what it is is said by `ClusterPattern.NextBreakIsLongest` |
| `Grapheme.Segment` | include/TTyTk/TTyTk-Grampheme.hpp:152-160 | the list of clusters |
| `Grapheme.Count` | include/TTyTk/TTyTk-Grampheme.hpp:162-166 | the number of clusters |
| `Grapheme.NextCodepointAgrees` | include/TTyTk/TTyTk-Grampheme.hpp:79-90 | the segmenter's own decoder agrees with the codec at every offset of every byte string, malformed ones included |
| `GraphemeRules.NextBreakIsRuleBreak` | include/TTyTk/TTyTk-Grampheme.hpp:118-150 | from a boundary of those rules, the flags find the next one |
| `GraphemeRules.NoBreakIsJoins` | include/TTyTk/TTyTk-Grampheme.hpp:92-114 | the coded pair rules, given what stands before, keep two code points together exactly when one of GB3 and GB6 to GB13 does and GB4 and GB5 do not part them |
| `GraphemeRules.SegmentFollowsRules` | include/TTyTk/TTyTk-Grampheme.hpp:92-160 | the boundaries of `segment` are exactly those of GB3 to GB13, written out over the code points of the whole text, with unlimited look-back |
| `GraphemeRules.SegmentPartitions` | include/TTyTk/TTyTk-Grampheme.hpp:152-160 | the clusters are non-empty and concatenate to the text |
| `ClusterPattern.RulesArePattern` | include/TTyTk/TTyTk-Grampheme.hpp:92-114 | a list of code points holds no boundary of the rules if and only if it is CR LF, one control, or matches prepend* core (extend, ZWJ or spacing mark)*, the core being a Hangul syllable, a pair of regional indicators, joined pictographs or any one code point (table 1c of UAX #29, with ZWJ between pictographs as coded) |
| `ClusterPattern.NextBreakIsLongest` | include/TTyTk/TTyTk-Grampheme.hpp:118-150 | from any offset `next_break` passes exactly the longest run of code points that matches that pattern |
| `ClusterPattern.AtMostTwoRegionals` | include/TTyTk/TTyTk-Grampheme.hpp:112-113 | no cluster, started anywhere, holds more than two regional indicators |
| `Clusters.NextBreakSuffix` | include/TTyTk/TTyTk-Grampheme.hpp:118-150 | `next_break` depends only on the text from its start on |
| `Clusters.NextBreakTruncated` | include/TTyTk/TTyTk-Grampheme.hpp:118-150 | cutting the text at a later boundary moves no earlier boundary |
| `Clusters.ChainTruncated` | include/TTyTk/TTyTk-Grampheme.hpp:118-166 | the same for a whole chain of boundaries and for the count of clusters |
| `Clusters.ChainThroughLineStart` | include/TTyTk/TTyTk-Grampheme.hpp:96-99 | every chain of boundaries that starts on a line goes through the start of the next one |
| `Clusters.CrLfBreak` | include/TTyTk/TTyTk-Grampheme.hpp:96 | CR LF is one cluster |
| `Clusters.PlainBreak` | include/TTyTk/TTyTk-Grampheme.hpp:118-150 | in a text over bytes that never join every byte, malformed ones included, is a cluster |
| `Clusters.NoLeadsNeverJoin` | include/TTyTk/TTyTk-Encoding.hpp:33-65 | without bytes from C2 to F4 a set never joins exactly when it does not hold both CR and LF |
| `PropertyTable.ShippedTable` | include/TTyTk/TTyTk-Grampheme.hpp:23-72 | the shipped classification treats ASCII and U+FFFD as every result about the text engine assumes |
| `LineIndexes.LineIndex.Rebuild` | include/TTyUtils/TTyUtils-TextBuffer.hpp:36-41 | the line starts are 0 and every offset after a line feed, in order |
| `LineIndexes.LineIndex.Offset` | include/TTyUtils/TTyUtils-TextBuffer.hpp:45-55 | the offset of any position, by its loop |
| `LineIndexes.LineIndex.Position` | include/TTyUtils/TTyUtils-TextBuffer.hpp:57-64 | the position of any offset, by binary search and its loop |
| `LineIndexes.LineStartsOnChain` | include/TTyUtils/TTyUtils-TextBuffer.hpp:36-41 | every line start is a cluster boundary of the chain from offset 0 |
| `LineIndexes.OffsetOnChain` | include/TTyUtils/TTyUtils-TextBuffer.hpp:45-55 | every offset that `offset` returns is a cluster boundary |
| `LineIndexes.OffsetUndoesPosition` | include/TTyUtils/TTyUtils-TextBuffer.hpp:45-64 | `offset` undoes `position` at every cluster boundary of every byte string |
| `LineIndexes.PositionUndoesOffset` | include/TTyUtils/TTyUtils-TextBuffer.hpp:45-64 | `position` undoes `offset` if and only if the position is on a line and no further than its last whole cluster |
| `LineIndexes.PositionPreservesOrder` | include/TTyUtils/TTyUtils-TextBuffer.hpp:57-64 | boundaries and their positions are in the same order |
| `LineIndexes.OffsetPreservesOrder` | include/TTyUtils/TTyUtils-TextBuffer.hpp:45-55 | valid positions and their offsets are in the same order |
| `LineIndexes.ColumnAfterCarriageReturn` | include/TTyUtils/TTyUtils-TextBuffer.hpp:50-53 | one column past the CR of a CR LF, `offset` lands on the next line |
| `LineIndexes.PositionPastEnd` | include/TTyUtils/TTyUtils-TextBuffer.hpp:57-64 | an offset past the end of the text has the position of the end |
| `TextBuffer.Buffer.Detach` | include/TTyUtils/TTyUtils-TextBuffer.hpp:142-144 | a shared text is left to its other holders, an unshared one is kept |
| `TextBuffer.Buffer.Insert` | include/TTyUtils/TTyUtils-TextBuffer.hpp:109-115 | the new text, the generation, and what happens to the storage |
| `TextBuffer.Buffer.Erase` | include/TTyUtils/TTyUtils-TextBuffer.hpp:117-125 | the same for erasing; a reversed range erases nothing |
| `TextBuffer.ErasedIs` | include/TTyUtils/TTyUtils-TextBuffer.hpp:117-125 | exactly what lies between the two offsets goes, and nothing when the second is not beyond the first |
| `TextBuffer.Buffer.Replace` | include/TTyUtils/TTyUtils-TextBuffer.hpp:127-130 | erase, then insert at the first position |
| `TextBuffer.Buffer.Line` | include/TTyUtils/TTyUtils-TextBuffer.hpp:132-139 | a line without its line feed, nothing past the last line |
| `TextBuffer.Buffer.TakeSnapshot` | include/TTyUtils/TTyUtils-TextBuffer.hpp:105-107 | a snapshot shares the storage it captured |
| `TextBuffer.NoSuchLine` | include/TTyUtils/TTyUtils-TextBuffer.hpp:132-139 | past the last line a line is empty |
| `TextBuffer.LineTextIsSlice` | include/TTyUtils/TTyUtils-TextBuffer.hpp:132-139 | a line is the slice between its start and its end, and holds no line feed |
| `TextBuffer.EraseAll` | include/TTyUtils/TTyUtils-UndoHistory.hpp:95-98 | erasing from the origin to the last line's length empties every byte string, malformed UTF-8 and CR LF included |
| `TextBuffer.Buffer.Overwrite` | include/TTyUtils/TTyUtils-UndoHistory.hpp:95-100 | erasing all and inserting leaves exactly the new text |
| `TextSharing.Sharing.Run` | include/TTyUtils/TTyUtils-TextBuffer.hpp:87-144 | every run of new buffers, copies, snapshots, edits and destructions on objects that share storage shows what the same run does to independent values |
| `TextSharing.Sharing.Edit` | include/TTyUtils/TTyUtils-TextBuffer.hpp:109-144 | one edit through shared storage changes the edited holder alone |
| `TextSharing.Sharing.RunKeepsText` | include/TTyUtils/TTyUtils-TextBuffer.hpp:70-144 | over every run on shared storage, a snapshot shows the text it captured until it is destroyed, and so does every holder that no operation edits or destroys |
| `TextSharing.SnapshotKeepsItsText` | include/TTyUtils/TTyUtils-TextBuffer.hpp:70-85 | of the values that `Sharing.Run` matches: over every run, a snapshot keeps the text it had when it was taken |
| `TextSharing.OthersKeepTheirText` | include/TTyUtils/TTyUtils-TextBuffer.hpp:109-130 | of the same values: over every run, an operation never changes another holder |
| `TextLines.TerminateThenSplit` | include/TTyUtils/TTyUtils-Diff.hpp:25-36 | splitting a closed list of lines gives the list back and an empty last line |
| `TextLines.LinesOfText` | include/TTyUtils/TTyUtils-TextBuffer.hpp:132-139 | splitting at line feeds and the line index name the same lines |
| `UndoHistory.History.constructor` | include/TTyUtils/TTyUtils-UndoHistory.hpp:52-54 | a history starts at the buffer's text |
| `UndoHistory.History.Begin` | include/TTyUtils/TTyUtils-UndoHistory.hpp:61-63 | nested begins keep the outermost text |
| `UndoHistory.History.Commit` | include/TTyUtils/TTyUtils-UndoHistory.hpp:65-73 | the outermost commit of a change adds a node under the current one |
| `UndoHistory.History.Undo` | include/TTyUtils/TTyUtils-UndoHistory.hpp:75-80 | undo puts the text before the current node back |
| `UndoHistory.History.RedoBranch` | include/TTyUtils/TTyUtils-UndoHistory.hpp:82-87 | redo of a branch, refused when there is no such branch |
| `UndoHistory.Transaction.Commit` | include/TTyUtils/TTyUtils-UndoHistory.hpp:110-116 | a transaction commits once, and not at all after being moved from |
| `UndoHistory.Transaction.MoveFrom` | include/TTyUtils/TTyUtils-UndoHistory.hpp:34-41 | move assignment commits the transaction it replaces |
| `UndoHistory.StepKeepsInv` | include/TTyUtils/TTyUtils-UndoHistory.hpp:61-87 | each step keeps the tree (parent before child, `before` the parent's `after`, children lists exact) and the buffer at the current node's text |
| `UndoHistory.RunKeepsInv` | include/TTyUtils/TTyUtils-UndoHistory.hpp:61-87 | so does every run, and no node is ever changed or removed |
| `UndoHistory.EveryVersionReachable` | include/TTyUtils/TTyUtils-UndoHistory.hpp:50-100 | from every reachable state, the commits that close the open transactions and then some run of undo and redo restore the text of any node ever created, and lose no node |
| `UndoHistory.UndoTakesBackTransaction` | include/TTyUtils/TTyUtils-UndoHistory.hpp:61-80 | undo takes a whole transaction back, whatever edits and nested transactions it was made of; one that ends with the text it began with leaves no trace |
| `UndoHistory.RedoUndoesUndo` | include/TTyUtils/TTyUtils-UndoHistory.hpp:75-87 | redo undoes undo if and only if it takes the branch undo came from |
| `UndoHistory.EditOutsideTransaction` | include/TTyUtils/TTyUtils-UndoHistory.hpp:61-80 | after an edit outside transactions, some run of undo and redo that goes to another node leaves the edited text if and only if there is more than one node and the text is that of a node; otherwise the first that does loses it |
| `UndoHistory.UndoInsideTransaction` | include/TTyUtils/TTyUtils-UndoHistory.hpp:75-80 | undo inside a transaction keeps it if and only if it does nothing |
| `Diff.SplitLines` | include/TTyUtils/TTyUtils-Diff.hpp:25-36 | the lines of a text |
| `TextLines.SplitThenTerminate` | include/TTyUtils/TTyUtils-Diff.hpp:25-36 | closing every line of the split gives the text and one line feed more |
| `Diff.FillTable` | include/TTyUtils/TTyUtils-Diff.hpp:44-51 | the table holds the length of the longest common subsequence of every two suffixes |
| `Diff.Lines` | include/TTyUtils/TTyUtils-Diff.hpp:40-79 | the hunks of the specified walk, by the table and the `append` lambda |
| `Diff.DiffIsFaithfulAndOptimal` | include/TTyUtils/TTyUtils-Diff.hpp:40-79 | hunks other than additions concatenate to the old lines, other than removals to the new, lines are numbered by what precedes them, no common subsequence is longer than the lines kept, no hunk is empty or could be joined to the one before it, and where both sides keep as many lines the addition comes first |
| `Diff.GroupedOnce` | include/TTyUtils/TTyUtils-Diff.hpp:53-62 | lines can be grouped into hunks that are not empty and cannot be joined in one way only |
| `Diff.WalkChooses` | include/TTyUtils/TTyUtils-Diff.hpp:65-77 | a line is kept only where both are equal, removed only where that keeps strictly more lines than adding, and added otherwise |
| `Diff.KeptIsCommon` | include/TTyUtils/TTyUtils-Diff.hpp:63-77 | the equal lines are themselves a common subsequence |
| `Diff.LcsIsUpperBound` | include/TTyUtils/TTyUtils-Diff.hpp:46-51 | no common subsequence is longer than the table says |
| `Diff.EditHunksHoldOneLine` | include/TTyUtils/TTyUtils-Diff.hpp:53-62 | a hunk of additions or removals holds one line |
| `Diff.ApplyPatch` | include/TTyUtils/TTyUtils-Diff.hpp:105-114 | the buffer holds the lines of the hunks that are not removals |
| `Diff.PatchReproducesNewText` | include/TTyUtils/TTyUtils-Diff.hpp:40-114 | the patch of a diff writes the new text and one line feed more |
| `Search.MatchRegex` | include/TTyUtils/TTyUtils-Search.hpp:67-92 | the backtracking matcher with its local loop |
| `Search.RegexFindsLeast` | include/TTyUtils/TTyUtils-Search.hpp:67-92 | the matcher finds nothing if and only if nothing matches there, and otherwise the end of the match with the lexicographically least star counts |
| `Search.ParseWritten` | include/TTyUtils/TTyUtils-Search.hpp:67-80 | every list of items, wildcards, literal bytes, stars and a final end, is spelled by a pattern, with the bytes that have a meaning escaped, which is parsed into it |
| `Search.StarFindsLeast` | include/TTyUtils/TTyUtils-Search.hpp:81-90 | the same for the loop over a star |
| `Search.MatchLiteral` | include/TTyUtils/TTyUtils-Search.hpp:57-64 | a literal match |
| `Search.MatchFuzzy` | include/TTyUtils/TTyUtils-Search.hpp:94-108 | a fuzzy match and its score |
| `Search.SameLetters` | include/TTyUtils/TTyUtils-Search.hpp:52-55 | without regard to case the two forms of an ASCII letter are equal and nothing else is |
| `Search.FuzzyIsEarliest` | include/TTyUtils/TTyUtils-Search.hpp:94-108 | the fuzzy match has every byte of the query as early as any choice in order can have it, fails only when there is no choice, and scores its bonuses less one for each byte passed over |
| `Search.FindAll` | include/TTyUtils/TTyUtils-Search.hpp:115-138 | the list of matches, each with the positions of its two offsets and its score |
| `Search.MatchAtMeans` | include/TTyUtils/TTyUtils-Search.hpp:119-126 | what matches at an offset is, for a literal query, its bytes; for a regex, the end with the least star counts of the pattern without a leading `^`; for a fuzzy query, the earliest choice with ten for each byte at the start of the match or behind no letter or digit, one for each other, less one for each byte passed over |
| `Search.HitsAreMatches` | include/TTyUtils/TTyUtils-Search.hpp:122-136 | every reported match is one in that sense, and they are in order without overlap |
| `Search.HitsWhereTried` | include/TTyUtils/TTyUtils-Search.hpp:118-136 | for a query that is not anchored, what is reported is exactly the matches at the offsets that the scan tries |
| `Search.NextTryIs` | include/TTyUtils/TTyUtils-Search.hpp:127-134 | the scan goes on behind a match that holds bytes, and otherwise at the next cluster |
| `Search.AnchoredHits` | include/TTyUtils/TTyUtils-Search.hpp:117-134 | a pattern that starts with `^` yields the match at the start of the text and nothing else |
| `Search.NoMatchMissed` | include/TTyUtils/TTyUtils-Search.hpp:122-136 | where a match starts, an unanchored scan reports it or one that holds its start, except exactly when it tries the start of the cluster that match lies inside, finds no bytes there, and steps over it |
| `Search.NoPlainMatchMissed` | include/TTyUtils/TTyUtils-Search.hpp:122-136 | in a text over bytes that never join, every match of a query that is not empty or anchored is reported or starts inside a reported one |
| `MultiEdit.Replacer.ConfirmEach` | include/TTyUtils/TTyUtils-Search.hpp:157-166 | the buffer after replacing the confirmed matches from the last to the first, and their number |
| `MultiEdit.Replacer.ReplaceAll` | include/TTyUtils/TTyUtils-Search.hpp:168-170 | the same with every match confirmed |
| `MultiEdit.ConfirmedAre` | include/TTyUtils/TTyUtils-Search.hpp:157-166 | the number returned is how many matches were confirmed |
| `MultiEdit.ConfirmEachSplices` | include/TTyUtils/TTyUtils-Search.hpp:157-166 | over bytes that never join this is the original with exactly the confirmed matches replaced at once, whatever is sought |
| `MultiEdit.BackwardsIsSimultaneous` | include/TTyUtils/TTyUtils-Search.hpp:160-164 | a run of replacements at positions of the original text, from right to left, equals splicing them all at once, over bytes that never join |
| `MultiEdit.ReplacementJoins` | include/TTyUtils/TTyUtils-Search.hpp:160-164 | for every string that is one cluster while twice its first byte is two: replacing both bytes by the rest of the string makes the string and then replaces all of it, so the result is no splice |
| `MultiEdit.SplicesWhereBytesNeverJoin` | include/TTyUtils/TTyUtils-Search.hpp:157-166 | for every set of bytes and a table that treats ASCII and U+FFFD as the shipped one does, `confirm_each` is a splice for all texts and replacements over the set, all queries and all callbacks, if and only if the set does not hold both CR and LF nor all bytes of the encoding of a code point of more than one byte |
| `MultiEdit.JoiningBytesDoNotSplice` | include/TTyUtils/TTyUtils-Search.hpp:157-166 | for every other set, a text, a literal query and a replacement over the set for which it is not |
| `PropertyTable.ShippedSplices` | include/TTyUtils/TTyUtils-Search.hpp:157-166 | the same equivalence for the shipped table, without any assumption |
| `CursorMotion.Move` | include/TTyUtils/TTyUtils-TextCursor.hpp:57-92 | all eight motions |
| `CursorMotion.MoveWord` | include/TTyUtils/TTyUtils-TextCursor.hpp:95-132 | both word motions by their loops |
| `CursorMotion.WordBytes` | include/TTyUtils/TTyUtils-TextCursor.hpp:97-99 | word characters are the ASCII digits, letters and the underscore |
| `CursorLaws.LineLengthCounts` | include/TTyUtils/TTyUtils-TextCursor.hpp:60-62 | the length of a line taken alone is the number of clusters of the text that start in it |
| `CursorLaws.RightIsNextBoundary` | include/TTyUtils/TTyUtils-TextCursor.hpp:68-71 | right goes to the next cluster boundary of the text; the position it leaves is that boundary's own if and only if the cluster swallows no line feed |
| `CursorLaws.LeftIsPriorBoundary` | include/TTyUtils/TTyUtils-TextCursor.hpp:64-67 | left goes to the boundary before, unless the cluster between swallows a line feed: then it does not leave its offset |
| `CursorLaws.LeftUndoesRight` | include/TTyUtils/TTyUtils-TextCursor.hpp:64-71 | left undoes right, and right left, if and only if the first motion was not stuck at an end of the text |
| `CursorLaws.MoveKeepsInText` | include/TTyUtils/TTyUtils-TextCursor.hpp:57-132 | no motion takes a cursor out of the text |
| `CursorLaws.RunStaysInText` | include/TTyUtils/TTyUtils-TextCursor.hpp:57-92 | nor does any run of motions |
| `CursorLaws.RunKeepsAnchor` | include/TTyUtils/TTyUtils-TextCursor.hpp:57-60 | over a run of motions that extend the selection, its start stays where the run began |
| `CursorLaws.UpAndDownLand` | include/TTyUtils/TTyUtils-TextCursor.hpp:72-77 | up and down go one line on, to the preferred column or the end of a shorter line, and nowhere at the first and last line |
| `CursorLaws.ParagraphUpLands` | include/TTyUtils/TTyUtils-TextCursor.hpp:80-84 | paragraph-up passes the empty lines the cursor is on, then all lines with text before them, to the first of those |
| `CursorLaws.ParagraphDownLands` | include/TTyUtils/TTyUtils-TextCursor.hpp:85-89 | paragraph-down passes the lines with text below the cursor, then, from an empty line, all empty lines, to the line behind them or the last line |
| `CursorLaws.InTextIsValid` | include/TTyUtils/TTyUtils-TextCursor.hpp:57-92 | the places a cursor can be are the valid positions, all but the end of a line whose end lies inside a cluster, as before CR LF; for every text |
| `CursorLaws.WordRightLands` | include/TTyUtils/TTyUtils-TextCursor.hpp:101-108 | word-right leaves the word the cursor is in, or skips to the next one |
| `CursorLaws.WordLeftLands` | include/TTyUtils/TTyUtils-TextCursor.hpp:110-129 | word-left goes to the start of the last word that starts before the cursor, or to the start of the text |
| `CursorLaws.WordLeftUndoesWordRight` | include/TTyUtils/TTyUtils-TextCursor.hpp:95-132 | from the start of a word, word-left undoes word-right |
| `TextCursor.Merge` | include/TTyUtils/TTyUtils-TextCursor.hpp:165-173 | sorted cursors, one of the given ones for each position |
| `TextCursor.CursorSet.Add` | include/TTyUtils/TTyUtils-TextCursor.hpp:143 | the cursors afterwards are those before or the one added, one for each position |
| `TextCursor.CursorSet.MoveEach` | include/TTyUtils/TTyUtils-TextCursor.hpp:146-149 | the positions after a motion are those each cursor goes to, and every cursor afterwards, anchor and preferred column included, is a moved one |
| `TextCursor.CursorSet.InsertEach` | include/TTyUtils/TTyUtils-TextCursor.hpp:151-162 | the text after the insertions, when they equal inserting everywhere at once, and the cursors afterwards, each moved by the columns of the text and without a selection |
| `TextCursor.InsertsSimultaneously` | include/TTyUtils/TTyUtils-TextCursor.hpp:151-161 | over bytes that never join, with cursors on lines, past the end of a line included, but for the last one when no offset is beyond its own: inserting from the right end equals inserting once at every original cursor offset if and only if no two cursors share an offset or there is nothing to insert |
| `TextCursor.PastTheEndInsertsTwice` | include/TTyUtils/TTyUtils-TextCursor.hpp:156-158 | two cursors that share an offset, one of them past the end, insert twice there |
| `TextCursor.SharedOffsetsInsertMore` | include/TTyUtils/TTyUtils-TextCursor.hpp:156-158 | whatever the text and the cursors, sharing an offset makes the text longer than inserting once at each |
| `TextCursor.OffsetStays` | include/TTyUtils/TTyUtils-TextBuffer.hpp:45-55 | a cursor on a line of a text over bytes that never join, past its end included, keeps its offset in a text that agrees strictly beyond it |
| `TextCursor.PastTheLastLineMisplaces` | include/TTyUtils/TTyUtils-TextBuffer.hpp:47 | with cursors past the last line, different offsets are not enough |
| `WordWrap.SoftWrap` | include/TTyUtils/TTyUtils-WordWrap.hpp:65-102 | the rows of a text |
| `WordWrap.FindRowEnd` | include/TTyUtils/TTyUtils-WordWrap.hpp:83-93 | the inner loop and the break at the last blank |
| `WordWrap.WrapMap.BufferToVisual` | include/TTyUtils/TTyUtils-WordWrap.hpp:50-58 | the first row that covers the position |
| `WrapLaws.RowEndIsGreedy` | include/TTyUtils/TTyUtils-WordWrap.hpp:83-93 | a row takes all the clusters that fit; if the line goes on and words may be broken off, it ends after the last of them that starts with a space or a tab, if there is one |
| `WrapLaws.SpanFacts` | include/TTyUtils/TTyUtils-WordWrap.hpp:82-99 | each row starts on a boundary or just after a space that a mark extends, holds at most the limit, and only spaces follow it up to the next row |
| `WrapLaws.WrapMapIsExact` | include/TTyUtils/TTyUtils-WordWrap.hpp:43-102 | for every text and width: rows are in order and at most max(width, 1) columns; going to the screen and back is the identity exactly at covered positions; the reverse trip is the identity except at column 0 of a row that the one before touches |
| `WrapLaws.BeyondTheRows` | include/TTyUtils/TTyUtils-WordWrap.hpp:43-49 | a visual place beyond the last row counts as on it, one beyond the end of a row as that end |
| `WrapLaws.OnlySpacesUncovered` | include/TTyUtils/TTyUtils-WordWrap.hpp:95-99 | an uncovered cluster starts with a space, and is that one space byte when no space is extended |
| `WrapLaws.SpaceBreak` | include/TTyUtils/TTyUtils-WordWrap.hpp:98 | a space is a cluster of its own if and only if no extending code point follows |
| `ReflowText.Reflow` | include/TTyUtils/TTyUtils-WordWrap.hpp:107-123 | the text of the buffer after reflowing |
| `ReflowText.ReflowFits` | include/TTyUtils/TTyUtils-WordWrap.hpp:107-123 | every line of the result fits the width, for every text |
| `ReflowText.ReflowIsStable` | include/TTyUtils/TTyUtils-WordWrap.hpp:107-123 | reflowing again at the same width only adds one line feed, for every text |
| `ReflowText.ReflowKeepsAtWidth` | include/TTyUtils/TTyUtils-WordWrap.hpp:98-118 | at one width all bytes other than spaces and line feeds are kept in order if and only if no row starts inside a cluster |
| `ReflowText.ReflowKeepsText` | include/TTyUtils/TTyUtils-WordWrap.hpp:98-118 | they are kept at every width if and only if no space after the first cluster of a line is extended, and width one decides it |
| `ReflowText.NoSpaceExtendedIsEnough` | include/TTyUtils/TTyUtils-WordWrap.hpp:98 | it is enough that no space is followed by an extending code point |
| `PropertyTable.AccentIsLost` | include/TTyUtils/TTyUtils-WordWrap.hpp:98-118 | a combining accent after a space is lost at width one |
| `Automatons.Automaton.FeedByte` | include/TTyTk/TTyTk-Automaton.hpp:64-178 | one byte: the new state and the events |
| `Automatons.Automaton.Feed` | include/TTyTk/TTyTk-Automaton.hpp:35-38 | a chunk: the new state and the events, pending text flushed |
| `Automatons.Automaton.Reset` | include/TTyTk/TTyTk-Automaton.hpp:28-33 | back to the initial state without an event |
| `AutomatonRoundTrip.StreamIsRead` | include/TTyTk/TTyTk-Automaton.hpp:64-178 | from a fresh parser, any stream of text, controls, escape sequences of one byte, CSI sequences and strings reports what each of them does, in order: controls within an escape or CSI sequence, C1 controls within a string, CSI parameters without the bytes that are dropped, strings with each ESC that did not end them, and nothing for ESC and one other byte; both forms of every introducer |
| `AutomatonRoundTrip.EscapeIsPassedOver` | include/TTyTk/TTyTk-Automaton.hpp:136-138 | ESC and a byte that introduces nothing, before any input, change neither the events nor the final state |
| `AutomatonRoundTrip.RestartRecovers` | include/TTyTk/TTyTk-Automaton.hpp:76-103 | an introducer of one byte in any state, and ESC outside a string, abandon what was being read: later events are those of a fresh parser given that byte |
| `AutomatonLaws.StepAllKeepsInv` | include/TTyTk/TTyTk-Automaton.hpp:64-178 | in every reachable state text is pending only in ground, and every CSI payload is [0x20-0x3F]*[0x40-0x7E] |
| `AutomatonLaws.ChunkIndependence` | include/TTyTk/TTyTk-Automaton.hpp:35-38 | any two ways to cut the same input give the same final state and, with adjacent prints joined, the same events |
| `AutomatonLaws.ChunksDoNotMatter` | include/TTyTk/TTyTk-Automaton.hpp:35-38 | any cut against the uncut input |
| `AutomatonLaws.CancelRecovers` | include/TTyTk/TTyTk-Automaton.hpp:80-85 | after CAN or SUB in any state, all later events are those of a fresh parser |
| `AutomatonLaws.StringEndsAt` | include/TTyTk/TTyTk-Automaton.hpp:151-166 | BEL alone ends an OSC string and no byte a DCS string; 0x9C is ignored in both |
| `AutomatonLaws.StringEscapeEndsAt` | include/TTyTk/TTyTk-Automaton.hpp:167-176 | after ESC in a string, backslash alone ends it |
| `AutomatonRoundTrip.EncodeParse` | include/TTyTk/TTyTk-Automaton.hpp:28-178 | encoding any list of well-formed events and feeding it gives the list back, adjacent prints joined |
| `InputProto.ReadNumbers` | include/TTyTk/TTyTk-InputProto.hpp:43-56 | the numbers between semicolons, or none at all |
| `InputProto.PasteExactly` | include/TTyTk/TTyTk-InputProto.hpp:63-69 | a paste of a text is decoded from exactly that text between the markers, whatever the text holds |
| `InputProto.KeyIsRead` | include/TTyTk/TTyTk-InputProto.hpp:76-99 | CSI code alternates ; modifiers : event u is the key its fields say, with modifiers from one and a missing event 1, or error 2 when a field is no 32-bit number; for every such text |
| `InputProto.EveryKeyText` | include/TTyTk/TTyTk-InputProto.hpp:76-98 | every text before the `u` has that form |
| `InputProto.MouseIsRead` | include/TTyTk/TTyTk-InputProto.hpp:100-106 | three numbers between CSI < and M or m are the button and modifiers and motion by their bits, both coordinates, and pressed for M; any other list of fields is error 3 |
| `InputProto.EveryTextIsListed` | include/TTyTk/TTyTk-InputProto.hpp:43-56 | every text is such a list of fields |
| `InputProto.OthersAreRefused` | include/TTyTk/TTyTk-InputProto.hpp:70-108 | everything that is neither a paste, a key nor a mouse report is error 1 |
| `InputProto.MouseNumbers` | include/TTyTk/TTyTk-InputProto.hpp:43-56 | three printed numbers are read back |
| `Decimal.ParsePrinted` | include/TTyTk/TTyTk-InputProto.hpp:38-41 | a printed 32-bit number is read back |
| `Decimal.ParseExactly` | include/TTyTk/TTyTk-InputProto.hpp:38-41 | a text is read as n exactly when it is n as printed, perhaps behind zeros |
| `Puppets.Puppet.SendKey` | include/TTyTk/TTyTk-PuppetTools.hpp:15-18 | the bytes of a key |
| `Puppets.Puppet.SendMouse` | include/TTyTk/TTyTk-PuppetTools.hpp:20-24 | the bytes of a mouse event |
| `Puppets.Puppet.WaitForText` | include/TTyTk/TTyTk-PuppetTools.hpp:26-30 | whether the text occurs in what was observed |
| `Puppets.KeySurvives` | include/TTyTk/TTyTk-InputProto.hpp:76-99 | `decode_seq` recovers a sent key if and only if its event type is 1 and its modifiers are not 2^32-1 |
| `Puppets.MouseSurvives` | include/TTyTk/TTyTk-InputProto.hpp:100-106 | it recovers a sent mouse event if and only if the button is at most 3, the modifiers are within 4, 8 and 16, and it is no motion |
| `Puppets.OneCsiPerEvent` | include/TTyTk/TTyTk-PuppetTools.hpp:15-24 | a ground parser reports one CSI event for each event sent |
| `Puppets.PipelineRoundTrip` | include/TTyTk/TTyTk-PuppetTools.hpp:15-24 | every list of such events survives sending, parsing and decoding |
| `Terminals.Scrollback.Push` | include/TTyUtils/TTyUtils-Terminal.hpp:26-29 | the scrollback holds exactly the last `limit` lines pushed, in order |
| `Terminals.LastLinesAre` | include/TTyUtils/TTyUtils-Terminal.hpp:26-29 | those are the end of the list, all of it when it is not longer than the limit |
| `Terminals.Emulator.Feed` | include/TTyUtils/TTyUtils-Terminal.hpp:52-76 | the grid and the OSC calls after a feed; without rows, for every input whose scan puts no line feed |
| `Terminals.Emulator.PutByte` | include/TTyUtils/TTyUtils-Terminal.hpp:83-96 | one byte on the grid, with or without rows |
| `TerminalControls.ByteIsShown` | include/TTyUtils/TTyUtils-Terminal.hpp:72-96 | cell by cell what feeding one byte does: a printable byte, a line feed with and without scrolling, a carriage return, any other |
| `Terminals.Emulator.HandleControl` | include/TTyUtils/TTyUtils-Terminal.hpp:98-123 | a CSI sequence on the grid |
| `TerminalControls.CursorIsPlaced` | include/TTyUtils/TTyUtils-Terminal.hpp:53-118 | feeding CSI row ; column H or f, for any fields, leaves the screen alone and puts the cursor there, counting from one and staying on the screen; a field that is missing, empty, 0 or no number is 1 |
| `TerminalControls.CursorGoesTo` | include/TTyUtils/TTyUtils-Terminal.hpp:53-118 | the same for two printed 32-bit numbers |
| `TerminalControls.ScreenIsCleared` | include/TTyUtils/TTyUtils-Terminal.hpp:53-120 | feeding CSI 2 J makes every cell a space and moves nothing; J with any other number does nothing |
| `TerminalControls.LineIsErased` | include/TTyUtils/TTyUtils-Terminal.hpp:53-122 | feeding CSI K makes the cells of the cursor line from the cursor on spaces, and changes no other cell |
| `TerminalControls.OthersDoNothing` | include/TTyUtils/TTyUtils-Terminal.hpp:53-123 | every other control sequence changes nothing |
| `TerminalControls.OscIsReported` | include/TTyUtils/TTyUtils-Terminal.hpp:58-71 | an OSC string ended by BEL or ESC backslash is reported once, as what is before and after its first semicolon, or as two empty strings without one |
| `Terminals.Emulator.Resize` | include/TTyUtils/TTyUtils-Terminal.hpp:43-50 | lines cut or padded, rows dropped or added, the cursor clamped |
| `TerminalControls.FitCells` | include/TTyUtils/TTyUtils-Terminal.hpp:43-50 | a resized line keeps its bytes as far as it goes and is filled up with spaces |
| `TerminalTape.PutMovesTape` | include/TTyUtils/TTyUtils-Terminal.hpp:83-96 | a byte adds one blank line to the tape, or changes nothing outside the cursor's line |
| `TerminalTape.FeedExtendsTape` | include/TTyUtils/TTyUtils-Terminal.hpp:52-123 | a feed is a run of steps that keep the grid's shape and the cursor in range, each of which adds one blank line at the end of the tape and nothing else or changes it on the screen alone; the lines it evicts are, in order, those that stood at the top of the screen |
| `TerminalTape.LinesAboveStay` | include/TTyUtils/TTyUtils-Terminal.hpp:52-123 | without a control sequence that places the cursor or clears the screen, which J does for a first parameter of 2 alone, a feed leaves every line of the tape above the cursor as it was |
| `TerminalChunks.CutIsHarmless` | include/TTyUtils/TTyUtils-Terminal.hpp:53-75 | feeding a and then b equals feeding a and b at once, grid and OSC calls, for every b, if and only if the scan of a leaves no sequence unfinished and does not end in a bare ESC; on a screen without rows, for every b that puts no line feed |
| `TerminalTape.PrintedLinesAreOnTheTape` | include/TTyUtils/TTyUtils-Terminal.hpp:52-96 | any number of printed lines stand on the tape in order, padded or cut to the width |
| `TerminalChunks.SplitEscapeIsLost` | include/TTyUtils/TTyUtils-Terminal.hpp:54-58 | a control sequence cut between two feeds is dropped, its end printed |
| `TextLayout.Wrap` | include/TTyTk/TTyTk-TextLayout.hpp:10 | the lines of a text, by the loop |
| `TextLayout.WrapIsLossless` | include/TTyTk/TTyTk-TextLayout.hpp:10 | the lines concatenate to the text at every width; there is at least one, and without a limit just one |
| `TextLayout.LinesFit` | include/TTyTk/TTyTk-TextLayout.hpp:10 | every line fits unless it is one cluster that does not |
| `TextLayout.WrapIsOptimal` | include/TTyTk/TTyTk-TextLayout.hpp:10 | when every cluster fits, every line does, and no division at cluster boundaries whose lines fit has fewer lines |
| `Damages.Damage.Mark` | include/TTyTk/TTyTk-Damage.hpp:10-14 | the regions cover exactly the cells marked since `clear`, in order, none mergeable into the one before, and are canonical while no cell is in the largest column |
| `Damages.Damage.Merge` | include/TTyTk/TTyTk-Damage.hpp:18-21 | sorting and merging keep the cells |
| `Damages.CanonicalUnique` | include/TTyTk/TTyTk-Damage.hpp:18-21 | there is one canonical list of regions for a set of cells |
| `Damages.RegionsDependOnCellsOnly` | include/TTyTk/TTyTk-Damage.hpp:10-21 | any two runs of marks with the same cells leave the same regions, whatever their order and grouping, if and only if no cell is in the largest column |
| `Damages.EdgeTellsMarksApart` | include/TTyTk/TTyTk-Damage.hpp:20 | for every set of cells with one in the largest column, two runs of marks that leave different regions |
| `Damages.SameCellsSameRegions` | include/TTyTk/TTyTk-Damage.hpp:10-21 | two objects marked with the same cells, none in the largest column, report the same regions |
| `Damages.MergesKeeps` | include/TTyTk/TTyTk-Damage.hpp:18-21 | whatever order the sort leaves ties in, merging keeps the cells and leaves them in order and settled |
| `Damages.AddKeepsCanonical` | include/TTyTk/TTyTk-Damage.hpp:20 | a turn of the merging loop keeps the list canonical if and only if `last + 1` does not wrap before a later start |
| `Damages.WrapBreaksMerging` | include/TTyTk/TTyTk-Damage.hpp:20 | an input where it wraps |
| `HistoryFile.Dedup` | include/TTyUtils/TTyUtils-HistoryFile.hpp:27-39 | duplicates dropped under the three policies |
| `HistoryFile.DedupIs` | include/TTyUtils/TTyUtils-HistoryFile.hpp:27-39 | under `all` the first entry with each text stays, under `adjacent` the first of each run, under `never` all |
| `HistoryFile.DedupKeeps` | include/TTyUtils/TTyUtils-HistoryFile.hpp:31-36 | under `all` no two entries share a text, under `adjacent` no two neighbours do |
| `HistoryFile.DedupAgain` | include/TTyUtils/TTyUtils-HistoryFile.hpp:27-39 | dedup(dedup(xs) + [e]) == dedup(xs + [e]) |
| `HistoryFile.RecordRoundTrip` | include/TTyUtils/TTyUtils-HistoryFile.hpp:60-70 | a record is read back as written if and only if neither timestamp nor directory holds a tab |
| `HistoryFile.FieldsAreRead` | include/TTyUtils/TTyUtils-HistoryFile.hpp:55-75 | what stands before, between and behind the first three tabs of a line is its timestamp, directory, status and text |
| `HistoryFile.LineIsText` | include/TTyUtils/TTyUtils-HistoryFile.hpp:55-75 | a line with fewer than three tabs is all text |
| `HistoryFile.History.Load` | include/TTyUtils/TTyUtils-HistoryFile.hpp:51-76 | the entries of the file |
| `HistoryFile.History.Append` | include/TTyUtils/TTyUtils-HistoryFile.hpp:78-91 | the file and the entries after an append, which still agree if they did and the new fields hold no tab or line feed where the format has no room for one |
| `HistoryFile.AppendThenLoad` | include/TTyUtils/TTyUtils-HistoryFile.hpp:51-91 | loading after an append gives what the append left in memory |
| `HistoryFile.ReplayAgrees` | include/TTyUtils/TTyUtils-HistoryFile.hpp:51-91 | so does loading after any run of appends, ignored entries and clock stamps included, from an empty, closed or missing file, under all policies |
| `HistoryFile.AppendAll` | include/TTyUtils/TTyUtils-HistoryFile.hpp:78-91 | a run of `append` calls leaves the file and the memory of that replay |
| `HistoryFile.AppendThenLoadExactly` | include/TTyUtils/TTyUtils-HistoryFile.hpp:51-91 | loading after an append gives the memory under every policy if and only if the file was closed and the record holds no line feed and no tab outside its text, for every file and every record |
| `HistoryFile.UnclosedFileSwallows` | include/TTyUtils/TTyUtils-HistoryFile.hpp:58-86 | how many entries a file of one unfinished line loads after an append, and how many the memory has |

## Left out

- OS, process, network and event-loop code, widgets and viewers, colours, themes, configuration, image encoders and terminfo: system calls, containers or painting.
- The Latin-1 and CP437 code pages, `Span` overloads and `grapheme::Iterator`: they only repeat the codec and `next_break`.
- `merge3`, `diff::words`, `search::incremental`, `BiDi` and other placeholders: they do not implement the promised algorithm.
- `Patch::str`, `Patch::unified`, `load_file`, undo labels and `match_prefix`: they would add easy members.
- End-of-line style and byte-order-mark detection of the buffer (`inspect_encoding`): no other operation reads them.
- Callbacks: the parser's and the emulator's handlers are the trace of what they would receive, and all are assumed to be set; `confirm_each`'s callback is a function of the match. None may call back into the object.
- Integer width: `std::size_t` and `int` are unbounded except in `Damages` and in the key and mouse fields, so wrap-around of offsets, generations and scores, and the narrowing of `columns` to `int` in `layout::wrap`, are not modelled.
- Library calls: `std::sort` is any method that sorts (one insertion sort stands for it), `std::upper_bound` a binary search, `std::from_chars`, `std::to_string`, `std::atoi` and stream formatting of integers the decimal functions of `Decimal`; `std::isalnum` and `std::tolower` are those of the C locale.
- Files and clocks: a history file is its bytes and never fails to open, read or write; the time is a parameter.
- The text moved out of `before_` in `History::commit` is taken to be empty.
- Destructors are explicit: dropping a holder in `TextSharing`, committing a `Transaction`.
- A cursor is a value, as in the vector that holds it; `Cursor::move` is a method from one value to the next.
- `preserve_code_tokens` of the break rules: the code never reads it.
- `Damage::mark_all` and `layout::truncate`: the code does not give the natural guarantee.
- That cursors stay behind their own insertion after `insert_each`: the code does not remap those on one line.
- TextCursor.InsertsSimultaneously: of cursors past the last line it covers only the last cursor, with no offset beyond its own; any other finds its column in whatever line is last by then, as PastTheLastLineMisplaces shows, and whether the result differs depends on the bytes around.
- Terminals.Emulator.Feed: a line feed put on a screen without rows is not modelled; the code reads the first row of an empty screen there.
- Search.NoMatchMissed: an anchored query tries offset 0 alone.
