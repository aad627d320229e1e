# BlueJ / Greenfoot core, modelled in Dafny

This project models the core of the BlueJ and Greenfoot IDEs, which are written in Java. Each source file is one Dafny module, and each module proves properties of its model:

- **The Java editor's syntax view** (`JavaSyntaxView`), in three modules:
  - `ReparseRecords`: the set of reparse records, which are the regions of the document still to be reparsed;
  - `SyntaxView`: the style cache of the lines, the indent cache of the parsed nodes, and the short log of recent edits;
  - `ScopeBackgrounds`: the nested-scope boxes and the re-keying of the per-line caches when lines are added or removed.
- **The editor's line actions** (`MoeActions`): word search, tab stops, comment, uncomment, indent and de-indent of a line, the spaced tab and its removal.
- **Greenfoot's Scratch image decoder** (`ScratchImage`): the run-length codes of a Squeak Form and the unpacking of words into pixels.
- **`DocumentReader`** (`DocumentReading`): a `Reader` over a range of a document, whose text comes back in chunks.
- **`ParsedTypeNode`** (`TypeNodes`): a class, interface or enum node of the incremental parser, with its parse states and its handling of edits.
- **`Boot`**: the version string, the `-name=value` command-line properties, the jar location cut out of the boot class's URL, and the filter on files opened on macOS.
- **`JdiTestResult`** (`JdiTestResults`): the JUnit test result and the stack-trace filter.
- **`FileUtility`**: the file-name filters, `copyFile`, `copyDirectory` and `recursiveCopyFile`, over a file system held as a map from paths to entries.
- **`TeamSettingsController`** (`TeamSettings`): the team properties of a project, with the fallback to the configuration, the provider lookup, the ignore patterns, and how settings are written and read back.
- **`Dependency`** (`Dependencies`): identity, hash code, persistence, description and selection box of a dependency in the package diagram.
- **`ProjectEntityResolver`** (`EntityResolution`): resolving a name to a class or a package.
- **`LocalArray`** (`LocalArrays`): Greenfoot's debugger view of an array.

Two helper modules support the rest:
- `Strings`: prefix and search helpers, and decimal printing with its parse-back.
- `Arith`: monotonicity of multiplication, and uniqueness of division with remainder.

In the table, a method's contract ties the new state or its result to a specification function, and the lemmas beside it state what that function means. Java's `int` wrap-around is written out where the code relies on it:
- `Int32` and `JavaDiv`/`JavaRem` in `ScratchImage`;
- `Wrap32` in `Dependencies`.

## Model

| member | source | states |
|---|---|---|
| ReparseRecords.FindAtOrAfter | bluej/src/bluej/editor/flow/JavaSyntaxView.java:1918 | findNodeAtOrAfter: the index is that of the first record ending at or after p; every earlier record ends before p |
| ReparseRecords.FindAtOrAfterUnique | bluej/src/bluej/editor/flow/JavaSyntaxView.java:1918 | any index whose record is the first to end at or after p is the one found |
| ReparseRecords.Scheduled | bluej/src/bluej/editor/flow/JavaSyntaxView.java:1916-1942 | scheduleReparse as written adds at most one record and leaves the records ending before pos as they were |
| ReparseRecords.ScheduledFixed | bluej/src/bluej/editor/flow/JavaSyntaxView.java:1916-1942 | scheduleReparse (corrected) adds at most one record and leaves the records ending before pos as they were |
| ReparseRecords.ScheduledFixedValid | bluej/src/bluej/editor/flow/JavaSyntaxView.java:1916-1942 | scheduleReparse (corrected) keeps the records sorted, non-overlapping and of non-negative size |
| ReparseRecords.ScheduledFixedCoverage | bluej/src/bluej/editor/flow/JavaSyntaxView.java:1916-1942 | after scheduleReparse (corrected) an offset is dirty iff it was dirty before or lies in [pos, reach), where reach is pos+size unless a record starting in (pos, pos+size] is pulled back |
| ReparseRecords.ScheduledFixedKeepsDirty | bluej/src/bluej/editor/flow/JavaSyntaxView.java:1924-1936 | the corrected scheduleReparse never loses a dirty offset |
| ReparseRecords.ScheduledValid | bluej/src/bluej/editor/flow/JavaSyntaxView.java:1916-1942 | scheduleReparse as written also keeps the record set valid |
| ReparseRecords.ScheduledAgrees | bluej/src/bluej/editor/flow/JavaSyntaxView.java:1924-1936 | the as-written and corrected versions agree unless the record found starts strictly before pos |
| ReparseRecords.ScheduledDropsAbsorbedTail | bluej/src/bluej/editor/flow/JavaSyntaxView.java:1929 | as written, records [0,10),[12,20) and scheduleReparse(5,10) leave offset 17 clean although it was dirty; the corrected version keeps it |
| ReparseRecords.SectionParsedSplitTail | bluej/src/bluej/editor/flow/JavaSyntaxView.java:2194-2203 | marking (5, 0) parsed in [0,10),[10,20): the as-written reschedule of the cut tail merges to [0,15), SectionParsed gives [0,20) |
| ReparseRecords.ScheduledCoverage | bluej/src/bluej/editor/flow/JavaSyntaxView.java:1916-1942 | as written, when no record starts before pos and runs into it, coverage is old ∪ [pos, reach) |
| ReparseRecords.ScheduledCoversRequest | bluej/src/bluej/editor/flow/JavaSyntaxView.java:1916-1942 | as written, the requested range up to its reach is dirty afterwards |
| ReparseRecords.ScheduledOnlyGrows | bluej/src/bluej/editor/flow/JavaSyntaxView.java:1924-1936 | when the found record starts at or before pos, the records before it are unchanged, it keeps its start and does not shrink, and the absorbed records were within reach |
| ReparseRecords.AbsorbValid | bluej/src/bluej/editor/flow/JavaSyntaxView.java:1926-1935 | the absorbing loop keeps the record set valid |
| ReparseRecords.AbsorbCoverage | bluej/src/bluej/editor/flow/JavaSyntaxView.java:1926-1935 | absorbing (measured from the grown record's start) covers exactly the old dirty offsets plus [start, start+nsize) |
| ReparseRecords.AbsorbShape | bluej/src/bluej/editor/flow/JavaSyntaxView.java:1926-1935 | absorbing keeps the records before k, grows the k-th and removes a run of records after it |
| ReparseRecords.AbsorbGrows | bluej/src/bluej/editor/flow/JavaSyntaxView.java:1926-1935 | the absorbing loop, started above the record's size, only grows it |
| ReparseRecords.AbsorbKeepsBeyond | bluej/src/bluej/editor/flow/JavaSyntaxView.java:1926-1935 | the records that survive after the grown one start beyond the limit |
| ReparseRecords.ScheduledInsertsNew | bluej/src/bluej/editor/flow/JavaSyntaxView.java:1938-1941 | with nothing within reach, scheduleReparse adds exactly the record (pos, size) (multiset equality) |
| ReparseRecords.InsertAtMultiset | bluej/src/bluej/editor/flow/JavaSyntaxView.java:1940-1941 | insertNode adds the record and keeps every other |
| ReparseRecords.ScheduledInsertValid | bluej/src/bluej/editor/flow/JavaSyntaxView.java:1938-1941 | a new record placed where findNodeAtOrAfter points keeps the set valid when nothing is within reach |
| ReparseRecords.ScheduledMovesStart | bluej/src/bluej/editor/flow/JavaSyntaxView.java:1920-1922 | a record starting in (pos, pos+size] has its start moved back to pos, its end kept, and no other record changes |
| ReparseRecords.SectionParsed | bluej/src/bluej/editor/flow/JavaSyntaxView.java:2177-2218 | markSectionParsed adds at most one record (when a record spanning the section is split) |
| ReparseRecords.SectionParsedValid | bluej/src/bluej/editor/flow/JavaSyntaxView.java:2177-2218 | markSectionParsed keeps the record set valid |
| ReparseRecords.SectionParsedCoverage | bluej/src/bluej/editor/flow/JavaSyntaxView.java:2177-2218 | after markSectionParsed(pos,size) an offset is dirty iff it was dirty before and lies outside [pos, pos+size) |
| ReparseRecords.ParsedFrontCoverage | bluej/src/bluej/editor/flow/JavaSyntaxView.java:2182-2206 | the first loop followed by the second clears exactly the section |
| ReparseRecords.ParsedBackCoverage | bluej/src/bluej/editor/flow/JavaSyntaxView.java:2208-2217 | the second loop clears exactly what is left of the section |
| ReparseRecords.ParsedFrontValid | bluej/src/bluej/editor/flow/JavaSyntaxView.java:2182-2206 | the first loop keeps the record set valid |
| ReparseRecords.ParsedBackValid | bluej/src/bluej/editor/flow/JavaSyntaxView.java:2208-2217 | the second loop keeps the record set valid |
| ReparseRecords.ParsedFrontRemoveCoverage | bluej/src/bluej/editor/flow/JavaSyntaxView.java:2187-2188 | a record lying wholly in the section is removed, clearing only section offsets |
| ReparseRecords.ParsedFrontSlideCoverage | bluej/src/bluej/editor/flow/JavaSyntaxView.java:2190-2192 | a record starting at pos keeps only its part after the section |
| ReparseRecords.ParsedFrontCutCoverage | bluej/src/bluej/editor/flow/JavaSyntaxView.java:2194-2203 | a record starting before the section and ending inside it is cut back to end at pos |
| ReparseRecords.ParsedFrontCut | bluej/src/bluej/editor/flow/JavaSyntaxView.java:2194-2196 | one step of the first loop on a record cut at pos: the cut keeps the set valid and the loop continues after it |
| ReparseRecords.TailScheduled | bluej/src/bluej/editor/flow/JavaSyntaxView.java:2200-2202 | rescheduling the tail of a split record adds exactly [pos+size, old end) to the dirty offsets |
| ReparseRecords.ParsedSplitCoverage | bluej/src/bluej/editor/flow/JavaSyntaxView.java:2194-2203 | a record spanning the section keeps [start,pos) and has [pos+size,end) rescheduled: the result is old minus the section |
| ReparseRecords.CutCoverage | bluej/src/bluej/editor/flow/JavaSyntaxView.java:2196 | cutting a record back to end at pos clears [pos, old end) and nothing else, and keeps the set valid |
| ReparseRecords.Inserted | bluej/src/bluej/editor/flow/JavaSyntaxView.java:2292-2302 | fireInsertUpdate keeps the number of records and the records ending before the offset |
| ReparseRecords.InsertedValid | bluej/src/bluej/editor/flow/JavaSyntaxView.java:2292-2302 | fireInsertUpdate keeps the record set valid |
| ReparseRecords.InsertedCoverage | bluej/src/bluej/editor/flow/JavaSyntaxView.java:2292-2302 | after inserting length chars at offset: dirty offsets before stay, those after move up by length, and the inserted text is dirty iff the found record starts at or before offset |
| ReparseRecords.InsertedGrowCoverage | bluej/src/bluej/editor/flow/JavaSyntaxView.java:2294-2297 | text inserted inside a record grows it and moves the later records |
| ReparseRecords.InsertedSlideCoverage | bluej/src/bluej/editor/flow/JavaSyntaxView.java:2298-2301 | text inserted before a record moves it and the later ones |
| ReparseRecords.InsertedPastEnd | bluej/src/bluej/editor/flow/JavaSyntaxView.java:2292-2302 | text inserted after every record changes none of them |
| ReparseRecords.Removed | bluej/src/bluej/editor/flow/JavaSyntaxView.java:2319-2392 | fireRemoveUpdate never adds a record |
| ReparseRecords.RemovedValid | bluej/src/bluej/editor/flow/JavaSyntaxView.java:2319-2392 | fireRemoveUpdate keeps the record set valid |
| ReparseRecords.RemovedCoverage | bluej/src/bluej/editor/flow/JavaSyntaxView.java:2319-2392 | after removing length chars at offset: dirty offsets before stay, those after move down by length, the removed text takes its offsets with it |
| ReparseRecords.RemoveLoopValid | bluej/src/bluej/editor/flow/JavaSyntaxView.java:2331-2381 | the removal loop keeps the set valid |
| ReparseRecords.RemoveLoopCoverage | bluej/src/bluej/editor/flow/JavaSyntaxView.java:2331-2381 | the removal loop leaves exactly DirtyAfterRemoval |
| ReparseRecords.ShrinkCoverage | bluej/src/bluej/editor/flow/JavaSyntaxView.java:2333-2337 | removal inside a record shrinks it by the removed length |
| ReparseRecords.RemoveLoopCoverageCut | bluej/src/bluej/editor/flow/JavaSyntaxView.java:2338-2345 | a record the removal starts inside is cut back to rpos and the loop continues |
| ReparseRecords.RemoveLoopCoverageWhole | bluej/src/bluej/editor/flow/JavaSyntaxView.java:2347-2359 | a record starting at rpos within the removal is removed |
| ReparseRecords.RemoveLoopCoverageInside | bluej/src/bluej/editor/flow/JavaSyntaxView.java:2366-2372 | a record wholly inside the removed text is removed |
| ReparseRecords.SlideCoverage | bluej/src/bluej/editor/flow/JavaSyntaxView.java:2362-2365 | records wholly after the removed text slide back by its length |
| ReparseRecords.FrontCutCoverage | bluej/src/bluej/editor/flow/JavaSyntaxView.java:2373-2379 | a record the removal ends inside loses its front and slides back |
| SyntaxView.JavaSyntaxView.constructor | bluej/src/bluej/editor/flow/JavaSyntaxView.java:330-372 | the view starts with no reparse records, no styled lines, no cached indents and no recent edits |
| SyntaxView.JavaSyntaxView.ScheduleReparse | bluej/src/bluej/editor/flow/JavaSyntaxView.java:1916-1942 | the records become ScheduledFixed(old records) and stay valid |
| SyntaxView.JavaSyntaxView.MarkSectionParsed | bluej/src/bluej/editor/flow/JavaSyntaxView.java:2177-2218 | the records become SectionParsed(old), the spanned lines are unstyled, validity is kept |
| SyntaxView.JavaSyntaxView.FrontTurn | bluej/src/bluej/editor/flow/JavaSyntaxView.java:2182-2206 | one turn of the first loop preserves the value of ParsedFront, or finishes with it |
| SyntaxView.JavaSyntaxView.BackTurn | bluej/src/bluej/editor/flow/JavaSyntaxView.java:2208-2217 | one turn of the second loop preserves ParsedBack, or finishes with it |
| SyntaxView.JavaSyntaxView.FireInsertUpdate | bluej/src/bluej/editor/flow/JavaSyntaxView.java:2288-2313 | records become Inserted(old), the inserted lines are unstyled, and the insert is logged |
| SyntaxView.JavaSyntaxView.FireRemoveUpdate | bluej/src/bluej/editor/flow/JavaSyntaxView.java:2319-2392 | records become Removed(old), the lines are unstyled, and the removal is logged |
| SyntaxView.JavaSyntaxView.RemoveTurn | bluej/src/bluej/editor/flow/JavaSyntaxView.java:2331-2381 | one turn of the removal loop preserves RemoveLoop or finishes with it, and makes progress |
| SyntaxView.JavaSyntaxView.RemoveFromStart | bluej/src/bluej/editor/flow/JavaSyntaxView.java:2332-2359 | the turn for a record starting at or before the removal |
| SyntaxView.JavaSyntaxView.RemoveAfterStart | bluej/src/bluej/editor/flow/JavaSyntaxView.java:2360-2380 | the turn for a record starting after the removal start |
| SyntaxView.JavaSyntaxView.RestyleLines | bluej/src/bluej/editor/flow/JavaSyntaxView.java:2431-2437 | exactly the lines start..end are dropped from the style cache |
| SyntaxView.JavaSyntaxView.RecordEvent | bluej/src/bluej/editor/flow/JavaSyntaxView.java:2497-2523 | the edit log becomes Recorded(old log, event) |
| SyntaxView.RecordedWindow | bluej/src/bluej/editor/flow/JavaSyntaxView.java:2497-2523 | an insert or remove is appended with its kind, offset and length, the log never exceeds ten entries (oldest dropped), and other events leave it unchanged |
| SyntaxView.FindNonWhitespace | bluej/src/bluej/editor/flow/JavaSyntaxView.java:1580-1591 | -1 iff all characters from startPos are whitespace; otherwise the first non-whitespace index from startPos |
| SyntaxView.FindNonWhitespaceBwards | bluej/src/bluej/editor/flow/JavaSyntaxView.java:1625-1636 | endPos-1 iff (endPos, startPos] is all whitespace; otherwise the last non-whitespace index in it |
| SyntaxView.JavaSyntaxView.UpdateNodeIndent | bluej/src/bluej/editor/flow/JavaSyntaxView.java:1530-1550 | the indent cache and the damage range become IndentsAfter / DamageAfter of the old ones |
| SyntaxView.IndentsNeverGrow | bluej/src/bluej/editor/flow/JavaSyntaxView.java:1530-1543 | a node's cached indent never grows and the other nodes' entries are untouched |
| SyntaxView.DamageCoversNode | bluej/src/bluej/editor/flow/JavaSyntaxView.java:1544-1548 | the damage range keeps what it held and, when the indent changed, also holds the node |
| ScopeBackgrounds.WithModified | bluej/src/bluej/editor/flow/JavaSyntaxView.java:1858-1873 | the result is Modified(scopes, key, lhs) |
| ScopeBackgrounds.ModifiedEntries | bluej/src/bluej/editor/flow/JavaSyntaxView.java:1858-1907 | order and length kept; scopes of other nodes unchanged; scopes of key get left edge max(0, lhs - margin) with everything else kept |
| ScopeBackgrounds.ModifiedIdempotent | bluej/src/bluej/editor/flow/JavaSyntaxView.java:1858-1873 | applying withModified twice with the same edge equals once |
| ScopeBackgrounds.ModifiedMentions | bluej/src/bluej/editor/flow/JavaSyntaxView.java:1858-1873 | withModified keeps which nodes the list mentions |
| ScopeBackgrounds.LiveScopeBackgrounds.constructor | bluej/src/bluej/editor/flow/JavaSyntaxView.java:203-218 | both caches start empty |
| ScopeBackgrounds.LiveScopeBackgrounds.StoreSource | bluej/src/bluej/editor/flow/JavaSyntaxView.java:220-223 | the source info of the line is set |
| ScopeBackgrounds.LiveScopeBackgrounds.Clear | bluej/src/bluej/editor/flow/JavaSyntaxView.java:228-232 | both caches become empty |
| ScopeBackgrounds.LiveScopeBackgrounds.AddScopeBox | bluej/src/bluej/editor/flow/JavaSyntaxView.java:238-241 | the box is added after those already on the line |
| ScopeBackgrounds.LiveScopeBackgrounds.RemoveAllScopesForLine | bluej/src/bluej/editor/flow/JavaSyntaxView.java:246-250 | the line is removed from both caches |
| ScopeBackgrounds.LiveScopeBackgrounds.OnChanged | bluej/src/bluej/editor/flow/JavaSyntaxView.java:254-280 | an indent change rebuilds the pending lines' scopes as IndentChangedEntry describes; other changes leave them alone |
| ScopeBackgrounds.IndentChangedCombine | bluej/src/bluej/editor/flow/JavaSyntaxView.java:258-278 | the putIfAbsent pass then the replaceAll pass give IndentChangedEntry |
| ScopeBackgrounds.LiveScopeBackgrounds.LinesRemoved | bluej/src/bluej/editor/flow/JavaSyntaxView.java:282-302 | both caches are re-keyed by IsLinesRemoved |
| ScopeBackgrounds.LiveScopeBackgrounds.LinesAdded | bluej/src/bluej/editor/flow/JavaSyntaxView.java:304-324 | both caches are re-keyed by IsLinesAdded |
| ScopeBackgrounds.RemoveLines | bluej/src/bluej/editor/flow/JavaSyntaxView.java:286-300 | one forEach pass produces a map related by IsLinesRemoved |
| ScopeBackgrounds.AddLines | bluej/src/bluej/editor/flow/JavaSyntaxView.java:308-322 | one forEach pass produces a map related by IsLinesAdded |
| ScopeBackgrounds.LinesRemovedUnique | bluej/src/bluej/editor/flow/JavaSyntaxView.java:282-302 | the removal relation determines the new cache |
| ScopeBackgrounds.LinesAddedUnique | bluej/src/bluej/editor/flow/JavaSyntaxView.java:304-324 | the addition relation determines the new cache |
| ScopeBackgrounds.AddedThenRemoved | bluej/src/bluej/editor/flow/JavaSyntaxView.java:282-324 | removing lines just added restores the cache |
| ScopeBackgrounds.RemovedThenAdded | bluej/src/bluej/editor/flow/JavaSyntaxView.java:282-324 | adding back removed lines restores every entry outside the removed range |
| MoeActions.FindWordLimit | bluej/src/bluej/editor/moe/MoeActions.java:185-219 | the result satisfies IsWordLimit (as written, backward search included) |
| MoeActions.WordLimitBounds | bluej/src/bluej/editor/moe/MoeActions.java:185-219 | a limit lies within the text; None exactly when the first charAt would throw |
| MoeActions.WordLimitUnique | bluej/src/bluej/editor/moe/MoeActions.java:185-219 | the word-limit relation determines its result |
| MoeActions.FindWordLimitFixed | bluej/src/bluej/editor/moe/MoeActions.java:192-208 | corrected: the backward search stops at the true start of the run |
| MoeActions.WordStartOvershoots | bluej/src/bluej/editor/moe/MoeActions.java:195 | in " a" backward from 1, as written gives 0 (the space included) while the corrected search gives 1 |
| MoeActions.IsOpenBrace | bluej/src/bluej/editor/moe/MoeActions.java:323-331 | true iff some '{' in the line has no '}' after it |
| MoeActions.NextIndent | bluej/src/bluej/editor/moe/MoeActions.java:341-357 | a brace adds tabSize spaces; a comment end drops one char; "/*" adds a space; otherwise the indent is kept |
| MoeActions.TabFill | bluej/src/bluej/editor/moe/MoeActions.java:362-366 | 1..tabSize spaces reaching the next tab stop, with no stop in between |
| MoeActions.ExpandTab | bluej/src/bluej/editor/moe/MoeActions.java:387-391 | the tab at idx is replaced by the spaces up to the next tab stop; the rest of the line is kept |
| MoeActions.TabRemoval | bluej/src/bluej/editor/moe/MoeActions.java:374-385 | 0 at column 0; else 1..tabSize chars back to the previous tab stop, none skipped |
| MoeActions.LineStart | bluej/src/bluej/editor/moe/MoeActions.java:236-242 | the start of the line holding pos: at or before pos, after a newline or at 0, with no newline in between |
| MoeActions.Spaces | bluej/src/bluej/editor/moe/MoeActions.java:115 | spaces.substring(0, n): n spaces |
| MoeActions.FirstNonIndentChar | bluej/src/bluej/editor/moe/MoeActions.java:2146 | the first character above blank, every one before it blank |
| MoeActions.TrimStartsAt | bluej/src/bluej/editor/moe/MoeActions.java:2165 | trim() of a line starts at its first non-blank character, so startsWith on it agrees with the line from there |
| MoeActions.InsertSpacedTab | bluej/src/bluej/editor/moe/MoeActions.java:362-366 | the selection is replaced by TabFill spaces and the caret ends after them |
| MoeActions.RemoveTab | bluej/src/bluej/editor/moe/MoeActions.java:374-385 | TabRemoval characters before the caret are removed |
| MoeActions.Commented | bluej/src/bluej/editor/moe/MoeActions.java:2140-2149 | a line changes iff it is not blank |
| MoeActions.CommentLine | bluej/src/bluej/editor/moe/MoeActions.java:2140-2149 | the line is replaced by Commented(line) |
| MoeActions.CommentedShape | bluej/src/bluej/editor/moe/MoeActions.java:2140-2149 | a blank line is unchanged; any other gets "// " at its first non-blank character |
| MoeActions.Uncommented | bluej/src/bluej/editor/moe/MoeActions.java:2159-2180 | uncommenting removes at most three characters |
| MoeActions.UncommentLine | bluej/src/bluej/editor/moe/MoeActions.java:2159-2180 | the line is replaced by Uncommented(line) |
| MoeActions.UncommentedShape | bluej/src/bluej/editor/moe/MoeActions.java:2159-2180 | only a line whose trimmed text starts "//" changes, losing "// " or "//" at its first '/' |
| MoeActions.UncommentedCommented | bluej/src/bluej/editor/moe/MoeActions.java:2140-2180 | uncommenting a commented line gives it back |
| MoeActions.Indented | bluej/src/bluej/editor/moe/MoeActions.java:2189-2193 | tabSize spaces followed by the line |
| MoeActions.IndentLine | bluej/src/bluej/editor/moe/MoeActions.java:2189-2193 | the line is replaced by Indented(line): tabSize spaces in front |
| MoeActions.DeindentLine | bluej/src/bluej/editor/moe/MoeActions.java:2203-2226 | the line is replaced by Deindented(line) |
| MoeActions.DeindentedShape | bluej/src/bluej/editor/moe/MoeActions.java:2203-2226 | a leading hard tab alone is removed, else the leading spaces when a character follows them |
| MoeActions.Deindented | bluej/src/bluej/editor/moe/MoeActions.java:2203-2226 | de-indenting removes at most tabSize characters, all blanks or tabs, from the front and nothing else |
| MoeActions.DeindentedIndented | bluej/src/bluej/editor/moe/MoeActions.java:2189-2226 | de-indenting an indented line removes exactly the spaced tab |
| MoeActions.CountSpaces | bluej/src/bluej/editor/moe/MoeActions.java:2207-2210 | the count is the number of leading spaces |
| MoeActions.SkipTo | bluej/src/bluej/editor/moe/MoeActions.java:2163-2166 | the loop stops at the first occurrence of c, or at the end of the line |
| MoeActions.RemoveCommentSymbol | bluej/src/bluej/editor/moe/MoeActions.java:2170-2176 | "// " is removed when a space follows the slashes, else "//", at the first '/' |
| ScratchImage.DecodeLen | greenfoot/src/greenfoot/importer/scratch/ScratchImage.java:188-209 | the position after the field is within the data and advances when a value is read |
| ScratchImage.DecodeLenOneByte | greenfoot/src/greenfoot/importer/scratch/ScratchImage.java:206-207 | a first byte below 0xE0 is the value, one byte read |
| ScratchImage.DecodeLenTwoBytes | greenfoot/src/greenfoot/importer/scratch/ScratchImage.java:202-205 | 0xE0..0xFE: (b-0xE0)*256 + next byte, below 0x2000, two bytes read |
| ScratchImage.DecodeLenFiveBytes | greenfoot/src/greenfoot/importer/scratch/ScratchImage.java:196-201 | 0xFF: the next four bytes big-endian as a Java int, five bytes read |
| ScratchImage.DecodeLenMinusOne | greenfoot/src/greenfoot/importer/scratch/ScratchImage.java:193-201 | -1 exactly at end of stream, a truncated field, or 0xFF followed by four 0xFF bytes |
| ScratchImage.DecodeEncodeLen | greenfoot/src/greenfoot/importer/scratch/ScratchImage.java:188-209 | decodeLen reads back every shortest encoding of 0..2^31-1 and stops right after it |
| ScratchImage.EncodeLen | greenfoot/src/greenfoot/importer/scratch/ScratchImage.java:188-209 | the shortest count field decodeLen reads, 1 to 5 bytes |
| ScratchImage.Int32 | greenfoot/src/greenfoot/importer/scratch/ScratchImage.java:196-200 | a Java int congruent to v modulo 2^32, and v itself when it fits |
| ScratchImage.ByteAt | greenfoot/src/greenfoot/importer/scratch/ScratchImage.java:193 | a byte 0..255, or -1 exactly at end of stream |
| ScratchImage.ByteInput.Read | greenfoot/src/greenfoot/importer/scratch/ScratchImage.java:193 | the next byte, or -1 without moving at the end |
| ScratchImage.ReadCount | greenfoot/src/greenfoot/importer/scratch/ScratchImage.java:188-209 | reading a count through read() agrees with DecodeLen |
| ScratchImage.ReadWord | greenfoot/src/greenfoot/importer/scratch/ScratchImage.java:198-200 | four reads give Word: the big-endian int, or -1 when cut short |
| ScratchImage.WordBigEndian | greenfoot/src/greenfoot/importer/scratch/ScratchImage.java:198-200 | four bytes in full make the big-endian word wrapped to an int |
| ScratchImage.WordTruncated | greenfoot/src/greenfoot/importer/scratch/ScratchImage.java:198-200 | a word cut short by end of stream reads -1 |
| ScratchImage.PixelsPerWordPositive | greenfoot/src/greenfoot/importer/scratch/ScratchImage.java:159 | a word holds a pixel iff 1 <= d <= 32 |
| ScratchImage.CodeAdvances | greenfoot/src/greenfoot/importer/scratch/ScratchImage.java:110-148 | each code advances the word position by rawN>>2 and reads 0, 1, 4 or 4 per word bytes by op |
| ScratchImage.CodeOps | greenfoot/src/greenfoot/importer/scratch/ScratchImage.java:112-135 | op 0 sets nothing; op 1 fills with the byte replicated; op 2 fills with the big-endian word |
| ScratchImage.CopyWordsReads | greenfoot/src/greenfoot/importer/scratch/ScratchImage.java:136-148 | op 3 reads one four-byte word per entry set |
| ScratchImage.EntryKeepsFirstColumn | greenfoot/src/greenfoot/importer/scratch/ScratchImage.java:167 | as written, no word at pos >= 0 ever sets a pixel in column 0 |
| ScratchImage.EntryFixedCells | greenfoot/src/greenfoot/importer/scratch/ScratchImage.java:155-181 | corrected: the word sets exactly the in-image columns of its segment, first pixel in the highest bits, and leaves every other pixel |
| ScratchImage.CellInjective | greenfoot/src/greenfoot/importer/scratch/ScratchImage.java:172-178 | distinct (x, y) map to distinct buffer cells |
| ScratchImage.CellUpdate | greenfoot/src/greenfoot/importer/scratch/ScratchImage.java:172-178 | setting pixel (x, y) changes no other pixel |
| ScratchImage.Cell | greenfoot/src/greenfoot/importer/scratch/ScratchImage.java:172-178 | every in-image (x, y) has a cell inside the buffer |
| ScratchImage.RealWidth | greenfoot/src/greenfoot/importer/scratch/ScratchImage.java:162 | a row holds at least one word |
| ScratchImage.EntryFixedFrom | greenfoot/src/greenfoot/importer/scratch/ScratchImage.java:164-180 | corrected loop from pixel i on: exactly the in-image columns of the remaining segment are set, the rest kept |
| ScratchImage.Entry | greenfoot/src/greenfoot/importer/scratch/ScratchImage.java:155-181 | setBitmapEntry keeps the buffer size whenever it does not throw |
| ScratchImage.Fill | greenfoot/src/greenfoot/importer/scratch/ScratchImage.java:118-122 | the fill loop keeps the buffer size |
| ScratchImage.CopyWords | greenfoot/src/greenfoot/importer/scratch/ScratchImage.java:136-148 | the copy loop keeps the buffer size and reads forward within the data |
| ScratchImage.Code | greenfoot/src/greenfoot/importer/scratch/ScratchImage.java:110-149 | a code keeps the buffer size and reads forward within the data |
| ScratchImage.Runs | greenfoot/src/greenfoot/importer/scratch/ScratchImage.java:107-150 | decoding all codes keeps the buffer size |
| ScratchImage.Blank | greenfoot/src/greenfoot/importer/scratch/ScratchImage.java:101 | a new image: w*h pixels, all 0 |
| ScratchImage.Decoded | greenfoot/src/greenfoot/importer/scratch/ScratchImage.java:84-153 | None when the image would be empty (BufferedImage throws); otherwise, when resolve does not throw, w*h pixels |
| ScratchImage.ScratchImage.constructor | greenfoot/src/greenfoot/importer/scratch/ScratchImage.java:71-79 | the form holds the given width, height, depth and palette |
| ScratchImage.ScratchImage.SetBitmapEntry | greenfoot/src/greenfoot/importer/scratch/ScratchImage.java:155-181 | the pixels become Entry(..., corrected); ok is false exactly where the source throws |
| ScratchImage.ScratchImage.SetPixel | greenfoot/src/greenfoot/importer/scratch/ScratchImage.java:164-179 | one pixel per EntryLoop step |
| ScratchImage.ScratchImage.FillEntries | greenfoot/src/greenfoot/importer/scratch/ScratchImage.java:118-122 | the pixels become Fill(...) |
| ScratchImage.ScratchImage.CopyEntries | greenfoot/src/greenfoot/importer/scratch/ScratchImage.java:136-148 | the pixels and stream position become CopyWords(...) |
| ScratchImage.ScratchImage.ApplyCode | greenfoot/src/greenfoot/importer/scratch/ScratchImage.java:110-149 | one code: pixels, stream and word position become Code(...) |
| ScratchImage.ScratchImage.Resolve | greenfoot/src/greenfoot/importer/scratch/ScratchImage.java:84-153 | ok iff Decoded(form, bits, corrected) succeeds, and then the fresh buffer holds it; false before any allocation for an empty image |
| ScratchImageCase.OnePixelLost | greenfoot/src/greenfoot/importer/scratch/ScratchImage.java:167 | as written, a 1x1 depth-32 image with bits [1,6,0,0,0,7] decodes to pixel 0 |
| ScratchImageCase.OneWordLost | greenfoot/src/greenfoot/importer/scratch/ScratchImage.java:124-135 | the op-2 code of that image leaves the pixel 0 and advances as expected |
| DocumentReading.ChunkLength | bluej/src/bluej/parser/DocumentReader.java:96-105 | a chunk is 1..avail chars when any are asked for, and all of them when the limit allows |
| DocumentReading.ArrayCopy | bluej/src/bluej/parser/DocumentReader.java:87 | dst holds src[srcPos..srcPos+n] at dstPos, everything else unchanged |
| DocumentReading.DocumentReader.constructor | bluej/src/bluej/parser/DocumentReader.java:43-51 | reads from position to endpos; the first chunk is fetched |
| DocumentReading.DocumentReader.FromPosition | bluej/src/bluej/parser/DocumentReader.java:33-41 | reads from position to the end of the document |
| DocumentReading.DocumentReader.Whole | bluej/src/bluej/parser/DocumentReader.java:25-28 | reads the whole document |
| DocumentReading.DocumentReader.Remaining | bluej/src/bluej/parser/DocumentReader.java:72 | remaining = docLength - docPosition + buffered = docLength - bufpos |
| DocumentReading.DocumentReader.FillBuffer | bluej/src/bluej/parser/DocumentReader.java:96-105 | the buffer becomes the next chunk and docPosition moves past it |
| DocumentReading.DocumentReader.Close | bluej/src/bluej/parser/DocumentReader.java:53-56 | nothing changes |
| DocumentReading.DocumentReader.Read | bluej/src/bluej/parser/DocumentReader.java:58-68 | the next character of the document in order, or -1 once all of [start, docLength) was delivered |
| DocumentReading.DocumentReader.ReadInto | bluej/src/bluej/parser/DocumentReader.java:70-94 | copies min(len, remaining) next characters into cbuf[off..], or -1 when none; delivered text is always the document's prefix from start |
| DocumentReading.DocumentReader.CopyTurn | bluej/src/bluej/parser/DocumentReader.java:81-91 | one loop round copies 1..remaining next characters |
| DocumentReading.DocumentReader.CopyChunk | bluej/src/bluej/parser/DocumentReader.java:87-89 | the next avail characters of the document land in cbuf at off, nothing else in cbuf changes, and they are delivered |
| TypeNodes.BeginsNextStateExactly | bluej/src/bluej/parser/nodes/ParsedTypeNode.java:150-175 | the header state moves on exactly when the header parses, a name follows, and part 2 succeeds |
| TypeNodes.BodyEndsOnBrace | bluej/src/bluej/parser/nodes/ParsedTypeNode.java:176-184 | the body state ends exactly on '}', else it is incomplete |
| TypeNodes.PartialParse | bluej/src/bluej/parser/nodes/ParsedTypeNode.java:148-192 | EPIC_FAIL iff the state is not 0-2 or the header does not parse; only state 0 begins the next state |
| TypeNodes.ParsedTypeNode.constructor | bluej/src/bluej/parser/nodes/ParsedTypeNode.java:67-76 | kind and prefix set; no name, no inner node, state markers -1, not complete |
| TypeNodes.ParsedTypeNode.InsertInner | bluej/src/bluej/parser/nodes/ParsedTypeNode.java:136-140 | the inner node becomes the body at position with size |
| TypeNodes.ParsedTypeNode.IsContainer | bluej/src/bluej/parser/nodes/ParsedTypeNode.java:109-112 | always a container |
| TypeNodes.ParsedTypeNode.IsDelimitingNode | bluej/src/bluej/parser/nodes/ParsedTypeNode.java:202-206 | never a delimiting node |
| TypeNodes.ParsedTypeNode.DoPartialParse | bluej/src/bluej/parser/nodes/ParsedTypeNode.java:148-192 | the result is PartialParse(state, answers); the fields set (name, last token, complete) per state; a token is pushed back iff the result is BEGINS_NEXT_STATE |
| TypeNodes.ParsedTypeNode.HandleTextChange | bluej/src/bluej/parser/nodes/ParsedTypeNode.java:208-224 | handled iff a change lies strictly after the inner node's start; then the inner node is incomplete, stretched to this node's end, and reparse is scheduled |
| TypeNodes.ParsedTypeNode.HandleInsertion | bluej/src/bluej/parser/nodes/ParsedTypeNode.java:227-234 | ALL_OK iff the insertion is after the inner start, then a reparse of (insPos, length) is scheduled; otherwise delegated with nothing scheduled |
| TypeNodes.ParsedTypeNode.HandleDeletion | bluej/src/bluej/parser/nodes/ParsedTypeNode.java:237-244 | the same with length 1 |
| TypeNodes.ParsedTypeNode.ResolvePackageOrClass | bluej/src/bluej/parser/nodes/ParsedTypeNode.java:263-275 | the enclosing scope's answer, or the type a type parameter of that name resolves to |
| TypeNodes.ParsedTypeNode.ResolveFallsBack | bluej/src/bluej/parser/nodes/ParsedTypeNode.java:263-275 | a name that is no type parameter is resolved by the enclosing scope |
| TypeNodes.ParsedTypeNode.TypeParamShadows | bluej/src/bluej/parser/nodes/ParsedTypeNode.java:263-275 | a type parameter shadows the enclosing scope |
| Boot.Version | bluej/boot/src/bluej/Boot.java:68-71 | major.minor.release then the suffix, ending in the suffix |
| Boot.BluejVersion | bluej/boot/src/bluej/Boot.java:59-71 | BLUEJ_VERSION is "4.2.1" |
| Boot.VersionInjective | bluej/boot/src/bluej/Boot.java:68-71 | different version numbers with the same suffix never print alike |
| Boot.DottedTripleInjective | bluej/boot/src/bluej/Boot.java:68-71 | three dot-joined parts, the first two dot-free, are determined by the joined string |
| Boot.Definition | bluej/boot/src/bluej/Boot.java:453-463 | a definition has a non-empty name without '=' and a non-empty value |
| Boot.DefinitionExactly | bluej/boot/src/bluej/Boot.java:453-463 | an argument defines (name, value) iff it reads "-name=value" with name free of '=' and both non-empty |
| Boot.IgnoredArguments | bluej/boot/src/bluej/Boot.java:453-458 | an argument without leading '-' or without '=' defines nothing |
| Boot.PropertySetExactly | bluej/boot/src/bluej/Boot.java:448-466 | a property is set iff some argument defines it |
| Boot.LastDefinitionWins | bluej/boot/src/bluej/Boot.java:448-466 | a property's value is the one given by the last argument defining it |
| Boot.ProcessCommandLineProperties | bluej/boot/src/bluej/Boot.java:448-466 | the loop yields CommandLineProperties(args) |
| Boot.JarLocation | bluej/boot/src/bluej/Boot.java:389-394 | the location has no '!' and is followed by '!' in the URL |
| Boot.JarLocationExactly | bluej/boot/src/bluej/Boot.java:389-394 | "jar:" + location + "!" + entry gives back location, and only such URLs |
| Boot.JarLocationNeedsBang | bluej/boot/src/bluej/Boot.java:392-393 | without '!' substring throws: no location |
| Boot.ProjectFiles | bluej/boot/src/bluej/Boot.java:690-694 | never more names than given |
| Boot.ProjectFilesExactly | bluej/boot/src/bluej/Boot.java:690-694 | a name is kept iff it is given and has no ':', is not "bluej.Boot" and does not start with '-' |
| Boot.ProjectFilesIdempotent | bluej/boot/src/bluej/Boot.java:690-694 | filtering again keeps everything |
| Boot.ProjectFilesKept | bluej/boot/src/bluej/Boot.java:690-694 | every kept name passes the filter |
| Boot.App.constructor | bluej/boot/src/bluej/Boot.java:148 | the initial project list is empty |
| Boot.App.HandleOpenFilesAction | bluej/boot/src/bluej/Boot.java:685-696 | the list grows by ProjectFiles(files), in order |
| JdiTestResults.Filtered | bluej/src/bluej/debugger/jdi/JdiTestResult.java:110-129 | a filtered line contains some pattern, not at its very start |
| JdiTestResults.FilterLine | bluej/src/bluej/debugger/jdi/JdiTestResult.java:110-129 | the result is Filtered(line) |
| JdiTestResults.FilteredExactly | bluej/src/bluej/debugger/jdi/JdiTestResult.java:110-129 | a line is filtered iff some pattern's first occurrence is at an index > 0 |
| JdiTestResults.LineEnd | bluej/src/bluej/debugger/jdi/JdiTestResult.java:100 | the first terminator at or after from, or the end |
| JdiTestResults.ReadLine | bluej/src/bluej/debugger/jdi/JdiTestResult.java:100 | each read consumes at least one character |
| JdiTestResults.FilteredTrace | bluej/src/bluej/debugger/jdi/JdiTestResult.java:91-108 | the trace is empty iff every line of the stack is filtered |
| JdiTestResults.GetFilteredTrace | bluej/src/bluej/debugger/jdi/JdiTestResult.java:91-108 | the result is FilteredTrace(stack, nl) |
| JdiTestResults.PrintUnlessFiltered | bluej/src/bluej/debugger/jdi/JdiTestResult.java:101-102 | one loop turn prints the line with nl unless it is filtered |
| JdiTestResults.PrintedRestIsFiltered | bluej/src/bluej/debugger/jdi/JdiTestResult.java:91-108 | the printing loop gives the kept lines, each followed by nl |
| JdiTestResults.LinesHaveNoTerminators | bluej/src/bluej/debugger/jdi/JdiTestResult.java:100 | readLine never returns a line holding a terminator |
| JdiTestResults.KeptLinesExactly | bluej/src/bluej/debugger/jdi/JdiTestResult.java:100-103 | a line is kept iff it is a line of the trace and not filtered |
| JdiTestResults.KeptLinesIdempotent | bluej/src/bluej/debugger/jdi/JdiTestResult.java:100-103 | keeping twice is keeping once |
| JdiTestResults.LinesOfPrinted | bluej/src/bluej/debugger/jdi/JdiTestResult.java:100-102 | reading back lines printed with a separator gives the same lines |
| JdiTestResults.ReadPrintedLine | bluej/src/bluej/debugger/jdi/JdiTestResult.java:100 | readLine gives back a line printed with a separator and the rest after it, unless a lone CR is followed by LF |
| JdiTestResults.FilteredTraceIdempotent | bluej/src/bluej/debugger/jdi/JdiTestResult.java:91-108 | filtering a filtered trace changes nothing |
| JdiTestResults.TestResult.Name | bluej/src/bluej/debugger/jdi/JdiTestResult.java:50-53 | class name, '.', method name, in that order |
| JdiTestResults.NameSplitsAtLastDot | bluej/src/bluej/debugger/jdi/JdiTestResult.java:50-53 | getName's last dot separates class and method |
| JdiTestResults.TestResult.IsFailure | bluej/src/bluej/debugger/jdi/JdiTestResult.java:75-78 | a failure iff there is an exception message |
| JdiTestResults.TestResult.IsError | bluej/src/bluej/debugger/jdi/JdiTestResult.java:67-70 | an error iff a failure |
| JdiTestResults.TestResult.IsSuccess | bluej/src/bluej/debugger/jdi/JdiTestResult.java:83-86 | a success iff not an error |
| JdiTestResults.NewTestResult | bluej/src/bluej/debugger/jdi/JdiTestResult.java:21-35 | None (NullPointerException) iff a name is missing; otherwise the fields as given, and a trace iff one was given |
| JdiTestResults.NewPassedResult | bluej/src/bluej/debugger/jdi/JdiTestResult.java:16-19 | a success without a trace |
| JdiTestResults.StoredTraceIsClean | bluej/src/bluej/debugger/jdi/JdiTestResult.java:21-35 | no line of a stored trace is filtered |
| FileUtility.SkipFile | bluej/src/bluej/utility/FileUtility.java:247-260 | a file is skipped only under a flag, and without the BlueJ flag only for a name ending ".java" |
| FileUtility.BlueJFilesSkipped | bluej/src/bluej/utility/FileUtility.java:247-260 | skipping BlueJ files skips exactly the package files and the context files |
| FileUtility.SourcesSkipped | bluej/src/bluej/utility/FileUtility.java:247-260 | skipping sources skips exactly names ending ".java" |
| FileUtility.SkipMonotone | bluej/src/bluej/utility/FileUtility.java:247-260 | turning a flag on never copies a file that was skipped |
| FileUtility.AcceptJavaSource | bluej/src/bluej/utility/FileUtility.java:126-133 | the source filter accepts a non-directory iff a sources-excluded copy would skip it |
| FileUtility.AcceptsDirectories | bluej/src/bluej/utility/FileUtility.java:126-133 | the source filter accepts every directory |
| FileUtility.ChildNamesExactly | bluej/src/bluej/utility/FileUtility.java:221 | a name is listed in a directory iff the path of that name under it exists |
| FileUtility.FileSystem.Mkdir | bluej/src/bluej/utility/FileUtility.java:290 | true iff the path was absent and creatable; then it becomes a directory |
| FileUtility.FileSystem.CopyFile | bluej/src/bluej/utility/FileUtility.java:159-183 | same path: true, nothing opened; else true iff both ends open, and then dest holds the source's content |
| FileUtility.FileSystem.CopyDirectory | bluej/src/bluej/utility/FileUtility.java:205-239 | the error codes in order (not a directory, destination exists, mkdir fails, copy error); nothing outside dest changes; on success every listed child is copied and no skipped file is written, and, when dest is not inside source, every entry of the source tree is copied to its place below dest (regular files the flags keep with their contents, directories as directories) |
| FileUtility.FileSystem.CopyChild | bluej/src/bluej/utility/FileUtility.java:221-237 | one child: copied unless it failed, and with it, when dest is not inside source, its whole subtree; nothing outside dest + [n] changes; no skipped file written |
| FileUtility.CopyDirectoryTurn | bluej/src/bluej/utility/FileUtility.java:221-237 | one round keeps the copied children copied and adds this one |
| FileUtility.FileSystem.RecursiveCopyFile | bluej/src/bluej/utility/FileUtility.java:269-312 | null for the same path; IllegalArgument unless both are directories; entries are only added, and only inside destDir; a file child whose destination exists is listed; every child that is not listed is copied one level: a file to its place in destDir with its contents, a directory as a directory there |
| FileUtility.FileSystem.RecursiveCopyChild | bluej/src/bluej/utility/FileUtility.java:283-310 | entries are only added, and only inside destDir + [n]; a file whose destination exists is listed as failed; a child not listed is copied: a file with its contents, a directory as a directory at destDir + [n] |
| FileUtility.CopiedChildrenTurn | bluej/src/bluej/utility/FileUtility.java:283-310 | one round of the loop keeps the children copied so far, since entries are only added, and adds this one unless it is listed |
| TeamSettings.PropString | bluej/src/bluej/groupwork/TeamSettingsController.java:438-449 | a value found is one of the project's or the configuration's values |
| TeamSettings.ProjectValueWins | bluej/src/bluej/groupwork/TeamSettingsController.java:438-449 | a project value hides the configuration's |
| TeamSettings.FallsBackToConfig | bluej/src/bluej/groupwork/TeamSettingsController.java:438-449 | without a project value the configuration decides; null iff both lack the key |
| TeamSettings.IgnorePrefixesDisjoint | bluej/src/bluej/groupwork/TeamSettingsController.java:562-582 | no key has both prefixes, so each value is listed at most once |
| TeamSettings.DefaultPatternsAreIgnoreKeys | bluej/src/bluej/groupwork/TeamSettingsController.java:419-429 | every default pattern is an ignore key |
| TeamSettings.DefaultsListed | bluej/src/bluej/groupwork/TeamSettingsController.java:419-429 | after the defaults are added, the listing holds all eight |
| TeamSettings.LastMatch | bluej/src/bluej/groupwork/TeamSettingsController.java:309-317 | a provider found is in the list and its name matches ignoring case |
| TeamSettings.LastMatchExactly | bluej/src/bluej/groupwork/TeamSettingsController.java:309-317 | the provider found matches the name ignoring case and no later one does; none iff none matches |
| TeamSettings.UniqueMatch | bluej/src/bluej/groupwork/TeamSettingsController.java:309-317 | the only provider of its name is the one found |
| TeamSettings.KeyBase | bluej/src/bluej/groupwork/TeamSettingsController.java:329-330 | "bluej.teamsettings." + lower-cased name + "." |
| TeamSettings.KeyBaseIgnoresCase | bluej/src/bluej/groupwork/TeamSettingsController.java:329-330 | names differing only in case share their keys, and only those |
| TeamSettings.ProviderSettingsIgnoreCase | bluej/src/bluej/groupwork/TeamSettingsController.java:326-338 | two providers whose names differ only in case read the same settings |
| TeamSettings.InitialSettings | bluej/src/bluej/groupwork/TeamSettingsController.java:286-324 | new settings, when any, carry the given password and one of the listed providers |
| TeamSettings.NoProviderKeepsSettings | bluej/src/bluej/groupwork/TeamSettingsController.java:308-323 | without a provider the settings stay as they were |
| TeamSettings.InitialSettingsFound | bluej/src/bluej/groupwork/TeamSettingsController.java:286-324 | with a provider, the settings are those of the last match and missing values read "" |
| TeamSettings.UpdatedProperties | bluej/src/bluej/groupwork/TeamSettingsController.java:459-505 | no project key is lost; user, provider and group are written, the group last |
| TeamSettings.UpdatedConfig | bluej/src/bluej/groupwork/TeamSettingsController.java:505-535 | no configuration key is lost; the use-as-default flag is always written, the provider and user only as default |
| TeamSettings.ProviderStoredLowerCase | bluej/src/bluej/groupwork/TeamSettingsController.java:456-535 | the provider is stored lower-cased in the project and, as default, in the config |
| TeamSettings.PasswordNeverStored | bluej/src/bluej/groupwork/TeamSettingsController.java:509-512 | neither properties nor config depend on the password |
| TeamSettings.UpdateThenInit | bluej/src/bluej/groupwork/TeamSettingsController.java:286-535 | update then init gives the same settings back (unique provider name) |
| TeamSettings.KeyStoredValues | bluej/src/bluej/groupwork/TeamSettingsController.java:481-512 | each stored value is what a later read of its key gives |
| TeamSettings.ProviderKeysDistinct | bluej/src/bluej/groupwork/TeamSettingsController.java:326-338 | the provider keys differ from each other and from the fixed keys |
| TeamSettings.TeamSettingsController.constructor | bluej/src/bluej/groupwork/TeamSettingsController.java:112-116 | no properties, no settings, no password |
| TeamSettings.TeamSettingsController.SetPropString | bluej/src/bluej/groupwork/TeamSettingsController.java:451-454 | the property is set and reads back |
| TeamSettings.TeamSettingsController.AddIgnoreFilePatterns | bluej/src/bluej/groupwork/TeamSettingsController.java:419-429 | the eight defaults are added |
| TeamSettings.TeamSettingsController.WriteToProject | bluej/src/bluej/groupwork/TeamSettingsController.java:392-412 | defaults are added only when team.defs does not yet exist |
| TeamSettings.TeamSettingsController.GetIgnoreFiles | bluej/src/bluej/groupwork/TeamSettingsController.java:562-582 | the listing is IgnoreListing: the values of the ignore keys, in key order |
| TeamSettings.TeamSettingsController.InitSettings | bluej/src/bluej/groupwork/TeamSettingsController.java:286-324 | settings become InitialSettings(...) |
| TeamSettings.TeamSettingsController.UpdateSettings | bluej/src/bluej/groupwork/TeamSettingsController.java:456-556 | settings and password replaced, properties and config updated, hasPasswordString iff a password was given |
| TeamSettings.TeamSettingsController.HasPasswordString | bluej/src/bluej/groupwork/TeamSettingsController.java:553-556 | true iff a password is held |
| TeamSettings.TeamSettingsController.StoreProjectKeys | bluej/src/bluej/groupwork/TeamSettingsController.java:459-505 | the project keys written are UpdatedProperties(...) |
| Dependencies.Wrap32 | bluej/src/bluej/pkgmgr/dependency/Dependency.java:96-99 | the 32-bit int congruent to v |
| Dependencies.LoadEndpoints | bluej/src/bluej/pkgmgr/dependency/Dependency.java:141-161 | both loaded ends are dependent targets of the package |
| Dependencies.FromCheckedFirst | bluej/src/bluej/pkgmgr/dependency/Dependency.java:141-161 | a missing or unresolvable "from" fails the load, whatever "to" holds |
| Dependencies.LoadedExactly | bluej/src/bluej/pkgmgr/dependency/Dependency.java:141-161 | a load succeeds iff both names are present and name dependent targets |
| Dependencies.Saved | bluej/src/bluej/pkgmgr/dependency/Dependency.java:164-168 | the two keys are added and hold the ends' identifier names; no key is lost |
| Dependencies.SaveThenLoad | bluej/src/bluej/pkgmgr/dependency/Dependency.java:141-168 | saving and loading back gives the same ends |
| Dependencies.Describe | bluej/src/bluej/pkgmgr/dependency/Dependency.java:185-188 | the from-name, five separator characters, then the to-name |
| Dependencies.DescribeInjective | bluej/src/bluej/pkgmgr/dependency/Dependency.java:185-188 | different ends give different descriptions |
| Dependencies.BoxFromLine | bluej/src/bluej/pkgmgr/dependency/Dependency.java:253-261 | the box is at least 3*SELECT_DIST wide and high and holds both ends of the line |
| Dependencies.BoxExactly | bluej/src/bluej/pkgmgr/dependency/Dependency.java:253-261 | a point is in the box iff within SELECT_DIST before the min and 2*SELECT_DIST after the max in each direction |
| Dependencies.EndpointsInBox | bluej/src/bluej/pkgmgr/dependency/Dependency.java:253-261 | both ends, within SELECT_DIST, lie in the box |
| Dependencies.Dependency.constructor | bluej/src/bluej/pkgmgr/dependency/Dependency.java:71-76 | visible and not selected |
| Dependencies.Dependency.Load | bluej/src/bluej/pkgmgr/dependency/Dependency.java:141-161 | the loaded ends, visible and not selected |
| Dependencies.Dependency.HashCode | bluej/src/bluej/pkgmgr/dependency/Dependency.java:96-99 | to.hash - from.hash in 32-bit arithmetic |
| Dependencies.Dependency.EqualsHash | bluej/src/bluej/pkgmgr/dependency/Dependency.java:86-99 | equal dependencies have equal hash codes |
| Dependencies.Dependency.EqualsEquivalence | bluej/src/bluej/pkgmgr/dependency/Dependency.java:86-92 | equals is reflexive, symmetric and transitive |
| Dependencies.Dependency.Save | bluej/src/bluej/pkgmgr/dependency/Dependency.java:164-168 | the properties become Saved(...) |
| Dependencies.Dependency.ToString | bluej/src/bluej/pkgmgr/dependency/Dependency.java:185-188 | starts with the from-name and ends with the to-name |
| Dependencies.Dependency.SetVisible | bluej/src/bluej/pkgmgr/dependency/Dependency.java:196-208 | visibility set; reported iff it changed |
| Dependencies.Dependency.SetSelected | bluej/src/bluej/pkgmgr/dependency/Dependency.java:210-214 | selected set |
| EntityResolution.PackagePrefixExactly | bluej/src/bluej/pkgmgr/ProjectEntityResolver.java:57-64 | the prefix is empty iff no dot; else the querySource's prefix ending at its last dot |
| EntityResolution.SplitQualified | bluej/src/bluej/pkgmgr/ProjectEntityResolver.java:83-85 | the base name has no dot, and the two parts are no longer than the name |
| EntityResolution.SplitQualifiedExactly | bluej/src/bluej/pkgmgr/ProjectEntityResolver.java:83-85 | the base name has no dot, and the name is package + "." + base when it has a dot |
| EntityResolution.SplitJoin | bluej/src/bluej/pkgmgr/ProjectEntityResolver.java:83-85 | splitting a joined package and base gives them back |
| EntityResolution.ResolveQualifiedClass | bluej/src/bluej/pkgmgr/ProjectEntityResolver.java:81-106 | never a package; a loaded class is the name itself and one the loader loads |
| EntityResolution.ProjectClassWins | bluej/src/bluej/pkgmgr/ProjectEntityResolver.java:81-106 | a project class wins over the loader; None iff neither knows the name |
| EntityResolution.QualifiedProjectClass | bluej/src/bluej/pkgmgr/ProjectEntityResolver.java:81-106 | a class target is found under its qualified name |
| EntityResolution.ResolvePackageOrClass | bluej/src/bluej/pkgmgr/ProjectEntityResolver.java:50-79 | a loaded class is always one the loader loads; a package carries the name asked for |
| EntityResolution.ResolutionOrder | bluej/src/bluej/pkgmgr/ProjectEntityResolver.java:55-79 | a package iff no class of the own package or java.lang; own package first |
| EntityResolution.SamePackageSameResult | bluej/src/bluej/pkgmgr/ProjectEntityResolver.java:55-79 | query sources in the same package resolve alike |
| EntityResolution.OwnPackageClassWins | bluej/src/bluej/pkgmgr/ProjectEntityResolver.java:55-79 | a class of the own package resolves to itself whatever the loader holds |
| LocalArrays.ValueString | greenfoot/src/greenfoot/localdebugger/LocalArray.java:84-98 | a string is shown between quotes; null and other objects as the object reference |
| LocalArrays.FieldName | greenfoot/src/greenfoot/localdebugger/LocalArray.java:49-52 | the slot number in square brackets |
| LocalArrays.ValueStringDistinguishes | greenfoot/src/greenfoot/localdebugger/LocalArray.java:84-98 | strings are quoted and read back; enum names and object references are told apart |
| LocalArrays.FieldLineNamesSlot | greenfoot/src/greenfoot/localdebugger/LocalArray.java:73-82 | the first ']' closes the slot, whose number reads back, and " = " + value follows |
| LocalArrays.FieldLinesDistinct | greenfoot/src/greenfoot/localdebugger/LocalArray.java:73-82 | different slots give different lines |
| LocalArrays.GetStaticFieldName | greenfoot/src/greenfoot/localdebugger/LocalArray.java:117-120 | always UnsupportedOperationException |
| LocalArrays.GetStaticFieldObject | greenfoot/src/greenfoot/localdebugger/LocalArray.java:129-132 | always UnsupportedOperationException |
| LocalArrays.GetStaticFields | greenfoot/src/greenfoot/localdebugger/LocalArray.java:143-146 | always UnsupportedOperationException |
| LocalArrays.StaticFieldIsPublic | greenfoot/src/greenfoot/localdebugger/LocalArray.java:158-161 | always UnsupportedOperationException |
| LocalArrays.StaticFieldIsObject | greenfoot/src/greenfoot/localdebugger/LocalArray.java:171-174 | always UnsupportedOperationException |
| LocalArrays.LocalArray.constructor | greenfoot/src/greenfoot/localdebugger/LocalArray.java:26-30 | the length is the array's |
| LocalArrays.LocalArray.WithLength | greenfoot/src/greenfoot/localdebugger/LocalArray.java:38-42 | the length is the given one |
| LocalArrays.LocalArray.GetInstanceFieldCount | greenfoot/src/greenfoot/localdebugger/LocalArray.java:44-47 | the length given at construction, which GetInstanceFields lists that many lines for |
| LocalArrays.LocalArray.GetValueString | greenfoot/src/greenfoot/localdebugger/LocalArray.java:84-98 | a string element is shown with its text between the quotes |
| LocalArrays.LocalArray.InstanceFieldIsPublic | greenfoot/src/greenfoot/localdebugger/LocalArray.java:100-103 | every element is public |
| LocalArrays.LocalArray.InstanceFieldIsObject | greenfoot/src/greenfoot/localdebugger/LocalArray.java:105-108 | an element is an object iff it is not null; a null element is shown as the object reference |
| LocalArrays.LocalArray.GetInstanceFields | greenfoot/src/greenfoot/localdebugger/LocalArray.java:73-82 | one line per element up to the length, the i-th being "[i] = " + its value string |

## Left out

- The NodeTree that holds the reparse records, and the parsed-node tree, are not part of this model. Their operations are modelled on a sorted sequence of absolute records: findNodeAtOrAfter returns the first record ending at or after p; slide and resize move the later records too.
- Rendering, styling of text, pixel measurements and FlowReparseRunner: these are GUI work. Line numbers that come from the document are parameters.
- The tab size comes from PrefMgr in the source. It is a parameter here, from 1 to MAX_SPACES.
- MoeIndent.findFirstNonIndentChar is not part of this model. It is taken to return the first character above ' '.
- Character.isJavaIdentifierPart is exact on ASCII. Outside ASCII it is approximated as "not whitespace".
- The MoeActions methods not reached from the line actions (doIndent and the others that need a whole editor) are GUI code.
- The Scratch palette is taken as resolved RGB values. Colour object references and saveInto are not modelled.
- DocumentReader:
  - positions outside the document (BadLocationException) are excluded by a precondition;
  - how many characters the document returns per request is a parameter.
- ParsedTypeNode:
  - the Java parser is modelled as the answers it gives;
  - the superclass handlers and parent notifications are reduced to Delegated.
- Boot:
  - the runtime set-up (class loaders, splash screen, JavaFX);
  - the non-jar branch of calculateBluejLibDir, which works on file paths;
  - the conversion of the jar location to a file (`new File(new URI(...))`), its parent directory, and the URISyntaxException that is swallowed (Boot.java:395-399).
- JdiTestResult:
  - the IOException branch of getFilteredTrace cannot happen on a StringReader;
  - the platform line separator is a parameter.
- FileUtility:
  - byte streams are reduced to whole-content copies;
  - the order of File.list() is left open: the contracts hold for the children taken in any order;
  - deleteDir and the file choosers are not modelled.
- TeamSettings:
  - readSetupFile, file I/O, the repository and the dialogs: these are I/O;
  - the BlueJ configuration is a map;
  - toLowerCase and equalsIgnoreCase use ASCII case folding;
  - the NullPointerException that updateSettings raises on null values is not modelled.
- Dependency:
  - contains, computeLine and normDist use floating point;
  - the extension events of setVisible, popupMenu and getBDependency are left out;
  - overflow in the box arithmetic is not modelled.
- ProjectEntityResolver: the class loaders are reduced to the set of names they load.
- LocalArray: getInstanceFieldObject and getInstanceFieldType are not modelled, and DebuggerObject's OBJECT_REFERENCE text is assumed.
- Integers are unbounded except where Int32 or Wrap32 is used.
- CopyDirectory: the copy of the whole source tree is stated only when the destination does not lie inside the source. Otherwise the copy adds to the tree it is still listing, and it runs on until the depth bound makes mkdir fail.
- CopyChild: the copied subtree is stated only when the destination does not lie inside the source, as for CopyDirectory.
- RecursiveCopyFile: subdirectories are copied by a recursive call whose result is dropped, as in the source, so only the copied directory itself is stated, not its contents.
- ScheduleReparse: updates the records by ScheduledFixed, the corrected absorb step of the first Findings row, not by JavaSyntaxView.java:1929 as written. ScheduledDropsAbsorbedTail shows what the source does instead.
- MarkSectionParsed: splits a spanning record through ScheduledFixed, like ScheduleReparse. For example, with records [0,10) and [10,20), markSectionParsed(5, 0) gives [0,20) in the model, where the source gives [0,15) (SectionParsedSplitTail).
- SectionParsed: a record spanning the section is split, and its tail rescheduled through ScheduledFixed, the corrected absorb step, not through Scheduled as JavaSyntaxView.java:2201 calls it. The two differ only for size 0: with records [0,10) and [10,20), SectionParsed(_, 5, 0) gives [0,20), where the source gives [0,15) (SectionParsedSplitTail).
- FrontTurn: the first loop of MarkSectionParsed, with the same corrected split.
- SetBitmapEntry: places pixels in the corrected column `pixelsPerWord - 1 - i` of the second Findings row, not in ScratchImage.java:167's column as written. For example, a 1x1 image of depth 32 with bits [1,6,0,0,0,7] gets pixel 7 in the model, where the source leaves 0 (OnePixelLost).
- SetPixel: one step of SetBitmapEntry, with the same corrected column.
- FillEntries: fills through SetBitmapEntry, with the same corrected column.
- CopyEntries: copies through SetBitmapEntry, with the same corrected column.
- ApplyCode: applies a code through FillEntries or CopyEntries, with the same corrected column.
- Resolve: decodes through ApplyCode, with the same corrected column.

## Findings

| source | as written | input that shows it | evidently intended | confidence | as-written member | corrected member |
|---|---|---|---|---|---|---|
| bluej/src/bluej/editor/flow/JavaSyntaxView.java:1929 | the absorbed record's end is measured from pos: `next.getEnd() - pos` | records [0,10) and [12,20), then scheduleReparse(5,10): offset 17 is no longer dirty | measure from the start of the growing record: `next.getEnd() - existing.getPosition()` | not executed | ReparseRecords.ScheduledDropsAbsorbedTail | ReparseRecords.ScheduledFixedCoverage |
| bluej/src/bluej/editor/moe/MoeActions.java:195 | the backward search returns 0 when it reaches index 0, without checking that character | " a" at pos 1, backward, gives 0 instead of 1 | check index 0 like the others before returning 0 | not executed | MoeActions.WordStartOvershoots | MoeActions.FindWordLimitFixed |
| greenfoot/src/greenfoot/importer/scratch/ScratchImage.java:167 | x = col*ppw + (ppw - i) | a 1x1 image of depth 32 with bits [1,6,0,0,0,7] leaves its pixel at 0 | x = col*ppw + (ppw - 1 - i) | not executed | ScratchImageCase.OnePixelLost | ScratchImage.EntryFixedCells |
