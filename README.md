# xprompt: the completion and editing engine, in Dafny

xprompt is a dmenu-like prompt for X11. The user types into a one-line
input field, and xprompt completes the input against a tree of candidate
items that it reads from standard input. This project models the in-memory
engine behind the window. It covers:

- how standard input becomes the item tree;
- UTF-8 cursor arithmetic and decoding;
- the fixed-size input buffer and its edits;
- the completion list and the two-pass match chain, with the window that
  pages over the chain;
- the undo list, the history and the Control-key table;
- the geometry parser;
- the key dispatch of `keypress`.

The modules follow the parts of the program:

| module | file | what it holds |
|---|---|---|
| `Defs`, `Defaults` | Defs.dfy | bytes, `INPUTSIZ`, `MIN`/`MAX`/`BETWEEN`, `enum Ctrl` and its four classifiers, `enum Press_ret`, and the compiled-in defaults |
| `CStr` | CStr.dfy | `strlen` over a buffer, the C-string content of a buffer, and the `strncmp`/`strncasecmp` prefix test |
| `Utf8` | Utf8.dfy | `nextrune`, `runebytes`, `runechars`, `movewordedge`, `getnextutf8char`, and the UTF-8 encoding of section 3 of RFC 3629 as the decoder's partner |
| `Edit` | Edit.dfy | the input field as a class over the whole `INPUTSIZ`-byte buffer: `insert`, `delselection`, `delword`, `insertselitem`, the line cuts of `keypress`, the restore idiom of undo and history, and the file-name scan of `getfilelist` |
| `Items` | Items.dfy | the item arena, `builditems` as a builder class over its static state, and `parsestdin` over the buffers `fgets` fills |
| `Matching` | Match.dfy | `itemmatch`, `getcomplist`, `getmatchlist`, `navmatchlist` and `delmatchlist`; the match chain is a sequence of arena indices, and the window is a class with `itemarray` as an array |
| `Undo` | Undo.dfy | the undo list as a sequence of snapshots, the oldest of which is the NULL sentinel; `addundo`, `undo` and `redo` |
| `Hist` | History.dfy | the history and `navhist` |
| `Keys` | Keys.dfy | the `ctrl[CaseLast][NLETTERS]` table as a two-dimensional array; `initctrl` and `getoperation` |
| `Geometry` | Geometry.dfy | `getnum` and `parsegeometryspec`, with `errx` as a failure result |
| `ItemTree` | Tree.dfy | the tree `builditems` makes of well-indented lines, link by link, and the pre-order walk that gives the lines back |
| `Dispatch` | Prompt.dfy | `keypress` from `XmbLookupString` on, with `complist` and `prevoperation` as fields of the prompt |

Notes on the item and undo structures:

- Items live in an arena, a sequence addressed by index. `prev`/`next`
  are the sibling links and `parent`/`child` the tree links.
- The match links `prevmatch`/`nextmatch` become the match chain, a
  sequence of arena indices. The window's `matchlist` and `selitem` are
  positions in that chain.
- The comments at xprompt.h:132-133 swap the two pairs of links. The model
  follows how xprompt.c uses them.
- The undo list is a sequence of snapshots, the oldest of which is the NULL
  sentinel. The current entry is a position in that sequence.

## Model

| member | source | states |
|---|---|---|
| `Defs.Max` | xprompt.h:12 | `MAX` returns one of its two arguments, and no less than either |
| `Defs.Min` | xprompt.h:13 | `MIN` returns one of its two arguments, and no more than either |
| `Defs.BetweenInclusive` | xprompt.h:14 | `BETWEEN` holds at both ends and fails just outside them |
| `Defs.CtrlOf` | xprompt.h:37-69 | converting a value back to `enum Ctrl` gives the enumerator of that value |
| `Defs.OrdinalInverse` | xprompt.h:37-69 | the enumerator values name each operation once: the conversion back undoes the value |
| `Defs.OrdinalBijective` | xprompt.h:37-69 | distinct operations have distinct values, and a value in 0..30 names exactly one operation |
| `Defs.CtrlLayout` | xprompt.h:37-69 | `CTRLPASTE` is 0, `CTRLCANCEL` 28, `CTRLNOTHING` 29 and `INSERT` 30; every bindable operation lies below `CTRLNOTHING` |
| `Defs.ClassifiersDisjoint` | xprompt.h:16-22 | `ISMOTION`, `ISSELECTION`, `ISEDITING` and `ISUNDO` never hold of the same operation |
| `Defs.EditingOperations` | xprompt.h:20-22 | `ISEDITING` holds exactly for the five deletions and `INSERT`, never for undo or redo |
| `Defs.SelCounterpart` | xprompt.h:16-19 | the selecting variant of each motion is a selection, eleven places further in the enumeration |
| `Defs.SelCounterpartBijective` | xprompt.h:16-19 | distinct motions have distinct selecting variants, and every selection is the variant of some motion |
| `CStr.Strlen` | xprompt.c:1193 | `strlen` is the offset of the first NUL: a NUL is there and none before it |
| `CStr.StrlenIs` | xprompt.c:1193 | any NUL offset with no NUL before it is the length |
| `CStr.StrlenAfter` | xprompt.c:1182 | a NUL-free prefix adds its length to the length of what follows |
| `CStr.Content` | xprompt.c:1193 | the string a buffer holds is NUL-free, shorter than the buffer, and followed by a NUL |
| `CStr.Fold` | xprompt.c:176 | case folding under `-i` maps NUL and only NUL to NUL, and is the identity without `-i` |
| `CStr.StrnEqIsPrefix` | xprompt.c:1373 | `(*fstrncmp)(s, w, strlen(w)) == 0` on NUL-free strings holds exactly when `w` starts `s` up to case folding, in both directions |
| `Utf8.SkipCont` | xprompt.c:736 | the scan of `nextrune` stays inside the string and stops on a byte that is not a continuation byte, or at offset 0 going back |
| `Utf8.Boundary` | xprompt.c:731-739 | `nextrune(+1)` gives a later offset within the string that holds no continuation byte; `nextrune(-1)` from `pos > 0` gives an earlier offset that is 0 or holds no continuation byte |
| `Utf8.BoundarySpansRune` | xprompt.c:736 | every byte strictly between the position and the boundary `nextrune` finds is a continuation byte |
| `Utf8.NextRune` | xprompt.c:731-739 | the C loop computes `Boundary` and has its properties |
| `Utf8.Advance` | xprompt.c:742-751 | advancing n runes moves forward, strictly for n > 0, without passing the terminator |
| `Utf8.AdvanceSucc` | xprompt.c:748-749 | advancing n + 1 runes is one `nextrune` step after advancing n |
| `Utf8.RuneBytes` | xprompt.c:742-751 | `runebytes` returns the offset of the n-th rune |
| `Utf8.CharsFrom` | xprompt.c:754-765 | the count of runes up to byte n is at most n |
| `Utf8.RuneChars` | xprompt.c:754-765 | `runechars` counts the runes stepped over until byte n is reached or passed |
| `Utf8.CharsOfAdvance` | xprompt.c:742-765 | from any offset, counting the runes up to the n-th rune gives n |
| `Utf8.RuneCharsOfRuneBytes` | xprompt.c:742-765 | `runechars(text, runebytes(text, n)) == n`, the round trip between the two |
| `Utf8.SkipBack` | xprompt.c:772-775 | the backward word scan moves back to a rune whose predecessor no longer matches the delimiter test |
| `Utf8.SkipFwd` | xprompt.c:777-780 | the forward word scan moves forward within the string to the terminator or a byte that no longer matches the test |
| `Utf8.WordEdge` | xprompt.c:768-783 | `movewordedge(-1)` returns at most `pos`, and 0 or an offset after a delimiter rune; `movewordedge(+1)` returns at least `pos` within the string, on a delimiter or the terminator |
| `Utf8.MoveWordEdge` | xprompt.c:768-783 | the four C loops compute `WordEdge` |
| `Utf8.BoundaryBackPrefix` | xprompt.c:736 | `nextrune(-1)` depends only on the bytes before the position |
| `Utf8.SkipBackPrefix` | xprompt.c:772-775 | the backward word scan depends only on the bytes before the position |
| `Utf8.LeadFrom` | xprompt.c:452-458 | the first loop finds the first mask the lead byte matches, and a length of 2 to 4 only for bytes from 0xC0 on |
| `Utf8.LeadClasses` | xprompt.c:439-462 | the first loop sorts a byte into ASCII, continuation byte, lead of a 2-, 3- or 4-byte sequence, or a byte no sequence starts with |
| `Utf8.LowBits` | xprompt.c:455 | the bits left after masking lie below the mask |
| `Utf8.DecodeFrom` | xprompt.c:464-480 | the second loop ends within the sequence or, only when guarded, on the terminator; a result other than U+FFFD is in the range of its length and consumes the whole sequence |
| `Utf8.Decode` | xprompt.c:436-481 | `getnextutf8char` returns U+FFFD or a Unicode scalar value, and moves `next_ret` forward by 1 to 4 bytes |
| `Utf8.DecodeFromBytes` | xprompt.c:466-474 | a sequence the second loop accepts consists of continuation bytes |
| `Utf8.DecodeBytes` | xprompt.c:449-480 | a successful decode starts on a byte that is not a continuation byte and consumes only continuation bytes after it |
| `Utf8.LeadIndex` | xprompt.c:452-458 | the first loop computes `LeadFrom` |
| `Utf8.DecodeTail` | xprompt.c:464-480 | the second loop and the range check compute `DecodeFrom` |
| `Utf8.GetNextUtf8Char` | xprompt.c:436-481 | the C loops compute `Decode`, and return U+FFFD or a scalar value |
| `Utf8.Encode` | xprompt.c:436-481 | the encoding of a scalar value is 1 to 4 bytes, and NUL-free for any value but 0 |
| `Utf8.DecodeTwo` | xprompt.c:464-480 | a two-byte sequence decodes to five bits of the lead byte and six of the continuation byte, or to U+FFFD when out of range |
| `Utf8.DecodeThree` | xprompt.c:464-480 | a three-byte sequence decodes to four plus six plus six bits, or to U+FFFD when out of range or a surrogate |
| `Utf8.DecodeFour` | xprompt.c:464-480 | a four-byte sequence decodes to three plus three times six bits, or to U+FFFD when out of range |
| `Utf8.DecodeEncode` | xprompt.c:436-481 | decoding the encoding of any scalar value gives it back and consumes exactly its bytes |
| `Utf8.DecodeEncodeTwo` | xprompt.c:464-480 | the two-byte case of the round trip |
| `Utf8.DecodeEncodeThree` | xprompt.c:464-480 | the three-byte case of the round trip |
| `Utf8.DecodeEncodeFour` | xprompt.c:464-480 | the four-byte case of the round trip |
| `Utf8.DecodeCanonical` | xprompt.c:476-480 | only shortest-form encodings decode: a result other than U+FFFD is a value whose encoding is exactly the bytes consumed |
| `Utf8.CanonicalTwo` | xprompt.c:477 | a two-byte sequence in range is the encoding of its value |
| `Utf8.CanonicalThree` | xprompt.c:477 | a three-byte sequence in range and no surrogate is the encoding of its value |
| `Utf8.CanonicalFour` | xprompt.c:477 | a four-byte sequence in range is the encoding of its value |
| `Utf8.DecodeGuarded` | xprompt.c:466-470 | the corrected decoder returns U+FFFD or a scalar value and never moves past the terminator |
| `Utf8.DecodeFromGuardedAgrees` | xprompt.c:466-470 | as written and corrected, the second loop returns the same value and differs only by stopping on the terminator |
| `Utf8.DecodeGuardedAgrees` | xprompt.c:466-470 | as written and corrected, the decoder returns the same value and differs only by stopping on the terminator |
| `Utf8.DecodeOverrunsTerminator` | xprompt.c:466-470 | as written, the string "\xC3" leaves `next_ret` one past its terminator; the corrected decoder stops on it |
| `Edit.Memmove` | xprompt.c:1197-1198 | `memmove` keeps the buffer size |
| `Edit.MemmoveAt` | xprompt.c:1197-1198 | after `memmove`, the moved bytes are in their new place and the others are unchanged |
| `Edit.MemcpyAt` | xprompt.c:1200 | after `memcpy`, the copied bytes are in their new place and the others are unchanged |
| `Edit.Inserted` | xprompt.c:1197-1200 | the buffer that `insert` writes keeps its size |
| `Edit.HoldsString` | xprompt.c:1193 | a buffer whose first bytes are a NUL-free w, followed by a NUL, holds the string w |
| `Edit.StrlenSuffix` | xprompt.c:1182 | `strlen(text + i)` for i within the string is what remains of it |
| `Edit.GrownAt` | xprompt.c:1197-1200 | after inserting n bytes, each byte of the string is that of the old string with `str[..n]` at the cursor |
| `Edit.InsertedGrows` | xprompt.c:1190-1203 | inserting n > 0 NUL-free bytes that fit lengthens the string by n and puts `str[..n]` at the cursor |
| `Edit.Spliced` | xprompt.c:1190-1203 | the string `insert` leaves has its length changed by n |
| `Edit.InsertedString` | xprompt.c:1190-1203 | when the guard passes, the buffer holds the spliced string, and a string starts at the new cursor |
| `Edit.ShrunkAt` | xprompt.c:1197-1198 | after deleting -n bytes, each byte of the string is that of the old string without the bytes before the cursor |
| `Edit.InsertedShrinks` | xprompt.c:1190-1203 | inserting n <= 0 shortens the string by -n and removes the -n bytes before the cursor |
| `Edit.Deleted` | xprompt.c:1182-1184 | the buffer `delselection` writes keeps its size |
| `Edit.DeletedContent` | xprompt.c:1180-1186 | after `delselection`, the string is its part before lo followed by whatever string starts at hi, even when hi lies past the terminator |
| `Edit.DeletedWithin` | xprompt.c:1180-1186 | within the string, `delselection` removes exactly the bytes [lo, hi) |
| `Edit.DeletedKeepsString` | xprompt.c:1184 | a string that started at j before `delselection` still starts there after it |
| `Edit.TruncatedAt` | xprompt.c:1803 | CTRLDELEOL writes a NUL at the cursor and keeps the buffer size |
| `Edit.TruncatedContent` | xprompt.c:1803 | truncation keeps the string before the cursor and drops the rest |
| `Edit.DelEolResurrects` | xprompt.c:1802-1808 | as written, on "abcdef" with the cursor at 2 and select at 4, CTRLDELEOL leaves "ab", and a following delete of the selection brings "ef" back |
| `Edit.ReplaceHeadKeepsTail` | xprompt.c:1651-1652 | restoring "abc" into "axbc" with the cursor at 2 leaves "abcbc": the text after the cursor stays |
| `Edit.SpaceBack` | xprompt.c:1404-1408 | the scan of `getfilelist` stops just after a space, or at 0, with no space on the way |
| `Edit.EditBuffer.constructor` | xprompt.c:950-960 | `setpromptinput`: an empty string in an `INPUTSIZ`-byte buffer, with cursor, select and file at 0 |
| `Edit.EditBuffer.Insert` | xprompt.c:1190-1203 | `insert`: when the result would not fit, nothing changes; otherwise the buffer is `Inserted`, the string is spliced, and cursor and select end at old cursor + n |
| `Edit.EditBuffer.DelSelection` | xprompt.c:1171-1187 | `delselection` changes nothing when cursor == select; otherwise it moves the string at max down to min, and cursor and select end at min |
| `Edit.EditBuffer.DelEolAsWritten` | xprompt.c:1802-1804 | CTRLDELEOL as written: the string ends at the cursor, and select stays where it was |
| `Edit.EditBuffer.DelEol` | xprompt.c:1802-1804 | CTRLDELEOL corrected: the string ends at the cursor, and select collapses onto it |
| `Edit.EditBuffer.DelWord` | xprompt.c:1206-1213 | `delword` moves the cursor back to where `movewordedge(-1)` stops and deletes the bytes between, keeping the text after the cursor; above offset 0 the cursor strictly moves back and select follows it, and at offset 0 nothing changes |
| `Edit.EditBuffer.DeleteBackWhile` | xprompt.c:1209-1212 | one loop of `delword` deletes back to where the word scan stops, and keeps the rest of the string |
| `Edit.EditBuffer.DeleteBack` | xprompt.c:1210 | one `insert(NULL, p - cursor)` deletes the bytes from p to the cursor |
| `Edit.EditBuffer.SelItemStart` | xprompt.c:1219-1220 | `insertselitem` works from at most the cursor |
| `Edit.EditBuffer.InsertSelItem` | xprompt.c:1216-1229 | `insertselitem`: the word before the cursor, or the file name from `file` on, is replaced by the item text when that fits, with cursor and select after it; otherwise it is dropped, the cursor at its start, and select at the start of the word when `delword` ran and where it was otherwise; with `file == 0` in a file completion, only the word before the cursor is deleted, with cursor and select as `delword` left them |
| `Edit.EditBuffer.DelWordInside` | xprompt.c:1219-1220 | `delword` runs only when the byte before the cursor is not a delimiter; the word goes, and cursor and select end at its start, or nothing changes |
| `Edit.EditBuffer.InsertAll` | xprompt.c:1222-1223 | inserting the whole item text either puts it between head and tail or changes nothing |
| `Edit.EditBuffer.CutToFile` | xprompt.c:1225-1226 | in a file completion the text from the cursor moves down to `file`, where the cursor goes |
| `Edit.EditBuffer.ReplaceHead` | xprompt.c:1651-1652 | the restore idiom puts s before the text after the cursor, or leaves only that text when s does not fit |
| `Edit.EditBuffer.DelBol` | xprompt.c:1799-1801 | CTRLDELBOL: the text before the cursor goes and cursor and select go to 0 |
| `Edit.EditBuffer.FileName` | xprompt.c:1401-1413 | `getfilelist`'s scan: the name starts at `file` when that lies in (0, cursor], otherwise after the last space; it fails when the name is too long for `INPUTSIZ`; `file` is updated as in the C code |
| `Edit.WordEdgeBackMoves` | xprompt.c:772-775 | away from offset 0, `movewordedge(-1)` always moves back |
| `Edit.Cut` | xprompt.c:1219-1226 | the file-name cut applied after `delword` removes the bytes from `file` to the old cursor |
| `Edit.SplicePrefix` | xprompt.c:1209-1212 | the buffer's first bytes survive the deletions of `delword` |
| `Items.Up` | xprompt.c:351-354 | walking h parents up from item k reaches an earlier item, strictly earlier for h > 0 |
| `Items.ClearAncestor` | xprompt.c:351-359 | the ancestor the walk reaches has no next sibling yet |
| `Items.WithChildLabels` | xprompt.c:365-367 | attaching a child keeps every label and labels the new item |
| `Items.WithNextLabels` | xprompt.c:358-364 | attaching a sibling keeps every label and labels the new item |
| `Items.WithChildAt` | xprompt.c:365-367 | a deeper level makes the new item `previtem->child`, with `parent == previtem`, and changes no other item |
| `Items.WithNextAt` | xprompt.c:358-364 | the new item becomes the `next` of the chosen item, shares its parent and points back to it with `prev` |
| `Items.WithChildLinked` | xprompt.c:365-367 | adding the first child of the last item keeps every link consistent |
| `Items.WithNextLinked` | xprompt.c:358-364 | adding a next sibling to an item without one keeps every link consistent |
| `Items.FirstItem` | xprompt.c:346-348 | the first item alone satisfies the builder's invariant |
| `Items.ChildKeepsInv` | xprompt.c:365-371 | making the new item the child of `previtem` keeps the invariant, and `previtem` had no child |
| `Items.NextKeepsInv` | xprompt.c:349-364 | making the new item the next sibling of the ancestor keeps the invariant, and the ancestor had no next sibling |
| `Items.PlacedKeepsInv` | xprompt.c:346-371 | `builditems` fails exactly when the level drops and the walk up runs out of parents; otherwise the arena stays linked and the link it sets was empty, so no item is lost |
| `Items.PlacedLabels` | xprompt.c:344-371 | `builditems` keeps the labels of the items it has and labels the new one |
| `Items.WalkUp` | xprompt.c:351-354 | the `for` loop up the tree computes `Up` |
| `Items.ItemBuilder.constructor` | xprompt.c:337-339 | the static variables start with no item and `prevlevel` 0 |
| `Items.ItemBuilder.Build` | xprompt.c:334-374 | `builditems` fails with "improper indentation detected" exactly when the walk leaves the tree, and then changes nothing; otherwise the arena is `Placed`, the new item is `previtem`, and `rootitem` is the first item |
| `Items.CString` | xprompt.c:396-397 | a buffer read as a C string is its NUL-free prefix |
| `Items.TabsEnd` | xprompt.c:393 | `strspn(buf, "\t")` ends the run of tabs |
| `Items.DelimsEnd` | xprompt.c:397-398 | `strtok` skips a run of tabs and newlines |
| `Items.TokenEnd` | xprompt.c:397-398 | a token ends at the first tab or newline |
| `Items.ParseLine` | xprompt.c:388-402 | a line parsestdin keeps has a non-empty, NUL-free text with no tab or newline |
| `Items.FormatLine` | xprompt.c:387-402 | the partner of `ParseLine`: a line written with its tabs, text and description is longer than its level and text |
| `Items.ParseFormatPlain` | xprompt.c:388-402 | reading back a formatted line without description gives it back |
| `Items.ParseFormatDescribed` | xprompt.c:388-402 | reading back a formatted line with a description gives it back |
| `Items.ParseFormatLine` | xprompt.c:388-402 | `parsestdin` reads back the level, text and description of any formatted line |
| `Items.ParseDescription` | xprompt.c:398 | after the text, a tab and a field make the description |
| `Items.ChunkLen` | xprompt.c:387 | `fgets` into `buf[INPUTSIZ]` fills 1 to 1023 bytes |
| `Items.ChunkShape` | xprompt.c:387 | `fgets` stops at the first newline, which it keeps, or at the end of the input or a full buffer |
| `Items.BuffersSplit` | xprompt.c:387 | the successive buffers spell out the whole input, each non-empty and within the buffer size |
| `Items.LinesFrom` | xprompt.c:387-405 | parsestdin hands on at most one line per buffer |
| `Items.LabelsExtend` | xprompt.c:404 | one more item labelled with one more line keeps the arena in line with the lines |
| `Items.AddLine` | xprompt.c:404 | one `builditems` call fails with the indentation error exactly when `Placed` finds no item to continue; otherwise the arena becomes what `Placed` gives, the new item is `previtem`, `prevlevel` is the line's level, and the root is the first item |
| `Items.RootOf` | xprompt.c:346-348 | `rootitem` is the first item, and NULL exactly when there is none |
| `Items.LastItem` | xprompt.c:371 | `previtem` is the last item made, and NULL exactly when there is none |
| `Items.Built` | xprompt.c:335-374 | the builder's state after a run of `builditems` calls on lines: it is absent once a call fails, and otherwise the arena keeps the builder's invariant, labels its items with the lines, and has the last line's level as `prevlevel` |
| `Items.BuiltFails` | xprompt.c:355-356 | once a call has failed, no later line brings the builder back |
| `Items.BuiltStep` | xprompt.c:344-371 | one more line places one more item as `Placed` says, from the last item and the last level |
| `Items.Feed` | xprompt.c:401-404 | one line `parsestdin` keeps, or none, added to the builder: failure exactly when `Built` of the lines so far fails |
| `Items.ParseStdin` | xprompt.c:378-408 | `parsestdin` fails with the indentation error exactly when `Built` of the lines read from the buffers fails; otherwise its items are those `Built` gives, one per line in input order, linked into a tree whose root is the first item (NULL with no items) |
| `ItemTree.LastUpTo` | xprompt.c:349-354 | the last line before m at most v deep: every line between it and m is deeper, and with none found every line before m is deeper |
| `ItemTree.FirstFrom` | xprompt.c:358-364 | the first line from m on at most v deep: every line between m and it is deeper, and with none found every line from m on is deeper |
| `ItemTree.OutlineParents` | xprompt.c:358-367 | in the outline of the lines every parent comes before its children |
| `ItemTree.LastExact` | xprompt.c:351-354 | with each line at most one level deeper than the one before, the last line before m at most v deep, for v up to the depth of line m - 1, lies exactly v deep |
| `ItemTree.LastSkip` | xprompt.c:351-354 | lines deeper than v between a and m leave the last line at most v deep where it was |
| `ItemTree.LastExtend` | xprompt.c:404 | a further line does not change the last line before m at most v deep |
| `ItemTree.FirstExtend` | xprompt.c:404 | a further line is the first from m on at most v deep only when no earlier line from m on is |
| `ItemTree.Ancestor` | xprompt.c:351-354 | the walk up h parents from item k, for h up to the level of line k, reaches the last line up to k that lies h levels less deep |
| `ItemTree.AncestorStep` | xprompt.c:351-353 | one step of that walk: the parent of the ancestor h - 1 up is the ancestor h up, exactly one level less deep |
| `ItemTree.ParentOfLast` | xprompt.c:358 | the parent of the last line before m one level deeper than w is the last line before m at most w deep |
| `ItemTree.DepthIsLevel` | xprompt.c:351-356 | item k lies exactly as many parents below the top list as line k is indented, so the walk of `builditems` never runs out of parents |
| `ItemTree.FirstLine` | xprompt.c:346-348 | the first, unindented line alone is the outline of a one-item arena |
| `ItemTree.ChildStep` | xprompt.c:365-367 | a line one level deeper than the last becomes its child, and the arena is the outline of the lines with it |
| `ItemTree.ChildStepNew` | xprompt.c:365-367 | the new child's parent is the last line, and it has no sibling and no child yet |
| `ItemTree.ChildStepOld` | xprompt.c:365-367 | attaching the child leaves every earlier item the links the outline gives it |
| `ItemTree.NextStep` | xprompt.c:349-364 | a line no deeper than the last becomes the next sibling of the last earlier line as deep, and the arena is the outline of the lines with it |
| `ItemTree.NextStepNew` | xprompt.c:358-364 | the new sibling shares its parent and points back to the item it continues |
| `ItemTree.ExtendAt` | xprompt.c:358-367 | a further line keeps the links of an earlier item, except that it becomes the next sibling of an item at its own level with nothing as shallow after it |
| `ItemTree.LastIsFinal` | xprompt.c:349-359 | line k is the last line at most its own depth exactly when no later line is that shallow |
| `ItemTree.NextStepOld` | xprompt.c:358-364 | among the earlier items only the continued one gains a next link |
| `ItemTree.PlacedStep` | xprompt.c:344-371 | one more well-indented line: `builditems` succeeds and the arena stays the outline of the lines |
| `ItemTree.WellIndentedPrefix` | xprompt.c:387-405 | the lines before the last of well-indented lines are well indented |
| `ItemTree.WellIndentedInit` | xprompt.c:387-405 | the lines before the last are well indented, and adding the last one back gives the lines |
| `ItemTree.WellIndentedBuilds` | xprompt.c:378-408 | input whose first line is not indented and whose lines deepen one level at a time never meets the improper-indentation error, and the arena is the outline of its lines: each item's parent is the nearest earlier line one level up, its siblings the nearest lines at its level with nothing shallower between, its child the next line when deeper |
| `ItemTree.ClimbTo` | xprompt.c:349-364 | from the last item of a run, climbing parents reaches the next sibling that the following, shallower line became |
| `ItemTree.ClimbOut` | xprompt.c:349-364 | from the last item and each of its ancestors, climbing finds no next sibling: the walk ends there |
| `ItemTree.PreOrder` | xprompt.c:335-374 | in that tree the root is item 0 with no parent and no previous sibling, and the pre-order walk (child first, else the next sibling of the item or its nearest ancestor with one) visits the items in line order, so it gives the input lines back |
| `ItemTree.ShallowerThanRootFails` | xprompt.c:349-356 | a first line indented one level and a second line not indented fail with the improper-indentation error |
| `Keys.LetterCell` | xprompt.c:307-312 | a capital letter names its `UpperCase` cell, a small letter its `LowerCase` cell, and nothing else names a cell |
| `Keys.Bound` | xprompt.c:306-313 | after scanning n characters, a cell holds `CTRLNOTHING` or an operation below n, never `INSERT` |
| `Keys.BoundIsLast` | xprompt.c:306-313 | a cell is bound exactly when a scanned letter names it, and then to the operation of the last such letter |
| `Keys.Scanned` | xprompt.c:306 | `initctrl` scans up to the terminator and stops before `CTRLNOTHING` |
| `Keys.BoundStep` | xprompt.c:307-312 | scanning one more character changes only the cell its letter names |
| `Keys.KeyTable.constructor` | xprompt.c:46 | the static table starts zeroed: every cell holds `CTRLPASTE` |
| `Keys.KeyTable.Reset` | xprompt.c:300-304 | the first loop of `initctrl` sets every cell to `CTRLNOTHING` |
| `Keys.KeyTable.BindOne` | xprompt.c:307-312 | one round of the second loop binds the cell of the letter at position i |
| `Keys.KeyTable.InitCtrl` | xprompt.c:295-314 | after `initctrl`, every cell holds the binding the configuration string gives it |
| `Keys.KeyTable.GetOperation` | xprompt.c:1583-1637 | `getoperation` gives `INSERT` exactly for a key that is neither named nor held with Control; Shift turns the motion keys into selections; Control with a key that is not a letter gives `CTRLNOTHING` |
| `Keys.ShiftSelects` | xprompt.c:1599-1622 | Shift turns the motion a key gives into its selecting variant |
| `Keys.CtrlLetter` | xprompt.c:1626-1632 | with Control, a capital letter and a small letter with Shift read the `UpperCase` cell; a small letter alone reads the `LowerCase` cell; that cell holds the configured binding |
| `Keys.BoundAt` | xprompt.c:306-313 | a cell holds the operation at position p when the letter there names it and does not recur later |
| `Keys.DefaultUndoKeys` | config.h:6 | with the default bindings, Ctrl+Z undoes and Ctrl+Shift+Z redoes |
| `Keys.DefaultDelLeftKey` | config.h:6 | with the default bindings, Ctrl+H deletes left |
| `Hist.History.constructor` | xprompt.c:418-430 | the history `loadhist` leaves holds the lines read, with the index past the newest |
| `Hist.History.NavHist` | xprompt.c:1330-1345 | `navhist` moves the index as `NavIndex` says and returns the entry reached, or NULL exactly when the index is past the newest entry |
| `Hist.NavIndex` | xprompt.c:1333-1339 | a negative direction steps one entry older, stopping at the oldest; any other steps one entry newer, stopping at the newest |
| `Hist.NavHistStaysOnEntries` | xprompt.c:1333-1344 | once the index is on an entry it stays on entries, and the first step back from the end reaches the newest entry |
| `Hist.Older` | xprompt.c:1333-1335 | repeated steps older never increase the index |
| `Hist.Newer` | xprompt.c:1337-1338 | repeated steps newer never decrease the index or pass the end |
| `Hist.OlderSteps` | xprompt.c:1333-1335 | k steps older from an entry at or above k move exactly k entries |
| `Hist.NewerSteps` | xprompt.c:1337-1338 | k steps newer from at least k below the newest entry move exactly k entries |
| `Hist.NavRoundTrip` | xprompt.c:1333-1339 | k steps older then k steps newer return to the starting entry |
| `Undo.Kept` | xprompt.c:1238-1248 | `addundo` keeps the entries up to and including the current one |
| `Undo.Added` | xprompt.c:1237-1262 | after `addundo` the list keeps its shape, and the newest entry holds the input |
| `Undo.AddedNoRepeats` | xprompt.c:1250-1262 | `addundo` never pushes a copy of the entry below it |
| `Undo.AddedTwice` | xprompt.c:1250-1262 | a second `addundo` of the same text leaves the list as the first left it; the current entry moves again only when the first call was not editing and the second is |
| `Undo.UndoStep` | xprompt.c:1640-1655 | the corrected `undo` keeps the current entry on the list |
| `Undo.RedoStep` | xprompt.c:1658-1669 | `redo` keeps the current entry on the list |
| `Undo.UndoCorrectionAgrees` | xprompt.c:1643-1654 | as written, `undo` reaches `strlen(NULL)` exactly when the current entry is the one above the sentinel and equals the input; otherwise it agrees with the corrected one |
| `Undo.UndoFaultsAfterEmptyEdit` | xprompt.c:1647-1652 | Backspace on an empty prompt followed by Ctrl+Z makes the as-written `undo` fault; the corrected one stops on the sentinel |
| `Undo.UndoMovesDown` | xprompt.c:1640-1655 | `undo` moves only to older entries, and never copies in the text already in the input |
| `Undo.RedoMovesUp` | xprompt.c:1658-1669 | `redo` moves to newer entries, strictly when one exists, and copies the input's own text only from the newest entry |
| `Undo.RedoAfterUndo` | xprompt.c:1640-1669 | redo after undo puts back the text that undo replaced |
| `Undo.UndoLog.constructor` | xprompt.c:963-975 | `setpromptundo`: only the sentinel, with no current entry |
| `Undo.UndoLog.AddUndo` | xprompt.c:1232-1263 | `addundo` leaves the list `Added` gives, with the input as its newest entry |
| `Undo.UndoLog.Undo` | xprompt.c:1640-1655 | `undo` moves to the entry `UndoStep` gives; when that yields a string, it replaces the text before the cursor and cursor and select both end after it (only the text after the cursor remains when it does not fit, with both at 0); otherwise the field is unchanged |
| `Undo.UndoLog.Redo` | xprompt.c:1658-1669 | `redo` moves to the entry `RedoStep` gives, and its string replaces the text before the cursor with cursor and select as for `undo`, or the field is unchanged |
| `Matching.LinkedForward` | xprompt.c:358-367 | in a tree `builditems` built, sibling links lead forward in the arena |
| `Matching.Siblings` | xprompt.c:1502 | following `next` from an item lists it and its later siblings, with no item twice |
| `Matching.Label` | xprompt.c:1444 | an item is matched by its description under `-d` when it has one, and by its text otherwise |
| `Matching.SkipWord` | xprompt.c:1451-1452 | the scan past a word stops at a delimiter or the end |
| `Matching.SkipDelims` | xprompt.c:1453-1454 | the scan past delimiters stops at a byte that is not one, or the terminator |
| `Matching.NextToken` | xprompt.c:1451-1454 | without middle, `itemmatch` always moves forward |
| `Matching.NextTokenIsNext` | xprompt.c:1451-1454 | without middle, `itemmatch` moves to the next word start and skips none |
| `Matching.MiddleMatch` | xprompt.c:1445-1449 | with middle, `itemmatch` finds the word at any byte of the label |
| `Matching.TokenMatch` | xprompt.c:1445-1455 | without middle, `itemmatch` finds the word exactly at the word starts |
| `Matching.ItemMatchMeans` | xprompt.c:1440-1459 | `itemmatch` holds, without middle, exactly when the word starts the label or a later word of it, and with middle exactly when it occurs anywhere in it |
| `Matching.EmptyWordMatches` | xprompt.c:1440-1459 | the empty word matches every item with a non-empty label |
| `Matching.TokenImpliesMiddle` | xprompt.c:1513-1514 | every match at a word start is also a match in the middle, so the second pass adds only new items |
| `Matching.Pass` | xprompt.c:1502-1522 | a pass links exactly the items of the list that pass its test |
| `Matching.PassIncreasing` | xprompt.c:1502-1522 | a pass keeps the order of the list |
| `Matching.MatchChain` | xprompt.c:1501-1522 | the chain holds arena indices |
| `Matching.ChainMembers` | xprompt.c:1501-1522 | the chain holds exactly the items of the list that match the word, at a word start or in the middle |
| `Matching.ChainOrder` | xprompt.c:1501-1522 | no item appears twice; of two items in the chain, the later one comes earlier in the list only when the first matches at a word start and the second does not |
| `Matching.EmptyWordChain` | xprompt.c:1488-1522 | with no word before the cursor, every item with a label joins the chain, in list order |
| `Matching.WordStart` | xprompt.c:1488-1498 | the word before the cursor starts after the last delimiter, or at 0, with no delimiter inside |
| `Matching.FindItem` | xprompt.c:1371-1380 | `getcomplist` picks the first item of the list whose label the word starts, or none |
| `Matching.WordEnd` | xprompt.c:1366-1368 | a word ends at the cursor, a delimiter or the terminator |
| `Matching.NextWord` | xprompt.c:1362-1369 | each round of `getcomplist` reads a word after `end` and moves `end` forward |
| `Matching.CompFrom` | xprompt.c:1360-1387 | the loop of `getcomplist` returns a list in the arena, or NULL |
| `Matching.CompList` | xprompt.c:1347-1388 | `getcomplist` returns a list in the arena, or NULL, and the root list when the cursor is at 0 |
| `Matching.ScanWord` | xprompt.c:1362-1369 | the two scans compute `NextWord` |
| `Matching.SearchList` | xprompt.c:1371-1380 | the search loop computes `FindItem` |
| `Matching.GetCompList` | xprompt.c:1347-1388 | the C loops compute `CompList` |
| `Matching.CompListUnmatched` | xprompt.c:1384-1385 | `getcomplist` returns NULL when more than one word was read and no completed word starts a label of the root list |
| `Matching.CompListOneWord` | xprompt.c:1360-1387 | an input of one word followed by a delimiter, with the cursor after the delimiter, gives the children of the first root item whose label the word starts, or NULL when there is none |
| `Matching.Stepped` | xprompt.c:1541-1565 | `selitem` moves one match forward or back, and stays put at either end |
| `Matching.Paged` | xprompt.c:1545-1564 | `matchlist` stays on the chain |
| `Matching.WindowFollowsSelection` | xprompt.c:1541-1565 | with `maxitems >= 1`, the selection stays in the window; the window moves only when the selection leaves it, forward to the new selection or back by a page |
| `Matching.MatchWindow.constructor` | xprompt.c:978-988 | `setpromptarray`: no matches, and room for `number_items` rows |
| `Matching.MatchWindow.GetMatchList` | xprompt.c:1479-1529 | `getmatchlist` builds the chain `MatchChain` gives for the word before the cursor, with `firstmatch`, `matchlist` and `selitem` its head |
| `Matching.MatchWindow.NavMatchList` | xprompt.c:1531-1573 | with no `selitem` nothing changes; otherwise `selitem` is `Stepped`, `matchlist` is `Paged`, and `itemarray` holds the `nitems = min(maxitems, rest)` matches from `matchlist` on |
| `Matching.MatchWindow.StepForward` | xprompt.c:1541-1555 | the forward branch moves the selection one on and pages as `Paged` says |
| `Matching.MatchWindow.StepBack` | xprompt.c:1556-1564 | the backward branch moves the selection one back and pages as `Paged` says |
| `Matching.MatchWindow.FillItems` | xprompt.c:1567-1572 | the fill loop puts the consecutive matches from `matchlist` on into `itemarray` |
| `Matching.MatchWindow.DelMatchList` | xprompt.c:1575-1581 | `delmatchlist` ends completion with nothing shown |
| `Dispatch.Moved` | xprompt.c:1755-1798 | each motion and selection moves the cursor to the start or end of the string, one rune left or right (only when there is one), or to a word edge |
| `Dispatch.RedrawWhole` | xprompt.c:1841-1870 | outside selections, edits and undo, the tail redraws the whole prompt |
| `Dispatch.AnswerCases` | xprompt.c:1685-1870 | `keypress` returns Nop exactly in the ignored cases; Esc only for Cancel with `-s`, outside completion or on an empty input; Enter only for Enter with `-s` or outside completion; DrawInput for a selection, and for an edit or undo outside completion |
| `Dispatch.TypedOver` | xprompt.c:1836-1837 | deleting the selection and then inserting the typed bytes types them over the selection |
| `Dispatch.SplicedWhole` | xprompt.c:1837 | inserting a whole string puts it between the two halves |
| `Dispatch.SplicedOut` | xprompt.c:1818 | a negative count deletes the bytes between the new and the old cursor |
| `Dispatch.AtTerminator` | xprompt.c:1761-1786 | the byte at the cursor is the terminator exactly at the end of the string |
| `Dispatch.Prompt.constructor` | xprompt.c:2215-2260 | the prompt `main` sets up: the options as flags, no completion list, and no previous operation |
| `Dispatch.Prompt.KeyPress` | xprompt.c:1673-1871 | `keypress` returns `Answer`, whose cases `AnswerCases` spells out; `prevoperation` and the undo list change as `Recorded` says for a key that is not a typed control byte; the whole prompt (input field, undo entry, history index, `complist`, match window) then changes as `Pressed` says: Nop and Esc change nothing, edits as `Edited`, undo and redo as `Restored`, motions and selections as `Moved`, Cancel, Enter, Up/Down and Prev/Next on the window and history |
| `Dispatch.Prompt.Apply` | xprompt.c:1704-1870 | the switch and its tail return `Answer` and take the prompt from its state to the next as `Pressed` says, leaving `prevoperation`, the history and the undo entries alone |
| `Dispatch.Recorded` | xprompt.c:1699-1703 | the undo grouping keeps the undo list well formed, changes it only for an undo after an edit or the first of a run of the same edit, and then records the input as the newest entry |
| `Dispatch.Prompt.FieldThenFinished` | xprompt.c:1755-1870 | a case on the input field that breaks out, followed by the tail, is the whole key `FieldPressed` describes |
| `Dispatch.Prompt.PressField` | xprompt.c:1755-1870 | a key on the input field returns `Answer` and changes the prompt as `FieldPressed` says |
| `Dispatch.Prompt.Complete` | xprompt.c:1839-1870 | the switch's own answer when it returned, else the tail's redraw; a switch case as `FieldSwitched` says, completed by it, is a key as `FieldPressed` says |
| `Dispatch.Prompt.Record` | xprompt.c:1699-1703 | an undo right after an edit records the input without making it current; the first of a run of the same edit records it and makes it current; otherwise the undo list is unchanged |
| `Dispatch.Prompt.Control` | xprompt.c:1705-1776 | the cases that work on the prompt as a whole return or break as `Answer` says, and change the prompt as `PromptSwitched` says: Nop and Esc change nothing, Cancel closes the window, Enter puts the selected match in, Up and Down recall a history entry, Prev and Next navigate |
| `Dispatch.Prompt.Local` | xprompt.c:1755-1838 | the cases that work on the input field alone return or break as `Answer` says, and change the field as `FieldSwitched` says: a Nop changes nothing, an edit as `Edited`, an undo as `Restored`, a motion or selection moves the cursor |
| `Dispatch.Prompt.Cancel` | xprompt.c:1711-1717 | Cancel returns Esc exactly with `-s`, outside completion or on an empty input; otherwise completion ends |
| `Dispatch.Prompt.Accept` | xprompt.c:1718-1726 | in completion, Enter puts the selected item in place of the word before the cursor, with text, cursor and select as `SelItemPut` says; it returns Enter exactly with `-s` or outside completion, and otherwise completion ends |
| `Dispatch.Prompt.Navigate` | xprompt.c:1727-1750 | outside completion, Tab computes `complist` and starts on the match chain; in completion it steps the selection as `NavMatchList` does |
| `Dispatch.Prompt.StartCompletion` | xprompt.c:1730-1744 | `getcomplist`, then `getmatchlist` and `navmatchlist(0)` when a list was found |
| `Dispatch.Prompt.Collect` | xprompt.c:1730-1743 | `complist` is `CompList` of the input, and the chain is rebuilt when it is not NULL |
| `Dispatch.Prompt.Recall` | xprompt.c:1764-1776 | without history, Up and Down are Nop and change nothing; otherwise `navhist` moves the index, the entry reached replaces the text before the cursor with cursor and select after it (`HeadReplaced`), and completion ends |
| `Dispatch.Prompt.Move` | xprompt.c:1755-1798 | motions move the cursor to `Moved`; left at the start and right at the end are Nop |
| `Dispatch.Prompt.EditOp` | xprompt.c:1799-1838 | an editing key returns Nop only as `Answer` says and then leaves the field alone; otherwise it changes text, cursor and select as `Edited` says |
| `Dispatch.Prompt.CutLine` | xprompt.c:1799-1822 | CTRLDELBOL keeps the text after the cursor, CTRLDELEOL the text before it, CTRLDELWORD removes the word before the cursor, with cursor and select as `LineCut` says |
| `Dispatch.Prompt.DeleteRune` | xprompt.c:1805-1819 | Delete and BackSpace remove the selection, or else the rune after or before the cursor; Nop exactly at the end or start of the string with nothing selected |
| `Dispatch.Prompt.DeleteOne` | xprompt.c:1811-1818 | with nothing selected, the rune before (or after) the cursor goes, and Nop exactly at the start (or end) |
| `Dispatch.Prompt.DeleteBefore` | xprompt.c:1816-1818 | the rune before the cursor goes, and cursor and select end at its start |
| `Dispatch.Prompt.Type` | xprompt.c:1831-1838 | a typed control byte is Nop; otherwise the typed bytes replace the selection |
| `Dispatch.Prompt.Overwrite` | xprompt.c:1836-1837 | the selection is deleted and the typed bytes inserted in its place, when they fit |
| `Dispatch.Prompt.Finish` | xprompt.c:1841-1870 | the tail returns the redraw and changes the prompt as `Finished` says: a motion ends the selection and closes the window, an edit or undo in completion rematches, and nothing else changes |
| `Dispatch.Prompt.EndMotion` | xprompt.c:1841-1845 | after a motion, select joins the cursor and completion ends |
| `Dispatch.Prompt.Rematch` | xprompt.c:1856-1865 | after an edit in completion, `complist` is recomputed; when it is NULL the window stays as it was, otherwise the chain is rebuilt and completion ends when the chain is empty |
| `Geometry.SkipSpace` | xprompt.c:919 | `strtol` skips exactly the leading white space |
| `Geometry.DigitsEnd` | xprompt.c:919 | the run of digits ends at the first non-digit |
| `Geometry.Strtol` | xprompt.c:919 | `strtol` consumes nothing and gives 0 without a digit, and otherwise ends just after the last digit |
| `Geometry.GetNum` | xprompt.c:911-924 | `getnum` succeeds only with a value in [0, INT_MAX] that was read from at least one digit |
| `Geometry.ParseGeometrySpec` | xprompt.c:926-948 | a spec that parses holds an 'x' and gives width and height in [0, INT_MAX] |
| `Geometry.Decimal` | xprompt.c:926-948 | the partner of the parser: the decimal digits of a number |
| `Geometry.DecimalValue` | xprompt.c:919 | reading back the digits printed for n gives n |
| `Geometry.ValueShift` | xprompt.c:919 | a run of digits has the same value wherever it sits |
| `Geometry.StrtolAt` | xprompt.c:919 | `strtol` reads the digits after the spaces and any '+' |
| `Geometry.GetNumDigits` | xprompt.c:911-924 | `getnum` reads the value of a run of digits after spaces and an optional '+' |
| `Geometry.RunAt` | xprompt.c:919 | a run of digits followed by a non-digit ends where it appears to and is worth its value |
| `Geometry.ParsedAs` | xprompt.c:933-945 | two successful `getnum` calls around an 'x', with the end after, give the width and height |
| `Geometry.ParseDigits` | xprompt.c:933-945 | two runs of digits joined by 'x' parse to their values |
| `Geometry.GeometryRoundTrip` | xprompt.c:926-948 | printing a width and a height as "WxH" and parsing the result gives them back |
| `Geometry.GeometryDefault` | config.h:24 | the default "0x0" parses to width and height 0 |
| `Geometry.LenientDigits` | xprompt.c:919-940 | the parser accepts a space before the width and a '+' before the height |
| `Geometry.GeometryLenient` | xprompt.c:919-940 | the same for a printed width and height |
| `Geometry.GeometryNegativeRefused` | xprompt.c:920 | a negative width is refused, whatever follows its digits |

## Left out

- X11, Xft and the input method are not modelled: drawing, window setup, fonts, colours, the preedit callbacks and the keyboard grab. `XmbLookupString` becomes parameters of `KeyPress`: its status, keysym, modifier state and bytes.
- Mouse handling is not modelled (`getcurpos`, `getitem`, `buttonpress`, `buttonmotion` and the motion-notify handler). It depends on glyph widths and on the time between clicks.
- The clipboard and the primary selection (`paste`, `copy`, `XConvertSelection`, `XSetSelectionOwner`) are no-ops. CTRLPASTE and CTRLCOPY return Nop. The `puts` of the accepted text is left to the caller, who sees the Enter result.
- File-name completion is not modelled. `getfilelist` calls `glob(3)`, and `fflag` comes from the command line. Only its scan and length guard are modelled, as `Edit.EditBuffer.FileName`, and `filecomp` is always 0 in `keypress`. The `cleanitem` of a file completion list therefore never runs.
- History file I/O is not modelled (`loadhist`'s reading, `savehist`). `Hist.History.constructor` takes the lines `loadhist` read, which are at most `histsize`.
- Configuration sources are not modelled (X resources, environment, `getopt`). The word delimiters, the Control-key bindings, `number_items` and the geometry spec are the defaults of config.h. The flags `-s`, `-h`, `-a`, `-d` and `-i` are parameters of the prompt.
- Case-insensitive matching under `-i` is modelled as ASCII case folding. `isalpha`, `isupper`, `islower`, `isspace` and `iscntrl` are those of the C locale. The locale-dependent behaviour of these functions is not modelled.
- Freeing memory and process exit are not modelled (`cleanitem`, `cleanhist`, `cleanundo`, `cleanprompt`). `errx` becomes a failure result of `Items.ItemBuilder.Build`, `Items.ParseStdin` and `Geometry.ParseGeometrySpec`.
- CTRLPGUP and CTRLPGDOWN are Nop, as in the source.
- `Geometry.Strtol`: does not model the clamping of `strtol` to `LONG_MIN`/`LONG_MAX`. A clamped value lies outside [0, INT_MAX] either way, so `getnum` decides the same.
- `Matching.WindowFollowsSelection`: is stated only for `maxitems >= 1`. With `number_items` 0 the window is empty and holds no selection.
- `Dispatch.Prompt.KeyPress`: assumes the bytes `XmbLookupString` writes are NUL-free, up to `len`. The static `buf` of `keypress` is the `input` parameter, and only the first `len` bytes are inserted.
- `Dispatch.Prompt.KeyPress`: calls the corrected `undo` (`Undo.UndoLog.Undo`) and the corrected CTRLDELEOL (`Edit.EditBuffer.DelEol`). The as-written versions are modelled beside them (see Findings).
- `Undo.UndoLog.Undo`: skips the `strlen(NULL)` fault of the source (finding 1). That fault is exhibited by `Undo.UndoFaultsAfterEmptyEdit`.
- `ItemTree.WellIndentedBuilds`: characterises input whose first line is not indented. `builditems` also accepts a first line indented deeper, as long as no later line is shallower than it. That tree is not characterised: only the failure on a shallower later line is stated, by `ItemTree.ShallowerThanRootFails`.
- `Utf8.GetNextUtf8Char`: models `getnextutf8char` as written, including the overrun of finding 2. Nothing in the modelled core calls it: its callers draw text.

## Findings

| source | as written | input that shows it | evidently intended | confidence | as-written member | corrected member |
|---|---|---|---|---|---|---|
| xprompt.c:1643-1652 | After skipping an entry equal to the input, `undo` may land on the sentinel, whose text is NULL, and pass it to `insert` and `strlen` | An empty prompt, BackSpace (which records "" and makes it current), then Ctrl+Z | When the step lands on the sentinel, nothing is copied | not executed | `Undo.UndoFaultsAfterEmptyEdit` | `Undo.UndoStep` |
| xprompt.c:466-470 | When a lead byte is followed by the terminator, `next_ret` is set one past the NUL before the NUL check | The string "\xC3" gives `next_ret` at offset 2, past the terminator at 1 | A truncated sequence stops on the terminator | not executed | `Utf8.DecodeOverrunsTerminator` | `Utf8.DecodeGuarded` |
| xprompt.c:1802-1808 | CTRLDELEOL writes a NUL at the cursor but leaves `select` past it; a following delete of the selection moves the stale bytes after `select` back into the string | "abcdef" with the cursor at 2 and select at 4: Ctrl+K leaves "ab", then BackSpace gives "abef" | Deleting to the end of the line also ends the selection | not executed | `Edit.DelEolResurrects` | `Edit.EditBuffer.DelEol` |
