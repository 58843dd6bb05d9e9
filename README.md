# Levelset core of CCTools, modelled in Dafny

CCTools is an editor for Chip's Challenge levelsets. Its core library keeps a levelset in memory and moves it to and from files:

- A **levelset** (`ccl::Levelset`) is a 32-bit magic number and an ordered list of levels.
   - The magic number names the rule set: MS, Lynx, PG or Lynx-PG.
- A **level** (`ccl::LevelData`) holds:
   - its number, time limit and chip count;
   - a 32x32 two-layer tile grid;
   - a name, a hint and a password;
   - three link tables: trap wirings (button to trap), cloner wirings (button to cloning machine), and the forced-move list of monster cells.
- The **tile grid** (`ccl::LevelMap`) keeps its foreground and background layers as flat row-major arrays.

This project models `src/Levelset.cpp`:

- **Grid:** construction, assignment, rectangle copy with edge clamping, push and pop of a cell's two-deep stack, and the wrapping search for a tile.
- **Levels:** the lookups over the link tables, the de-duplicating edits of those tables, and the binary level record.
   - A record is written with two size words that are patched in afterwards.
   - A record is read with a running byte budget and its error checks.
   - Records come in two modes: stored (in a file, with an outer size word) and clipboard (without it).
- **Levelset:** construction of a fresh set with named levels and random passwords, add, insert and take by position, and reading and writing a whole set.
   - Writing renumbers the levels in list order.
- **DetermineLevelsetType:** the classification of a file by its first four bytes.

## How the project is built

| Module (file) | What it models |
|---|---|
| `Bytes` (bytes.dfy) | Fixed-width unsigned integers, little-endian reads and writes, the error conditions, and positional writes as a splice into a byte sequence. |
| `Streams` (streams.dfy) | The byte stream as a class with a byte sequence and a position. Each transfer is specified by a pure function. |
| `Records` (records.dfy) | Generic records written back to back and read in a counted loop. |
| `Tiles` (tiles.dfy) | `LevelMap` as a class over two `array`s, with its loops. |
| `Links` (links.dfy) | The link tables as sequences, and the lookups and de-duplicating append as functions. |
| `LevelFormat` (levelformat.dfy) | The level record as values: the encoder, a decoder that follows read line by line, and the round-trip and error lemmas. |
| `Level` (leveldata.dfy) | `LevelData` as a class whose methods read and write the stream step by step. Each method is proved against the `LevelFormat` and `Links` functions. |
| `SetFormat` (setformat.dfy) | The levelset file as values: magic numbers, renumbering, set encoder and decoder, level names and passwords, and file-type classification. |
| `Levelsets` (levelset.dfy) | `Levelset` as a class with a `seq` of level objects, proved against `SetFormat`. |

The stream implementation is not part of this model: neither `Stream.cpp` nor the headers are. `Streams` stands in for them with the interface the codec uses, which is enough to state and prove both of these:

- The record layout, and that write and read are inverse.
- When read fails, and with which error.

## Model

| member | source | states |
|---|---|---|
| Tiles.LevelMap.constructor | src/Levelset.cpp:27-31 | Both layers of a new grid are all zero. |
| Tiles.LevelMap.Assign | src/Levelset.cpp:33-38 | After assignment both layers equal the source grid's layers. |
| Tiles.Clamp | src/Levelset.cpp:43-46 | The clamped extent never runs past the grid's edge. It equals the requested extent when that fits, and is exactly the distance from the corner to the edge when it does not. |
| Tiles.LevelMap.CopyFrom | src/Levelset.cpp:40-56 | Each layer becomes `CopyLayer`: every cell in the clamped destination rectangle holds the matching source cell, and every other cell is unchanged. |
| Tiles.CopyStep | src/Levelset.cpp:48-54 | One inner-loop assignment makes exactly one more destination cell a copy of its source cell. |
| Tiles.CopyAllDone | src/Levelset.cpp:48-55 | When the column loop ends, the rectangle has been copied in full. |
| Tiles.CopyNothing | src/Levelset.cpp:43-48 | A rectangle that is empty after clamping leaves the grid unchanged. |
| Tiles.LevelMap.Push | src/Levelset.cpp:58-62 | The old foreground moves to the background and the new tile goes on top. No other cell changes. |
| Tiles.LevelMap.Pop | src/Levelset.cpp:64-70 | Returns the foreground. The background rises and the background becomes 0. No other cell changes. |
| Tiles.PopUndoesPush | src/Levelset.cpp:58-70 | Pop after push returns the pushed tile and restores the old foreground, but leaves the background 0. |
| Tiles.PushThenPop | src/Levelset.cpp:58-70 | On the objects: a push followed by a pop at the same cell answers the pushed tile, leaves the foreground layer as it was, and zeroes just that cell's background. |
| Tiles.PushForgetsBackground | src/Levelset.cpp:58-62 | Two pushes in a row forget the cell's background entirely. |
| Tiles.LevelMap.FindNext | src/Levelset.cpp:88-107 | Returns (-1, -1) exactly when no cell holds the tile in either layer. Otherwise returns a matching cell with no match at any cell between the start and it in wrapping row-major order. The start cell comes last. |
| Tiles.VisitCovers | src/Levelset.cpp:93-106 | The wrapping scan reaches every cell of the grid within 1024 steps. |
| Tiles.VisitReturns | src/Levelset.cpp:101-105 | The scan comes back to its start only after visiting all 1024 cells. |
| Tiles.LevelMap.Read | src/Levelset.cpp:72-78 | Fills the foreground and then the background with the run-length decoded tiles. Returns the number of bytes consumed, or the decoder's error. |
| Tiles.LevelMap.Write | src/Levelset.cpp:80-86 | Writes the run-length coding of the foreground, then of the background, and returns their total length. |
| Tiles.LayersRoundTrip | src/Levelset.cpp:72-86 | What write emits for two full layers, read back, gives the same two layers and ends right after them. |
| Streams.RleRoundTrip | src/Levelset.cpp:75-76 | The stand-in run-length code decodes exactly the tiles it encoded. |
| Streams.StringRoundTrip | src/Levelset.cpp:263-269 | A string field written with its terminator reads back as the same string, in plain and obfuscated mode. |
| Streams.ObfuscateInvolution | src/Levelset.cpp:269 | Password obfuscation undoes itself. |
| Links.LinkedTraps | src/Levelset.cpp:121-131 | A point is in the answer exactly when a trap wiring from the button at (x, y) to it is in the table. The answer is no longer than the table. |
| Links.LinkedTrapButtons | src/Levelset.cpp:133-143 | A point is in the answer exactly when a wiring from it to the trap at (x, y) is in the table. |
| Links.LinkedCloners | src/Levelset.cpp:145-155 | A point is in the answer exactly when a cloner wiring from the button at (x, y) to it is in the table. |
| Links.LinkedCloneButtons | src/Levelset.cpp:157-167 | A point is in the answer exactly when a wiring from it to the cloning machine at (x, y) is in the table. |
| Links.CheckMove | src/Levelset.cpp:169-178 | True exactly when (x, y) is on the forced-move list. |
| Links.TrapLookupsAgree | src/Levelset.cpp:121-143 | A trap is linked to a button exactly when that button is linked to the trap. |
| Links.CloneLookupsAgree | src/Levelset.cpp:145-167 | A cloning machine is linked to a button exactly when that button is linked to the machine. |
| Links.LinkedTrapsOrder | src/Levelset.cpp:124-129 | The lookup keeps table order: on a concatenated table it returns the first part's answers, then the second's. |
| Links.LinkedTrapButtonsOrder | src/Levelset.cpp:136-141 | The same order property for the button lookup of the trap table. |
| Links.LinkedClonersOrder | src/Levelset.cpp:148-153 | The same order property for the cloner lookup. |
| Links.LinkedCloneButtonsOrder | src/Levelset.cpp:160-165 | The same order property for the button lookup of the cloner table. |
| Links.ConnectedContains | src/Levelset.cpp:180-232 | After a de-duplicating append, the item is present and the old entries come first, in order. The list grows by one exactly when the item was missing. |
| Links.ConnectedIdempotent | src/Levelset.cpp:180-232 | Appending the same item twice is the same as appending it once. |
| Links.ConnectedKeepsDistinct | src/Levelset.cpp:180-232 | A table without duplicates stays without duplicates. |
| Links.Scan | src/Levelset.cpp:182-189 | The scan before each append reports a match exactly when the item is already in the list. |
| Level.LevelData.constructor | src/Levelset.cpp:110-112 | A new level is the empty level: zero numbers, a zeroed grid, empty strings and tables. |
| Level.LevelData.Copy | src/Levelset.cpp:114-119 | The copy has a grid of its own and the same value as the original. |
| Level.LevelData.LinkedTraps | src/Levelset.cpp:121-131 | The loop returns exactly `Links.LinkedTraps` of the trap table. |
| Level.LevelData.LinkedTrapButtons | src/Levelset.cpp:133-143 | The loop returns exactly `Links.LinkedTrapButtons` of the trap table. |
| Level.LevelData.LinkedCloners | src/Levelset.cpp:145-155 | The loop returns exactly `Links.LinkedCloners` of the cloner table. |
| Level.LevelData.LinkedCloneButtons | src/Levelset.cpp:157-167 | The loop returns exactly `Links.LinkedCloneButtons` of the cloner table. |
| Level.LevelData.CheckMove | src/Levelset.cpp:169-178 | True exactly when (x, y) is on the forced-move list. |
| Level.LevelData.TrapConnect | src/Levelset.cpp:180-197 | The trap table becomes its de-duplicating append of the wiring. Nothing else in the level changes. |
| Level.LevelData.CloneConnect | src/Levelset.cpp:199-216 | The cloner table becomes its de-duplicating append of the wiring. Nothing else in the level changes. |
| Level.LevelData.AddMover | src/Levelset.cpp:218-232 | The forced-move list becomes its de-duplicating append of the cell. Nothing else in the level changes. |
| Level.LevelData.Read | src/Levelset.cpp:234-315 | The level becomes what `DecodeLevel` reads from the old level, and the stream is left after the record. The result is the record length, or exactly the decoder's error. |
| Level.LevelData.ReadPrelude | src/Levelset.cpp:236-252 | Optional outer size word, then head and grid, then the field-section word. Stored mode fails when that word disagrees with the bytes left. Clipboard mode takes the budget from it. |
| Level.LevelData.ReadHead | src/Levelset.cpp:239-246 | The level becomes what `DecodeHead` reads: the three numbers and the grid. The result is the number of bytes the grid took, or exactly the decoder's error. The stream is left after the grid. |
| Level.LevelData.ReadNumbers | src/Levelset.cpp:239-245 | Reads the level number, time and chip count. Fails unless the map marker is 1. |
| Level.LevelData.ReadFields | src/Levelset.cpp:254-313 | The field loop runs while budget remains, followed by the residual check. Agrees with `FinishLevel` of `DecodeFields`. |
| Level.LevelData.ReadRecord | src/Levelset.cpp:255-308 | One pass of the field loop, exactly as `FieldStep` reads it: the tag and size byte, charged against the budget, then the payload. Fails before the payload when the budget would go negative. |
| Level.LevelData.ReadField | src/Levelset.cpp:261-308 | Strings replace the member. Table entries are appended. Bad table sizes and unknown tags fail with their own errors. |
| Level.ReadTraps | src/Levelset.cpp:271-283 | Reads `k` five-word trap entries and appends them in stream order. The state word is dropped. |
| Level.ReadClones | src/Levelset.cpp:284-295 | Reads `k` four-word cloner entries and appends them in stream order. |
| Level.ReadMovers | src/Levelset.cpp:296-305 | Reads `k` two-byte move entries and appends them in stream order. |
| Level.ReadTrap | src/Levelset.cpp:275-280 | One trap entry, exactly as `GetTrap` reads it: four coordinates, then a state word that is consumed and dropped. End of stream is reported as such. |
| Level.ReadClone | src/Levelset.cpp:289-292 | One cloner entry, exactly as `GetClone` reads it: four 16-bit coordinates. |
| Level.ReadMover | src/Levelset.cpp:301-302 | One forced-move cell, exactly as `GetMover` reads it: two bytes. |
| Level.LevelData.Write | src/Levelset.cpp:317-392 | The stream receives exactly `EncodeLevel` of the level in the given mode. The result is its length and the stream is left after the record. |
| Level.LevelData.WriteRest | src/Levelset.cpp:323-380 | Writes `Rest` of the level: head, grid, a zero placeholder and the fields. Returns where the placeholder is, 8 bytes plus the grid's length after the start. |
| Level.LevelData.WriteHead | src/Levelset.cpp:319-329 | Writes the three numbers, the map marker 1 and the run-length coded grid. |
| Level.LevelData.WriteFields | src/Levelset.cpp:334-380 | Writes the name, hint, password, trap, cloner and move fields, each only when non-empty, in that fixed order. |
| Level.WriteField | src/Levelset.cpp:334-380 | One field record: its tag, a size byte truncated to 8 bits, and its payload. |
| Level.WriteWhen | src/Levelset.cpp:334-380 | Emits field `f` only when its condition holds. The list of emitted fields grows by exactly that field or by nothing, and the stream holds exactly their bytes. |
| Level.WriteTrap | src/Levelset.cpp:354-358 | Writes one trap as `TrapBytes`: four coordinates and a state word 0, ten bytes. |
| Level.WriteClone | src/Levelset.cpp:366-369 | Writes one cloner as `CloneBytes`: four 16-bit coordinates, eight bytes. |
| Level.WriteMover | src/Levelset.cpp:377-378 | Writes one forced-move cell as `MoverBytes`: its coordinates truncated to a byte each. |
| Level.WriteTraps | src/Levelset.cpp:352-359 | Writes every trap as five 16-bit words, the last one 0. |
| Level.WriteClones | src/Levelset.cpp:364-370 | Writes every cloner wiring as four 16-bit words. |
| Level.WriteMovers | src/Levelset.cpp:375-379 | Writes every forced-move cell as two bytes. |
| Level.PatchSizes | src/Levelset.cpp:382-391 | Patches the outer size word (stored mode) and the field-section word with the number of bytes after each, then returns to the record's end. |
| Level.PatchWord | src/Levelset.cpp:385-389 | Overwrites just the two bytes at `at` with the word and leaves every other written byte alone. The stream is left right after the patched word. |
| LevelFormat.DraftEncodes | src/Levelset.cpp:319-391 | The bytes with zero placeholders, once both size words are patched, are exactly the record encoding. |
| LevelFormat.BodyFits | src/Levelset.cpp:382-389 | For a level within the format's limits, both patched size words fit in 16 bits. |
| LevelFormat.FieldListRestores | src/Levelset.cpp:262-305 | Reading back the fields that write emits, into a level with empty strings and tables, restores every string and table. |
| LevelFormat.FieldRoundTrip | src/Levelset.cpp:261-308 | A written field, read with its own tag and size byte, has its effect on the level. |
| LevelFormat.TrapsRoundTrip | src/Levelset.cpp:271-283 | A trap table whose coordinates fit 16 bits reads back as the same table, appended in order, ending right after the entries. |
| LevelFormat.ClonesRoundTrip | src/Levelset.cpp:284-295 | A cloner table whose coordinates fit 16 bits reads back as the same table, in order. |
| LevelFormat.MoversRoundTrip | src/Levelset.cpp:296-305 | A forced-move list whose coordinates fit 8 bits reads back as the same list, in order. |
| LevelFormat.DecodeTraps | src/Levelset.cpp:271-283 | The entries read succeed exactly when the stream holds them all. The old table is kept as a prefix. The only failure is end of stream. |
| LevelFormat.DecodeField | src/Levelset.cpp:261-308 | A field read consumes exactly its size byte's worth. Its only failures are end of stream, a bad table size or an unknown tag. Each of the last two does fail: see `LevelFormat.FieldRefused`. |
| LevelFormat.FieldRefused | src/Levelset.cpp:261-308 | An unknown tag fails with the unknown-field error. A trap, cloner or move-list size that is not a multiple of 10, 8 or 2 fails with the bad-size error. |
| LevelFormat.DecodeFields | src/Levelset.cpp:254-309 | When the field loop succeeds its budget is no longer positive. Its only failures are end of stream, a record that overruns the budget, a table size that is not a multiple of the entry size, and an unknown tag. Each of these does fail: see `LevelFormat.FieldsRefused`. |
| LevelFormat.FieldsRefused | src/Levelset.cpp:254-308 | While budget remains, a record whose size plus 2 overruns the budget fails with the truncated-record error, before its payload is read. Within the budget, an unknown tag or a table size that is not a whole number of entries fails with its own error. |
| LevelFormat.FieldsEndAtZero | src/Levelset.cpp:254-259 | Starting from a non-negative budget, a field loop that succeeds ends with a budget of exactly 0. |
| LevelFormat.ResidualCheckUnreachable | src/Levelset.cpp:311-313 | Read never fails with the checksum or clipboard-corruption error. The loop's own overrun check always fires first. |
| LevelFormat.FieldInside | src/Levelset.cpp:261-308 | A field payload that reads lies inside the stream. |
| LevelFormat.StepInside | src/Levelset.cpp:255-308 | One pass of the field loop that reads moves on by exactly the bytes it charges against the budget, inside the stream. |
| LevelFormat.FieldsConsumeBudget | src/Levelset.cpp:254-309 | A field loop that reads from a non-negative budget consumes exactly that many bytes, all inside the stream. |
| LevelFormat.RecordEndsAsDeclared | src/Levelset.cpp:234-315 | A record that reads, in either mode, ends exactly where its prelude's budget says, inside the stream. |
| LevelFormat.StoredEndsAsDeclared | src/Levelset.cpp:237-252 | In stored mode a record that reads spans exactly its size word plus the number of bytes that word gives. |
| LevelFormat.ClipEndsAsDeclared | src/Levelset.cpp:248-252 | In clipboard mode a record that reads ends exactly after its field-section word plus the number of bytes that word gives. |
| LevelFormat.ShortRecordFails | src/Levelset.cpp:234-315 | Corruption detection: the stored record written for a level within the format's limits, with any one byte after its size word removed and the stream ending there, does not read. |
| LevelFormat.DecodeLevel | src/Levelset.cpp:234-315 | A successful read consumes at least 10 bytes. A level read never fails with a bad levelset header. The errors it does raise are stated in `LevelFormat.MarkerRefused`, `LevelFormat.SizeWordRefused` and `LevelFormat.FieldErrorSurfaces`. |
| LevelFormat.MarkerRefused | src/Levelset.cpp:239-246 | In either mode, a record whose map marker word is not 1 fails with the map-marker error. |
| LevelFormat.SizeWordRefused | src/Levelset.cpp:237-252 | A stored record whose field-section word differs from what its size word leaves after the head fails with the size-mismatch error. |
| LevelFormat.FieldErrorSurfaces | src/Levelset.cpp:254-309 | Once the prelude reads, a failing field loop fails the whole record with the same error, in either mode. |
| LevelFormat.LevelRoundTrip | src/Levelset.cpp:234-392 | Reading what write emitted, into a fresh level and in either mode, gives back the same level and ends right after the record. |
| SetFormat.Inserted | src/Levelset.cpp:450-453 | After insertion the new level is at `where`, the levels before it are unchanged, and the levels from there on moved up by one. |
| SetFormat.Removed | src/Levelset.cpp:455-460 | After removal the levels before `num` are unchanged and the later ones moved down by one. |
| SetFormat.RemoveInserted | src/Levelset.cpp:450-460 | Taking back the level just inserted restores the list. |
| SetFormat.InsertRemoved | src/Levelset.cpp:450-460 | Inserting the level just taken, where it was, restores the list. |
| SetFormat.Renumbered | src/Levelset.cpp:486-491 | Level `j` gets number `k + j`, truncated to 16 bits, and nothing else changes. |
| SetFormat.DecodeSet | src/Levelset.cpp:462-479 | Only a set with one of the four magic numbers is read. A readable magic number that is none of the four fails with the bad-header error. |
| SetFormat.SetRoundTrip | src/Levelset.cpp:462-493 | Reading what write emits, for fewer than 65536 storable levels, gives the same magic and the levels renumbered from 1. |
| SetFormat.LevelsRoundTrip | src/Levelset.cpp:473-478 | Stored records back to back read back, in order, as the levels written. |
| SetFormat.DecimalRoundTrip | src/Levelset.cpp:400 | The decimal digits of a level's position spell that position. |
| SetFormat.LevelNamesDistinct | src/Levelset.cpp:400 | Levels made for different positions get different names. |
| SetFormat.ClassifyAgreesWithRead | src/Levelset.cpp:505-510 | A header of at least 4 bytes is classified as a levelset file exactly when read does not reject it as a bad header. It is classified as a DAC file exactly when read does. |
| SetFormat.StoredNeverHeader | src/Levelset.cpp:234-315 | A stored level record never fails with the levelset-header error. |
| SetFormat.ClassifyMagic | src/Levelset.cpp:505-510 | A header that starts with a magic number is classified by that number alone. |
| SetFormat.WrittenSetClassified | src/Levelset.cpp:481-510 | A written set, whatever follows it, is classified as a levelset file exactly when its magic is one of the four. |
| SetFormat.RenumberedStorable | src/Levelset.cpp:486-491 | Renumbering leaves every level storable. |
| Levelsets.RandomPassword | src/Levelset.cpp:423-430 | The password is four capital letters. |
| Levelsets.Synthesise | src/Levelset.cpp:432-443 | A fresh, empty level named "Level k" with a password in that format. |
| Levelsets.Levelset.constructor | src/Levelset.cpp:395-407 | A set of `levelCount` fresh levels with the MS magic. Level `i` is named "Level i+1" and has a four-letter password. |
| Levelsets.Levelset.Copy | src/Levelset.cpp:409-415 | Same magic, the same number of levels, each a fresh copy with the same value, in the same order. |
| Levelsets.Levelset.AddLevel | src/Levelset.cpp:432-443 | Appends one fresh level named for its position, counting from 1. Every other level is unchanged. |
| Levelsets.Levelset.AddExistingLevel | src/Levelset.cpp:445-448 | Appends the given level. Every other level is unchanged. |
| Levelsets.Levelset.InsertLevel | src/Levelset.cpp:450-453 | The list and its values become `Inserted` at `where`. |
| Levelsets.Levelset.TakeLevel | src/Levelset.cpp:455-460 | Returns the level at `num`. The list and its values become `Removed` at `num`. |
| Levelsets.ValuesInserted | src/Levelset.cpp:450-453 | Inserting a level object inserts its value at the same place in the list of values. |
| Levelsets.ValuesRemoved | src/Levelset.cpp:455-460 | Removing a level object removes its value from the list of values. |
| Levelsets.Levelset.Read | src/Levelset.cpp:462-479 | The set becomes what `DecodeSet` reads: its magic and its levels, each read into a fresh level. A failure reports exactly the decoder's error, an unknown magic included. |
| Levelsets.ReadLevels | src/Levelset.cpp:473-478 | Reads `count` stored records into fresh levels, in order. The first failure aborts the read. |
| Levelsets.Levelset.Write | src/Levelset.cpp:481-493 | The stream receives exactly `EncodeSet`: magic, count and every level renumbered from 1 in list order. Afterwards the levels hold those numbers. |
| Levelsets.WriteLevels | src/Levelset.cpp:485-492 | The write loop gives each level its position as number and writes the stored records back to back. |
| Levelsets.Renumber | src/Levelset.cpp:490 | Changes only the chosen level's number. Every other level keeps its value. |

## Left out

- **Stream.** The stream implementation and its `read_rle`, `write_rle`, `read_string` and `write_string` are not part of this model.
   - `Streams` specifies a stand-in:
     - a run-length code where 0xFF, count, tile is a run and any other byte is one tile;
     - NUL-terminated strings, read as exactly `size` bytes up to the first NUL, with password bytes XORed with 0x99;
     - end of stream as an error value.
   - The exact byte layout of the tile layers and strings is therefore that stand-in's layout, not necessarily the real stream's.
- **Header constants.** The magic numbers and field tags live in a header that is not part of this model. They are taken from the Chip's Challenge DAT format:
   - magic numbers 0x0002AAAC (MS), 0x0102AAAC (Lynx), 0x0003AAAC (PG) and 0x0103AAAC (Lynx-PG);
   - field tags 3 (name), 4 (traps), 5 (clones), 6 (password), 7 (hint) and 10 (move list).
- **Setters.** The setters used (`setName`, `setPassword`, `setLevelNum`) come from a header that is not part of this model. They are modelled as plain field assignments.
- **Exceptions.** A thrown exception is modelled as a `Failure` result carrying one error value per message.
   - What a failed read leaves behind is not specified: fields already assigned, a half-filled level list.
   - Only the successful state and the exact error are.
- **Levelsets.Levelset.Read** returns the number of levels read where the source returns nothing, so that its success can be stated.
- **Levelsets.Levelset.AddExistingLevel** and **Levelsets.Levelset.InsertLevel** require a level that is not already in the set. The source accepts the same level twice, and write would then renumber that one level twice; the model does not let a level appear twice in one set.
- **LevelFormat.ShortRecordFails** proves only that the short record fails, not which error it reports. It is stated for stored mode. For clipboard mode, `LevelFormat.ClipEndsAsDeclared` shows that a record that reads ends where its field-section word says, but the written clipboard record with a byte removed is not proved to fail.
- **Levelsets.RandomPassword:** `rand()` is modelled as a free choice of each letter in A-Z. The generator and its seeding are not modelled.
- **Memory management.** Reference counting (`ref`, `unref`, the destructor), the `m_dirty` flag, and the release of old levels in `Levelset::read` are not modelled.
- **Tiles.LevelMap.CopyFrom** requires a non-negative destination corner and a source rectangle inside the grid.
   - The source only clamps the far edge. Other calls either wrap into a neighbouring row (destX = -1, for instance, writes the last cell of the previous row) or read and write outside the arrays; the model excludes both.
   - Copying a grid onto itself (overlapping rectangles) is not modelled: the two grids must be distinct.
- **LevelFormat.LevelRoundTrip** is stated for reading into a fresh level, as `Levelset::read` does. `Level.LevelData.Read` into a level that already holds tables appends to them: its contract covers that case, but no round-trip lemma is stated for it.
- **LevelFormat.LevelRoundTrip** and **SetFormat.SetRoundTrip** assume the format's limits, stated as `Fits`. Beyond them the source writes truncated size bytes or coordinates and the record does not read back:
   - at most 25 traps, 31 cloners and 127 forced moves;
   - strings of at most 254 characters, each character fitting a byte and not stored as NUL;
   - trap and cloner coordinates in 16 bits, move coordinates in 8 bits;
   - fewer than 65536 levels in a set.
- **Tiles.LevelMap.FindNext** requires a start cell on the grid. Off the grid the source misbehaves: with x = 32 or more and no match the scan never comes back to the start and loops forever, and with y = -1 it reads outside the arrays before wrapping.
- **Tiles.LevelMap.FindNext** follows the code when the start cell is the only cell holding the tile: it returns the start cell itself, visited last, not (-1, -1).
- **SetFormat.Classify** reads the first four bytes as a little-endian number, which is what a little-endian host's `fread` into a `uint32_t` gives.
   - Opening, reading and closing the file is represented only by whether it opened and what bytes it holds.
- **Proof-only parameters.** Some lemmas and methods take the encoders and decoders as ghost parameters (`enc`, `mb`, `fb`, `dec`). They are always the model's own functions and add no behaviour.
