# SIM core: verified model

A Dafny model of the hand-written configuration and text layer of the SIM instant messenger, and of
the small state machines around it, with proofs about them. `dafny verify dfyconfig.toml` checks all of it.

| component | files | what is modelled |
|---|---|---|
| byte buffer | `BufferModel`, `Buffer`, `BufferQueue`, `BufferScan`, `SectionFile` | the growable array with its cursors: queue, big-endian integers, delimiter scanner, section reader |
| escaping | `QuotedChars`, `Records`, `QuotedBytes` | backslash quoting, tokens, the in-place decoder |
| properties | `Dom`, `Variants`, `PropertyHub`, `Persistence`, `Rounds`, `Documents`, `Base64`, `Decimal`, `Keys` | typed values saved to and loaded from a document tree, and what is lost |
| configuration | `ConfigModel`, `Config`, `ConfigTheorems`, `OldConfigFile` | the hub table, its document, merging files of the old format |
| Hangul | `Hangul` | the Johab code and the decomposition of syllables |
| clients | `ClientLoader`, `ClientFile`, `ClientRegistry` | the old client file, the client table with its name list |
| plugins | `Plugins`, `PluginManager` | plugin records, modules and weak references |
| events | `Dispatch` | the priority list of receivers and resumable dispatch |
| profile | `Profile`, `Lists` | enabled and held plugins |

What changes state in the program is a class or a method with a loop, proved against a function of the
old state; the theorems are lemmas about these functions. Bytes are the integers 0 to 255, texts are
sequences of characters, and a `QMap` is a `map` that is listed in key order.

Where the program departs from what one would expect, the model follows the program:

- `unpack` is bounded by the size of the array, not by the write position (`BufferQueue.RunStaysWithinPacked`).
- A piece found by `scan` carries the first byte of the delimiter, unless the piece is empty.
- `getLine` skips one blank line after every line, and `getSection` steps back one byte when a header
  ends the file (`SectionFile.SectionsAreReadBack`).
- `load_old` lets the write position wrap around for a client without lines (`ClientLoader.HandedIsOneShort`).
- Saving and loading is not idempotent: each round may empty one more level of nested maps
  (`Rounds.NoFewerRoundsSettle`). When one round is enough, and when not even that changes anything, is
  stated exactly (`Rounds.OneRoundIsEnough`, `Rounds.NothingIsLost`).
- `plugin(name)` makes a second object after a release by name, although the first may still be held
  (`Plugins.ReleaseForgetsTheLiving`); `Plugins.SameObjectWhileHeld` says exactly when it gives the same one.
- Two-level records come back for one of the four ways of undoing escapes only; what survives the other
  three is stated field by field (`Records.RecordsSurvive`).
- Files without a base name all get plugin records of the same empty name (`Plugins.NamelessFilesRepeat`,
  `Plugins.NamesDifferUnlessEmpty`).
- Adding a client under a known name, or asking for an unknown one, puts the client table and its
  name list at odds (`ClientRegistry`).
- The comment above the Hangul decomposition speaks of a count and an error code; the function returns
  a text, empty when there is no decomposition.

Preconditions state what the program relies on: `unpack` and `>>` are not called with the read position
one past the end, where the program would read outside the array (`BufferModel.GetLineOverruns` says when
that state arises); array sizes stay below 2^31.

## Model

| member | source | states |
|---|---|---|
| SectionFile.SectionFileRoundTrip | sim/buffer.cpp:252-330 | a file of named sections of lines, printed and then read with `getSection(false)` and `getLine`, comes back if and only if names are non-empty and free of `]`+newline, lines hold no newline and do not start with `[`, only a first line may be blank, and the last section has a line |
| SectionFile.SectionsAreReadBack | sim/buffer.cpp:252-330 | for every clean file the exact result of reading: blank lines that follow a line are skipped, a final section without lines gains a blank one, nothing else changes |
| SectionFile.SectionsReadAreClean | sim/buffer.cpp:252-330 | whatever the bytes are, every name and line that is read is clean |
| SectionFile.LinesReadAreClean | sim/buffer.cpp:315-330 | no line read inside a section holds a newline or starts with an opening bracket |
| SectionFile.LinesAreReadBack | sim/buffer.cpp:315-330 | reading printed lines up to the write position gives them back except for the skipped blank ones, and stops exactly there |
| SectionFile.SectionIsEntered | sim/buffer.cpp:284-313 | the next printed section at or after the cursor, or with `skip` strictly after it, is found: its name, the cursor behind the header (one byte back when the header ends the file), the write position at the section after it |
| BufferModel.SectionsAreFoundByHeader | sim/buffer.cpp:284-313 | with or without `skip` the first bracketed header that starts a line and ends one is found; when none is left the result is empty and nothing changes |
| BufferModel.EnteredBehindHeader | sim/buffer.cpp:298-310 | behind any header the read position is past one newline but never past the last byte, the write position is at the next section start or the end |
| SectionFile.SectionAdvances | sim/buffer.cpp:284-313 | a section that is found is the leftmost start at or after the cursor (strictly after it when skipping) and the cursor moves past it, so reading loops end |
| SectionFile.NormalIsIdentity | sim/buffer.cpp:301-330 | reading loses nothing exactly when no later line is blank and the last section has a line |
| BufferQueue.RunIsFifo | sim/buffer.cpp:121-146 | over any interleaving of `pack` and `unpack` that keeps the read position behind the write position, with spare room in the array or not, bytes handed out followed by bytes pending are the bytes pending before followed by the bytes packed |
| BufferQueue.RunStaysWithinPacked | sim/buffer.cpp:121-146 | a run keeps the read position behind the write position exactly when, counting bytes alone, each `unpack` asks for no more than is pending or finds no spare room left |
| BufferQueue.FullArrayIsFifo | sim/buffer.cpp:121-146 | without spare room every interleaving is first in, first out, and the array stays full |
| BufferQueue.FifoFromEmpty | sim/buffer.cpp:69-76 | from an empty buffer the cursors stay ordered with the write position at the end, and nothing is lost, duplicated or reordered |
| BufferQueue.UnpackStaysWithinPacked | sim/buffer.cpp:138-146 | `unpack` stays within what was packed exactly when it asks for no more than that or the array has no spare room |
| BufferQueue.WireDenotes | sim/buffer.cpp:148-217 | the bytes of a value in network byte order denote it, for a `long` modulo 2^32 |
| BufferQueue.WireIsBigEndian | sim/buffer.cpp:148-217 | the bytes written denote the number in base 256, the most significant first, and the number read is the one that the bytes denote |
| BufferQueue.ShortReadIsZero | sim/buffer.cpp:178-217 | with too few bytes left the value is zero, and all of them are consumed |
| BufferQueue.PackAppends | sim/buffer.cpp:121-136 | packing overwrites the array from the write position on, and no more than that |
| BufferQueue.PutAllAppends | sim/buffer.cpp:121-176 | writing values appends their wire image after what was written before |
| BufferQueue.GetAllReads | sim/buffer.cpp:178-217 | reading the same widths off a wire image gives the stored values and consumes exactly the image |
| BufferQueue.MarshallingRoundTrip | sim/buffer.cpp:148-217 | any list of 1-, 2- and 4-byte values written to an empty queue and read back is the same list exactly when every 4-byte value fits 32 bits, and the queue is empty again |
| BufferScan.ScanIsTheOnlySplit | sim/buffer.cpp:221-245 | repeated `scan` splits the unread bytes in the one way in which each field ends at its first delimiter and the tail holds none |
| BufferScan.FieldsCover | sim/buffer.cpp:221-245 | fields, delimiters and tail together are all the unread bytes |
| BufferScan.FieldsAreSeparable | sim/buffer.cpp:221-245 | no field contains or straddles an earlier delimiter, and none is left in the tail |
| BufferScan.ScanRecovers | sim/buffer.cpp:221-245 | fields joined with the delimiter are recovered one by one |
| BufferScan.PiecesAreFields | sim/buffer.cpp:333-341 | each piece handed out is its field plus the first delimiter byte, or nothing for an empty field |
| BufferScan.ScanAllSteps | sim/buffer.cpp:221-245 | the pieces are what calling `scan` until it fails hands out; a failing scan changes nothing |
| BufferModel.EmptyDelimiterFindsNul | sim/buffer.cpp:221-245 | an empty delimiter finds the first NUL byte and leaves it unread |
| BufferScan.FirstHitCutsField | sim/buffer.cpp:224-234 | the leftmost hit is behind a field exactly when the field is separable |
| BufferModel.FirstHit | sim/buffer.cpp:224-234 | the leftmost position with a complete occurrence below the write position, or none |
| BufferModel.CursorsStayOrdered | sim/buffer.cpp:95-119 | each cursor goes where it is put as far as the bounds allow, and what is in the array stays, cut or lengthened to the size |
| BufferModel.GetLineIsLine | sim/buffer.cpp:315-330 | a line runs to the first newline or the end of the array, even beyond the write position; the cursor goes behind one or two newlines |
| BufferModel.GetLineOverruns | sim/buffer.cpp:315-330 | `getLine` leaves the read position one past the array exactly after an unterminated line |
| BufferModel.OperationsKeepValid | sim/buffer.cpp:121-330 | no operation takes the cursors out of bounds |
| Buffers.Buffer.constructor | sim/buffer.cpp:44-48 | a zero-filled array with all cursors at 0 |
| Buffers.Buffer.FromBytes | sim/buffer.cpp:50-55 | the write position at the end of the given bytes |
| Buffers.Buffer.Clear | sim/buffer.cpp:78-82 | everything empty |
| Buffers.Buffer.Resize | sim/buffer.cpp:95-104 | the whole new state, the wrap of huge sizes included |
| Buffers.Buffer.IncReadPos | sim/buffer.cpp:84-88 | the read position is clamped to the write position |
| Buffers.Buffer.SetReadPos | sim/buffer.cpp:114-119 | the read position is clamped to the write position |
| Buffers.Buffer.SetWritePos | sim/buffer.cpp:106-112 | the write position is set and the array grown to it |
| Buffers.Buffer.Pack | sim/buffer.cpp:121-136 | overwrites at the write position and grows the array if needed |
| Buffers.Buffer.Unpack | sim/buffer.cpp:138-146 | hands out at most the rest of the array |
| Buffers.Buffer.Put | sim/buffer.cpp:148-176 | packs the wire image of the value |
| Buffers.Buffer.Get | sim/buffer.cpp:178-217 | zero after a short read, the bytes being consumed all the same |
| Buffers.Buffer.Scan | sim/buffer.cpp:221-245 | the scanning loops find the leftmost hit; the result is untouched when there is none |
| Buffers.MatchLength | sim/buffer.cpp:227-234 | the inner loop runs to the end of the delimiter exactly at an occurrence |
| Buffers.FindStartSection | sim/buffer.cpp:252-266 | the loop over `indexOf` finds the leftmost section start |
| Buffers.FindEndSection | sim/buffer.cpp:268-282 | the loop over `indexOf` finds the leftmost section end |
| Buffers.Buffer.GetSection | sim/buffer.cpp:284-313 | name and new cursors, or no change |
| Buffers.Buffer.EnterSection | sim/buffer.cpp:298-310 | the cursors after a header, with the clamp at the end of the array |
| Buffers.Buffer.GetLine | sim/buffer.cpp:315-330 | the line up to the newline or the end, one further newline being skipped |
| Buffers.Buffer.Append | sim/standardclientmanager.cpp:174-174 | the inherited append, which moves no cursor |
| QuotedChars.UnquotedInvertsQuoted | sim/cfg.cpp:285-335 | unquoting undoes quoting for every text and every set of characters, with the backslash quoted or not |
| QuotedChars.QuotableIsEscaped | sim/cfg.cpp:285-302 | no quotable character stands in a quoted text without a backslash before it |
| QuotedChars.QuotedStartsUnquotable | sim/cfg.cpp:285-302 | a quoted text starts with a quotable character only if that is an escape, so a literal backslash before it is not misread |
| QuotedChars.QuoteSetMembers | sim/cfg.cpp:285-292 | the backslash is quoted exactly when that is asked for, or it is among the characters |
| QuotedChars.QuoteChars | sim/cfg.cpp:285-302 | the loop computes the quoted text |
| QuotedChars.UnquoteChars | sim/cfg.cpp:304-335 | the loop with its skipping index computes the unquoted text |
| Records.GetToken | sim/cfg.cpp:336-358 | the token and the remainder, escapes kept or undone, a backslash at the very end dropped |
| Records.TokenOfClosed | sim/cfg.cpp:336-358 | the token of a closed item is all of it, whatever follows the separator |
| Records.TokenUnchanged | sim/cfg.cpp:336-358 | the token is the text in front of the separator exactly when that text has no separator and no backslash, or, with escapes kept, is closed |
| Records.OpenEscapeIsDropped | sim/cfg.cpp:344-352 | a backslash at the very end is dropped, and nothing is left |
| Records.QuotedIsClosed | sim/cfg.cpp:285-302 | a quoted field is closed for every quoted separator and unescapes to the field |
| Records.SplitInvertsJoin | sim/cfg.cpp:336-358 | joined closed items come back, one call each, empty ones included |
| Records.SplitAllOfJoin | sim/cfg.cpp:336-358 | a loop that runs while text is left loses exactly an empty last item |
| Records.RecordsRoundTrip | sim/cfg.cpp:285-358 | all records of fields with any characters come back exactly when the outer split keeps escapes and the inner undoes them |
| Records.RecordsSurvive | sim/cfg.cpp:285-358 | for each pair of escape flags, records come back exactly when each field does: always; without quoted characters; without a slash and a backslash; or when no slash in it is unescaped and no escape left open |
| Records.FieldLoopRoundTrip | sim/cfg.cpp:285-358 | the "while text is left" loop returns the fields exactly when there are none or the last is not empty |
| QuotedBytes.UnquoteOfQuoted | sim/cfg.cpp:385-458 | unquoting a quoted string followed by any text without a quote succeeds, yields the string without carriage returns and NULs, and leaves that text |
| QuotedBytes.UnquoteInvertsQuoted | sim/cfg.cpp:385-458 | the text behind is left over exactly when it holds no quote, and the string itself comes back exactly when it also has neither of the lost bytes |
| QuotedBytes.UnquoteNeedsQuote | sim/cfg.cpp:421-427 | without a quote it fails and changes nothing |
| QuotedBytes.UnquoteAfterOne | sim/cfg.cpp:421-431 | behind a single quote everything is decoded, and is left over as well |
| QuotedBytes.UnquoteTakesBetween | sim/cfg.cpp:421-458 | what lies between the first and the last quote is decoded, what is behind the last is left over |
| QuotedBytes.DecodedInvertsEncoded | sim/cfg.cpp:385-458 | decoding undoes encoding up to the stripped bytes |
| QuotedBytes.EncodedIsPrintable | sim/cfg.cpp:385-419 | the encoded text has no quote and no control character |
| QuotedBytes.PrintableStays | sim/cfg.cpp:385-419 | a text is written as it is exactly when it is printable and has no quote and no backslash |
| QuotedBytes.EscapesAsWritten | sim/cfg.cpp:390-417 | how a backslash, a newline, a quote and a tab are written |
| QuotedBytes.OtherEscapeStays | sim/cfg.cpp:432-457 | a backslash in front of another letter stays |
| QuotedBytes.BrokenEscapeFails | sim/cfg.cpp:442-454 | too few hexadecimal digits end the decoding with a failure |
| QuotedBytes.DigitValues | sim/cfg.cpp:268-277 | hexadecimal digits of either case have their values, everything else is zero |
| QuotedBytes.HexRoundTrip | sim/cfg.cpp:268-282 | two hexadecimal digits carry a byte and are never NUL |
| QuotedBytes.StrippedIsExact | sim/cfg.cpp:391-416 | nothing is stripped exactly when there is no carriage return and no NUL |
| QuotedBytes.QuoteInternal | sim/cfg.cpp:385-419 | the loop computes the quoted string |
| QuotedBytes.UnquoteInternal | sim/cfg.cpp:421-458 | success flag, remainder and decoded text, for a missing or single quote too |
| QuotedBytes.DecodeInPlace | sim/cfg.cpp:432-457 | rewriting the string in place equals decoding it from left to right, and ends |
| QuotedBytes.OverwriteEscape | sim/cfg.cpp:435-454 | one escape is replaced by its byte and the tail moves up; a broken one changes nothing |
| Persistence.SaveThenLoad | sim/propertyhub.cpp:45-77 | loading the saved form of a map over any other gives that other overridden by the pruned map |
| Persistence.SavedIsLoaded | sim/propertyhub.cpp:79-221 | every value is loaded as its pruned form, or not saved and pruned away |
| Persistence.EntriesAreLoaded | sim/propertyhub.cpp:45-77 | the same for any part of the keys in any order, into any map |
| Persistence.ScalarRoundTrip | sim/propertyhub.cpp:85-102 | the text of a boolean, number or string converts back to it, and is empty only for the empty string |
| Persistence.StringsRoundTrip | sim/propertyhub.cpp:133-160 | string lists come back, empty strings included |
| Persistence.NumbersFit | sim/propertyhub.cpp:92-100 | a numeral is loaded exactly when its number fits the type |
| Persistence.TextsAsBooleans | sim/propertyhub.cpp:92-100 | every text but the empty one, `0` and `false` is true |
| Persistence.NoValue | sim/propertyhub.cpp:79-131 | which elements have no value: those of no known type, empty byte arrays, and numbers that are none or do not fit |
| Persistence.LastElementDecides | sim/propertyhub.cpp:62-77 | in any document the last element with a name and a value decides, others are passed over |
| Documents.MapAsWritten | sim/propertyhub.cpp:45-60 | a map is saved as one `node` element for each entry that is not lost, with its key, its type and the saved form of its value, in ascending order of the keys |
| Documents.ScalarAsWritten | sim/propertyhub.cpp:182-200 | booleans are saved as words, numbers as decimal numerals without leading zeros, strings as they are |
| Documents.StringsAsWritten | sim/propertyhub.cpp:133-147 | one element without attributes for each string |
| Keys.SortedAscends | sim/propertyhub.cpp:50-51 | keys are visited in ascending order: the first differing character decides, a proper prefix comes first |
| Dom.ByTagFindsAll | sim/propertyhub.cpp:149-160 | the search for a tag finds the elements with the tag at every depth, and nothing else |
| Dom.TextOfParts | sim/propertyhub.cpp:79-131 | the text of an element is all the text below it in document order |
| Base64.RoundTrip | sim/propertyhub.cpp:162-180 | Base 64 (section 4 of RFC 4648) decodes to what was encoded, and is empty only for no bytes |
| Base64.CharsOfAlphabet | sim/propertyhub.cpp:162-180 | the alphabet of table 1 of RFC 4648 |
| Base64.GroupDenotes | sim/propertyhub.cpp:162-180 | three bytes and their four digits are the same number |
| Base64.EncodedLength | sim/propertyhub.cpp:162-170 | four characters for every three bytes or part of three |
| Base64.TestVectors | sim/propertyhub.cpp:162-170 | three test vectors of section 10 of RFC 4648, with each length of padding |
| Base64.OthersAreSkipped | sim/propertyhub.cpp:172-180 | characters outside the alphabet are skipped wherever they stand |
| Rounds.DepthManyRoundsSettle | sim/propertyhub.cpp:45-77 | a map of depth d is unchanged by every save and load after the first d |
| Rounds.NoFewerRoundsSettle | sim/propertyhub.cpp:45-77 | for every depth d some map still changes in round d |
| Rounds.NothingIsLost | sim/propertyhub.cpp:45-77 | one save and load changes nothing exactly when no entry at any depth is unnamed, empty or of a type that is not saved |
| Rounds.OneRoundIsEnough | sim/propertyhub.cpp:45-77 | a second save and load changes nothing exactly when every named non-empty map below has a named entry that is saved, all the way down |
| Rounds.LostIsUnsaved | sim/propertyhub.cpp:182-221 | the values that are lost are exactly those that are not saved |
| Rounds.SettlesAfterEntries | sim/propertyhub.cpp:117-123 | a map settles at the latest one round after the maps in it |
| PropertyHubs.PropertyHub.Serialize | sim/propertyhub.cpp:35-38 | the saved entries; an empty hub is not saved |
| PropertyHubs.PropertyHub.Deserialize | sim/propertyhub.cpp:40-43 | the entries are loaded over what the hub holds |
| PropertyHubs.PropertyHub.SetValue | sim/propertyhub.cpp:263-274 | reading the key afterwards gives the value, and every other key reads as before |
| PropertyHubs.SerializeVariantMap | sim/propertyhub.cpp:45-60 | fails exactly for the empty map |
| PropertyHubs.SerializeEntries | sim/propertyhub.cpp:50-58 | the loop over the keys appends exactly the entries that can be saved |
| PropertyHubs.SerializeVariant | sim/propertyhub.cpp:182-221 | saves exactly the values that have a saved form |
| PropertyHubs.SerializeStringList | sim/propertyhub.cpp:133-147 | one element per string, failing for the empty list |
| PropertyHubs.SerializeByteArray | sim/propertyhub.cpp:162-170 | one Base 64 text, failing for no bytes |
| PropertyHubs.DeserializeVariantMap | sim/propertyhub.cpp:62-77 | the loop loads named elements over the map |
| PropertyHubs.DeserializeVariant | sim/propertyhub.cpp:79-131 | the value, or failure |
| PropertyHubs.DeserializeStringList | sim/propertyhub.cpp:149-160 | the texts of all string elements below |
| ConfigTheorems.StoreRoundTrip | sim/cfg.cpp:95-142 | loading a saved configuration over any other: root entries override, non-empty named hubs replace, root and named hubs never mix |
| ConfigTheorems.SettingsRoundTrip | sim/cfg.cpp:95-142 | in a fresh configuration every setting is the pruned original |
| ConfigTheorems.ElementsAreFound | sim/cfg.cpp:122-127 | the search for hub elements at any depth finds exactly the elements written |
| ConfigTheorems.LoadingNeedsConfig | sim/cfg.cpp:116-127 | a document is loaded exactly when it has a configuration element at some depth; otherwise nothing changes |
| ConfigTheorems.LastHubDecides | sim/cfg.cpp:127-139 | in any document the last element of a named hub replaces what came before, those of the root hub are loaded in turn |
| Documents.StoreAsWritten | sim/cfg.cpp:95-114 | the root hub first and without a name, then the non-empty named hubs in ascending order, each with its entries |
| ConfigTheorems.MergeIsFirstWins | sim/cfg.cpp:144-182 | after merging a file a setting keeps its valid value, otherwise takes the first assignment in file order; the root hub is untouched |
| ConfigTheorems.FirstAssignmentWins | sim/cfg.cpp:163-177 | the same for any list of assignments |
| ConfigTheorems.MergeIsIdempotent | sim/cfg.cpp:144-182 | merging a file twice equals merging it once |
| OldConfigFile.PrintedFileIsRead | sim/cfg.cpp:150-178 | a file printed from any sections is read as exactly their settings in order, enclosing quotes stripped, if and only if each section with settings has a non-empty name without `]` and keys and values without `=`, `[` and newline, and the name of each empty section is silent |
| OldConfigFile.UnbrokenNameIsSilent | sim/cfg.cpp:151-155 | the name of an empty section is silent when none of its lines ends with `]` |
| OldConfigFile.PartIsCaptured | sim/cfg.cpp:151-157 | what the expression captures in a header does not depend on the text around it |
| OldConfigFile.AssignmentsAreSound | sim/cfg.cpp:150-178 | whatever the file holds, names that are read are non-empty and free of `]`, keys and values free of `=`, `[` and newline |
| OldConfigFile.SectionIsMatched | sim/cfg.cpp:151-157 | the expression matches a clean section with settings where it starts and captures its name and all its lines |
| OldConfigFile.SettingsAreRead | sim/cfg.cpp:157-176 | splitting lines and then at the equals sign yields the printed keys and values |
| OldConfigFile.EnclosingQuotesGo | sim/cfg.cpp:171-176 | a value between quotes loses these two, a lone quote becomes empty, any other value stays |
| OldConfigFile.LineAssigns | sim/cfg.cpp:158-162 | a line assigns something exactly when it has one equals sign |
| Configs.Config.constructor | sim/cfg.cpp:60-63 | a fresh configuration |
| Configs.Config.AddPropertyHub | sim/cfg.cpp:69-75 | files a hub under its namespace and refuses the empty one; every hub stays under its own namespace |
| Configs.Config.FindPropertyHub | sim/cfg.cpp:77-83 | the hub of a namespace, or none |
| Configs.Config.Serialize | sim/cfg.cpp:95-114 | the document of all non-empty hubs |
| Configs.Config.SerializeHubs | sim/cfg.cpp:106-112 | the loop over the named hubs |
| Configs.Config.Deserialize | sim/cfg.cpp:116-142 | loads every hub element; fails without a configuration element; hubs are old or new, never swapped |
| Configs.Config.LoadOneHub | sim/cfg.cpp:128-139 | the root in place, a named hub as a new object |
| Configs.IndexIn | sim/cfg.cpp:153-153 | the leftmost match |
| Configs.Config.MergeOldConfig | sim/cfg.cpp:144-182 | merges all assignments of the file; fails and changes nothing when it cannot be opened |
| Configs.Config.MergeText | sim/cfg.cpp:150-179 | the loop over the matches |
| Configs.Config.FileHub | sim/cfg.cpp:69-75 | filing a hub replaces the settings of its namespace and no others |
| Configs.Config.MergeLines | sim/cfg.cpp:158-178 | lines without exactly one equals sign are ignored |
| Configs.Config.MergeSetting | sim/cfg.cpp:163-177 | creates a missing hub, sets only a missing or invalid value |
| Hangul.DecompositionIsInjective | sim/johab_hangul.h:174-197 | two strings of syllables decompose to the same letters if and only if they are equal |
| Hangul.SameFirstSyllable | sim/johab_hangul.h:174-197 | the next vowel tells whether a third consonant belongs to the syllable |
| Hangul.SyllableIsDetermined | sim/johab_hangul.h:141-197 | the letters of a syllable determine it |
| Hangul.SyllableShape | sim/johab_hangul.h:174-197 | two or three letters: one of the 19 leads, a vowel, and one of the 27 tails unless the third digit is zero |
| Hangul.ComposedDecomposes | sim/johab_hangul.h:44-197 | the syllable that section 3.12 of the Unicode Standard composes of a lead, a vowel and perhaps a tail is decomposed into just these letters |
| Hangul.LettersOfSyllables | sim/johab_hangul.h:57-73 | the first letters of syllables are the 19 leads and the third ones the 27 tails, and no others |
| Hangul.LetterStays | sim/johab_hangul.h:99-109 | each of the letters 0x3131 to 0x3163 is its own decomposition |
| Hangul.OthersHaveNone | sim/johab_hangul.h:141-197 | letters and syllables are decomposed, and nothing else is |
| Hangul.JohabDenotes | sim/johab_hangul.h:44-47 | the stated formula (section 3.12 of the Unicode Standard): the indices read off the Johab code give the code point |
| Hangul.TablesInvert | sim/johab_hangul.h:115-137 | each inverse table inverts its index table exactly |
| Hangul.Groups | sim/johab_hangul.h:158-161 | the three packed 5-bit groups are read back and the top bit is set |
| ClientLoader.LoadOld | sim/standardclientmanager.cpp:121-187 | adds exactly one client per accepted section in order, each with the lines of its own section, and enables the plugin of every section whose plugin loads; succeeds exactly when the file opens and there are clients, loaded now or held before |
| ClientLoader.LoadLines | sim/standardclientmanager.cpp:129-186 | the one-pass loop over the lines gives these clients and plugins |
| ClientLoader.LoadIsSectionwise | sim/standardclientmanager.cpp:133-185 | the one-pass reading equals the section by section reading |
| ClientFile.PrintedFileIsLoaded | sim/standardclientmanager.cpp:131-187 | a file printed from plugins, protocols and lines loads, in order, a client of the last protocol registered under the name for each section whose plugin is a loadable protocol plugin, with the lines of that section, and enables these plugins |
| ClientFile.HeaderNamesAreRead | sim/standardclientmanager.cpp:146-147 | a printed header gives back both names exactly when the plugin has no slash and no backslash, whatever white space is around it and whatever closes it |
| ClientFile.HeaderWithoutSlash | sim/standardclientmanager.cpp:146-149 | a header without a slash names no protocol |
| ClientFile.HeadersOpenSections | sim/standardclientmanager.cpp:135-137 | a line is a header exactly when an opening bracket comes first, behind white space |
| ClientLoader.OnePassIsSectionwise | sim/standardclientmanager.cpp:133-185 | the same from any intermediate state: lines gathered for nobody never reach a client |
| ClientLoader.SectionsCoverTheFile | sim/standardclientmanager.cpp:133-177 | every line is in front of the first header or in exactly one section, whose body has no header |
| ClientLoader.HandedIsOneShort | sim/standardclientmanager.cpp:178-183 | a client sees the raw lines with the write position one short of the end exactly when there is a line; otherwise the position wraps to 2^32-1 |
| ClientLoader.ReadLine | sim/standardclientmanager.cpp:134-176 | one line advances the state as specified |
| ClientLoader.Finish | sim/standardclientmanager.cpp:138-144 | a pending client is added with its buffer, which is then empty |
| ClientLoader.ReadHeader | sim/standardclientmanager.cpp:145-171 | the client a header is accepted for, and when the gathered lines are thrown away |
| ClientLoader.LastProtocol | sim/standardclientmanager.cpp:163-170 | the last protocol registered under the name |
| ClientRegistry.AddingKeepsConsistency | sim/standardclientmanager.cpp:19-24 | table and name list agree after adding exactly when the name was new |
| ClientRegistry.AskingKeepsConsistency | sim/standardclientmanager.cpp:256-259 | asking keeps them in agreement exactly when the name is known |
| ClientRegistry.DeletingKeepsConsistency | sim/standardclientmanager.cpp:261-268 | deleting always keeps them in agreement |
| ClientRegistry.DeletingUndoesAdding | sim/standardclientmanager.cpp:19-24 | deleting undoes adding exactly when the name was new |
| ClientRegistry.ClientsAreFound | sim/standardclientmanager.cpp:256-268 | a client is found under its name from adding to deleting, and no other name is affected |
| ClientRegistry.Clients.AddClient | sim/standardclientmanager.cpp:19-24 | the entry is replaced, the name appended |
| ClientRegistry.Clients.GetClientByProfileName | sim/standardclientmanager.cpp:256-259 | an unknown name gets an empty entry |
| ClientRegistry.Clients.DeleteClient | sim/standardclientmanager.cpp:261-268 | the client, its entry and one occurrence of its name go |
| Plugins.EveryRunIsSafe | sim/plugins.cpp:269-617 | over all runs: non-empty names unique, information implies a module, a live plugin implies both, no two records share a plugin |
| Plugins.StepIsSafe | sim/plugins.cpp:269-617 | every single operation keeps this |
| Plugins.SameObjectWhileHeld | sim/plugins.cpp:223-229 | after any run `plugin(name)` returns the same object if and only if the run has no release of the name, no death of the object, and no final release that hits the record |
| Plugins.RunHolds | sim/plugins.cpp:223-229 | over any run a held plugin is still held exactly when no operation of the run gives it up |
| Plugins.GoneForGood | sim/plugins.cpp:571-594 | a plugin that was given up never comes back, whatever is asked for |
| Plugins.StepHolds | sim/plugins.cpp:571-617 | a held plugin is given up exactly by releasing its name, by its last reference dying, and by the final release unless its record is the first |
| Plugins.ReleaseForgetsTheLiving | sim/plugins.cpp:603-617 | releasing a held plugin makes the next request create a second object |
| Plugins.CollectionKeepsTheLiving | sim/plugins.cpp:269-278 | after a collection modules are loaded exactly for live plugins |
| Plugins.FinalReleaseSparesFirst | sim/plugins.cpp:497-506 | the final release unloads everything exactly when the first record was unloaded already |
| Plugins.RecordsStandForFirstPaths | sim/plugins.cpp:391-421 | the record of a name stands for the first path with that name whose library is usable, and exists exactly when there is one |
| Plugins.RecordsDescribeTheirFiles | sim/plugins.cpp:391-421 | each record carries name and flags of its file, and only what cannot be disabled stays loaded |
| Plugins.RequestIsAnswered | sim/plugins.cpp:512-594 | in a safe state a request is answered exactly when the name has a record and its plugin is alive, or can be made and its information is loaded or can be had |
| Plugins.RequestLeaves | sim/plugins.cpp:512-594 | the plugin that answers and the whole state afterwards; a failure leaves neither module nor information |
| Plugins.WorkingNamesAreAnswered | sim/plugins.cpp:391-433 | once the table is filled, a name is answered exactly when a file with that base name loads, has information and is not built for KDE |
| Plugins.BaseNameOfPath | sim/plugins.cpp:395-395 | the name is the file name up to its first dot, in lower case |
| Plugins.LowerIsPointwise | sim/plugins.cpp:395-395 | lower case changes the letters A to Z one by one |
| Plugins.NamelessFilesRepeat | sim/plugins.cpp:394-401 | `a/.so` and `b/.so` get two records with the same empty name |
| Plugins.NamesDifferUnlessEmpty | sim/plugins.cpp:391-421 | all names differ exactly when at most one usable file has an empty base name |
| Plugins.Find | sim/plugins.cpp:485-495 | the first record with the name, none for the empty name |
| PluginManagers.PluginManager.GetInfo | sim/plugins.cpp:485-495 | the loop finds the first record with the name |
| PluginManagers.PluginManager.InitPluginList | sim/plugins.cpp:391-421 | the loop over the paths |
| PluginManagers.PluginManager.InitPlugin | sim/plugins.cpp:394-417 | one path: skipped if known or unusable, otherwise recorded |
| PluginManagers.PluginManager.Load | sim/plugins.cpp:512-552 | module and information are fetched when missing; any failure unloads |
| PluginManagers.PluginManager.Unload | sim/plugins.cpp:554-565 | module and information go |
| PluginManagers.PluginManager.Plugin | sim/plugins.cpp:223-229 | nothing for an unknown name |
| PluginManagers.PluginManager.Create | sim/plugins.cpp:571-594 | the live plugin, or a new one |
| PluginManagers.PluginManager.ReleaseAt | sim/plugins.cpp:603-617 | plugin, module and information go, other records stay |
| PluginManagers.PluginManager.Release | sim/plugins.cpp:596-601 | by name |
| PluginManagers.PluginManager.CollectGarbage | sim/plugins.cpp:269-278 | the loop releases loaded records without a live plugin |
| PluginManagers.PluginManager.ReleaseAll | sim/plugins.cpp:497-506 | the downward loop stops before the first record |
| Dispatch.RunKeepsOrder | sim/simapi.cpp:274-293 | over any run of creations and destructions the list holds exactly the living receivers, ascending by priority, newest first among equals |
| Dispatch.OrderIsUnique | sim/simapi.cpp:274-282 | there is only one such list |
| Dispatch.ProcessFindsFirstAnswer | sim/simapi.cpp:295-317 | dispatch gives an answer exactly when a receiver after the starting point gives it and nobody between them answers |
| Dispatch.NoAnswerMeansNobody | sim/simapi.cpp:295-317 | there is no answer exactly when nobody after the starting point has one |
| Dispatch.ResumptionCompletesDispatch | sim/simapi.cpp:295-317 | dispatching up to a receiver and then resuming after it is one full dispatch |
| Dispatch.StrangerGetsNoAnswer | sim/simapi.cpp:299-307 | resuming after a receiver that is not in the list gives no answer |
| Dispatch.InsertedIsOrdered | sim/simapi.cpp:274-282 | inserting keeps the order and adds exactly one receiver |
| Dispatch.ErasedIsOrdered | sim/simapi.cpp:284-293 | erasing keeps the order and takes out exactly one receiver |
| Dispatch.Receivers.InitList | sim/simapi.cpp:319-322 | the list exists and is empty |
| Dispatch.Receivers.Add | sim/simapi.cpp:274-282 | the loop inserts in front of the first receiver of at least the priority |
| Dispatch.Receivers.Remove | sim/simapi.cpp:284-293 | the loop erases the receiver |
| Dispatch.Receivers.ProcessEvent | sim/simapi.cpp:295-317 | the two loops return the first answer after the starting point, none when there is no list |
| Profiles.HeldAgreesWithEnabled | sim/profile.cpp:47-107 | over any run of enabling, disabling and loading the held plugins are the loadable enabled ones in order, repeated names included; a list without repetition stays so |
| Profiles.EnabledByLastOperation | sim/profile.cpp:47-76 | over any run from a list without repetition a name is enabled at the end exactly when the last operation on it enabled it, or there was none and it was enabled before |
| Profiles.HeldByLastOperation | sim/profile.cpp:47-107 | and it is held exactly when it is available as well |
| Profiles.EnablingAppends | sim/profile.cpp:47-62 | on any list a new name is appended, to the held plugins only if available; a known one changes nothing |
| Profiles.DisablingRemoves | sim/profile.cpp:64-76 | on any list the first occurrence of the name goes from both lists, and nothing else moves |
| Profiles.AgreesAfterLoad | sim/profile.cpp:99-107 | wherever a profile starts from, its first load makes the held plugins agree with the enabled ones for the rest of the run |
| Profiles.EnabledSurvivesRestart | sim/profile.cpp:39-45 | saving and loading the configuration keeps the enabled list, even when empty, unless the stored value is an empty text |
| Profiles.LoadableWithout | sim/profile.cpp:64-97 | removing a name from both lists keeps them in agreement |
| Profiles.Profile.EnablePlugin | sim/profile.cpp:47-62 | both lists afterwards; no other setting changes; nothing happens without a configuration |
| Profiles.Profile.DisablePlugin | sim/profile.cpp:64-76 | both lists afterwards; no other setting changes; nothing happens without a configuration |
| Profiles.Profile.AddPlugin | sim/profile.cpp:78-83 | held only if the manager provides it |
| Profiles.Profile.RemovePlugin | sim/profile.cpp:85-97 | the loop removes the first occurrence |
| Profiles.Profile.LoadPlugins | sim/profile.cpp:99-107 | the loop holds the loadable enabled plugins |

## Left out

- Parsing and printing XML text: the document is a tree of elements and texts, and a "type" attribute is the type it names.
- Files and directories: a file is its lines, its bytes or its text, or nothing when it cannot be opened.
- Char, Date, Time, DateTime and Double values: their conversions are library code; only booleans, integers and strings are scalars here.
- Persistence.ScalarRoundTrip: states nothing about Char, Date, Time, DateTime and Double, because their conversions are library code.
- PropertyHubs.SerializeVariant: has no case for Char, Date, Time, DateTime and Double, for the same reason.
- PropertyHubs.DeserializeVariant: has no conversion to Char, Date, Time, DateTime and Double, for the same reason.
- Conversions accept what is written, not every spelling the library accepts: no white space or plus sign in numbers, no upper case in booleans.
- Hangul letters in strings: strings of syllables decompose uniquely; with letters among them they do not, because a syllable and its letters decompose alike.
- `toTranslit` and the transliteration tables: the variant loop has no exit.
- The `QByteArray` overload of `getToken`: the same statements as the `QString` one.
- Surrogate code units: a `QString` is a sequence of characters, none of which is a surrogate.
- BufferModel.CursorsStayOrdered: bytes that `resize` adds are NULs here and uninitialised in Qt; no theorem depends on them.
- BufferQueue.MarshallingRoundTrip: does not model reading four bytes into a 64-bit `long`, whose upper half the program leaves as it was.
- `pack` with a null pointer, `packetStart`, `decReadPos` below zero, and `unpack` into a `QString`.
- ClientLoader.LoadOld: registered protocols and loadable plugins are fixed during the load, and a protocol always makes a client.
- `load_new`, `save` and `createClient` of the client manager: they pass documents and names to code that is not part of this model.
- Plugin titles and descriptions, sorting the records by name, `setInfo`, and the library loader itself, which is a parameter.
- Receivers that change the receiver list while an event is dispatched.
- `parseSection`, string map values and `clear` of a hub: thin wrappers over setting and reading values.
- Warnings and log output.
