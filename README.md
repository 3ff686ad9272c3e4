# rt4k_esp32 firmware core in Dafny

This project models the logic of the rt4k_esp32 firmware. The firmware is a
nanoFramework (C#) program for an ESP32 board that sits next to the SD card of
an RT4K video scaler. It shares that card with the scaler and serves it over
WebDAV and a small web interface. The model covers the parts of the firmware
that are logic rather than hardware or network I/O:

- `Profiles` (profile.dfy): the `.rt4` profile record. It has a 128-byte
  header and a payload. The nibble-table CRC (`rt_crc`) covers the payload and
  is stored little-endian at header offset 32. Bytes are patched in place.
- `StringExtension` (string_extension.dfy): the firmware's own character
  `Replace` and string `Replace`.
- `IniParser` (ini_parser.dfy): `key = value` lines parsed into a table.
- `FileManager` (file_manager.dfy): storage access, which covers
  - the web-path to card-path translation;
  - the bounded `FillBuffer` read loop and the upload loop;
  - the stack of deferred writes drained whenever the card is taken;
  - the stack-based recursive listing;
  - the byte-region check;
  - the conditional-GET decision.
- `SdManager` (sd_manager.dfy): the arbiter that hands the SD bus between the
  RT4K and the ESP32. It has a soft grab and a release debounced by a 1000 ms
  timer.
- `WebDav` (web_dav.dfy): method dispatch, the status decisions of each WebDAV
  method, the advisory lock table and the PROPFIND entry list.
- `WebServer` (web_server.dfy): `ParseUrlParams`, the form/query parser.
- `Program` (program.dfy): `Log` and its 150-entry debug-log queue.
- Helper modules:
  - `Wrappers` (wrappers.dfy) holds `Option`.
  - `Text` (text.dfy) states the .NET string routines the firmware calls:
    `Split`, `Trim`, `IndexOf`, `EndsWith`, `ToLower`, and the UTF-8 encoding
    applied by a `StreamWriter`.

Code that changes state step by step is modelled imperatively:

- `rt_crc` is a loop over an `array<bv8>`.
- `Profile`, `SdManager`, `FileManager`, `WebDav` and `Program` are classes
  whose methods update their fields.
- The loops of `Replace`, `Parse`, `ParseUrlParams`, `FillBuffer`, the upload,
  the drain and the listing are `while`/`for` loops with invariants.

Each method is proved against a specification function (`Checksum`, `Patched`,
`Saved`, `ReplacedFrom`, `Table`, `FormOf`, `Drained`, `Listed`, `Grab`,
`Release`, `Expire`, `FileResponse`, `PropFindReply`, `Retained`). Lemmas then
prove the firmware's promises about those functions.

The model works in the system's own terms:

- The card is a value. The WebDAV handlers see a `Card` (the files with their
  content and modification time, the directories, and the listings). The
  FileManager sees the `FileInfo` or `Node` tree a call reads.
- What the FileManager does to the card is recorded in order in its `io`
  journal.
- The handlers return the storage action they perform as an `Action`.
- The sense pin and the uptime clock are readings in a sequence of `Sample`s.
- Whether a mount succeeds is an input, and timer expiry is an explicit event
  (`ReleaseCallback`).
- These library routines are parameters:
  - `DateTime.TryParse` (`parseDate`);
  - `HttpUtility.UrlDecode` (`urlDecode`);
  - the `Uri` and decode pipeline of the MOVE destination (`destinationPath`);
  - `GetDirectoryName` (`parentDir`);
  - `Guid.NewGuid` (the `token` argument of LOCK).

Every web path is meant to map to a file under `D:\`. `PathToSd` builds the
card path with `Path.Combine`, which returns its second argument unchanged
when that argument is itself rooted, so a web path such as `/I:/x` leaves the
card. `PathToSdAsWritten` models the code as written. Because that behaviour
is a defect, the rest of the model uses the corrected `PathToSd`; see Findings.

## Model

| member | source | states |
|---|---|---|
| Profiles.TableFormula | rt4k_esp32/Profile.cs:14 | every entry of the literal 16-entry table is the 0x1021 polynomial multiple `(k<<12) ^ (k<<5) ^ k` of its index |
| Profiles.TableLookup | rt4k_esp32/Profile.cs:14-25 | a lookup in the literal table equals the update computed from the polynomial formula |
| Profiles.CrcOfFour | rt4k_esp32/Profile.cs:21-38 | one pass of the unrolled loop equals four one-byte steps, each two nibble updates with the high nibble first |
| Profiles.UpdateByte | rt4k_esp32/Profile.cs:23-25 | the two table lines for one byte perform exactly one byte step of the CRC register |
| Profiles.UpdateGroup | rt4k_esp32/Profile.cs:21-38 | one loop pass extends the CRC of bytes [128, i) to the CRC of bytes [128, i+4) |
| Profiles.RtCrc | rt4k_esp32/Profile.cs:12-41 | for a record of at most 128 bytes, or one whose payload after the header is whole 4-byte groups, the result is in [0, 0xFFFF] and is the 16-bit checksum of bytes [128, len); it is 0 when there is no payload |
| Profiles.TableIndexLow | rt4k_esp32/Profile.cs:24 | the table index reads only bits 12 to 15, so the sign-extending `>>` on the unmasked register does no harm |
| Profiles.NibbleStepLow | rt4k_esp32/Profile.cs:24-25 | the low 16 bits after a nibble update depend only on the low 16 bits before it |
| Profiles.MaskAtEnd | rt4k_esp32/Profile.cs:24-40 | masking to 16 bits once at the end gives the same value as masking after every nibble update |
| Profiles.FormulaIsFourShifts | rt4k_esp32/Profile.cs:14-24 | in 16 bits, one polynomial-table update is four steps of the bit-serial 0x1021 CRC |
| Profiles.NibbleIsFourShifts | rt4k_esp32/Profile.cs:24-25 | the firmware's nibble update, seen in its low 16 bits, is four bit-serial steps on the fed-in nibble |
| Profiles.ByteStepIsXmodem | rt4k_esp32/Profile.cs:23-25 | the two nibble updates of a byte equal the textbook CRC-16/XMODEM byte update |
| Profiles.CrcIsXmodem | rt4k_esp32/Profile.cs:21-40 | the truncated nibble-table register after any byte sequence is the CRC-16/XMODEM of that sequence (initial value 0, no reflection, no final xor) |
| Profiles.ChecksumIsXmodem | rt4k_esp32/Profile.cs:10-40 | the record checksum is CRC-16/XMODEM of the bytes after the 128-byte header |
| Profiles.ChecksumIgnoresHeader | rt4k_esp32/Profile.cs:9-21 | two records that agree from byte 128 on have the same checksum, whatever their headers hold, including the checksum field |
| Profiles.PatchedAt | rt4k_esp32/Profile.cs:49-57 | a patch writes d[j] at a+j, leaves every other byte alone and keeps the length |
| Profiles.SavedLayout | rt4k_esp32/Profile.cs:59-66 | Save stores the checksum's low byte at 32 and its high byte at 33 and changes no other byte |
| Profiles.SavedValidates | rt4k_esp32/Profile.cs:59-66 | a saved record carries the checksum of its own payload, and saving does not change that checksum |
| Profiles.SaveIdempotent | rt4k_esp32/Profile.cs:59-66 | saving twice with no patch in between gives the same bytes as saving once |
| Profiles.Profile.constructor | rt4k_esp32/Profile.cs:43-47 | the profile shares the caller's buffer instead of copying it |
| Profiles.Profile.UpdateBytes | rt4k_esp32/Profile.cs:49-57 | the buffer afterwards is the old buffer with `data` written from `address` (see PatchedAt) |
| Profiles.Profile.Save | rt4k_esp32/Profile.cs:59-66 | the buffer becomes the saved record (see SavedLayout) and the same buffer is returned |
| StringExtension.ReplaceChar | rt4k_esp32/StringExtension.cs:8-20 | same length; every `oldChar` becomes `newChar` and every other character is kept |
| StringExtension.CharsReplacedSame | rt4k_esp32/StringExtension.cs:13-17 | replacing a character by itself changes nothing |
| StringExtension.CharsReplacedRemoves | rt4k_esp32/StringExtension.cs:13-17 | after replacing by a different character, no `oldChar` is left and no other position changed |
| StringExtension.CharsReplacedBack | rt4k_esp32/StringExtension.cs:13-17 | replacing a by b and then b by a restores a string that had no b |
| StringExtension.ReplaceString | rt4k_esp32/StringExtension.cs:22-39 | the result is the leftmost, non-overlapping replacement of every match, with the text between the matches and after the last one copied verbatim |
| StringExtension.ReplaceNext | rt4k_esp32/StringExtension.cs:29-34 | one loop turn moves the scan strictly forward and keeps output plus the text still to build equal to the final result |
| StringExtension.ReplacedStep | rt4k_esp32/StringExtension.cs:31-33 | the text up to a match and the replacement join the output, and the scan resumes just past the match |
| StringExtension.ReplacedDone | rt4k_esp32/StringExtension.cs:29-36 | once IndexOf finds nothing, the rest of the input is appended unchanged |
| StringExtension.MatchesAreOccurrences | rt4k_esp32/StringExtension.cs:29 | every position the scan replaces holds an occurrence of `oldValue` |
| StringExtension.MatchesDisjoint | rt4k_esp32/StringExtension.cs:29-33 | each replaced match starts at or after the end of the one before, so matches do not overlap |
| StringExtension.Leftmost | rt4k_esp32/StringExtension.cs:29 | no occurrence starts between the scan position and the first match found |
| StringExtension.MatchesCons | rt4k_esp32/StringExtension.cs:29-33 | when an occurrence exists, the matches are the first one found followed by the matches after it |
| StringExtension.EveryOccurrenceCovered | rt4k_esp32/StringExtension.cs:29-34 | every occurrence of `oldValue` lies in a found match or overlaps one found before it; none is skipped |
| StringExtension.ReplacedLength | rt4k_esp32/StringExtension.cs:22-39 | the result has length \|current\| + k·(\|newValue\| − \|oldValue\|), where k is the number of matches |
| StringExtension.NoMatchUnchanged | rt4k_esp32/StringExtension.cs:29-36 | without an occurrence of `oldValue` the input is returned unchanged |
| StringExtension.ReplaceSameUnchanged | rt4k_esp32/StringExtension.cs:29-36 | replacing a string by itself gives the text back |
| Text.Split | rt4k_esp32/IniParser.cs:12 | String.Split yields at least one piece, and no piece holds a separator |
| Text.SplitCount | rt4k_esp32/IniParser.cs:12 | there is one piece more than there are separators, so "\r\n" yields an empty piece |
| Text.SplitJoin | rt4k_esp32/WebServer.cs:132 | joining the pieces of a one-character split with that character gives the input back |
| Text.IndexOfMatch | rt4k_esp32/StringExtension.cs:29 | what IndexOf returns, if not -1, is an occurrence at or after the start |
| Text.IndexOfFirst | rt4k_esp32/StringExtension.cs:29 | IndexOf returns the first occurrence at or after the start, and -1 only when there is none |
| Text.IndexOfChar | rt4k_esp32/IniParser.cs:18 | the first position of the character, or -1 exactly when it is absent |
| Text.TrimIdempotent | rt4k_esp32/IniParser.cs:21 | trimming a trimmed string changes nothing |
| IniParser.SplitTwo | rt4k_esp32/IniParser.cs:18 | a two-way split gives two parts exactly when the separator occurs; they are the text before the first separator and everything after it |
| IniParser.Parse | rt4k_esp32/IniParser.cs:9-27 | the table is what storing each line's entry in order gives for the lines split on '\r' and '\n' |
| IniParser.EqualsLineHasEntry | rt4k_esp32/IniParser.cs:16-22 | a line contributes an entry exactly when it contains '='; the two-way split never fails on such a line |
| IniParser.EntrySplitsAtFirstEquals | rt4k_esp32/IniParser.cs:18 | the key comes from the text before the first '=' and the value keeps every later '=' |
| IniParser.EntryTrimmed | rt4k_esp32/IniParser.cs:21 | an entry's key and value have no white space at either end |
| IniParser.TableTrimmed | rt4k_esp32/IniParser.cs:21 | every stored key and value has no white space at either end |
| IniParser.TableKeys | rt4k_esp32/IniParser.cs:14-24 | a key is in the table exactly when some line has an entry with that key |
| IniParser.LastLineWins | rt4k_esp32/IniParser.cs:21 | a key's value is that of the last line with that key; later lines overwrite earlier ones |
| IniParser.SkippedLine | rt4k_esp32/IniParser.cs:16 | an empty line or a line without '=' leaves the table as it was |
| IniParser.EmptyInput | rt4k_esp32/IniParser.cs:11-16 | empty input gives an empty table |
| FileManager.PathToSdUnderRoot | rt4k_esp32/FileManager.cs:624 | every web path maps under `D:\`, and no forward slash is left |
| FileManager.PathRoundTrip | rt4k_esp32/FileManager.cs:624-626 | for a path with no backslash, SdToPath undoes PathToSd, apart from the slashes trimmed at either end |
| FileManager.AsWrittenAgrees | rt4k_esp32/FileManager.cs:624 | the firmware's Path.Combine form agrees with the intended translation whenever the relative part is not rooted |
| FileManager.AsWrittenRooted | rt4k_esp32/FileManager.cs:624 | when the relative part is rooted, Path.Combine returns it unchanged, which differs from the intended path |
| FileManager.AsWrittenEscapesRoot | rt4k_esp32/FileManager.cs:624 | the web path "/X:/name" is translated as written to `X:\name`, outside the card |
| FileManager.MathMin | rt4k_esp32/FileManager.cs:234 | the result is one of the two arguments and is not above either |
| FileManager.InputStream.Read | rt4k_esp32/FileManager.cs:646-659 | Stream.Read delivers between 0 and `count` bytes, at least one when data is left, at `buffer[offset..]`, and consumes them from the stream |
| FileManager.FillBuffer | rt4k_esp32/FileManager.cs:646-659 | returns min(\|buffer\|, maxRead) or everything the stream had left, whichever is smaller; the bytes are the stream's next bytes at buffer[0..pos); the rest of the buffer is untouched |
| FileManager.OldestQueuedWrittenLast | rt4k_esp32/FileManager.cs:609-628 | the drain pops the stack, so when every file opens on a mounted card, of two queued writes the newer is written first and the older last |
| FileManager.DrainedStep | rt4k_esp32/FileManager.cs:614-619 | each pop adds the next entry from the top of the stack to the written ones exactly when the card is mounted and that entry's file opens; otherwise the entry is gone and nothing is added |
| FileManager.DrainedAllOpened | rt4k_esp32/FileManager.cs:614-619 | when the card is mounted and every file opens, each queued entry is written exactly once, newest first |
| FileManager.DrainedUnmounted | rt4k_esp32/FileManager.cs:123-140 | after a failed mount no queued entry is written, though the stack is still emptied, so every entry is lost |
| FileManager.ChunksSnoc | rt4k_esp32/FileManager.cs:254-258 | one more chunk written at the current position extends the upload by exactly that chunk |
| FileManager.ChunksWithin | rt4k_esp32/FileManager.cs:254-258 | every chunk of an upload is written inside [offset, offset + uploaded length) |
| FileManager.ChunksSized | rt4k_esp32/FileManager.cs:247-258 | every chunk is a non-empty write of at most 65536 bytes |
| FileManager.UploadBounded | rt4k_esp32/FileManager.cs:249-258 | an upload never writes past (int)ContentLength64 or past the end of the body, and chunks are written at consecutive offsets from 0 |
| FileManager.Int32Cast | rt4k_esp32/FileManager.cs:249 | a Content-Length below 2 GiB is taken as is; one of 4 GiB wraps to 0 and a missing one (-1) uploads nothing |
| FileManager.ReadAt | rt4k_esp32/FileManager.cs:309-318 | a read returns at most `count` bytes, which are the file's bytes at `position`, and at least one byte when any remain |
| FileManager.ConditionalStatus | rt4k_esp32/FileManager.cs:290-302 | the status of a GET of a file is either 200 or 304 |
| FileManager.NotModifiedIff | rt4k_esp32/FileManager.cs:290-302 | 304 exactly when If-Modified-Since is present, non-empty, parses, and the file is not newer than that date; the 304 carries no body |
| FileManager.BodyOnlyWhenSent | rt4k_esp32/FileManager.cs:296-318 | the body is the whole file when the status is 200 and the file is wanted, and empty otherwise |
| FileManager.NotModifiedLater | rt4k_esp32/FileManager.cs:296 | a file not modified since a date is also not modified for any earlier modification time |
| FileManager.NoConditionIsOk | rt4k_esp32/FileManager.cs:290-302 | without the header, or with one that does not parse, the status is 200 |
| FileManager.PaddedWindow | rt4k_esp32/FileManager.cs:579-585 | the zero-filled buffer after the read has exactly \|value\| bytes |
| FileManager.ValueMatchesInRange | rt4k_esp32/FileManager.cs:579-595 | for a region inside the file, the firmware's comparison agrees with "the file holds `value` at `address`" |
| FileManager.ShortFileMatchesZeros | rt4k_esp32/FileManager.cs:579-595 | past the end of a file the firmware compares against zeros, so a file "holds" [0] where it holds nothing |
| FileManager.ReadInto | rt4k_esp32/FileManager.cs:581-585 | the read puts the file's bytes from `address` at the front of the buffer, as many as fit or remain, and leaves the rest of the buffer alone |
| FileManager.SameBytes | rt4k_esp32/FileManager.cs:587-595 | the comparison loop answers true exactly when the buffer equals `value` |
| FileManager.VisitStep | rt4k_esp32/FileManager.cs:476-489 | visiting one directory keeps "results so far plus what is still to list below the stack" equal, as a multiset, to the full listing |
| FileManager.AddMatching | rt4k_esp32/FileManager.cs:478-484 | the file loop appends exactly the files whose path ends with the extension, in order |
| FileManager.PushAll | rt4k_esp32/FileManager.cs:485-488 | the directory loop pushes every subdirectory in listing order |
| FileManager.ListFilesRecursiveInternal | rt4k_esp32/FileManager.cs:467-492 | terminates on every finite tree; the result holds each matching file below the root exactly as often as the tree-order listing does; a missing or non-directory root gives no result |
| FileManager.ListedIff | rt4k_esp32/FileManager.cs:467-492 | a path is listed exactly when it is a file somewhere below the root and ends with the extension |
| FileManager.ListedLonger | rt4k_esp32/FileManager.cs:449-452 | every listed path extends the root path, so cutting the drive name off it is defined |
| FileManager.WebPaths | rt4k_esp32/FileManager.cs:449-452 | rewriting the listing with SdToPath keeps one entry per listed path |
| FileManager.ToWebPaths | rt4k_esp32/FileManager.cs:449-452 | the in-place rewrite loop turns every card path into its web path |
| FileManager.FileManager.constructor | rt4k_esp32/FileManager.cs:19-25 | a new FileManager uses the given arbiter and starts with an empty write stack and nothing done to the card |
| FileManager.IsWifiIni | rt4k_esp32/FileManager.cs:240 | the firmware's test: lower-cased and trimmed of '/', the path equals "wifi.ini"; any path that passes has at least 8 characters |
| FileManager.WifiIniShape | rt4k_esp32/FileManager.cs:240 | a path counts as the settings file only when it is "wifi.ini", in any letter case, with nothing but slashes around it, so a wifi.ini in a subdirectory does not count |
| FileManager.PathToSdAsWritten | rt4k_esp32/FileManager.cs:624 | as written: when the rewritten relative path is rooted, it is the result unchanged, whatever drive it names |
| FileManager.PathToSd | rt4k_esp32/FileManager.cs:624 | corrected: every card path starts with `D:\` |
| FileManager.SdToPath | rt4k_esp32/FileManager.cs:626 | cutting off the drive name shortens the path by the root's length, and every backslash becomes '/', so none is left |
| FileManager.FileManager.QueueWrite | rt4k_esp32/FileManager.cs:628 | pushes the (path, content) pair on the write stack and touches nothing on the card |
| FileManager.FileManager.WriteFileInternal | rt4k_esp32/FileManager.cs:123-141 | when the FileStream opens, writes the content, UTF-8 encoded, as the file at the card path; when it fails, the exception is swallowed and nothing is written; the stack is left alone |
| FileManager.FileManager.GrabSD | rt4k_esp32/FileManager.cs:609-621 | takes the card through the arbiter, then empties the stack newest first, writing each entry whose file opens (none when the card is not mounted) before anything else; an entry whose open fails is lost |
| FileManager.FileManager.DrainQueue | rt4k_esp32/FileManager.cs:614-619 | the drain loop empties the stack, and the journal gains exactly the writes of the entries whose files opened, newest first |
| FileManager.FileManager.PopAndWrite | rt4k_esp32/FileManager.cs:617-618 | one turn pops the top entry and, when its file opens on a mounted card, appends its write; the stack shrinks by that one entry |
| FileManager.FileManager.ReleaseSD | rt4k_esp32/FileManager.cs:622 | hands the release on to the arbiter |
| FileManager.FileManager.WriteFileToSdCard | rt4k_esp32/FileManager.cs:236-276 | drains the stack, creates the file, writes the uploaded body in bounded chunks, notifies a wifi.ini update only after the loop, and soft-releases the card; when the file cannot be created (or the card is not mounted), nothing follows the drain but the soft release |
| FileManager.FileManager.UploadChunks | rt4k_esp32/FileManager.cs:247-258 | the upload loop writes min(fileSize, body length) bytes of the body in consecutive chunks of at most 64 KiB, nothing when fileSize ≤ 0 |
| FileManager.FileManager.WriteFileToHttpResponse | rt4k_esp32/FileManager.cs:278-329 | the response is the conditional-GET decision (status, Content-Length, Last-Modified, body read in 64 KiB steps); the card is taken and soft-released |
| FileManager.FileManager.CheckFileValue | rt4k_esp32/FileManager.cs:572-607 | as written: compares `value` with a zero-padded read of the region; false for a missing file or a negative address |
| FileManager.FileManager.CheckFileValueExact | rt4k_esp32/FileManager.cs:572-607 | corrected: true exactly when the file holds `value` byte for byte at `address`; false on any failure |
| FileManager.FileManager.ListFilesRecursive | rt4k_esp32/FileManager.cs:442-465 | lists, as web paths, the files below the path that end with the extension (the result is a permutation of the tree-order listing); no result for a missing path or a file |
| SdManager.BootWindow | rt4k_esp32/SdManager.cs:56-59 | the card is available exactly when uptime exceeds 10,000,000 µs and the sense pin reads High |
| SdManager.FirstAvailable | rt4k_esp32/SdManager.cs:99-112 | the wait loop stops at the first poll that finds the card free |
| SdManager.Grab | rt4k_esp32/SdManager.cs:74-134 | after a grab the card is held, the pins are ready and the timer is disarmed; a card already held is neither remounted nor switched |
| SdManager.Release | rt4k_esp32/SdManager.cs:137-150 | an instant release frees the card and disarms the timer; a soft one keeps the card and its mount and arms the timer for 1000 ms |
| SdManager.Expire | rt4k_esp32/SdManager.cs:152-165 | after expiry the card is free and unmounted, the timer is disarmed and the switch is driven High |
| SdManager.SdManager.constructor | rt4k_esp32/SdManager.cs:33-54 | not grabbed, pins not opened, timer disarmed, nothing mounted |
| SdManager.SdManager.InitSdSwitch | rt4k_esp32/SdManager.cs:61-72 | opens the switch pin as an output and writes no level; nothing else changes (GrabSD records that the pins are ready) |
| SdManager.SdManager.GrabSD | rt4k_esp32/SdManager.cs:74-134 | the new state is the grab transition; an already grabbed card is taken without polling, otherwise the card is taken at the first free poll |
| SdManager.SdManager.ReleaseCallback | rt4k_esp32/SdManager.cs:152-165 | the new state is the expiry transition: released, timer disarmed, unmounted if mounted, switch High |
| SdManager.SdManager.ReleaseSD | rt4k_esp32/SdManager.cs:137-150 | the new state is the release transition: instant release expires at once, otherwise the timer is armed for 1000 ms |
| SdManager.InitialValid | rt4k_esp32/SdManager.cs:33-54 | the constructor's state satisfies the arbiter invariant |
| SdManager.GrabValid | rt4k_esp32/SdManager.cs:74-134 | a grab keeps the arbiter invariant |
| SdManager.ReleaseValid | rt4k_esp32/SdManager.cs:137-150 | a release by the holder keeps the arbiter invariant |
| SdManager.ExpireValid | rt4k_esp32/SdManager.cs:152-165 | an expiry of a running timer or an instant release keeps the arbiter invariant |
| SdManager.GrabDisarmsAndInitsOnce | rt4k_esp32/SdManager.cs:78-84 | every grab disarms the timer and leaves the pins ready; only the first one opens the switch pin |
| SdManager.SoftGrab | rt4k_esp32/SdManager.cs:86-89 | a grab while the card is held neither mounts nor drives the switch |
| SdManager.HardGrab | rt4k_esp32/SdManager.cs:99-132 | a grab of a free card drives the switch Low, attempts one mount, and counts as grabbed even if the mount failed |
| SdManager.SoftRelease | rt4k_esp32/SdManager.cs:146 | a soft release only arms the timer for 1000 ms; the card stays grabbed |
| SdManager.InstantReleaseIsExpiry | rt4k_esp32/SdManager.cs:139-162 | an instant release and the timer's expiry have the same effect: released, disarmed, unmounted if mounted, switch High |
| SdManager.GrabSoftReleaseGrab | rt4k_esp32/SdManager.cs:84-146 | grab, soft release, grab with no expiry in between mounts exactly once |
| SdManager.GrabExpireGrab | rt4k_esp32/SdManager.cs:84-162 | with an expiry in between, the second grab mounts again |
| WebDav.PropPatch | rt4k_esp32/WebDav.cs:90-126 | answers 200 or 413, with no Content-Length |
| WebDav.Move | rt4k_esp32/WebDav.cs:128-168 | answers one of 204, 400, 403, 404 and 409, always with Content-Length 0 |
| WebDav.MkCol | rt4k_esp32/WebDav.cs:170-184 | answers 201 or 409, with Content-Length 0 |
| WebDav.Delete | rt4k_esp32/WebDav.cs:186-204 | answers 204 or 404, with Content-Length 0 |
| WebDav.Get | rt4k_esp32/WebDav.cs:261-274 | answers 200, 304 or 404 |
| WebDav.Put | rt4k_esp32/WebDav.cs:276-291 | always uploads to the request path and answers 201 or 204 |
| WebDav.Dispatch | rt4k_esp32/WebDav.cs:49-87 | a method without a handler is answered 405 with no body and no action |
| WebDav.AllowedAreHandled | rt4k_esp32/WebDav.cs:382-387 | OPTIONS advertises exactly the eleven methods that have a handler |
| WebDav.NotAllowedIff | rt4k_esp32/WebDav.cs:49-87 | a method is refused with 405 exactly when it has no handler, and the refusal has Content-Length 0 and no action |
| WebDav.HeadIsGetWithoutBody | rt4k_esp32/WebDav.cs:261-274 | HEAD answers with the status, length and Last-Modified of GET, but with no body |
| WebDav.GetServesFile | rt4k_esp32/WebDav.cs:261-274 | a GET of an existing file is served whole with its length, or answered 304 with no body |
| WebDav.GetMissing | rt4k_esp32/WebDav.cs:271-273 | a GET of anything that is not a file is 404 with Content-Length 0 |
| WebDav.MoveActsOnlyOnSuccess | rt4k_esp32/WebDav.cs:128-168 | MOVE acts exactly when it answers 204; it moves an existing file, or else a directory, to a different destination whose parent exists |
| WebDav.MoveErrors | rt4k_esp32/WebDav.cs:132-150 | 400 exactly when Destination is missing or empty, 403 exactly when it names the source, 409 exactly when it is present, differs from the source and its parent directory is missing, and 404 only when nothing exists at the path |
| WebDav.MoveOutcome | rt4k_esp32/WebDav.cs:152-167 | with a valid Destination that differs from the source and has an existing parent, MOVE answers 204 moving the file at the path, else 204 moving the directory, else 404 |
| WebDav.DeletePrefersFile | rt4k_esp32/WebDav.cs:186-204 | DELETE acts exactly when it answers 204; it deletes the file at the path when there is one, else the directory at the path, always naming the request path, and answers 404 exactly when neither exists |
| WebDav.MkColTwice | rt4k_esp32/WebDav.cs:170-184 | MKCOL answers 201 and creates the directory exactly when it did not exist; a repeated MKCOL answers 409 |
| WebDav.PutTwice | rt4k_esp32/WebDav.cs:276-291 | PUT always uploads; the status is decided before the write: 201 for a new file, 204 otherwise; a repeated PUT answers 204 |
| WebDav.PropPatchBounded | rt4k_esp32/WebDav.cs:90-98 | a body over 65536 bytes gives 413 and no action; any other body is acknowledged |
| WebDav.PropFindShape | rt4k_esp32/WebDav.cs:293-335 | 404 exactly when neither a directory nor a file exists; otherwise 207 with the path first, a directory taking precedence over a file, and 1 + subdirectories + files entries exactly when Depth is "1" or "infinity" |
| WebDav.PropFindChildren | rt4k_esp32/WebDav.cs:309-320 | the subdirectories come first, marked as directories, then the files, each in listing order |
| WebDav.PropFindReportsLocks | rt4k_esp32/WebDav.cs:362-372 | every entry reports the lock token the table holds for its path, and none for an unlocked path |
| WebDav.EntriesFor | rt4k_esp32/WebDav.cs:311-318 | one entry per listed path |
| WebDav.WebDav.constructor | rt4k_esp32/WebDav.cs:19 | the lock table starts empty |
| WebDav.WebDav.Lock | rt4k_esp32/WebDav.cs:206-247 | a body over 65536 bytes gives 413 with the table untouched; otherwise the path's entry is set to the fresh token, overwriting any old one, and the other entries are untouched |
| WebDav.WebDav.Unlock | rt4k_esp32/WebDav.cs:249-259 | always 204; the path's entry is removed and no other entry changes |
| WebDav.WebDav.PropFind | rt4k_esp32/WebDav.cs:293-335 | the listing loops build exactly the reply PropFindShape, PropFindChildren and PropFindReportsLocks describe |
| WebDav.WebDav.Route | rt4k_esp32/WebDav.cs:33-88 | each of the eleven methods goes to its own handler (HEAD to GET without a body); only LOCK and UNLOCK change the lock table; anything else gives 405 |
| WebDav.LockThenPropFind | rt4k_esp32/WebDav.cs:223-232 | after a LOCK, PROPFIND of the path reports the new token, and other paths keep theirs |
| WebDav.LockThenUnlock | rt4k_esp32/WebDav.cs:249-259 | UNLOCK undoes a LOCK of the same path, is idempotent, and leaves other paths' locks alone |
| WebServer.ParseUrlParams | rt4k_esp32/WebServer.cs:128-142 | the result is the table built from the '&'-segments in order, or the error of the first repeated key |
| WebServer.PrefixError | rt4k_esp32/WebServer.cs:137 | once a prefix of the segments fails on a repeated key, the whole parse fails with that key |
| WebServer.EntrySegment | rt4k_esp32/WebServer.cs:134-135 | a segment becomes an entry exactly when it holds a single '=', so "a" and "a=b=c" are dropped |
| WebServer.FormOrigin | rt4k_esp32/WebServer.cs:134-137 | each stored value is the decoded value part of a segment whose raw key part is the key |
| WebServer.FormSize | rt4k_esp32/WebServer.cs:132-141 | there are never more entries than '&'-segments |
| WebServer.RepeatedKeyFails | rt4k_esp32/WebServer.cs:137 | two entry segments with the same key make the parse fail, as Hashtable.Add throws |
| WebServer.DuplicateIsRepeated | rt4k_esp32/WebServer.cs:137 | the parse fails only on a key that two entry segments share, and the error names that key |
| WebServer.StoredOnce | rt4k_esp32/WebServer.cs:137 | in a successful parse, the key of every entry segment is in the table |
| WebServer.EmptyInput | rt4k_esp32/WebServer.cs:132-141 | empty input gives an empty table |
| WebServer.EmptyValue | rt4k_esp32/WebServer.cs:132-141 | "a=" stores key "a" with the decoded empty string |
| Program.Retained | rt4k_esp32/Program.cs:98-101 | the queue keeps at most 150 messages, and what it keeps is the newest ones in their order |
| Program.Program.constructor | rt4k_esp32/Program.cs:21 | the log starts empty |
| Program.Program.Log | rt4k_esp32/Program.cs:83-102 | the queue becomes the last min(\|old\|+1, 150) messages of the old queue followed by the new message; the oldest are dropped first |
| Program.NewestIsLast | rt4k_esp32/Program.cs:86-101 | the message just logged is the newest entry and is never dropped by its own call |
| Program.NoEvictionBelowCapacity | rt4k_esp32/Program.cs:86-98 | below capacity nothing is dropped |

## Left out

- The native storage and hardware calls are not modelled. This covers:
  - the File/Directory/FileStream calls;
  - the reflection-based GetLengthNative, ReadNative and WriteNative (ReadInternal, WriteInternal, GetLengthInternal);
  - SDCard.Mount/Unmount;
  - GPIO;
  - HighResTimer.

  The card is a value read by each call (`Card`, `FileInfo`, `Node`), the writes go into the `io` journal, and the sense pin and clock are `Sample` readings.
- ReadFile, ReadFileRaw, WriteFileRaw, DeleteFile, DeleteDirectory, MoveDirectory, MoveFile, CreateDirectory, FileExists, DirectoryExists, GetDirectoryName, ListDirectories, ListFiles, GetFileProperties and GetDirectoryProperties are thin wrappers around those calls.
  - In WebDav their outcomes are the `Card` view and the returned `Action`.
  - `GetDirectoryName` is the `parentDir` parameter.
- The concurrency of the arbiter is not modelled: Monitor.Enter/Exit, the timer callback thread and GC.Run. Timer expiry is the explicit event `ReleaseCallback`, and every operation runs sequentially.
- TimeElapsed is floating point and serves only logging. It is left out, and so are all log messages.
- SdManager.SdManager.GrabSD requires that some poll finds the card free, because the firmware's wait loop spins forever otherwise. The arbiter's polls are given as a finite sequence.
- FileManager.FileManager.GrabSD, WriteFileToSdCard, WriteFileToHttpResponse, CheckFileValue, CheckFileValueExact and ListFilesRecursive carry the same precondition (`CanGrab`), for the same reason.
- SdManager.SdManager.ReleaseCallback treats Unmount as succeeding. In the firmware an exception from Unmount escapes the callback and skips Monitor.Exit.
- SdManager.SdManager.GrabSD does not model a mount that throws as an exception. Whether the mount succeeds is an input, and in both cases the card counts as grabbed, as in the firmware.
- StringExtension.ReplaceString requires a non-empty `oldValue`. With an empty one, IndexOf finds the empty string at `startIndex` every time and the firmware's loop never ends.
- Profiles.RtCrc and Profiles.Profile.Save require that a record longer than the 128-byte header carries a payload of whole 4-byte groups. Any length up to 128 is accepted and gives 0. For the other lengths the unrolled loop reads past the end of the array and throws.
- Profiles.Profile.UpdateBytes requires the patched range to lie inside the buffer. The firmware throws IndexOutOfRangeException otherwise, after writing the bytes that fit.
- Profiles.Profile.Save also requires a buffer of at least 34 bytes, so that the checksum field at offsets 32-33 lies inside it. On a shorter buffer the firmware's `UpdateBytes(32, ...)` throws, after writing whichever of the two bytes lies inside it.
- FileManager.ListFilesRecursiveInternal states the result as a permutation of the tree-order listing `Listed`, not its exact order. The stack visits directories in an order that the contract does not pin down.
  - Listed itself may hold a path twice only if the tree does, so "each file exactly once" holds for trees with distinct names.
- FileManager.FileManager.ListFilesRecursive inherits the same permutation-level statement.
- FileManager.FileManager.WriteFileToSdCard models a failing File.Create (a missing parent directory, say) as the input `createSucceeds`, and on an unmounted card File.Create always fails; the exception is caught and logged, as in the firmware. Other exceptions (a native write failing mid-loop) are not modelled; the release in `finally` is.
- FileManager.FileManager.WriteFileToHttpResponse models the normal path and the missing-file case. A native read failing mid-loop is not modelled.
- FileManager.FileManager.WriteFileToHttpResponse, CheckFileValue, CheckFileValueExact and ListFilesRecursive read the card through a snapshot input (`file`, `root`) that is not tied to the mount: after a failed mount the firmware finds nothing there, and a caller passes the empty snapshot to model it.
- WebDav.Put answers its status whatever the upload then does, as the firmware does: a failed File.Create inside the upload still gives 201 or 204.
- FileManager.FileManager.GrabSD takes the outcome of each drained entry's FileStream open as the input `fileOpens`, and on an unmounted card no open succeeds. Its drained writes are recorded in the journal. They do not update the `FileInfo` snapshots passed to later calls.
- WebDav's XML output is not modelled: the PROPFIND, PROPPATCH and LOCK bodies, the PROPPATCH regex over property names, and the Content-Type headers. PROPFIND is modelled as the list of entries it reports (path, directory flag, lock token).
- The Location header of MOVE and the Allow/DAV headers of OPTIONS are not modelled as headers. OPTIONS returns the `Allowed` list.
- The following library calls appear as parameters: EncodePath/GetPath (HttpUtility.UrlEncode/UrlDecode), Uri parsing of the MOVE destination, Guid.NewGuid (the LOCK token) and DateTime parsing and "R" formatting.
- WebDav.WebDav.Lock and WebDav.PropPatch do not model reading the request body. A request without a body (ContentLength64 of -1) makes the firmware's `new byte[-1]` throw; the model answers it as a small body.
- The listener and worker machinery is network and thread code and is not modelled: WebServer.Start, HandleContext and ReadRequest.
- WebInterface.cs, WifiManager.cs, SettingsManager.cs and Esp32Helper.cs are not part of this model. They are the HTML UI, Wi-Fi bring-up, JSON settings and reboot.
- The wiring in Program.Main is not modelled. Its constructor calls do not match the constructors it uses.
- Strings are sequences of Unicode scalar values, while a C# `char` is a UTF-16 code unit. Lengths and IndexOf/Substring offsets therefore agree with the firmware only for text inside the Basic Multilingual Plane.
- FileManager.WriteOf, FileManager.FileManager.WriteFileInternal, GrabSD, DrainQueue, PopAndWrite, WriteFileToSdCard, WriteFileToHttpResponse, CheckFileValue, CheckFileValueExact and ListFilesRecursive, and WebDav.FileExists and WebDav.DirectoryExists, translate web paths with the corrected `PathToSd`. In the firmware, a web path whose relative part is rooted, such as `/I:/x`, reaches `I:\x` through `Path.Combine`; these members send it to `D:\I:\x` instead. The as-written translation is `PathToSdAsWritten`; see Findings.
- Text.ToLower folds only the ASCII letters A-Z, as nanoFramework's String.ToLower is taken to do; case folding beyond ASCII is not modelled, and FileManager.IsWifiIni rests on it.
- The Wi-Fi manager notification is an `io` event (`WifiIniNotified`). The event handler itself is not modelled.

## Findings

| source | as written | input that shows it | evidently intended | confidence | as-written member | corrected member |
|---|---|---|---|---|---|---|
| rt4k_esp32/FileManager.cs:624 | `PathToSd` combines `D:\` with the relative path using `Path.Combine`, which returns the second argument when it is rooted | the web path `/I:/dummyFile` maps to `I:\dummyFile`, outside the card | every web path maps under `D:\` | not executed | FileManager.AsWrittenEscapesRoot | FileManager.PathToSdUnderRoot |
| rt4k_esp32/FileManager.cs:579-595 | `CheckFileValue` ignores the count returned by `Read` and compares the whole zero-filled buffer | an empty file checked for the value `[0]` at address 0 reports a match | true only when the file really holds `value` at `address` | not executed | FileManager.ShortFileMatchesZeros | FileManager.ValueMatchesInRange |
