# Diary storage engine, modelled in Dafny

A model of the C storage engine of a small diary tool. Each diary entry is a
fixed-size `DiaryEntry` record made of three `char` arrays: `date[11]`,
`content[4096]` and `image_path[256]`, 4363 bytes in all. Records are written
raw, one after another, to one data file and looked up by date. The model covers:

- the record layout and its raw byte image (`diary_struct.dfy`, module `DiaryStruct`);
- the C-string conventions the code relies on: the terminator, `strcmp`
  equality, string literals (`cstrings.dfy`, module `CStrings`);
- filling a new record from the local time: the date text `strftime` makes for
  `%Y-%m-%d`, the weekday-name table, and the `strncpy` of the name into the
  weekday buffer (`entry_fill.dfy`, module `EntryFill`);
- the command router of the manager's `main`, the append of one record to the
  data file, and the date scan over the file (`nostalgia_manager.dfy`, module
  `NostalgiaManager`).

The record, the router, the date text and the weekday table are values and
functions. The data file is a class, `DiaryFile`, whose `bytes` field `Append`
extends. Its `View` method is a loop that reads one record at a time and
collects the matches. `strftime` and `strncpy` are loops that write into
arrays.

## Model

| member | source | states |
|---|---|---|
| `DiaryStruct.Encode` | C_Core/diary_struct.h:30-40 | A record's image is exactly 4363 bytes. The date is bytes [0,11), the content [11,4107) and the image path [4107,4363). |
| `DiaryStruct.Decode` | C_Core/diary_struct.h:28-40 | Reading a 4363-byte block fills each field from its fixed byte range. |
| `DiaryStruct.DecodeEncode` | C_Core/diary_struct.h:28-40 | Reading back a written record gives the same record. |
| `DiaryStruct.EncodeDecode` | C_Core/diary_struct.h:28-40 | Every 4363-byte block is the image of the record read from it. |
| `DiaryStruct.EncodeInjective` | C_Core/diary_struct.h:28-40 | Two records with the same bytes are the same record. |
| `DiaryStruct.SetDateTouchesOnlyDate` | C_Core/diary_struct.h:32 | Changing the date changes bytes [0,11) only. |
| `DiaryStruct.SetContentTouchesOnlyContent` | C_Core/diary_struct.h:35 | Changing the content changes bytes [11,4107) only. |
| `DiaryStruct.SetImagePathTouchesOnlyImagePath` | C_Core/diary_struct.h:38 | Changing the image path changes bytes [4107,4363) only. |
| `DiaryStruct.DateFieldLayout` | C_Core/diary_struct.h:17-18 | A `YYYY-MM-DD` date stored with its terminator fills bytes 0..9, with the terminator at byte 10, and reads back as that text. |
| `DiaryStruct.StoredDateWithinField` | C_Core/nostalgia_manager.c:53 | When the date field holds a terminator, `strcmp` reads the date from that field alone. |
| `DiaryStruct.RecordAtOffset` | C_Core/nostalgia_manager.c:52 | When the file holds block i whole, the i-th record read is decoded from bytes [i·4363, (i+1)·4363). |
| `DiaryStruct.RecordsFit` | C_Core/nostalgia_manager.c:52 | Each record read comes from a whole block inside the file. |
| `DiaryStruct.RecordsCount` | C_Core/nostalgia_manager.c:52 | A file of k whole blocks plus a shorter tail yields exactly k records. |
| `DiaryStruct.RecordsConcat` | C_Core/nostalgia_manager.c:98-100 | Reading a file made of whole records followed by more bytes gives the first part's records first, then the rest. |
| `DiaryStruct.EncodeAll` | C_Core/diary_struct.h:28 | k records written one after another take k·4363 bytes. |
| `DiaryStruct.RecordsEncodeAll` | C_Core/diary_struct.h:28 | A file written record by record reads back as exactly those records, in the same order. |
| `DiaryStruct.Records` | C_Core/nostalgia_manager.c:51-52 | The `fread` pass yields one record per whole block, the first from bytes [0,4363). The records cover all but a tail shorter than one record. |
| `DiaryStruct.StoredDate` | C_Core/nostalgia_manager.c:53 | The date `strcmp` reads from a record is the record's bytes up to the first zero. It holds no zero, and a zero follows it unless the record ends first. |
| `DiaryStruct.DateMatches` | C_Core/nostalgia_manager.c:53 | For a query with no zero byte, `strcmp(entry.date, query) == 0` holds exactly when the stored date equals the query. |
| `DiaryStruct.Matches` | C_Core/nostalgia_manager.c:51-54 | The selected records are records of the file whose date equals the query under `strcmp`, and there are no more of them than records. |
| `DiaryStruct.MatchesConcat` | C_Core/nostalgia_manager.c:51-54 | Selecting from two runs of records selects from each in turn, so file order is kept. |
| `DiaryStruct.MatchesComplete` | C_Core/nostalgia_manager.c:51-54 | No record whose date matches is left out. |
| `CStrings.CString` | C_Core/nostalgia_manager.c:53 | The text of a buffer is the prefix before its first zero byte: it holds no zero, and a zero follows it unless the buffer ends first. |
| `CStrings.StrEqual` | C_Core/nostalgia_manager.c:72-80 | `strcmp(a, b) == 0`. For strings with no zero byte it holds exactly when the two are equal. |
| `CStrings.CStringOfText` | C_Core/nostalgia_manager.c:53 | A buffer with no zero byte is read whole. |
| `CStrings.CStringOfTerminated` | C_Core/diary_struct.h:17-18 | Text followed by its terminator reads back as that text, whatever comes after it. |
| `CStrings.CStringStopsAtNul` | C_Core/nostalgia_manager.c:53 | Bytes after a terminator are never read. |
| `CStrings.StrEqualIsEquality` | C_Core/nostalgia_manager.c:72-80 | For strings with no zero byte, `strcmp(a, b) == 0` holds exactly when the two texts are equal. |
| `EntryFill.TmNormal` | C_Core/1.c:21-30 | The `struct tm` ranges `localtime` guarantees keep the table index within the seven entries and the month within 1 to 12. |
| `EntryFill.WeekdayName` | C_Core/1.c:12-14 | A weekday name is 6 to 9 letters long, has no zero byte and ends in "day". |
| `EntryFill.WeekdayNameShape` | C_Core/1.c:12-14 | Gives each table entry's length (6, 6, 7, 9, 8, 6, 8) and first letter (S, M, T, W, T, F, S). |
| `EntryFill.WeekdayTable` | C_Core/1.c:12-14 | The table has seven entries: index 0 is "Sunday" and index 6 is "Saturday". Different indices give different names. |
| `EntryFill.DigitsValue` | C_Core/1.c:27 | The decimal digits `%Y` prints for a year denote that year. |
| `EntryFill.DigitsFit` | C_Core/1.c:27 | A year takes at most k digits exactly when it is below 10^k. |
| `EntryFill.YearText` | C_Core/1.c:27 | The `%Y` text contains no zero byte. |
| `EntryFill.TwoDigits` | C_Core/1.c:27 | `%m` and `%d` give exactly two digits, zero-padded, and those digits denote the number. |
| `EntryFill.FormatDate` | C_Core/1.c:24-29 | The `%Y-%m-%d` text contains no zero byte. |
| `EntryFill.DateFitsIff` | C_Core/1.c:24-29 | The date text plus its terminator fits the 11-byte buffer exactly for years -999 to 9999. |
| `EntryFill.FormatDateShape` | C_Core/1.c:24-29 | For years 1000 to 9999 the text has exactly 10 characters. A '-' stands at positions 4 and 7 and digits everywhere else. The three digit runs denote the year, the month (tm_mon + 1) and the day. |
| `EntryFill.FilledDateIsFound` | C_Core/1.c:24-29 | A record whose date field holds that text and its terminator matches a view of that exact text. |
| `EntryFill.StrftimeDate` | C_Core/1.c:24-29 | If the text and its terminator fit, `strftime` writes both, returns the text's length and leaves the rest of the buffer unchanged. Otherwise it returns 0. |
| `EntryFill.StrncpyImage` | C_Core/1.c:31 | Gives the n bytes that `strncpy` leaves. Byte i is the string's i-th character while the string lasts, and zero after that. |
| `EntryFill.StrncpyTerminatedIff` | C_Core/1.c:31 | The copy holds a zero byte exactly when the string is shorter than n. In that case it reads back as the string. Otherwise it is the first n characters with no terminator. |
| `EntryFill.Strncpy` | C_Core/1.c:31 | The two loops write exactly those n bytes and leave every byte from n on unchanged. |
| `EntryFill.FillNewEntry` | C_Core/1.c:16-31 | The date buffer gets the date text and its terminator, or `strftime` returns 0. The first W-1 weekday bytes get the `strncpy` copy of the table name for tm_wday. Byte W-1 keeps the value the uninitialised record had. |
| `EntryFill.WeekdayFieldTerminatedIff` | C_Core/1.c:16-32 | After the fill, the weekday buffer holds a terminator exactly when the name is shorter than W-1 or the byte left at W-1 happens to be zero. |
| `EntryFill.WednesdayLeftUnterminated` | C_Core/1.c:30-32 | With W = 10, a Wednesday record whose byte 9 is any nonzero value has no terminator anywhere in its weekday buffer. |
| `EntryFill.FillNewEntryTerminated` | C_Core/1.c:31 | The corrected fill always terminates the weekday buffer. It reads back as the name cut to W-1 letters. |
| `EntryFill.TerminatedWeekdayReadsBack` | C_Core/1.c:31 | A `strncpy` copy of W-1 bytes followed by a zero reads back as the cut name. |
| `NostalgiaManager.RouteArgs` | C_Core/nostalgia_manager.c:62-93 | Gives the complete decision on argc/argv. Fewer than two arguments is a usage error. `save` calls its handler with argv[2] and argv[3] exactly when argc is 4, and is a usage error otherwise. `view` calls its handler with argv[2] exactly when argc is 3, and is a usage error otherwise. Any other command is unknown. Exactly one of these outcomes holds. |
| `NostalgiaManager.HandleSaveCommand` | C_Core/nostalgia_manager.c:40-45 | The save handler as written returns 0 (success). |
| `NostalgiaManager.HandleViewCommand` | C_Core/nostalgia_manager.c:50-57 | The view handler as written returns 0 (success). |
| `NostalgiaManager.ExitStatus` | C_Core/nostalgia_manager.c:62-93 | `main` returns 0 or `EXIT_FAILURE`. It returns 0 exactly when the router calls a handler. |
| `NostalgiaManager.ExitStatusIff` | C_Core/nostalgia_manager.c:40-93 | `main` returns only 0 or `EXIT_FAILURE`. It returns 0 exactly for `save <a> <b>` and `view <a>`, with the command text matched exactly, because the handlers as written return 0. |
| `NostalgiaManager.DiaryFile.constructor` | C_Core/nostalgia_manager.c:17 | The data file starts with its existing bytes. |
| `NostalgiaManager.DiaryFile.Append` | C_Core/nostalgia_manager.c:98-102 | The file becomes its old bytes followed by the record's 4363 bytes, with earlier bytes unchanged, and the status is 0. A file of whole records stays one, with the new record read last. |
| `NostalgiaManager.DiaryFile.View` | C_Core/nostalgia_manager.c:50-57 | The loop's output is exactly the file's records whose date matches the query, in file order. |
| `NostalgiaManager.AppendOneRecord` | C_Core/nostalgia_manager.c:98-100 | Appending keeps the file length a whole multiple of 4363 exactly when it was one. On such a file it adds exactly one record at the end. |
| `NostalgiaManager.ViewAfterAppend` | C_Core/nostalgia_manager.c:51-54 | After an append, a view returns the earlier matches, then the new record if its date matches. |
| `NostalgiaManager.ViewKeepsWriteOrder` | C_Core/nostalgia_manager.c:51-54 | Write e1, e2, e3 with e1 and e3 matching the query and e2 not, and the view returns [e1, e3] in that order. |

## Notes on the code

- The record header defines three fields, `date[11]`, `content[4096]` and
  `image_path[256]`, for 4363 bytes in all. `1.c` fills `new_entry.weekday` of
  a `DiaryEntry_t` and bounds the copy by `MAX_WEEKDAY_SIZE - 1`.
  `diary_struct.h`, the only project header `1.c` includes, defines none of
  `DiaryEntry_t`, `weekday` and `MAX_WEEKDAY_SIZE`. The model reads the field
  as `char weekday[MAX_WEEKDAY_SIZE]` and takes its width W as a parameter.
- The router passes `argv[2]` and `argv[3]` to the save handler unchanged.
  `RouteArgs` models just that.
- The intended `fread` loop has no length check. A trailing partial block
  makes `fread` return 0 and is never read. `Records` and `View` model this.
- The weekday comes from the table indexed by `tm_wday`, which `localtime`
  supplies. The model takes `tm_wday` as an input.

## Left out

- `time(NULL)` and `localtime`: the clock and the time zone. The fields of `struct tm` are inputs.
- All printing: `fprintf` of the usage errors, the `printf` of the weekday, and `output_entry_to_stdout`, whose body is empty. `View` returns the matches it would emit.
- Real file I/O failures: `fopen`, a short `fwrite`, `fclose`. The source's writer returns 0 and its steps are comments. The data file is an in-memory byte sequence, and a missing file counts as an empty one.
- Building the record inside `handle_save_command` from its date and content arguments. The code has no copy into the record's fields, so `Append` takes a finished record.
- Truncating long content: no code copies into `content`.
- The commented-out Chinese weekday table.
- Weather, passwords, locale setup and the check that the file length is a whole multiple of the record size. None of these appear in the code.
- Concurrent writers across processes. There is no locking and nothing to verify.
- `argc == 0`, where `argv[0]` is null and only the usage message would use it. The message is not modelled.
- `DiaryStruct.StoredDate`: when a record has no zero byte at all, `strcmp` would read past the end of the record. The model stops at the record's end.
- `EntryFill.StrftimeDate`: when the text does not fit, ISO/IEC 9899:2011 (section 7.27.3.5) leaves the buffer's contents indeterminate. The contract says only that 0 is returned.
- `EXIT_FAILURE` is taken to be 1.

## Findings

| source | as written | input that shows it | evidently intended | confidence | as-written member | corrected member |
|---|---|---|---|---|---|---|
| C_Core/1.c:31-32 | `strncpy(new_entry.weekday, name, MAX_WEEKDAY_SIZE - 1)` never writes the last byte of the uninitialised weekday buffer. A name of W-1 or more letters is therefore left with no terminator before `printf(" %s")` reads it. | tm_wday = 3 ("Wednesday", 9 letters), MAX_WEEKDAY_SIZE = 10, and a nonzero byte left at index 9 | The weekday buffer is always zero-terminated and holds the name cut to W-1 letters. | not executed; medium, since diary_struct.h does not define MAX_WEEKDAY_SIZE, so the width is a parameter | `EntryFill.WednesdayLeftUnterminated` | `EntryFill.FillNewEntryTerminated` |
