# wcx_msi in Dafny

wcx_msi is a Total Commander packer plugin that opens a Windows Installer
(MSI) database as if it were an archive. The plugin discovers the
database's contents once, on the first request for a header:

- first the table names, from the `_Validation` table and `_Streams`;
- then one table object per name whose columns load;
- then the virtual files, where:
  - a table with a stream column and a string column gives one binary file
    per row;
  - every other table gives one CSV rendering, `<table>.csv`.

Every file gets a name that no earlier file has, ignoring case:

- the item name with control characters replaced;
- split into base and extension;
- retried as `base_001`, `base_002`, ... on a collision.

A `_Streams` row `Table.item` whose `Table\item` is already listed becomes an
alias of that file, named `_Streams\item`.

Tables, files and the database are reference counted. The database has:

- one enumeration cursor;
- a "last file" pin, which is the file Total Commander extracts next.

Extraction loads the pinned file's contents and writes them to a local file
in chunks of 0x1000 bytes, asking the progress callback before each chunk.

The model has these modules:

- `WideString`: UTF-16 strings, their UTF-8 encoding, the ASCII case folding
  of `_tcsicmp`, and decimal text.
- `MsiApi`: what the plugin sees of MSI.dll, as values. This covers records,
  views, column information and summary information.
- `MsiRecords` and `HandleDiagnostics`: the record helpers and the debug
  handle registry of TMsi.cpp.
- `MsiBlobs`: the `MSI_BLOB` buffer.
- `MsiColumns` and `MsiSchema`: the column classification from type tags,
  and the choice of a table's stream and name columns.
- `FileNames`: the file-safe names, the extension split, the retry
  candidates and the alias names.
- `Discovery`: specification functions for what the discovery produces.
  These are the table names, the kept tables, and the file entries in order.
- `CsvWriter` and `CsvContent`: the two-pass byte writer, where a null buffer
  is the counting pass. They are specified against the CSV contents of a
  table and of the summary information.
- `MsiSession`: the classes `MsiTable`, `MsiFile` and `MsiDatabase`, with
  their reference counts, loaders, discovery, enumeration, pin and teardown.
  The database invariant `Valid()` states that the file list is built:
  - one joining file at a time;
  - with reference chains that end in a listed, loaded file.
- `Plugin`: the entry points `ProcessFileW`, `ReadHeaderTemplate` and
  `CloseArchive`, plus the DOS time stamp and `MergePath`.

Where the code and the plugin's documentation differ, the model follows the
code. For example, `ReadHeaderTemplate` reports `E_NOT_SUPPORTED`, not
`E_END_ARCHIVE`, once the files are exhausted.

## Model

| member | source | states |
|---|---|---|
| WideString.Utf8LengthMatches | TMsiFile.cpp:72-102 | The byte count of the counting pass, taken per code unit, equals the length of the UTF-8 encoding. |
| WideString.Utf8Ascii | TMsiFile.cpp:72-102 | ASCII text encodes to itself. |
| WideString.Utf8AsciiByteOccurs | TMsiFile.cpp:72-102 | An ASCII byte such as a quote or a comma occurs in the encoding exactly when it occurs in the text. |
| WideString.Padded3Injective | TMsiFile.cpp:514-539 | Different retry numbers give different "%03u" texts. |
| WideString.Padded3RoundTrip | TMsiFile.cpp:514-539 | "%03u" text is at least three digits and reads back as its number. |
| WideString.DigitsRoundTrip | TMsiTable.cpp:16-59 | Decimal digits read back as the number they show. |
| MsiRecords.RecordGetInteger | TMsi.cpp:94-110 | Always succeeds. A null integer gives "(null)"; any other value reads back from its text; column n reads field n + 1. |
| MsiRecords.SignedTextRoundTrip | TMsi.cpp:94-110 | "%i" text reads back as the signed integer. |
| MsiRecords.NullTextIsNoNumber | TMsi.cpp:94-110 | "(null)" is not the text of any integer. |
| MsiRecords.RecordGetString | TMsi.cpp:112-146 | Succeeds exactly when the field has text and either fits the static buffer of 0x80 or the allocation succeeds. On success the value is the field's text; on failure the caller's value is kept. |
| MsiRecords.RecordGetBinary | TMsi.cpp:148-166 | True exactly when a buffer is stored, which needs a non-empty stream and a successful allocation. The size is the reported data size; a readable stream is read in full. |
| MsiBlobs.MsiBlob.constructor | TMsi.h:38-42 | A new blob has no buffer and size 0. |
| MsiBlobs.MsiBlob.Free | TMsi.h:44-50 | The destructor leaves no buffer and size 0. |
| MsiBlobs.MsiBlob.Reserve | TMsi.h:52-66 | Allocates a fresh zero-filled buffer of max(size, 1) bytes, so Reserve(0) gives size 1. A failed allocation returns ERROR_NOT_ENOUGH_MEMORY and keeps the size. |
| HandleDiagnostics.Resized | TMsi.cpp:41-52 | std::vector::resize truncates the slots or pads them with empty slots. |
| HandleDiagnostics.OpenCountAfterClear | TMsi.cpp:54-88 | Clearing an open slot lowers the open count by one; clearing an empty slot changes nothing. |
| HandleDiagnostics.HandleList.LogOpen | TMsi.cpp:41-52 | The list becomes exactly handle + 1 slots, dropping larger ones, keeping the lower ones, and recording the handle in its own slot. |
| HandleDiagnostics.HandleList.Close | TMsi.cpp:54-68 | Only an in-range slot is cleared, and every other slot stays; the open count drops accordingly. |
| HandleDiagnostics.HandleList.DumpHandles | TMsi.cpp:70-88 | Returns the number of slots still holding a handle. |
| MsiColumns.NewColumn | TMsiTable.cpp:16-59 | Classifies by the case-folded first tag character: i is Integer with size 4; s and l are String; v is Stream; anything else is Unknown. A digit in second place makes the size that number. |
| MsiColumns.SizeFromTag | TMsiTable.cpp:16-59 | A letter followed by the digits of n up to ULONG_MAX gives size n and the letter's kind. |
| MsiColumns.SizeSaturates | TMsiTable.cpp:16-59 | A size beyond ULONG_MAX saturates at ULONG_MAX. |
| MsiColumns.TagExamples | TMsiTable.cpp:16-59 | "s72", "I2", "V0" and "i" classify as string 72, integer 2, stream 0 and integer 4. |
| MsiSchema.ColumnsOfKept | TMsiTable.cpp:175-193 | The collected columns are exactly the kept entries, classified, in entry order. |
| MsiSchema.KeptEntriesExact | TMsiTable.cpp:175-193 | An entry is kept if and only if both its name and its type are non-empty; the kept entries are increasing. |
| MsiSchema.FirstOfKind | TMsiTable.cpp:127-147 | The first column of a kind, or none exactly when no column has that kind. |
| MsiSchema.StreamTableShape | TMsiTable.cpp:119-150 | Both indices are set if and only if there is a Stream column and a String column; the stream index is a Stream column and the name index a String column. |
| FileNames.MakeItemNameFileSafe | TMsiFile.cpp:488-497 | The loop in place gives the file-safe form of the name. |
| FileNames.FileSafeProperties | TMsiFile.cpp:488-497 | Keeps the length and every unit from 0x20 up, replaces control characters with '_', leaves none behind, and is idempotent. |
| FileNames.ExtensionStart | TMsiFile.cpp:226 | The extension starts at the last '.' that no path separator follows, or at the end of the name. |
| FileNames.SplitExtension | TMsiFile.cpp:224-230 | Base and extension concatenate to the name, and the extension is empty or starts with '.'. |
| FileNames.RetryCandidatesDiffer | TMsiFile.cpp:526-534 | Two different retries never match, even ignoring case. |
| FileNames.FirstDot | TMsiDatabase.cpp:160 | The position of the first '.', or none exactly when there is no dot. |
| FileNames.ReferenceExample | TMsiDatabase.cpp:160-169 | "B.x.y" refers to "B\x.y" and is listed as "_Streams\x.y": only the first dot separates table and item. |
| Discovery.FirstMatch | TMsiDatabase.cpp:405-420 | The first entry equal ignoring case, with none before it, or none exactly when nothing matches. |
| Discovery.AddNameProperties | TMsiDatabase.cpp:16-26 | Adding a name keeps the list as a prefix, adds the name exactly when it is absent ignoring case, and keeps the list free of duplicates. |
| Discovery.AddRowsProperties | TMsiDatabase.cpp:224-276 | The _Validation loop keeps the list as a prefix and free of duplicates, makes every readable row name present, and adds only row names. |
| Discovery.TableNamesProperties | TMsiDatabase.cpp:224-276 | The list stays free of duplicates and extends the old one. It holds every row name, and "_Streams" when that table opens, appended last when new. The result is success if and only if the list is non-empty. |
| Discovery.TablesFromProperties | TMsiDatabase.cpp:278-321 | The kept indices are increasing names that open, are allocated and load. ERROR_NOT_ENOUGH_MEMORY exactly when an allocation fails; on success, a name is kept if and only if it opens and loads. |
| Discovery.RowEntriesProperties | TMsiDatabase.cpp:347-383 | A stream table lists binary files of its rows in fetch order. When every row is allocated and named, it lists exactly one per row. |
| Discovery.TableEntriesProperties | TMsiDatabase.cpp:323-345 | Any other table lists exactly one CSV file when it is allocated, and none otherwise. |
| Discovery.EntriesInTableOrder | TMsiDatabase.cpp:323-345 | Files are listed table by table, in table order. |
| Discovery.CandidateExamples | TMsiFile.cpp:514-539 | The first name is "folder\base.ext"; the second is "base_001.ext" without the folder. |
| Discovery.BindCodeProperties | TMsiDatabase.cpp:347-383 | The code left by the row loop is ERROR_SUCCESS or ERROR_NOT_SUPPORTED. It is ERROR_NOT_SUPPORTED exactly when the last row whose file object is allocated has no item name. |
| Discovery.FreeNameUnique | TMsiFile.cpp:526-534 | Against the same listed names there is only one first free candidate. |
| Discovery.ChosenNameUnique | TMsiFile.cpp:205-257 | Against the same listed names, a file of a given table, type and row gets only one name: its alias, or the first free candidate. |
| Discovery.NamesFitAppend | TMsiDatabase.cpp:365-368 | Appending a file under the name its entry gets against the names before it keeps every listed name the one its entry gets. |
| Discovery.NamesFitUnique | TMsiDatabase.cpp:323-403 | The entries decide the names: two name lists in which each name is the one its entry gets against the names before it are equal. |
| Discovery.CsvNameExample | TMsiFile.cpp:249-257 | The table Property, listed alone, gives the file "Property.csv". |
| Discovery.AliasExample | TMsiDatabase.cpp:150-174 | In "_Streams" the row "B.x.y" takes the alias "_Streams\x.y" once "B\x.y" is listed. In any other table it takes no alias. |
| CsvWriter.FieldSplit | TMsiFile.cpp:72-102 | A field is an optional comma, a quote, the UTF-8 text and a quote. |
| CsvWriter.FieldLength | TMsiFile.cpp:72-102 | A field's length is (index > 0 ? 1 : 0) + 2 + the UTF-8 length. |
| CsvWriter.FieldQuotes | TMsiFile.cpp:72-102 | Between its quotes a field holds the UTF-8 text unescaped, with a quote in it exactly when the value has one. |
| CsvWriter.AppendNewLine | TMsiFile.cpp:51-59 | Always advances by 2; writes CR LF after the bytes so far only when both fit, and otherwise leaves the buffer alone. |
| CsvWriter.AppendUtf8Marker | TMsiFile.cpp:61-70 | Always advances by 3; writes EF BB BF only when it fits. |
| CsvWriter.AppendFieldString | TMsiFile.cpp:72-102 | Both passes advance by the counted length. The counting pass writes nothing; the fill pass writes exactly the field's bytes after the bytes so far. |
| CsvContent.FieldsAreJoined | TMsiFile.cpp:371-374 | Fields written with indices 0, 1, 2, ... are the comma-joined quoted values. |
| CsvContent.CsvStartsWithHeader | TMsiFile.cpp:367-377 | Every table file starts with the byte order mark and a header line of the quoted column names. |
| CsvContent.CsvError | TMsiFile.cpp:389-408 | A table file fails with ERROR_NOT_SUPPORTED exactly when a record is fetched and some column is neither integer nor string; otherwise it succeeds. |
| CsvContent.CsvPlain | TMsiFile.cpp:356-426 | When every cell prints on its own, the file is the byte order mark, the header line, and one line of joined cell texts per fetched record. |
| CsvContent.FailedStringRepeats | TMsiFile.cpp:399-402 | A string cell whose fetch fails writes again what the reused variable held. |
| CsvContent.AppendRow | TMsiFile.cpp:389-412 | One record's line, written or counted, as the row specification gives it. |
| CsvContent.AppendHeader | TMsiFile.cpp:367-377 | The byte order mark and the header line, written or counted. |
| CsvContent.RenderCsv | TMsiFile.cpp:356-426 | The counting pass returns the file's length; a fill pass into a buffer that large writes exactly the file's bytes with the same count and error. |
| CsvContent.PropertyNameOf | TMsiFile.cpp:22-44 | Ids below 20 are named by the property table, with ids 0, 10 and 17 empty; later ids have no name. |
| CsvContent.SummaryLineShape | TMsiFile.cpp:285-321 | A property gets a line exactly when its fetch succeeds with type I2, I4, FILETIME or LPSTR. The line is "name","value"; integers read back, a zero high FILETIME part is "N/A", and a string is written as fetched. |
| CsvContent.SummaryWithoutCount | TMsiFile.cpp:268-275 | Without a property count the file is the header alone. |
| CsvContent.AppendSummaryLines | TMsiFile.cpp:277-324 | The loop over ids 0..19 writes or counts exactly the summary lines. |
| CsvContent.RenderSummary | TMsiFile.cpp:259-331 | Always succeeds; both passes agree on the summary bytes and their length. |
| MsiSession.FindStringInList | TMsiDatabase.cpp:16-26 | True exactly when some entry equals the name ignoring case. |
| MsiSession.UniqueName | TMsiFile.cpp:526-534 | The name found is a candidate that no listed file has, and every earlier candidate is taken. The loop ends because each retry collides with a different listed name; that holds because candidates are not truncated to `MAX_PATH` (see the `MAX_PATH` line under Left out). |
| MsiSession.CollisionIsNew | TMsiFile.cpp:526-534 | A retry collides with a listed name that no earlier retry hit. |
| MsiSession.MsiTable.constructor | TMsiTable.cpp:64-83 | A new table has no columns, no stream or name column, and one reference. It is the streams table exactly when named "_Streams", compared case-sensitively, and it takes a reference on the database. |
| MsiSession.MsiTable.AddRef | TMsiTable.cpp:104-107 | One reference more, returned. |
| MsiSession.MsiTable.Release | TMsiTable.cpp:109-117 | One reference less; reaching zero releases the database, through the destructor. |
| MsiSession.MsiTable.LoadColumns | TMsiTable.cpp:152-199 | The result is the first failing column-information code. The columns of the kept entries are appended, and none when the counts differ. |
| MsiSession.MsiTable.Load | TMsiTable.cpp:119-150 | After the columns load, the stream column is the first Stream column. The name column is the first String column, set only when there is a stream column; on failure the indices stay. |
| MsiSession.MsiFile.constructor | TMsiFile.cpp:138-154 | A new file has no name, type, data or referenced file, holds one reference, and takes one on its table. |
| MsiSession.MsiFile.ChainAcyclic | TMsiFile.cpp:499-507 | A file never refers to itself, directly or through others, so forwarding ends. |
| MsiSession.MsiFile.FileSize | TMsiFile.cpp:504-507 | The size of the file at the end of the reference chain. |
| MsiSession.MsiFile.FileData | TMsiFile.cpp:499-502 | The blob of the file at the end of the reference chain. |
| MsiSession.MsiFile.LoadBinaryFile | TMsiFile.cpp:333-354 | Without a buffer it gives the stream's data size and reads nothing. With a buffer it reads at most the file size's worth of the stream, and a failed read leaves the buffer alone. |
| MsiSession.MsiFile.LoadCsvFile | TMsiFile.cpp:356-426 | Returns the table rendering's error and length, and writes the rendering into a buffer. |
| MsiSession.MsiFile.LoadSummaryFile | TMsiFile.cpp:259-331 | Succeeds with the summary's length, and writes the summary into a buffer. |
| MsiSession.MsiFile.LoadByType | TMsiFile.cpp:438-456 | Dispatches by type: a file without one is not supported, and a table file fails as its rendering does. On success the size is the contents' length and a buffer holds the contents; on failure the buffer stays. |
| MsiSession.MsiFile.LoadFileInternal | TMsiFile.cpp:428-467 | Loads the file at the end of the chain. The size goes to the blob when loading data and to the file size otherwise; neither changes on failure. |
| MsiSession.MsiFile.LoadFileData | TMsiFile.cpp:469-486 | Does nothing when the blob already holds the file size, so a second call is a no-op. Otherwise it reserves a fresh buffer of that size (ERROR_NOT_ENOUGH_MEMORY when that fails) and fills it, succeeding as the contents load. |
| MsiSession.MsiFile.SetUniqueFileName | TMsiFile.cpp:514-539 | Takes a candidate name that no listed file has; every earlier candidate is taken. Always succeeds. |
| MsiSession.MsiFile.SetBinaryFile | TMsiFile.cpp:205-247 | Succeeds exactly when the row has an item name, and otherwise changes nothing. A referenced _Streams row aliases the listed file, with a reference on it and the alias name. Any other row gets the first free name of its file-safe base and extension in its table's folder. |
| MsiSession.MsiFile.SetCsvFile | TMsiFile.cpp:249-257 | A table file named "<table>.csv" or its first free retry, with no handle. |
| MsiSession.MsiFile.SetSummaryFile | TMsiFile.cpp:195-203 | A summary file named "_SummaryInformation.csv" or its first free retry, holding the summary handle. |
| MsiSession.MsiFile.AddRef | TMsiFile.cpp:180-183 | One reference more, returned. |
| MsiSession.MsiFile.Release | TMsiFile.cpp:185-193 | One reference less. Reaching zero releases the referenced file and the table; no count rises, and a surviving file changes nothing else. |
| MsiSession.MsiFile.Destroy | TMsiFile.cpp:156-175 | The destructor releases the referenced file, then the table. |
| MsiSession.FileListDistinct | TMsiDatabase.cpp:323-403 | Listed files are distinct objects with distinct blobs and buffers. |
| MsiSession.TargetListed | TMsiDatabase.cpp:150-174 | Every listed file's chain ends in a listed file that refers to no other and whose size and buffer match its contents. |
| MsiSession.MsiDatabase.constructor | TMsiDatabase.cpp:31-46 | A new database has nothing discovered, no pin, empty lists and one reference. |
| MsiSession.MsiDatabase.AddRef | TMsiDatabase.cpp:105-108 | One reference more, returned. |
| MsiSession.MsiDatabase.Release | TMsiDatabase.cpp:110-118 | One reference less, returned. |
| MsiSession.MsiDatabase.FromHandle | TMsiDatabase.cpp:87-103 | The database of a valid handle, with one reference more for the caller. |
| MsiSession.MsiDatabase.UnlockAndRelease | TMsiDatabase.cpp:176-180 | Gives back the caller's reference and keeps the invariant, the discovery and the pinned file's contents. |
| MsiSession.MsiDatabase.IsFilePresent | TMsiDatabase.cpp:405-420 | The first listed file whose name matches ignoring case, or null exactly when there is none. |
| MsiSession.MsiDatabase.FindReferencedFile | TMsiDatabase.cpp:150-174 | Non-null exactly when the table is _Streams, the name has a dot, and the listed file named with its first dot replaced by a backslash exists. The alias is then "<table>\<after the dot>". |
| MsiSession.MsiDatabase.LoadTableNames | TMsiDatabase.cpp:224-276 | The names become the list the specification gives, and the result is ERROR_NO_MORE_ITEMS exactly when it stays empty. |
| MsiSession.MsiDatabase.LoadTables | TMsiDatabase.cpp:278-321 | Appends exactly the kept tables, fresh and distinct, each loaded with only the list's reference. The counts and database references grow by their number, and an allocation failure stops with ERROR_NOT_ENOUGH_MEMORY. |
| MsiSession.MsiDatabase.LoadMultipleStreamFiles | TMsiDatabase.cpp:347-383 | Appends one binary file per allocated, named row, in fetch order, and keeps the list invariants. Each file's name is the one its entry gets against the names listed before it: its alias, or the first free name of its file-safe item name. The result is the execute code, or else the code of the last allocated row's SetBinaryFile call. |
| MsiSession.MsiDatabase.LoadSimpleCsvFile | TMsiDatabase.cpp:385-403 | Appends one CSV file, named "<table>.csv" or its first free retry against the names listed before it. Returns ERROR_NOT_ENOUGH_MEMORY when the file object cannot be allocated. |
| MsiSession.MsiDatabase.LoadFiles | TMsiDatabase.cpp:323-345 | The files are exactly the entries of the tables in list order, counted, fresh, and with no buffers yet. Each file's name is the one its entry gets against the files listed before it. The result is ERROR_SUCCESS whatever the tables' codes. |
| MsiSession.MsiDatabase.ReleaseLastFile | TMsiDatabase.cpp:134-148 | The pin moves to the given file: the old pin loses one reference, the new one gains one, and no other file, table or database count changes. |
| MsiSession.MsiDatabase.LastFile | TMsiDatabase.cpp:422-427 | The pinned file, with one reference more for the caller. |
| MsiSession.MsiDatabase.Discover | TMsiDatabase.cpp:188-205 | Discovery yields the names, the kept tables and their files, each file named as its entry gets against the files before it. The cursor then stands at the first file and nothing is pinned. |
| MsiSession.MsiDatabase.GetNextFile | TMsiDatabase.cpp:182-222 | Discovery runs on the first call only. Files then come in list order, one per call, then null. Each returned file has its size loaded, carries the caller's and the pin's references, and becomes the pin while the old pin is released. |
| MsiSession.MsiDatabase.CloseAllFiles | TMsiDatabase.cpp:120-132 | The pin is released and both lists emptied, with both counts zero; the table names stay. A file loses the list's reference and the pin's: exactly those when no other listed file refers to it, at least those otherwise. A table loses at least the list's reference, and the database's count never rises. |
| MsiSession.MsiDatabase.DeleteFileList | TMsi.h:190-207 | Every file is unlinked and released once, leaving the list empty. A file that no other listed file refers to loses exactly one reference; any other loses at least one. No table or database count rises. |
| MsiSession.MsiDatabase.DeleteTableList | TMsi.h:190-207 | Every table is unlinked and released once, losing exactly one reference, and the list is left empty. The database's count never rises. |
| Plugin.DosYear | wcx_msi.cpp:66 | The year field, (year - 60) in 7 bits, is the years since 1980 modulo 128. |
| Plugin.DosTimeFields | wcx_msi.cpp:58-72 | For a representable time the fields are copied, the seconds halved, and the year counted from 1980. |
| Plugin.UnpackPack | wcx_msi.h:100-108 | Fields that fit their bit widths fill 32 bits and read back unchanged. |
| Plugin.DosTimeRoundTrip | wcx_msi.cpp:58-72 | The DOS stamp of a representable time reads back as its calendar fields, to the even second. |
| Plugin.MergePathParts | wcx_msi.cpp:167-188 | The merged path is the path, a backslash exactly when a name follows a path not ending in one, and the name. |
| Plugin.MergePathCases | wcx_msi.cpp:167-188 | Both empty gives empty, a path alone is kept, a name alone is the whole path, and otherwise the result is path + '\' + name. |
| Plugin.Chunk | wcx_msi.cpp:245-249 | The next write is a full chunk of 0x1000 or what remains, and is empty exactly at the end. |
| Plugin.ChunkAsWrittenAgrees | wcx_msi.cpp:245-249 | Below the top chunk of the DWORD range, the source's arithmetic gives the same chunk. |
| Plugin.ChunkOverrun | wcx_msi.cpp:248-266 | At the top of the DWORD range the source asks for more than remains, and the offset wraps to 0. |
| Plugin.ExtractWritesPrefix | wcx_msi.cpp:243-267 | The local file receives the data in order without gaps, and all of it exactly when the result is 0. The result is 0, E_EWRITE, or E_NOT_SUPPORTED when the progress callback stops the loop. |
| Plugin.ExtractComplete | wcx_msi.cpp:243-267 | A host that lets the loop go on and writes every byte receives all the data, with result 0. |
| Plugin.WriteOut | wcx_msi.cpp:243-267 | The loop over a blob gives the result and the bytes of the extraction specification. |
| Plugin.ProcessFile | wcx_msi.cpp:205-288 | Errors: a bad handle, an unknown operation or no pin give E_NOT_SUPPORTED, and a failed CreateFile gives E_ECREATE. Test and skip return 0 with nothing written. Extraction runs the loop over the pinned file's loaded contents, or nothing when loading fails. All references are given back. |
| Plugin.ReadHeader | wcx_msi.cpp:317-340 | The next file's header: its name, the archive's DOS time, its size as both sizes, and FILE_ATTRIBUTE_ARCHIVE, with result 0. Once exhausted, E_NOT_SUPPORTED and no header; discovery happens on the first call. |
| Plugin.CloseArchive | wcx_msi.cpp:133-147 | Releases every file and table, empties both lists and zeroes the counts; returns E_NOT_SUPPORTED for a bad handle. Each file loses the list's and the pin's references, exactly those when no other file refers to it. Each table loses at least one reference, and the database at least one. |

## Left out

- Locking: the critical section of `FromHandle` and `UnlockAndRelease` is not modelled, and neither are the interlocked counters. A handle is either a valid database or null, and null stands for every handle whose magic signature check fails.
- Reference counts are unbounded integers. The wrap-around of the 32-bit interlocked counters is not modelled.
- Memory deallocation is not modelled. A destructor is modelled by what it releases.
- Debug-only code is not modelled: the leak checks. Inside `LoadCsvFile`, the calls to the handle registry are not modelled either; the registry is modelled on its own.
- The MSI.dll calls are values of `MsiApi`, not calls: opening a view, executing it, fetching records, the column information and the summary information. The same holds for `CreateFile` and `WriteFile`, which are fields of `Plugin.Host`.
- `OpenArchive`, `CanYouHandleThisFile`, `GetPackerCaps`, the `PackFiles`, `DeleteFiles` and `ConfigurePacker` stubs, `SetChangeVolProc` and `SetProcessDataProc` are outside the core. Config.cpp and DllMain.cpp are not part of this model.
- The ANSI wrappers of the entry points are left out, including the ANSI conversion of the path passed to the ANSI progress callback. TStringConvert.inl is not part of this model.
- Locale time: the conversion of the archive's FILETIME to local calendar time is the parameter `toLocal` of `Plugin.ReadHeader`. The locale's date and time formats are fields of `MsiApi.Locale`.
- `MAX_PATH` and header-buffer truncation of names and paths. In particular, `MergePath` and the copy of the name into the header are not truncated.
- `SetBinaryFile` passes the item name to `StringCchPrintf` as a format string. This is modelled as a plain copy.
- FileNames.ExtensionStart: `GetFileExtension` comes from utils.h, which is not part of this model. The model assumes it returns the last '.' that no path separator follows.
- Plugin.AddBackslash: its behaviour is assumed for the same reason, because utils.h is not part of this model.
- The way the summary file gets listed is not modelled. `SetSummaryFile` has no caller in the repository's code, so discovery does not list a summary file. `SetSummaryFile` and `LoadSummaryFile` are modelled on their own.
- `TMsiFile::Name` is a plain field read and is not modelled.
- CsvContent.PropertyNameOf: property ids 0, 10 and 17 have no name in the plugin's table (NULL). They are given the empty name.
- MsiSession.MsiDatabase.GetNextFile: requires that the cursor is not dangling. After `CloseAllFiles` with the cursor on an entry, the source would read a freed list entry.
- Plugin.ReadHeader: requires that the cursor is not dangling, for the same reason.
- MsiSession.MsiDatabase.CloseAllFiles, MsiSession.MsiDatabase.DeleteFileList and Plugin.CloseArchive: state only a bound, not the exact count, for a file that another listed file refers to and for each table. A release may destroy a file, and the destroyed file then releases the file it refers to and its table. How many such releases happen depends on the counts of the referring files. `DeleteTableList`, on its own, is exact.
- MsiSession.MsiFile.LoadCsvFile and MsiSession.MsiFile.LoadSummaryFile: `fileSize` and `MSI_BLOB::cbData` are DWORDs in the source, but unbounded `nat`s here. The casts `(DWORD)(pbBufferPtr - pbBufferBegin)` at TMsiFile.cpp:329 and TMsiFile.cpp:424 are not modelled. A rendering of 4 GiB or more would wrap in the source; here its size is its full length.
- MsiRecords.RecordGetString: models the failure of `new TCHAR[ccValue]` for a value over 0x80 units (TMsi.cpp:124-131), but every session caller passes a successful allocation. Those callers are `MsiSession.MsiDatabase.LoadTableNames`, `MsiSession.MsiFile.SetBinaryFile`, `Discovery.RowName`, `Discovery.ItemName`, the stream-row loading in `LoadMultipleStreamFiles`, and the CSV rendering in `CsvContent.Cell`, `CsvContent.AppendRow` and `CsvContent.RenderCsv`. So in the session a long string never fails to allocate.
- MsiSession.MsiDatabase.LoadFiles: discards the codes of `LoadMultipleStreamFiles` and `LoadSimpleCsvFile`, as the source does. Both codes are modelled.
- Plugin.ProcessFile: requires a host whose successful `WriteFile` writes at least one and at most all of the bytes it is given (`Plugin.Writes`). A host that reports success after writing zero bytes would make the source loop for ever.
- Plugin.WriteOut: uses the corrected chunk size `Plugin.Chunk`. The DWORD wrap of the source is the finding below.

## Findings

| source | as written | input that shows it | evidently intended | confidence | as-written member | corrected member |
|---|---|---|---|---|---|---|
| wcx_msi.cpp:248-249 | `dwFileOffset + dwBytesToWrite` is a DWORD sum, so it wraps near 2^32 and the "remaining" branch is skipped. The offset at line 266 wraps too. | A blob of 0xFFFFFFFF bytes at offset 0xFFFFF000: the sum wraps to 0, so a full 0x1000 is asked for while only 0xFFF remain; the offset then wraps to 0. | Write min(0x1000, remaining) every time, without overflow. | not executed | Plugin.ChunkOverrun | Plugin.ExtractWritesPrefix |
