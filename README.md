# cpp-worklog core, modelled in Dafny

cpp-worklog is a command line work log. Each log has an id, a subject, a
description, a creation time and a set of tags. It is stored as a small text
file under `.worklog/logs/<id>`, and the ids come from a counter file
`.worklog/next_id`. This project models the core of that program and proves
properties about it:

- **string toolkit** (`atl/string.*`): `find`, `Split`, `Join`, `JoinStr`,
  `TrimLeft`, `TrimRight`, `Trim`, `TrimSpace` and `CreateSnippet`;
- **status values** (`gtl/status.h`);
- **text form of a log** (`serializer.cc`);
- **filter language** and the filters it builds (`filter.cc`);
- **work log space and id counter** (`worklog.cc`);
- **record storage** (`storage.cc`);
- **editor template, validation and directory index** (`utils.cc`);
- **command registry** (`command.cc`).

One module per source file:

| module | file | models |
|---|---|---|
| `Wrappers` | `wrappers.dfy` | `Option` and `Result` |
| `GtlStatus` | `status.dfy` | `Status` and `StatusOr` |
| `Strings` | `strings.dfy` | `atl/string.*` |
| `StringOrder` | `string_order.dfy` | the order `std::string` compares in, and the ascending sequence a `std::set<std::string>` is visited in |
| `Numbers` | `numbers.dfy` | `std::to_string`, `std::atoi` and `std::stoi` |
| `Time` | `time.dfy` | a `Calendar` holding the three time helpers, which stay uninterpreted |
| `Files` | `files.dfy` | the file system as a `Disk` snapshot, and a `FileStore` class whose methods change it |
| `Worklog`, `Serializer`, `Filters`, `Storage`, `Utils`, `Commands` | one file each | the six program files |

## Form of the model

- **Pure code** becomes functions with lemmas about them: `Status`,
  validation, `Serialize`, the filter predicates and the registry lookup.
- **Loops** become methods whose loops carry invariants, and each is proved
  equal to a specification function:
  - `Split`, proved against `Pieces`;
  - `Join`, proved against `Joined`;
  - `Unserialize` and its inner tag loop, proved against the fold
    `Unserialized`;
  - `ParseFilter`;
  - the tag score of `TagsFilter`.
- **In-place array code** stays on arrays:
  - `ApplyFilter` (erase/remove_if) compacts an `array<Log>` in place;
  - the `std::sort` of `IndexFromDir` is an in-place insertion sort.
- **State-changing code** is a class plus a function on the disk snapshot,
  which the methods are proved to equal:
  - `MkDir`, `FileExists`, `FileReadContent` and `FileWriteContent` on a
    `FileStore`;
  - `MaybeSetupWorklogSpace` and `NextId` (`SetupOn`, `NextIdOn`);
  - the `Storage` methods (`LoadOn`, `SaveOn`, `UpdateOn`).
  - The lemmas about sequences of calls are stated on those functions.

## Behaviour the model keeps from the code

- `Split` drops the empty piece after a trailing delimiter.
- With `ignore_empty`, `Split` drops every empty piece.
- A text made only of cutset characters comes back from `TrimLeft`,
  `TrimRight`, `Trim` and `TrimSpace` unchanged, not empty, because
  `find_first_not_of` answers `npos` on it.
- `Unserialize` treats every line with `=` as a tag line, so a subject or
  description line containing `=` is lost. A line that splits on `=` into
  other than two pieces is ignored. So are an empty trimmed name or value, an
  unknown tag name and a date that does not parse.
- `NextId` reads the counter with `atoi`, so a counter file without leading
  digits hands out id 0.
- `FileReadContent` opens a directory too (`std::ifstream` does on POSIX
  systems) and reads nothing from it. So a directory at the counter path hands
  out id 0 and changes nothing, and a directory at a record path loads as a
  blank log under the requested id.
- `Save` assigns the id to the caller's log before checking for a collision.
  It reports success even when the record file could not be written.
- `LoadById` takes the id from the request, not from the file.
- `ParseFilter` ignores the `-` on a `subject` key and ignores unknown keys.
  A log is kept by `TagsFilter` only when it carries more required tags than
  excluded ones.
- Where the behaviour description and the code disagree, the model follows
  the code. A path whose last component is not a number makes `std::stoi`
  throw out of the `WalkDir` callback in `IndexFromDir`. The exception is not
  caught there, so the whole index fails (a `Failure` result); the entry is
  not skipped.

## Model

| member | source | states |
|---|---|---|
| GtlStatus.Status.ToString | gtl/status.h:56-61 | the text is "OK" exactly when the status is ok; otherwise it is `ERROR '` + message + `'` |
| GtlStatus.OkStatus | gtl/status.h:47 | the default status is ok, with an empty message |
| GtlStatus.FromCode | gtl/status.h:48 | a status built from a code alone is ok iff the code is OK; its message is empty |
| Strings.FindFrom | atl/string.cc:44 | `find` from `from` answers an index at or after `from` where the whole pattern fits |
| Strings.FindFromSpec | atl/string.cc:44 | the index found holds an occurrence and is the first at or after `from`; no index at all means no occurrence from `from` on |
| Strings.FindOccurs | atl/string.cc:44 | `find` from the start succeeds iff the pattern occurs somewhere; the empty pattern occurs in every text |
| Strings.FindCharFound | atl/string.cc:44 | searching for one character succeeds iff the character is in the text |
| Strings.Split | atl/string.cc:35-63 | the loop returns exactly the pieces between delimiters, left to right, with the skipping of empty pieces and the final-piece rule |
| Strings.EmptyDelimiterStalls | atl/string.cc:43-56 | with an empty delimiter `find` answers `pos` itself, so the loop never advances; this is why Split requires a non-empty delimiter |
| Strings.SplitEmptyText | atl/string.cc:35-63 | splitting the empty text gives no pieces |
| Strings.SplitIgnoreEmptyNoEmptyPiece | atl/string.cc:49-60 | with ignore_empty, no piece is empty |
| Strings.SplitPiecesAvoidDelimiter | atl/string.cc:44-55 | no piece contains a one-character delimiter |
| Strings.SplitPiecesChars | atl/string.cc:54-59 | every character of every piece comes from the text |
| Strings.SplitNonEmpty | atl/string.cc:58-60 | without ignore_empty, a non-empty text yields at least one piece |
| Strings.SplitWhole | atl/string.cc:58-60 | a non-empty text without the delimiter is a single piece, itself |
| Strings.SplitCons | atl/string.cc:43-56 | splitting `x` + delimiter + `y`, with no delimiter in `x`, gives `x` (dropped when empty and ignore_empty is set) and then the pieces of `y` |
| Strings.SplitJoinRoundTrip | atl/string.cc:35-63 | joining the pieces of a split on a character gives the text back, except for one trailing delimiter, which is lost |
| Strings.SplitAfterTerminated | atl/string.cc:35-63 | splitting delimiter-terminated items that avoid the delimiter, followed by more text, gives the items and then the pieces of the rest |
| Strings.SplitTerminatedRoundTrip | atl/string.cc:35-63 | re-terminating the pieces of a delimiter-terminated text rebuilds the text |
| Strings.Join | atl/string.h:17-34 | the loop emits each item followed by the delimiter, except the last, which is emitted alone |
| Strings.JoinedSnoc | atl/string.h:22-31 | joining one more item appends the delimiter and the item |
| Strings.JoinStr | atl/string.h:36-41 | JoinStr of two strings is the first, the delimiter and the second |
| Strings.FirstNotOf | atl/string.cc:70 | `find_first_not_of` answers the first index from `from` outside the cutset, or none when all are inside |
| Strings.LastNotOf | atl/string.cc:83 | `find_last_not_of` answers the last index below the bound outside the cutset, or none when all are inside |
| Strings.TrimLeft | atl/string.cc:65-76 | an empty or all-cutset text is unchanged; otherwise the result is the suffix that starts at the first non-cutset character, and everything removed is cutset |
| Strings.TrimRight | atl/string.cc:78-89 | an empty or all-cutset text is unchanged; otherwise the result is the prefix that ends at the last non-cutset character, and everything removed is cutset |
| Strings.Trim | atl/string.cc:91-97 | an all-cutset text is unchanged; otherwise the result is a slice of the text that begins and ends outside the cutset, with only cutset characters removed on either side |
| Strings.TrimComposes | atl/string.cc:96 | TrimRight after TrimLeft has the properties Trim promises |
| Strings.TrimAround | atl/string.cc:91-103 | trimming cutset padding around a text that starts and ends outside the cutset gives that text |
| Strings.TrimSpace | atl/string.cc:99-103 | a text of white space only (space, tab, CR, LF) comes back unchanged; any other text becomes the slice of it that begins and ends outside white space, with only white space removed on either side |
| Strings.TrimSpaceOfTrimmed | atl/string.cc:99-103 | TrimSpace leaves a text alone when it starts and ends outside the whitespace cutset |
| Strings.TrimSpaceIdempotent | atl/string.cc:99-103 | TrimSpace twice is TrimSpace once |
| Strings.CreateSnippet | atl/string.cc:15-25 | a text longer than `num_chars - len(filler)` is cut to that length and the filler is appended, so the result is at most `num_chars` long; a shorter text is unchanged; when `num_chars < len(filler)` the unsigned difference wraps, and the text comes back unchanged provided `len(text) + len(filler) <= 2^32` (a longer text would be cut at the wrapped length) |
| StringOrder.LessIsStrictTotalOrder | serializer.cc:15 | the comparison of `std::string` that orders a `std::set` is irreflexive, transitive and total |
| StringOrder.LeastExists | serializer.cc:15 | a non-empty set of strings has a smallest element |
| StringOrder.LeastUnique | serializer.cc:15 | the smallest element is unique |
| StringOrder.Least | serializer.cc:15 | the element chosen is in the set and below every other element |
| StringOrder.Ordered | serializer.cc:15 | iterating a set visits each element once, in strictly ascending order |
| StringOrder.OrderedElements | serializer.cc:15 | the visited elements are exactly the set |
| StringOrder.OrderedPair | serializer.cc:15 | a two-element set is visited smaller element first |
| Numbers.IntToString | worklog.cc:92 | `to_string` writes an optional minus, then digits only |
| Numbers.Stoi | utils.cc:49 | `stoi` answers a value within the range of `int`, equal to the leading integer of the text; it throws invalid_argument exactly when there is no leading integer |
| Numbers.LeadingIntOfToString | worklog.cc:91-92 | reading back what `to_string` wrote gives the same integer |
| Numbers.LeadingIntOfToStringThen | utils.cc:49 | the same holds when the number is followed by text that does not start with a digit |
| Numbers.LeadingIntSkipsBlank | worklog.cc:91 | a leading blank does not change the integer read |
| Numbers.StoiOfToString | utils.cc:49 | `stoi` inverts `to_string` on the range of `int` |
| Numbers.AtoiOfToString | worklog.cc:91-92 | `atoi` inverts `to_string` |
| Numbers.AtoiOfDigit | worklog.cc:64 | the counter text "1" reads as 1 |
| Numbers.IntToStringInjective | storage.cc:16-17 | distinct integers have distinct decimal texts |
| Files.WriteChangesOnlyTarget | atl/file.cc:72-83 | writing a file changes that file only, keeps files and directories apart, and makes the content readable when the path can be written and read |
| Files.FileStore.constructor | atl/file.cc:55-99 | the store starts with the given snapshot |
| Files.WriteElsewhere | atl/file.cc:72-83 | writing one file leaves what every other path reads as, and whether it can be written |
| Files.FileStore.Exists | atl/file.cc:67-70 | FileExists answers true iff a file or a directory is at the path |
| Files.FileStore.Read | atl/file.cc:85-99 | FileReadContent gives something iff the path is a readable file or directory: a file's content, or the empty text for a directory |
| Files.FileStore.Write | atl/file.cc:72-83 | FileWriteContent answers whether the path can be opened for writing, and changes exactly that file's content when it can |
| Files.FileStore.MkDir | atl/file.cc:55-57 | MkDir answers true iff the directory did not exist; afterwards it exists and files and directories stay apart |
| Worklog.Config.NextIdPath | worklog.cc:16-18 | the counter path is the meta directory, a slash and the counter name |
| Worklog.DefaultNextIdPath | worklog.h:20-26 | by default the counter lives at `.worklog/next_id` |
| Worklog.Validate | worklog.cc:20-30 | a log is valid iff subject and description are non-empty and the timestamp is valid; every failure is INTERNAL; empty text is reported before a bad date, each with its message |
| Worklog.SetupOn | worklog.cc:53-67 | setup succeeds iff neither directory existed and they differ. An existing meta directory fails with its message and leaves the disk alone; otherwise both directories exist afterwards. A failure writes no file, and a success writes "1" to the counter when it can |
| Worklog.MaybeSetupWorklogSpace | worklog.cc:53-67 | the method's status and new disk are those of SetupOn |
| Worklog.IsInWorklogSpace | worklog.cc:69-73 | the disk is a work log space iff the meta directory, the logs directory and the counter file are all present, each as a file or a directory |
| Worklog.NextIdOn | worklog.cc:75-95 | NextId changes at most the counter file. With no counter file it writes "2" and answers 1. An unreadable counter gives nothing and changes nothing. Otherwise it answers `atoi` of the content and stores that value plus one |
| Worklog.NextId | worklog.cc:75-95 | the method's answer and new disk are those of NextIdOn |
| Worklog.NextIdOfNonNumeric | worklog.cc:91 | counter content without a leading integer is handed out as id 0 |
| Worklog.NextIdOfDirectory | worklog.cc:86-94 | a readable directory at the counter path reads as the empty text, so NextId hands out 0 and changes nothing |
| Worklog.NextIdCounts | worklog.cc:86-94 | a counter holding n hands out n and then holds n + 1 |
| Worklog.NextIdFromNothing | worklog.cc:79-84 | with no counter file, NextId hands out 1 and leaves the counter at 2 |
| Worklog.CounterAlongRun | worklog.cc:75-95 | along successive calls, a counter at n moves to n + 1 per call |
| Worklog.IdAlongRun | worklog.cc:75-95 | along successive calls from a counter at n, call i hands out n + i |
| Worklog.SuccessiveIds | worklog.cc:75-95 | from a counter holding n, successive calls hand out n, n + 1, n + 2, ... |
| Worklog.FirstCallFromNothing | worklog.cc:79-84 | the first call with no counter file hands out 1 and leaves a counter at 2 |
| Worklog.SuccessiveIdsFromNothing | worklog.cc:75-95 | with no counter file, successive calls hand out 1, 2, 3, ... |
| Worklog.SetupStartsCounter | worklog.cc:53-73 | a successful setup with a usable counter path enters a work log space with the counter at 1 |
| Serializer.Serialize | serializer.cc:11-20 | the text is seven lines, each ended by a line feed: `date=` and the formatted time, `tags=` and the tags joined by ", " in ascending order, a blank, the trimmed subject, a blank, the trimmed description and a blank; the id is not written |
| Serializer.SevenLines | serializer.cc:14-17 | the four streamed writes of Serialize are those seven terminated lines |
| Serializer.IsTag | serializer.h:22-24 | a line is a tag line iff it contains `=` |
| Serializer.TagOf | serializer.cc:33-46 | a tag line that is used has a non-empty trimmed name and value |
| Serializer.TagOfPieces | serializer.cc:33-46 | a tag line is ignored iff it does not split into exactly two pieces at `=` or its trimmed name or value is empty; otherwise it gives the two trimmed pieces |
| Serializer.IgnoredTagLine | serializer.cc:32-67 | a `=` line that does not split into two pieces, has an empty trimmed name or value, or names neither `tags` nor `date` leaves the log unchanged |
| Serializer.ThreePiecesIgnored | serializer.cc:33-37 | `a=b=c` splits into three pieces and leaves the log unchanged |
| Serializer.TagSetCons | serializer.cc:51-54 | the tags a `tags` value adds are the trimmed comma-separated pieces |
| Serializer.Fold | serializer.cc:31-73 | reading lines keeps the id, only adds tags, keeps a subject once set, and only appends to the description |
| Serializer.ParseLineKeeps | serializer.cc:32-72 | one line keeps the id, only adds tags, keeps a subject once set and only appends to the description |
| Serializer.FoldDate | serializer.cc:56-64 | the creation time stays, or becomes the parsed value of some `date` line |
| Serializer.Unserialized | serializer.cc:22-76 | Unserialize starts with id 0 and time 0; the time stays 0 or is the parsed value of some `date` line |
| Serializer.TagLineKeepsText | serializer.cc:32-67 | a line with `=` never changes the subject or the description |
| Serializer.OnlyTagLinesSetData | serializer.cc:32-46 | only a line containing `=` can yield a tag |
| Serializer.FoldSubject | serializer.cc:68-71 | the first non-empty line without `=` becomes the subject, and each later line without `=` is appended to the description with a line feed |
| Serializer.FoldDescription | serializer.cc:70-72 | once a subject is set, each line without `=` is appended to the description with a line feed |
| Serializer.UnserializedText | serializer.cc:22-76 | the subject is the first non-empty line of the text without `=`; the description is every later line without `=`, each followed by a line feed |
| Serializer.FoldAppend | serializer.cc:31-73 | reading two blocks of lines is reading the first, then the second |
| Serializer.FoldTextKeepsData | serializer.cc:68-72 | text lines leave the subject, the tags and the time alone |
| Serializer.TagsOfJoined | serializer.cc:48-55 | reading a tags value written by Join with ", " gives back exactly the set of tags |
| Serializer.TagOfTagLine | serializer.cc:33-46 | a `name=value` line with trimmed parts and no other `=` yields that name and value |
| Serializer.SerializedLines | serializer.cc:14-17 | for a faithfully written log, the text splits into the date line, the tags line listing the tags in ascending order, a blank, the trimmed subject, a blank, and then the lines of the trimmed description |
| Serializer.DateLine | serializer.cc:56-64 | a date line sets the time to the parsed date when it parses, and changes nothing otherwise |
| Serializer.TagsLine | serializer.cc:48-55 | a tags line written by Join adds exactly the joined tags |
| Serializer.SubjectLines | serializer.cc:68-71 | a blank, the subject and a blank make the subject and leave a single line feed in the description |
| Serializer.HeaderLines | serializer.cc:14-16 | reading the date, tags and subject lines gives the subject, the tags and the parsed date |
| Serializer.BodyFold | serializer.cc:17 | reading the description block appends the description and two line feeds |
| Serializer.RoundTrip | serializer.cc:11-76 | for a log Serialize writes faithfully, Unserialize of Serialize gives the trimmed subject, the tags, the parsed date and the trimmed description framed by line feeds |
| Serializer.SubjectRoundTrip | serializer.cc:16 | the subject comes back trimmed |
| Serializer.TagsRoundTrip | serializer.cc:15 | the tags come back unchanged |
| Serializer.DescriptionRoundTrip | serializer.cc:17 | a description that is not all whitespace comes back equal up to trimming |
| Serializer.EmptyDescriptionNotRestored | serializer.cc:17 | an empty description comes back as three line feeds, which trimming leaves as they are, so the round trip differs for it |
| Serializer.DateRoundTrip | serializer.cc:14 | the date comes back when parsing the formatted date gives the time |
| Serializer.SerializeIgnoresId | serializer.cc:11-20 | the id is not written |
| Serializer.InsertTrimmed | serializer.cc:51-54 | the loop adds the trimmed form of every piece to the tags |
| Serializer.ApplyTagLine | serializer.cc:32-67 | handling a tag line in place does what one step of the fold does |
| Serializer.Unserialize | serializer.cc:22-76 | the loop over the lines yields the log the fold specifies |
| Filters.QueryOfShape | filter.cc:18-42 | a tag or subject query comes only from a token that splits on `:` into two non-empty pieces, and its value is the second piece. A tag query's key is `tag`, or `-tag` when it is negated; a subject query's key is `subject` or `-subject` |
| Filters.QueriesOf | filter.cc:17 | each token gives its own query |
| Filters.ParseFilter | filter.cc:11-46 | the loop builds the filter that the query of each space-separated token builds |
| Filters.BuildTags | filter.cc:33-39 | the required tags are exactly the values of the non-negated tag queries |
| Filters.BuildNegativeTags | filter.cc:34-36 | the excluded tags are exactly the values of the negated tag queries |
| Filters.BuildSubject | filter.cc:40-41 | the subject is empty without subject queries; otherwise it is the value of the last one |
| Filters.TagTokens | filter.cc:18-39 | `tag:v` requires v and `-tag:v` excludes it |
| Filters.SubjectTokens | filter.cc:18-41 | `subject:v` and `-subject:v` both set the subject to v |
| Filters.DoubleColon | filter.cc:18 | empty pieces are dropped, so `tag::v` requires v |
| Filters.OtherShapesIgnored | filter.cc:19-22 | a token without exactly two non-empty `:` pieces changes nothing |
| Filters.ApplyFilter | filter.cc:48-51 | the array's first n entries become the kept logs, in their old order |
| Filters.FilteredElements | filter.cc:48-51 | a log survives iff it was there and is kept; the list never grows |
| Filters.FilteredAppend | filter.cc:48-51 | filtering distributes over concatenation |
| Filters.FilteredIdempotent | filter.cc:48-51 | filtering twice with the same predicate is filtering once |
| Filters.FilteredPartition | filter.cc:48-51 | the logs a predicate keeps and the logs its negation keeps together are all the logs |
| Filters.Contains | filter.cc:53-57 | answers whether the needle is in the set |
| Filters.SubjectFilter | filter.cc:59-64 | a log is kept iff the filter's subject occurs in its subject |
| Filters.EmptySubjectKeepsAll | filter.cc:59-64 | an empty subject filter keeps every log |
| Filters.TagsScore | filter.cc:67-79 | the loop counts the log's required tags minus its excluded tags |
| Filters.TagsFilter | filter.cc:66-80 | a log is kept iff it carries more required tags than excluded tags |
| Filters.NoRequiredTagKeepsNothing | filter.cc:66-80 | a filter with no required tag keeps no log |
| Filters.UntaggedRejected | filter.cc:66-80 | a log without tags is never kept |
| Filters.ConflictingTagCancels | filter.cc:69-77 | a tag both required and excluded does not change the score |
| Filters.RequiredTagKeeps | filter.cc:66-80 | a log with a required tag and no excluded tag is kept |
| Filters.OnlyValidFilter | filter.cc:83-88 | keeps a log iff Validate accepts it |
| Filters.OnlyInvalidFilter | filter.cc:90-95 | keeps a log iff OnlyValidFilter does not |
| Filters.ValidityPartitions | filter.cc:83-95 | the valid logs and the invalid logs together are all the logs |
| Storage.RecordPath | storage.cc:16-17 | a record lives at the logs directory, a slash and the decimal id |
| Storage.RecordPathInjective | storage.cc:16-17 | different ids have different record files |
| Storage.LoadOn | storage.cc:15-33 | loading succeeds iff the record can be read, and then gives the log Unserialize makes of its content with the requested id. A missing record is NOT_FOUND; an unreadable one is INTERNAL |
| Storage.Storage.constructor | storage.h:13 | the storage keeps the configuration it is given |
| Storage.Storage.LoadById | storage.cc:15-33 | the method answers what LoadOn specifies |
| Storage.SaveOn | storage.cc:35-60 | a log with an id is INVALID_ARGUMENT and changes nothing. A counter failure is INTERNAL and changes nothing. Otherwise the log takes the new id, and every status is OK, INVALID_ARGUMENT or INTERNAL |
| Storage.Storage.Save | storage.cc:35-60 | the method's status, caller's log and new disk are those of SaveOn |
| Storage.SaveTouchesCounterAndRecord | storage.cc:41-57 | Save changes at most the counter file and the new record |
| Storage.SaveNeverOverwrites | storage.cc:52-57 | every file other than the counter keeps its content through Save |
| Storage.SaveThenLoad | storage.cc:15-57 | after a successful Save, LoadById of the new id gives what Unserialize makes of the stored text, under that id |
| Storage.SaveThenLoadSerializable | storage.cc:15-57 | for a faithfully serializable log, Save then LoadById gives back its trimmed subject, its tags, its trimmed description and the new id |
| Storage.SaveCollision | storage.cc:46-55 | a record already at the new id makes Save fail with INTERNAL, after the log took the id and the counter moved on |
| Storage.SaveOkWhenUnwritable | storage.cc:57-59 | Save reports success even when the record cannot be written, and the record is then missing |
| Storage.UpdateOn | storage.cc:62-78 | a log without an id is INVALID_ARGUMENT; a missing record is INTERNAL with its message; success iff the id is positive and the record exists |
| Storage.Storage.Update | storage.cc:62-78 | the method's status and new disk are those of UpdateOn |
| Storage.UpdateTouchesOnlyRecord | storage.cc:68-77 | a successful Update rewrites only the log's own record and never creates a file |
| Storage.UpdateThenLoad | storage.cc:62-78 | after Update, LoadById reads back the updated log under its id |
| Storage.LoadOfDirectory | storage.cc:19-31 | a readable directory at a record's path reads as the empty text, so LoadById gives a blank log under the requested id |
| Storage.RecordNotCounter | storage.cc:49-50 | with the counter file outside the logs directory, no record path is the counter's |
| Storage.SaveAfterNextId | storage.cc:41-57 | after NextId gave a new log its id, the rest of Save leaves the counter file as NextId left it |
| Storage.SaveStep | storage.cc:35-60 | saving a new log with the counter at n gives it id n and leaves the counter at n + 1, whether or not the record was written |
| Storage.FirstSave | storage.cc:41-47 | saving a new log with no counter file gives it id 1 and leaves the counter at 2 |
| Storage.CounterAlongSaves | storage.cc:35-60 | along successive Saves of new logs, a counter at n moves to n + 1 per Save |
| Storage.SavedNewStep | storage.cc:35-60 | one Save of a new log moves the counter from m to m + 1 |
| Storage.CounterAfterFirstSave | storage.cc:41-47 | a run of Saves that starts with no counter file has the counter at 2 after its first Save |
| Storage.SaveIdAlongRun | storage.cc:35-60 | along successive Saves of new logs from a counter at n, Save i gives id n + i |
| Storage.SaveIdFromNothing | storage.cc:35-60 | along successive Saves of new logs with no counter file at first, Save i gives id i + 1 |
| Storage.SuccessiveSavesFromNothing | storage.cc:35-60 | with no counter file at first, successive Saves of new logs give them the ids 1, 2, 3, ... |
| Storage.LoadIdFromPath | storage.cc:30-31 | the id comes from the request: equal record texts load as equal logs under their own ids |
| Utils.TemplateTagsLine | utils.cc:23 | the template's tags are written as "tag1, tag2" |
| Utils.SerializeTrimmed | serializer.cc:11-20 | Serialize of a trimmed log writes subject and description as they are |
| Utils.Template | utils.cc:17-27 | the template is the date line, "tags=tag1, tag2", a blank, "Title here", a blank, "Description here" and a blank, each ended by a line feed |
| Utils.PostEditValidation | utils.cc:29-41 | answers 0 iff the unserialized content is valid, and -1 otherwise |
| Utils.EmptyEditRejected | utils.cc:29-41 | empty editor content is rejected |
| Utils.PlainLogSerializable | serializer.cc:11-20 | a log with trimmed, single-line, `=`-free text and plain tags is written faithfully |
| Utils.TemplateSerializable | utils.cc:17-27 | the template log is written faithfully whenever the formatted date is plain |
| Utils.SerializedPassesValidation | utils.cc:29-41 | the serialized form of a faithfully written log with a valid date passes validation |
| Utils.TemplatePassesValidation | utils.cc:17-41 | the unedited template passes validation when its date reads back as valid |
| Utils.LastIndexOf | utils.cc:44 | `rfind` answers none iff the character is absent; otherwise an index of it with no later occurrence |
| Utils.ExtractWorklogIdFromPath | utils.cc:43-50 | nothing iff the path has no slash; a number is always within the range of `int` |
| Utils.ExtractAfterLastSlash | utils.cc:43-50 | a path with a slash gives `std::stoi` of the text after the last slash: its number, or the exception it throws |
| Utils.ExtractIdOfRecordPath | utils.cc:43-50 | the id is read back from any record path of an id within the range of `int` |
| Utils.NumberFromString | utils.cc:84-90 | a number iff `stoi` succeeds; it is within `int` and is the leading integer of the text |
| Utils.NumberFromStringOfToString | utils.cc:84-90 | reads back every `int` that `to_string` wrote, and nothing beyond the range |
| Utils.NumberFromStringIgnoresTail | utils.cc:84-90 | text after the digits is ignored |
| Utils.NumberFromStringSkipsBlank | utils.cc:84-90 | a leading blank is ignored |
| Utils.NumberFromStringNoDigits | utils.cc:84-90 | text starting with anything but a blank, a sign or a digit gives nothing |
| Utils.EntryLog | utils.cc:56-74 | one walked file aborts the walk iff its id cannot be read; it is skipped iff its path has no slash or, its id read, its content cannot be; a log it yields is Unserialize of the content with the id from its path |
| Utils.EntryOfRecord | utils.cc:56-74 | a walked record file yields Unserialize of its content under its id, or is skipped when unreadable |
| Utils.CollectFails | utils.cc:56-74 | the walk fails iff some entry fails |
| Utils.CollectElements | utils.cc:56-74 | after a successful walk, the index holds exactly the logs the entries yield |
| Utils.KeptElements | utils.cc:56-74 | the walk fails iff some path has an unreadable id. Otherwise the index holds exactly the logs read from files whose path yields an id and whose content could be read |
| Utils.SortNewestFirst | utils.cc:76-79 | the sort orders by creation time, newest first, and permutes the logs |
| Utils.InsertNewest | utils.cc:76-79 | one insertion step extends the sorted prefix by one and permutes the logs |
| Utils.IndexFromDir | utils.cc:52-82 | the index fails iff the walk does; otherwise it holds the walked logs, newest first |
| Commands.AddedEntries | command.cc:13-15 | adding registers the name, keeps every existing binding, and binds a new name to the command |
| Commands.RegistryNames | command.cc:13-15 | the registered names are the names of the commands added |
| Commands.RegistryFirstWins | command.cc:13-15 | a name is bound to the first command added under it |
| Commands.Lookup | command.cc:17-30 | the second argument names the command; fewer than two arguments is INVALID_ARGUMENT; an unknown name is NOT_FOUND; any other result is that command's action |
| Commands.LookupReadsOnlyName | command.cc:22-27 | only the second argument decides |
| Commands.LookupRegistered | command.cc:22-27 | naming the first command added under a name gives its action |
| Commands.LookupUnregistered | command.cc:29 | naming a command never added is NOT_FOUND |
| Commands.CommandParser.constructor | command.h:45 | the registry starts empty |
| Commands.CommandParser.Add | command.cc:13-15 | the registry changes as adding specifies |
| Commands.CommandParser.Parse | command.cc:17-30 | the method answers what Lookup specifies |

## Left out

- atl/file.cc is abstracted as a `Disk` snapshot (files, directories, and the fixed sets of unreadable and unwritable paths) with a `FileStore` class over it. Reading and writing files see permissions only through those fixed sets. Directory creation does not see them at all (next line).
- Files.FileStore.MkDir: boost `create_directory` also throws when the parent directory is missing or cannot be written. The model always creates the directory, so in those cases `SetupOn` and `MaybeSetupWorklogSpace` report OK where the program ends with an uncaught exception.
- TempFile, Rename and Remove (atl/file.cc) are not used by the core and are not modelled.
- WalkDir becomes the sequence of files it visits (`Entry` values), each with what FileReadContent returned for it. The order of the walk is a parameter.
- atl/time.cc is not part of this model. FormatTime, ParseTime with UnixTimestamp, and IsValidTimestamp depend on the time zone and the locale, so they are the uninterpreted functions of a `Calendar` parameter.
- CurrentTime in `Template` is the `now` parameter.
- process.cc, LaunchEditor and ContentFromEditor (worklog.cc:32-51) run an external editor and are not modelled.
- worklog_main.cc, the command implementations, is not part of this model.
- PrintWorklog and MustBeInWorkspace (utils.cc:92-114) write to the console and are not modelled. MustBeInWorkspace's test is `IsInWorklogSpace`, which is modelled.
- PrintHelp (command.cc:32-42) writes to the console and is not modelled.
- Every message written to stderr is left out.
- ToUpper and ToLower (atl/string.cc:27-33) are boost case conversions and are not modelled.
- atl/optional.h is replaced by `Option`, and atl/stream.h is not used by the core.
- Concurrent runs of the program are not modelled.
- Worklog.NextIdOn: integers are unbounded, so the undefined behaviour of `atoi` on an out-of-range counter and of `id + 1` at the top of the range is not modelled.
- Numbers.IntToString: unbounded, so it also writes numbers beyond 32 bits.
- The `created_at` field of a log is a `nat` rather than a 64-bit unsigned, with no wrap-around.
- Utils.SortNewestFirst: `std::sort` is modelled as an insertion sort. The contract states only that the result is ordered newest first and is a permutation; `std::sort`'s order among equal times is unspecified.
- Storage.Storage.Save: the `Log&` it updates becomes the out-parameter `saved`.
- Files.FileStore.MkDir: boost also throws when a file stands at the path. Callers must not ask for that, so `SetupOn` and `MaybeSetupWorklogSpace` require that neither directory is a file.
- Strings.Split: requires a non-empty delimiter. With an empty one the loop never ends (`EmptyDelimiterStalls`), and every call in the code passes a non-empty one.
- Strings: a `char` stands for one byte of a `std::string`. Lengths and positions, such as the `num_chars` of CreateSnippet, count bytes, and no multi-byte character encoding is modelled.
- Strings.CreateSnippet: requires `num_chars < 2^32`, the `unsigned int` range, and `num_chars != len(filler)`, the assertion in the code. When `num_chars < len(filler)`, its contract states the result only for texts with `len(text) + len(filler) <= 2^32`; a text of 4 GiB or more, which the code cuts at the wrapped length, is not covered.
- Serializer.DescriptionRoundTrip: requires a description that is not all whitespace. Serialize writes an empty description as an empty line, and Unserialize reads it back as three line feeds (EmptyDescriptionNotRestored).
- Strings.JoinStr: modelled for the two-string form, the only one the core uses.
- Utils.ExtractWorklogIdFromPath: the exception `std::stoi` throws becomes a `Failure`. IndexFromDir passes it on, since the callback does not catch it.
