# iMessage export importer — a Dafny model

This project models the importer of `imessage_analysis`. The importer reads an
iMessage text export and loads it into a SQLite database with four tables:
`conversations`, `messages`, `attachments` and `tapbacks`. The model covers
the core of `MessageDatabaseBuilder` in `database.py`:

- **The conversation-directory filter of `build_database`.** A directory
  `p<digits>` with at least ten digits becomes target `+<digits>`. Its
  transcript file is `<target with + replaced by p>.txt`.
- **`build_attachment_cache`.** It walks a conversation's `attachments`
  folder. Each visible file whose size can be read maps from its bare name to
  its relative path, its size and its numbered subdirectory. A later file with
  the same name overwrites an earlier one. The cache is never cleared between
  conversations.
- **`parse_conversation_file`.** A line-by-line state machine:
  - the checks run in this priority order: blank line, `Tapbacks:` header,
    tapback mode, duplicate marker, "unsent a message!", timestamp, sender
    line, "Edited … later:", attachment reference, body text;
  - a reply stack is indexed by indent level (four spaces per level) and holds
    the line number of each level's latest sender line;
  - two post-passes follow: body lines are joined and stripped, later messages
    whose date|sender|text-prefix signature repeats an earlier one are flagged
    as duplicates, and attachment references are resolved against the cache.
- **`_parse_tapback_line`, `_guess_mime_type` and `_find_parent_message_line`.**
- **`import_conversation`.** It writes the conversation row and batch-inserts
  the messages. It reads back the `line_number → id` map and issues the reply
  `UPDATE`s. It then inserts the attachments and tapbacks whose message line
  has an id, and sets the two counts.
- **`build_database`.** It loops over the accepted directories, counts the
  successful imports and treats a raised import as a failure of that
  conversation only.

## How the model is organised

- **`Basics`**: `Option` and `Result`.
- **`Text`**: Python's `strip`, `lstrip(' ')`, `rstrip('\n\r')` and substring
  search over `seq<char>`.
- **`Recognisers`**: the regular expressions of `database.py:23-36`, the
  tapback pattern, the directory pattern of the cache, the MIME table and the
  directory-name filter. Each regular expression becomes a deterministic
  extractor that returns what `re.search` / `re.match` would capture.
- **`RecogniserProperties`**: for the timestamp, read-receipt, edited and
  attachment patterns, a declarative layout of what each one matches ("the
  text occurring at `i` is `<date><spaces><clock><spaces><AM/PM>`"), and a
  pair of lemmas for each extractor: what it finds has the layout (sound),
  and every layout is found (complete).
- **`MimeProperties`**: which part of a file name `os.path.splitext` takes
  as the extension, and which type the MIME table gives for it.
- **`AttachmentIndex`**: the cache as a map, filled by `CacheAfter` in walk
  order.
- **`Transcript`**: the parser as a specification. `Classify` gives the
  priority order of the checks and `Step` the effect of one line. `RunPrefix`
  is the state after `n` lines. `ParseConversation` returns the three lists
  after the post-passes, or the `KeyError` the parser raises.
- **`TranscriptProperties`**: the per-line rules, the loop invariant (`Wf`)
  and the shape of what the parser returns.
- **`Store`**: the four tables as a `Database` class with sequence and map
  fields. AUTOINCREMENT ids are positions plus one.
- **`Ingest`**: the pure decisions of `import_conversation` and
  `_find_parent_message_line` (`Import`) and what they guarantee.
- **`Builder`**: the class `MessageDatabaseBuilder`. Its fields are the
  attachment cache and the database. Its loops are `while` loops, each proved
  to compute the specification function it corresponds to.

The model keeps these behaviours of the code exactly as written:

- **The provisional reply id.** It is the line number of the parent's
  *sender* line, taken from the reply stack. It only gates whether
  `_find_parent_message_line` is consulted.
- **A parent on line 0 is never linked.** Parent line `0` is falsy, so the
  reply is not recorded.
- **`edit_timestamp` holds only the count.** It stores the digit group of
  "Edited N … later:", not a time.
- **A body line can abort the whole parse.** An unsent record has no
  `text_parts`. A body line that arrives while one is open raises `KeyError`,
  which `build_database` catches for that conversation.
- **A missing sender is the text "None".** The duplicate signature writes it
  that way.
- **The sticker test reads the raw line.** `'Sticker' in line` looks at the
  line with its indentation, not the stripped one.

## Model

| member | source | states |
|---|---|---|
| Text.RStripBreaks | database.py:186 | the result is a prefix of the line, everything removed is `\n` or `\r`, and it does not end in either |
| Text.StripEmptyIffAllSpace | database.py:188 | a line counts as blank exactly when every character is whitespace |
| Text.IndexOf | database.py:213 | a found index is an occurrence at or after the start, and no earlier occurrence exists; `None` means none at all |
| Recognisers.IndentCountsLeadingSpaces | database.py:193-197 | the indent level is the number of leading spaces divided by four, and those are exactly the leading spaces |
| RecogniserProperties.DateEndSound | database.py:24 | where `\w+ \d{1,2}, \d{4}` ends a match, a month of word characters, a one- or two-digit day and a four-digit year lie before it as "<month> <day>, <year>" |
| RecogniserProperties.DateEndComplete | database.py:24 | a well-formed "<month> <day>, <year>" is matched, ending right after the year |
| RecogniserProperties.ClockEndSound | database.py:24 | where `\d{1,2}:\d{2}:\d{2}` ends a match, a well-formed "<h>:<mm>:<ss>" lies before it |
| RecogniserProperties.ClockEndComplete | database.py:24 | a well-formed clock text is matched, ending right after the seconds |
| RecogniserProperties.MeridiemEndSound | database.py:24 | where the `\s+` and meridiem group ends a match, a non-empty run of spaces and `AM` or `PM` lie before it |
| RecogniserProperties.MeridiemEndComplete | database.py:24 | spaces followed by `AM` or `PM` are matched, ending after the meridiem |
| RecogniserProperties.TimeEndSound | database.py:24 | where the part after the date ends a match, it is spaces, a clock, spaces and a meridiem, in that order |
| RecogniserProperties.TimeEndComplete | database.py:24 | that layout after a date is matched, ending after the meridiem |
| RecogniserProperties.TimestampAtSound | database.py:23-25 | a timestamp found at a position is "<date><spaces><clock><spaces><AM/PM>" with every piece well formed |
| RecogniserProperties.TimestampAtComplete | database.py:23-25 | conversely, every such well-formed text occurring at a position is found there, whole |
| RecogniserProperties.ReadReceiptAtMeaning | database.py:26-28 | a receipt (who, duration) is found at a position exactly when "(Read by <who> after <duration>)" occurs there with `who` `them` or `you` and a non-empty duration that holds no `)` after its first character (the lazy group stops at the first `)`) |
| RecogniserProperties.ReadReceiptAtSound | database.py:26-28 | a found receipt has that layout |
| RecogniserProperties.ReadReceiptAtComplete | database.py:26-28 | that layout is found, with its own who and duration |
| RecogniserProperties.UnitEndMeaning | database.py:30 | where `second`, `minute` or `hour` occurs, the unit group ends right after it |
| RecogniserProperties.EditTextAtSound | database.py:30 | what `\s*(.+)` takes is a run of spaces and then the non-empty tail of the line, starting with a non-space unless it is the single space `\s*` gives back |
| RecogniserProperties.EditTextAtComplete | database.py:30 | every such split of the line's tail is the one found |
| RecogniserProperties.EditedTextAtSound | database.py:30 | after the digits, a found edit is a unit, an optional `s`, " later:", spaces and the text |
| RecogniserProperties.EditedTextAtComplete | database.py:30 | that layout is found with exactly its text |
| RecogniserProperties.EditedAtSound | database.py:29-31 | a found edit is "Edited ", its all-digit stamp, one space, a unit, an optional `s`, " later:", spaces and its text running to the end of the line |
| RecogniserProperties.EditedAtComplete | database.py:29-31 | that layout is found, with its stamp as group 1 and its text as group 2 |
| Recognisers.FindUnsent | database.py:32 | a matched unsent sender is non-empty |
| Recognisers.UnsentIsPrefixBeforeSuffix | database.py:32 | a line matches exactly when " unsent a message!" occurs at index 1 or later, and the sender is everything before its first such occurrence |
| RecogniserProperties.DirectoryDigitsAtSound | database.py:34-35 | a found directory is "attachments" (any case), a separator, a non-empty digit run and a separator |
| RecogniserProperties.DirectoryDigitsAtComplete | database.py:34-35 | that layout is found, with the whole digit run as the group |
| RecogniserProperties.FileNameAtSound | database.py:34 | a found file name is a non-empty stem of name characters, a dot and a non-empty word-character extension that `\w+` takes whole, where no later dot inside the name run is followed by a word character |
| RecogniserProperties.FileNameAtComplete | database.py:34 | every such layout is found, as stem, dot and extension |
| RecogniserProperties.AttachmentAtSound | database.py:33-36 | a found reference is the directory layout followed by the file name layout, and its groups are the digits and "<stem>.<ext>" |
| RecogniserProperties.AttachmentAtComplete | database.py:33-36 | that layout is found with exactly those groups |
| Recognisers.ExpressiveAt | database.py:263-266 | "Sent with (.+)" matches at a position exactly when "Sent with " occurs there with at least one character after it, and the effect is the whole rest of the line |
| Recognisers.MatchKinds | database.py:377-378 | a kind is returned only if the line starts with its label followed by " by " and a sender; `None` means no kind matches |
| Recognisers.ParseTapbackLineMeaning | database.py:375-388 | a tapback is parsed exactly when some kind matches the stripped line, and its sender is the stripped rest after "<kind> by " |
| Recognisers.TapbackSenderIsNotBlank | database.py:381-387 | a parsed tapback's sender is never empty, and it is from me exactly when the sender is "Me" |
| Recognisers.Extension | database.py:392 | the extension is empty, or it is a suffix of the path that starts with its last dot and contains no slash and no other dot |
| MimeProperties.LastIndexOfIs | database.py:392 | `rfind` returns the position of the last occurrence, or -1 |
| MimeProperties.ExtensionOfName | database.py:392 | a name in any directory whose stem holds a non-dot character has as extension its last dot and what follows, however many dots the stem holds |
| MimeProperties.ExtensionOfDotlessName | database.py:392 | a last path component without a dot has no extension, whatever dots the directory names hold |
| MimeProperties.ExtensionOfDotfile | database.py:392 | a last path component of leading dots and a dotless rest (`.bashrc`, `..`) has no extension |
| MimeProperties.ExtensionOfBashrc | database.py:392 | `.bashrc` has no extension |
| MimeProperties.ExtensionAfterLeadingDots | database.py:392 | `..x.PNG` has the extension `.PNG`, case kept |
| MimeProperties.ExtensionOfDoubleSuffix | database.py:392 | `archive.tar.gz` has the extension `.gz` |
| MimeProperties.ExtensionIgnoresDirectoryDots | database.py:392 | `photos.d/readme` has no extension |
| Recognisers.GuessMimeType | database.py:390-405 | the result is the table entry of the lower-cased extension when that is a key, and the default `application/octet-stream` otherwise |
| MimeProperties.GuessMimeTypeOfName | database.py:390-405 | a name with an extension gets the table entry of its lower-cased extension, or the default |
| MimeProperties.GuessMimeTypeOfDotlessName | database.py:390-405 | a name without an extension gets the default type |
| MimeProperties.GuessMimeTypeIgnoresCase | database.py:392 | extensions that lower-case alike give the same type |
| MimeProperties.GuessMimeTypeOfUpperCase | database.py:392 | `IMG_0001.JPG` gets the type of `IMG_0001.jpg` |
| MimeProperties.GuessMimeTypeOfDotfile | database.py:390-405 | a file named `.png` gets the default type |
| Recognisers.ConversationTarget | database.py:570-576 | a directory name is accepted exactly when it is `p` followed by at least ten ASCII digits, and its target is `+` followed by those digits |
| Recognisers.TranscriptNameRoundTrip | database.py:410 | the transcript file name of an accepted directory's target is the directory name plus `.txt` |
| Recognisers.ConversationTargetInjective | database.py:573-575 | two accepted directory names with the same target are the same name |
| AttachmentIndex.LastAdmitted | database.py:155-165 | the index found is the last visible, readable file with that name |
| AttachmentIndex.CacheLookupIsLastWrite | database.py:155-167 | after the walk a name maps to the entry of the last admitted file with that name; with none, its earlier entry (or its absence) is kept |
| AttachmentIndex.CacheNeverForgets | database.py:146-167 | the walk never removes a name from the cache |
| Transcript.Classify | database.py:188-333 | the class chosen for a line is one the parser state allows; for example the sender class needs an open record without a sender |
| Transcript.Truncate | database.py:271-272 | popping the reply stack down to the indent level keeps its bottom entries |
| Transcript.Register | database.py:304-306 | recording a sender line pads the stack with `None` up to the indent level and writes the line number there, leaving other entries unchanged |
| TranscriptProperties.BlankLineOnlyEndsTapbacks | database.py:188-190 | a blank line only leaves tapback mode; everything else is unchanged |
| TranscriptProperties.TapbackModeConsumesLine | database.py:204-210 | in tapback mode every non-blank line other than the header is consumed, adding at most its parsed tapback |
| TranscriptProperties.DuplicateMarkerFlagsOpenMessage | database.py:213-216 | the duplicate marker flags the open message and changes nothing else |
| TranscriptProperties.UnsentLineOpensRecord | database.py:219-243 | an unsent line closes the open message and opens an unsent record with the captured sender, "[Message unsent]" as text, no parent and the line's number and indent |
| TranscriptProperties.TimestampLineOpensRecord | database.py:246-295 | a timestamp line closes the open message and opens a text record with the date, read receipt and effect; when indented, the stack is cut to the indent and the parent is its top entry |
| TranscriptProperties.SenderLineNamesSender | database.py:298-307 | the first line after a timestamp names the sender, sets from-me, and records its own line number at the indent level of the reply stack |
| TranscriptProperties.BodyLineNeedsSender | database.py:332-333 | a body line is dropped without a named sender, appended to a text record, and raises the missing-`text_parts` error for an unsent record |
| TranscriptProperties.ErrorPersists | database.py:185-333 | once the parser has raised, later lines do not change the outcome |
| TranscriptProperties.ErrorIsBodyAfterUnsent | database.py:332-333 | the only error is a body line read while an unsent record is open |
| TranscriptProperties.ApplyKeepsWf | database.py:185-333 | each line keeps the loop invariant, and only opening lines add their own number to the closed-message line numbers |
| TranscriptProperties.RunPrefixFacts | database.py:185-337 | after any prefix the invariant holds, and the closed messages are exactly those opened by unsent and timestamp lines, in order |
| TranscriptProperties.PostProcessKeepsRecords | database.py:339-350 | the post-pass keeps every record and changes only its text, text parts and duplicate flag; a text record's text is its stripped, newline-joined body lines |
| TranscriptProperties.DuplicateFlags | database.py:345-350 | a message is flagged exactly when it was marked or an earlier message has its signature; unflagged messages have distinct signatures |
| TranscriptProperties.ResolvedDescriptors | database.py:352-371 | there is one attachment per reference, each belonging to a parsed message, and it has a path and size exactly when its file name is cached, taken from that entry |
| TranscriptProperties.ParsedMessagesInFileOrder | database.py:169-373 | messages are in strictly increasing line order; every tapback and attachment belongs to one of them; a provisional parent is an earlier line that is not itself a message line |
| Ingest.IndexOfLine | database.py:543-547 | a found index holds the searched line number |
| Ingest.IndexOfLineIsFirst | database.py:543-547 | no earlier index holds that line number |
| Ingest.NearestShallower | database.py:553-555 | a found index is earlier and less indented |
| Ingest.NearestShallowerIsNearest | database.py:553-555 | every index between the one found and the start is at least as indented |
| Ingest.FindParentLineNone | database.py:549-550 | an unindented message, or one whose line is not in the list, has no parent |
| Ingest.FindParentLineFound | database.py:538-557 | a found parent is the line of the nearest less indented message before the first message with the same line number |
| Ingest.FindParentLineMissing | database.py:552-557 | when an indented message has no parent, every message before its first occurrence is at least as indented |
| Ingest.ParentOfParsedMessage | database.py:538-557 | for parsed messages, a parent exists exactly when the message is indented and some earlier message is shallower; it is the nearest such message, on an earlier line |
| Ingest.MessageCountIsUnflagged | database.py:526 | the message count is the number of messages not flagged as duplicates |
| Ingest.PositionalIds | database.py:463-471 | on a first import, the id map holds exactly the parsed line numbers, the k-th message mapping to the id after the earlier rows plus k |
| Ingest.NoRowsNoIds | database.py:464-471 | a target with no rows gets an empty id map |
| Ingest.ReplyEdgeGate | database.py:475-482 | an update is written exactly when the message has a provisional parent and an id, and its parent line is non-zero with an id; the update is (parent id, message id) |
| Ingest.ReplyToLineZeroNotLinked | database.py:474-482 | with two messages, a reply on line 1 under the unindented message on line 0 finds line 0 as its parent, but no update is written, because parent line 0 counts as none |
| Ingest.ReplyUpdatesAreEdges | database.py:474-482 | the updates are exactly the edges of the messages, at most one per message |
| Ingest.EdgeOfMessage | database.py:474-482 | on a first import, the k-th message gets an edge exactly when it has a provisional parent and a non-zero parent line; the edge points from its own id to an earlier message's id |
| Ingest.UpdateForMessage | database.py:484-487 | the last update naming a message's id carries that message's own edge |
| Ingest.AttachmentDataKeepsMapped | database.py:490-498 | each attachment row comes from a resolved attachment whose message line has an id; when all lines have ids, none is dropped |
| Ingest.TapbackDataKeepsMapped | database.py:509-516 | each tapback row comes from a tapback whose target line has an id; when all lines have ids, none is dropped |
| Ingest.ParsedIsWellParsed | database.py:169-373 | what the parser returns is well formed: increasing message lines, and tapbacks and attachments on message lines |
| Ingest.FirstImportIds | database.py:463-471 | on a first import the id map is positional |
| Ingest.ImportedRowAt | database.py:440-487 | after the import, earlier rows are unchanged and each new row is its message's row, except the parent id |
| Ingest.ImportKeepsEarlierRows | database.py:440-487 | the import appends one row per message and leaves every earlier row as it was |
| Ingest.ImportedRows | database.py:440-487 | each appended row carries its message's columns, with only the parent id set by the update pass |
| Ingest.ImportedCounts | database.py:430-533 | a first import adds every attachment and tapback, and the conversation row holds the first and last dates, the unflagged-message count and the attachment count |
| Ingest.AttachmentsOfFirstImport | database.py:489-523 | with a positional id map no attachment or tapback is dropped |
| Ingest.ReplyIdIsEdge | database.py:484-487 | after the update pass, a new row's parent id is its message's edge, or none |
| Ingest.ReplyIdGate | database.py:474-487 | a new row gets a parent id exactly when its message has a provisional parent and a non-zero parent line |
| Ingest.ReplyIdPointsBack | database.py:474-487 | a parent id points to an earlier row of the same import whose line is the parent line |
| Ingest.ImportedReplyGate | database.py:440-487 | on a first import, a row has a parent id exactly when its message has a provisional parent and a non-zero parent line |
| Ingest.ImportedReplyTarget | database.py:440-487 | on a first import, a row's parent id names an earlier row of that import holding the parent line |
| Ingest.ImportAddsOnlyItsTarget | database.py:440-461 | an import adds message rows for its own target only |
| Store.WithRepliesAt | database.py:484-487 | after the UPDATEs a row's parent id is the one written by the last update naming it, and the row is otherwise unchanged |
| Store.WithRepliesOnlySetsReplies | database.py:484-487 | the reply UPDATEs change no column but the parent id |
| Store.WithRepliesColumns | database.py:484-487 | a row's final parent id comes from the last update naming it, or is unchanged; its line number is untouched |
| Store.ReplyIdFromUpdates | database.py:484-487 | a row inserted without a parent id ends with the last update's parent, or none |
| Store.WithRepliesKeepsLines | database.py:484-487 | the UPDATEs keep every row's line number |
| Store.Database.ReplaceConversation | database.py:434-438 | INSERT OR REPLACE leaves a conversation row with the two dates, no display name and zero counts; no other table changes |
| Store.Database.SetCounts | database.py:529-533 | the UPDATE sets both counts on an existing row, does nothing without one, and touches no other table |
| Store.Database.InsertMessages | database.py:454-461 | the batch is appended in order, so the k-th row gets the k-th next id |
| Store.Database.InsertAttachments | database.py:500-506 | the batch is appended; nothing else changes |
| Store.Database.InsertTapbacks | database.py:518-523 | the batch is appended; nothing else changes |
| Store.Database.LineToId | database.py:464-471 | the loop computes the id map of the ordered query, where a later row overwrites an earlier one with the same line |
| Store.Database.UpdateReplies | database.py:484-487 | the loop applies every update in order and changes only `messages` |
| Builder.ConversationDirsMeaning | database.py:568-576 | a directory is accepted exactly when it is a directory with an accepted name, with the target derived from that name |
| Builder.DistinctTargets | database.py:568-576 | distinct directory names give distinct targets |
| Builder.ImportEffectFacts | database.py:407-536 | without a transcript nothing changes; the cache only grows; the tables change only on success, gaining rows for that target only |
| Builder.ImportAllFacts | database.py:586-594 | the success count is at most the number of directories; the cache only grows; only the accepted targets gain rows |
| Builder.EveryImportIsFirst | database.py:586-594 | with distinct targets and no prior rows, each import sees no rows of its own target, so the first-import lemmas apply to every step |
| Builder.MessageDatabaseBuilder.constructor | database.py:17-39 | the cache starts empty and the database starts with empty tables |
| Builder.MessageDatabaseBuilder.BuildAttachmentCache | database.py:146-167 | with no attachments folder the cache is unchanged; otherwise it is the cache after the walk |
| Builder.MessageDatabaseBuilder.ParseConversationFile | database.py:169-373 | the parser returns what `ParseConversation` specifies, including the error |
| Builder.MessageDatabaseBuilder.ParseLineViews | database.py:185-373 | the line loop plus the post-passes compute `ParseViews` |
| Builder.MessageDatabaseBuilder.ResolveAttachmentRefs | database.py:352-371 | the loop builds exactly the resolved attachment list |
| Builder.MessageDatabaseBuilder.WriteMessages | database.py:430-471 | the conversation row, the inserted rows and the id map are the ones `Import` specifies |
| Builder.MessageDatabaseBuilder.WriteConversation | database.py:428-533 | the tables afterwards are `Import` of the tables before |
| Builder.MessageDatabaseBuilder.ImportConversation | database.py:407-536 | the new cache, tables and outcome are `ImportEffect` of the old ones |
| Builder.MessageDatabaseBuilder.BuildDatabase | database.py:560-599 | the database is emptied first, as the schema step deletes the old file; the result is true exactly when some directory was accepted and some import succeeded; the final cache and tables are those of importing every accepted directory in order into empty tables |
| Store.Database.Reset | database.py:49-52 | deleting the database file and creating the schema leaves all four tables empty |
| Builder.EveryBuildImportIsFirst | database.py:586-594 | within a build, every import sees no earlier rows of its own target, so the first-import lemmas apply to it |
| Builder.ImportAllStep | database.py:586-594 | importing one more directory applies its import to the state so far and counts it when it succeeds |
| Builder.CollectConversationDirs | database.py:568-576 | the loop collects exactly the accepted directories in order |
| Builder.FindParentMessageLine | database.py:538-557 | the two loops compute `FindParentLine` |
| Builder.MessageRowsOf | database.py:441-452 | the loop builds exactly the message rows |
| Builder.ReplyUpdatesOf | database.py:474-482 | the loop collects exactly the reply updates |
| Builder.AttachmentDataOf | database.py:490-498 | the loop builds exactly the attachment rows |
| Builder.TapbackDataOf | database.py:509-516 | the loop builds exactly the tapback rows |
| Builder.ReadLines | database.py:173-186 | the lines are turned into their views, one per line |
| Builder.ScanViews | database.py:180-337 | the line loop ends in the state `RunPrefix` gives after all lines, or with its error |
| Builder.ParseLine | database.py:185-333 | one pass of the loop body does what `Step` specifies, failing only with the missing-`text_parts` error on that line |
| Builder.PostProcessMessages | database.py:339-350 | the post-pass loop computes `PostProcess` |

## Left out

- SQL plumbing: the connection, cursors, pragmas, the `CREATE TABLE` and `CREATE INDEX` statements (database.py:54-144), `commit` and `close`. The tables are plain sequences and a map. The deletion of an existing database file at database.py:49-52 is modelled, as `Database.Reset`. The only exception modelled inside an import is the parser's `KeyError`, which is raised before any row is written.
- `ANALYZE`, `VACUUM` and the summary queries and logging after the import loop (database.py:600-633): they change nothing the model observes.
- The outer `try`/`except`/`finally` of `build_database` (database.py:635-643). The model has no failing schema or connection step, so that handler is never reached.
- The filesystem. `iterdir`, `exists`, `os.walk`, `getsize` and `readlines` become the inputs `ExportEntry` and `ScannedFile`: names, transcript lines and attachment walks with sizes, where `None` stands for an `OSError`. The order of `iterdir` and `os.walk` is whatever those inputs say.
- UTF-8 decoding: lines are already `seq<char>`.
- Logging, the JSON dumps of the read receipt (kept as a structured value) and `export.py`. `export.py` is not part of this model.
- The `special_data` and `created_at` columns, which the importer never sets.
- Records do not carry `target_number`, which is constant per file. The rows do.
- Regular-expression semantics in general. Only the patterns of database.py:23-36, 163, 264 and 377 are modelled, as hand-written matchers. `\d` and `\w` are taken as ASCII. Under `re.IGNORECASE`, case folding of "attachments" covers ASCII and the long s. `str.lower` in the MIME lookup is modelled for ASCII and the Kelvin sign only.
- Ingest.ImportedRows, Ingest.ImportedCounts, Ingest.ImportedReplyGate, Ingest.ImportedReplyTarget: stated only for a first import of a target, with no earlier rows for it. With earlier rows, the id map also covers the old rows and the reply edges can point at them. Builder.EveryImportIsFirst shows that this condition holds on every step of `build_database` started on an empty database.
- Builder.MessageDatabaseBuilder.BuildDatabase: it does not model the `except` at database.py:577-578 around the name check, because the check cannot raise on the modelled inputs.
- Recognisers.ConversationTarget: takes `str.isdigit` as the ASCII digits. Python also accepts other Unicode digits, such as superscripts and the digits of other scripts.
