# Reply threads and sheet rows of an Activity Streams archive exporter

This project models the core of a browser tool for role-play backups. The
tool reads exported W3C Activity Streams 2.0 archives (`orderedItems` of
activities whose `object` is a `Note`). It turns them into spreadsheet rows.

- `js/paradise.js` collects the notes of several characters and drops direct
  messages (`isDM`). `collectThreads` rebuilds the reply threads. Each thread
  is sorted by `published`. Each remaining message becomes a row
  `[KST time, category, author, content]`, and the category goes up by one
  per thread.
- `js/main.js` reads one archive. Every item with Korean content
  (`contentMap.ko`) becomes a row `[KST time, target, content]`.

## Modules

- `Common`: `Option` and `Result`, and the two exceptions the code can throw
  on its own (`RangeError`, `TypeError`).
- `Text`: the ECMAScript `\s` class, `trim`, `split("/").pop()` and
  `replace` with a one-character pattern.
- `Mention`: the regular expression `/^(@\S+)\s*(.*)/`, and `cleanText` /
  `parseContent`, which are the same function. The HTML-to-text step
  (`DOMParser` … `textContent`) is a function parameter `textContent`.
- `Clock`: `toISOString` as proleptic Gregorian civil arithmetic on integer
  time values, and the `toKST` text. The module also proves that the text
  reads back as the instant plus nine hours.
- `Activity`: notes and items, `isDM`, the note filter of
  `loadSelectedJsonFiles`, the `characters` table and `idToName`.
- `Threads`: `collectThreads`.
  - Its functions are the specification: `Visit`/`VisitAll` are `dfs` as a
    value.
  - The class `Traversal` is the `dfs` recursion, with its shared `visited`
    set as a field.
  - The methods `BuildIndex` and `CollectThreads` are the two loops.
- `ThreadFacts`: what the returned threads are.
- `Chrono`: the stable sort by publication time.
- `Rows`: the shape shared by both record loops. Each message is skipped,
  pushes one row, or throws, and a throw abandons the loop.
- `Paradise`, `ParadiseFacts`: the record loop of js/paradise.js and its
  properties.
- `MainUpload`: the record loop of js/main.js and its properties.

A note on the mention exclusion: the code tests
`contentText.content.trim().startsWith(mention)`. That is the content *after*
`cleanText` has split off the leading `@token`. So a message whose text is
`@NOTICE update` is kept, with target `@NOTICE` and content `update`. Only
a message whose remaining text starts with an excluded mention is dropped
(`Paradise.ExclusionSeesContentOnly`, `Paradise.ExclusionOfSecondMention`).

A message with no content is not skipped: it gives a row with an empty
content column (`Paradise.EmptyContentKept`).

A note on repeated ids: `collectThreads` files every message in `idMap`
under its id, and a later message overwrites an earlier one. When ids are
unique, every message belongs to at most one thread
(`ThreadFacts.ThreadsDisjoint`). When two archives both hold a root with the
id `x`, and a third message replies to `x`, both walks start from the later
root and both list the reply. The earlier root is then in no thread
(`ThreadFacts.RepeatedRootIdSharesReplies`).

## Model

| member | source | states |
|---|---|---|
| Activity.SomeDmTargetIsMembership | js/paradise.js:51 | the `some` scan is true exactly when some element of the list is one of the fixed addresses |
| Activity.IsDm | js/paradise.js:43-52 | `isDM`: the recipients of `to` (none, one address, or a list) are scanned for the three fixed addresses |
| Activity.IsDmIffAddressed | js/paradise.js:43-52 | a note without `to` is not a DM; a note with a lone address is a DM iff that address is a fixed one; a note with a list is a DM iff some element of the list is a fixed one |
| Activity.Selected | js/paradise.js:95 | an item is kept when it has an object, of type `Note`, that is not a DM |
| Activity.SelectNotes | js/paradise.js:94-98 | no more messages than items, and every kept message is a `Note` that is not a DM |
| Activity.SelectSteps | js/paradise.js:94-98 | one step per item: push its object when the item is selected, skip it otherwise |
| Activity.SelectNotesArePushed | js/paradise.js:94-98 | the kept messages are exactly the objects pushed by those steps |
| Activity.SelectNotesKeeps | js/paradise.js:94-98 | the `j`-th kept message is the object of a selected item, the items it comes from ascend (archive order), and every selected item's object is kept |
| Activity.NameTable | js/paradise.js:30-31 | the keys of `idToName` are exactly the ids of the table |
| Activity.NameTableLastWins | js/paradise.js:31 | an id maps to the name of the last entry carrying it |
| Activity.CharacterIdsDistinct | js/paradise.js:9-27 | no two characters share an id |
| Activity.IdToNameInverts | js/paradise.js:9-31 | `idToName` maps every character's id to that character's name and holds no other key |
| Activity.BuildIdToName | js/paradise.js:30-31 | the loop leaves the name table of the entries, keyed by their ids |
| Text.TrimStart | js/paradise.js:219 | the result is a suffix, all that was dropped is white space, and it does not start with white space |
| Text.TrimEnd | js/paradise.js:219 | the result is a prefix, all that was dropped is white space, and it does not end with white space |
| Text.Trim | js/paradise.js:219 | `trim`: white space cut at the start, then at the end |
| Text.TrimIsSlice | js/paradise.js:219 | `trim` yields a slice with only white space cut at both ends and white space at neither end |
| Text.LastSegment | js/paradise.js:225 | `split("/").pop()` is a suffix without `/`, preceded by `/` or the whole string |
| Text.LastSegmentOfName | js/paradise.js:225 | the last segment of `base/name` is `name` when `name` has no `/` |
| Text.LastSegmentAt | js/paradise.js:225 | a `/`-free stretch at the end that follows a `/` (or starts the string) is the last segment |
| Text.ReplaceFirst | js/paradise.js:192 | `replace` keeps the length and changes nothing when the character is absent |
| Text.ReplaceFirstAt | js/paradise.js:192 | only the first occurrence of the character is replaced |
| Mention.SkipNonSpace | js/paradise.js:38 | `\S+` stops at the first white-space character |
| Mention.SkipSpace | js/paradise.js:38 | `\s*` stops at the first character that is not white space |
| Mention.SkipToLineEnd | js/paradise.js:38 | `.*` stops at the first line terminator |
| Mention.Match | js/main.js:79-83 | `text.match(/^(@\S+)\s*(.*)/)`: the two captures, or no match |
| Mention.Split | js/main.js:77-85 | the target and content split off a text: the two captures, or an empty target and the whole text |
| Mention.CleanText | js/paradise.js:34-40 | `cleanText`/`parseContent`: empty input gives empty target and content, otherwise the split of the text of the HTML |
| Mention.MatchIsGreedy | js/paradise.js:38 | the pattern matches iff the text starts with `@` and a non-white-space character, and its captures are then a greedy reading of the pattern |
| Mention.GreedyCutsAreMatch | js/paradise.js:38 | a greedy reading of the pattern is unique and gives the captures of the match |
| Mention.SplitShape | js/main.js:77-85 | without a match the target is empty and the content is the whole text; with one the target is `@` plus non-white-space characters at the start, and the content is a later stretch with no line terminator that does not start with white space |
| Mention.SplitMentionAndLine | js/main.js:79-83 | a mention, one space and a single line split into exactly that mention and that line |
| Mention.CleanTextCases | js/paradise.js:34-40 | empty input gives empty target and content; unmatched text is all content; otherwise the target is the leading `@` token and the content has no line break and does not start with white space |
| Clock.DaysFromCivilCountsDays | js/paradise.js:191-192 | 1970-01-01 is day 0 and each date's successor has the next day number |
| Clock.CivilRoundTrip | js/paradise.js:191-192 | every day number is a valid calendar date that counts back to the same day number |
| Clock.TimeValueRoundTrip | js/paradise.js:191-192 | splitting a time value into date and time of day gives valid fields and loses nothing |
| Clock.Digits | js/paradise.js:192 | a field is written with exactly its width, all decimal digits |
| Clock.DigitsRoundTrip | js/paradise.js:192 | zero-padded digits read back as the number written |
| Clock.FromTimeValue | js/paradise.js:192 | the UTC date and time of day of a time value, floored to the day as ECMAScript does for negative values |
| Clock.YearString | js/paradise.js:192 | four characters for years 0 to 9999 and seven otherwise, a `-` first for negative years and a `+` first for years after 9999, decimal digits after the sign, never a `T` |
| Clock.DateText | js/paradise.js:192 | the date part holds no `T` and has at least ten characters, exactly ten for years 0 to 9999 |
| Clock.ClockText | js/paradise.js:192 | the time of day `HH:MM:SS` has eight characters |
| Clock.TimeText | js/paradise.js:192 | the time part with milliseconds and zone has thirteen characters |
| Clock.IsoText | js/paradise.js:192 | an ISO 8601 text has at least 24 characters |
| Clock.IsoString | js/paradise.js:191-192 | `toISOString` throws a RangeError exactly outside ±8.64e15 ms, otherwise gives at least 24 characters |
| Clock.KstString | js/paradise.js:190-193 | `toKST` throws a RangeError exactly when the instant or the instant plus nine hours is out of range, otherwise gives 19 characters |
| Clock.IsoTextCut | js/paradise.js:192 | replacing the `T` and keeping 19 characters leaves `YYYY-MM-DD HH:MM:SS` |
| Clock.KstIsWallClockText | js/paradise.js:190-193 | `toKST` writes the wall-clock text of the instant nine hours later |
| Clock.WallClockFieldsReadBack | js/paradise.js:192 | the wall-clock text has its separators in place and its fields read back as the date and time at whole seconds |
| Clock.WallClockTextReadsBack | js/paradise.js:192 | the wall-clock text of a date and time reads back as its time value without the milliseconds |
| Clock.KstReadsBack | js/main.js:62-64 | the text read back as a wall clock is the input instant plus exactly nine hours, cut to the second |
| Clock.InstantReadsBack | js/main.js:63-64 | the wall-clock text of an instant reads back as the instant cut to the second |
| Chrono.Insert | js/paradise.js:215 | inserting keeps every time stamp, adds one element, and adds exactly that message to the multiset |
| Chrono.InsertChronological | js/paradise.js:215 | inserting into a sequence sorted by time keeps it sorted |
| Chrono.InsertStable | js/paradise.js:215 | the inserted message goes after the messages with the same time |
| Chrono.SortByPublished | js/paradise.js:215 | `thread.sort` by `published`, as a stable insertion sort; every message keeps its time |
| Chrono.SortByPublishedPermutes | js/paradise.js:215 | the sort returns the same messages |
| Chrono.SortByPublishedChronological | js/paradise.js:215 | the sort orders the messages by `published`, ascending |
| Chrono.SortByPublishedStable | js/paradise.js:215 | messages with the same time keep their input order |
| Chrono.SortByPublishedSpec | js/paradise.js:215 | permutation, ascending and stable together |
| Rows.RunNext | js/paradise.js:215-228 | one more step: a skip leaves the rows, a push appends its row, a throw fails with its error |
| Rows.RunErrStays | js/paradise.js:215-228 | once a step throws, the later steps change nothing |
| Rows.RunOk | js/main.js:98-106 | a loop succeeds iff no step throws, and then yields exactly the pushed rows |
| Rows.RunErr | js/main.js:98-106 | a failed loop fails with the error of the first step that throws |
| Rows.RunSpec | js/main.js:98-106 | the success condition, the rows and the error of a loop together |
| Rows.PushIndices | js/main.js:98-106 | one position per pushed row, each a step of the loop |
| Rows.PushIndicesRows | js/main.js:102-104 | the step at each position pushes the row at that place |
| Rows.PushIndicesAscending | js/main.js:98-106 | the positions of the pushed rows ascend, so rows keep input order |
| Rows.PushIndicesComplete | js/main.js:102-104 | every step that pushes a row has its position listed |
| Rows.PushIndicesSpec | js/main.js:98-106 | the three facts about positions together |
| Threads.IndexOf | js/paradise.js:108-115 | `idMap` and `repliesTo` after entering every message in order |
| Threads.AddNote | js/paradise.js:110-114 | `idMap[msg.id] = msg`, and a reply is appended to the list of its parent and to no other list; a root changes no list |
| Threads.Visit | js/paradise.js:117-125 | `dfs` only adds to the visited set, and it terminates because each call either marks a new id or returns |
| Threads.VisitAll | js/paradise.js:123 | walking the replies only adds to the visited set |
| Threads.Walk | js/paradise.js:117-125 | `dfs(id)` with a fresh visited set |
| Threads.Roots | js/paradise.js:127 | the filtered messages are input messages without `inReplyTo` |
| Threads.Walks | js/paradise.js:127 | one walk per root |
| Threads.LongOnly | js/paradise.js:127 | every kept thread is a walk with more than one message |
| Threads.ThreadsOf | js/paradise.js:107-128 | `collectThreads`: the walks from the roots, in input order, that hold more than one message |
| Threads.Traversal.constructor | js/paradise.js:117 | a traversal starts with an empty visited set |
| Threads.Traversal.Dfs | js/paradise.js:117-125 | the thread returned and the visited set left behind are those of the specification `Visit` |
| Threads.ThreadsAppend | js/paradise.js:127 | one more input message adds its walk when it is a root whose walk is longer than one, and nothing otherwise |
| Threads.ThreadsStep | js/paradise.js:127 | the same for a prefix of the input |
| Threads.WalkFrom | js/paradise.js:127 | `dfs(m.id)` walks with a visited set of its own |
| Threads.BuildIndex | js/paradise.js:108-115 | the `forEach` leaves the index of all the messages |
| Threads.CollectThreads | js/paradise.js:107-128 | the method returns the threads of the specification `ThreadsOf` |
| ThreadFacts.RepliesToMembers | js/paradise.js:111-113 | the replies to `p` are exactly the input messages whose `inReplyTo` is `p` |
| ThreadFacts.ChildrenAreReplies | js/paradise.js:111-113 | `repliesTo[p]` lists the replies to `p` in input order; a root's empty `inReplyTo` is never a key |
| ThreadFacts.IndexWellKeyed | js/paradise.js:110 | every entry of `idMap` is filed under its own id |
| ThreadFacts.ByIdKeys | js/paradise.js:110 | `idMap` holds exactly the ids of the input |
| ThreadFacts.ByIdLast | js/paradise.js:110 | the entry under an id is the last input message with that id |
| ThreadFacts.ByIdIsLast | js/paradise.js:110 | the keys of `idMap`, their entries, and last-wins together |
| ThreadFacts.VisitFacts | js/paradise.js:117-124 | a walk lists messages of `idMap`, no id twice and none visited before; it is empty iff its id was visited or is missing, and otherwise starts with that id's message |
| ThreadFacts.VisitAllFacts | js/paradise.js:123 | the walks of the replies list messages of `idMap`, no id twice and none visited before |
| ThreadFacts.VisitLinked | js/paradise.js:122-123 | a walk is in pre-order: each message after the first replies to one listed before it |
| ThreadFacts.VisitAllLinked | js/paradise.js:123 | each message of the walks of the replies of `p` replies to `p` or to a message listed before it |
| ThreadFacts.ThreadsFollowRoots | js/paradise.js:127 | the threads are the walks from the roots whose walk is longer than one, every such root, in input order |
| ThreadFacts.ThreadShape | js/paradise.js:117-127 | every thread has two or more messages, all from the input, no id twice, in pre-order, and it starts with the id of a root |
| ThreadFacts.ThreadShapeUnique | js/paradise.js:122-127 | with unique ids a thread starts with a root, no later message is a root, and each later message replies to a message listed before it |
| ThreadFacts.ReplyOfEarlier | js/paradise.js:122-123 | with unique ids a message reached as a reply of an earlier message of a walk is no root and replies to that message |
| ThreadFacts.SameRoot | js/paradise.js:117-127 | with unique ids two chains of replies that share a message start with the same root |
| ThreadFacts.ThreadIsRootChain | js/paradise.js:117-127 | with unique ids a thread is a chain of input messages from a root |
| ThreadFacts.ThreadRootsDiffer | js/paradise.js:127 | no two threads start with messages of the same id |
| ThreadFacts.ThreadsDisjoint | js/paradise.js:107-128 | with unique ids no message belongs to two threads |
| ThreadFacts.BeforeFacts | js/paradise.js:111-113 | two replies listed one before the other reply to the same non-empty id and have different ids |
| ThreadFacts.NotBeforeEarlier | js/paradise.js:111-113 | a later reply in a list never comes before an earlier one |
| ThreadFacts.HeadLinked | js/paradise.js:122-123 | a message followed by a walk whose messages reply to it or to earlier ones is linked |
| ThreadFacts.HeadFirst | js/paradise.js:121-123 | putting a message in front of the walks of its replies keeps the siblings in order |
| ThreadFacts.ConcatParents | js/paradise.js:123 | the walk of one reply followed by the walks of the later replies: every message replies to the parent or to one before it |
| ThreadFacts.ParentsDiffer | js/paradise.js:123 | a message of the first walk other than its head and one of the later walks not replying to the parent never share a parent |
| ThreadFacts.CrossSiblings | js/paradise.js:123 | no message of the later walks comes before a sibling in the first walk |
| ThreadFacts.ConcatSiblings | js/paradise.js:123 | concatenating the walks of the replies keeps siblings in order |
| ThreadFacts.VisitOrdered | js/paradise.js:117-125 | a walk is linked and lists the replies to any message in `repliesTo` order |
| ThreadFacts.VisitAllOrdered | js/paradise.js:123 | the walks of the replies from a position on reply to the parent or to earlier messages, list only those replies to the parent, and keep siblings in order |
| ThreadFacts.RepliesToDistinct | js/paradise.js:111-113 | with unique ids the replies to a message carry distinct ids |
| ThreadFacts.RepliesToOrder | js/paradise.js:111-113 | two replies to the same message are listed in input order |
| ThreadFacts.GoodIndexOf | js/paradise.js:108-115 | with unique ids every listed reply replies to a non-empty id, is the message `idMap` holds under its id, and no list holds an id twice |
| ThreadFacts.ThreadSiblingsInOrder | js/paradise.js:117-127 | every thread keeps the replies to any one message in `repliesTo` order |
| ThreadFacts.RepliesInInputOrder | js/paradise.js:111-123 | with unique ids two replies to the same message appear in a thread in the order they appear in the input |
| ThreadFacts.VisitLeaf | js/paradise.js:117-125 | a walk from an unvisited message without replies is that message alone |
| ThreadFacts.VisitOneReply | js/paradise.js:117-125 | a walk from an unvisited message with a single reply without replies is the message and its reply |
| ThreadFacts.RepeatedRootIdSharesReplies | js/paradise.js:107-128 | two roots with the same id and a reply to it give two threads, both the later root and the reply |
| Paradise.ExcludeMentionsAreMentions | js/paradise.js:201 | every excluded mention is `@` plus at least one character |
| Paradise.RawContent | js/paradise.js:216 | the Korean content when it is not empty, else the plain content |
| Paradise.Excluded | js/paradise.js:219 | the trimmed content starts with one of the excluded mentions |
| Paradise.NotExcludedWithoutMention | js/paradise.js:219 | content whose trimmed text does not start with `@` is kept |
| Paradise.EmptyContentKept | js/paradise.js:216-220 | a message without content is kept, with an empty content column |
| Paradise.KeptWhenPlain | js/paradise.js:219 | content starting with neither white space nor `@` is kept |
| Paradise.ExcludedWhenMentioned | js/paradise.js:219-220 | content starting with an excluded mention is dropped |
| Paradise.ExclusionSeesContentOnly | js/paradise.js:216-220 | `@NOTICE update` splits into `@NOTICE` and `update`, and the message is kept |
| Paradise.ExclusionOfSecondMention | js/paradise.js:216-220 | `@A @NOTICE` splits into `@A` and `@NOTICE`, and the message is dropped |
| Paradise.Author | js/paradise.js:225 | the author is undefined exactly when `attributedTo` is missing |
| Paradise.ToKst | js/paradise.js:223 | a missing time throws a RangeError, every error is a RangeError, and a time text has 19 characters |
| Paradise.StepOf | js/paradise.js:216-227 | a message is skipped iff its content is excluded; it throws iff it is not skipped and its time does not format, with a RangeError; a pushed row is an entry of the thread's category |
| Paradise.ChainErrStays | js/paradise.js:213-230 | once a thread throws, the later threads change nothing |
| Paradise.ChainStep | js/paradise.js:213-230 | a thread that succeeds after successful threads appends its rows |
| Paradise.ChainStepErr | js/paradise.js:213-230 | a thread that throws after successful threads fails the upload with its error |
| Paradise.ThreadRowsNext | js/paradise.js:215-228 | one more message: an excluded one leaves the rows, one whose time throws fails the thread, any other appends its row |
| Paradise.ThreadRows | js/paradise.js:215-228 | the inner loop returns the rows of the specification `ThreadEntries` |
| Paradise.Records | js/paradise.js:211-230 | the records: the header, then the rows of every thread in publication order, or the first error |
| Paradise.SortedThreads | js/paradise.js:215 | every thread sorted by publication time, one per thread |
| Paradise.ArrangedRecords | js/paradise.js:211-230 | the records for threads in whatever order `thread.sort` left their messages |
| Paradise.RecordsAreArranged | js/paradise.js:211-230 | when every message carries a time, the records are those of the threads sorted by publication time |
| Paradise.BuildRecords | js/paradise.js:211-230 | the record loop returns the records of the specification `Records` |
| ParadiseFacts.StepOfPush | js/paradise.js:222-227 | a pushed row is `[toKST(published), category, author, content]` |
| ParadiseFacts.ThreadOutcome | js/paradise.js:215-228 | a thread fails iff a message that is not skipped has a time that does not format, and then with a RangeError |
| ParadiseFacts.PushedEntryAt | js/paradise.js:219-227 | the `j`-th row comes from a message that is not skipped and whose time formats |
| ParadiseFacts.KeptListed | js/paradise.js:219-227 | in a successful thread every message that is not skipped gives a row |
| ParadiseFacts.ThreadEntriesSpec | js/paradise.js:215-228 | the rows of a successful thread are those of its kept messages, all of them, in order, each its own row with the thread's category |
| ParadiseFacts.ThreadInTimeOrder | js/paradise.js:215 | the rows of a thread never go back in publication time |
| ParadiseFacts.ChainSpec | js/paradise.js:213-230 | the upload succeeds iff every thread does, and otherwise fails with the error of the first thread that fails |
| ParadiseFacts.ChainNumberedRows | js/paradise.js:212-229 | every row carries the number of a thread, and the numbers never go down |
| ParadiseFacts.ChainNumberedBlocks | js/paradise.js:212-229 | the rows numbered `k + 1` are exactly those of thread `k` |
| ParadiseFacts.ThreadResultNumbered | js/paradise.js:212-229 | thread `k` (from 0) is numbered `k + 1` and can fail only with a RangeError |
| ParadiseFacts.ThreadResultsFacts | js/paradise.js:212-229 | every thread is numbered by its position and can fail only with a RangeError |
| ParadiseFacts.ThreadNumbered | js/paradise.js:222-227 | all rows of a thread carry its category |
| ParadiseFacts.BlocksOutcome | js/paradise.js:213-230 | the rows fail, with a RangeError, exactly when a thread fails |
| ParadiseFacts.BlocksSpec | js/paradise.js:212-229 | rows are entries numbered 1 to the number of threads, in non-decreasing order, and thread `k` owns exactly the rows numbered `k + 1`, even when an earlier thread produced no row |
| ParadiseFacts.RecordsOutcome | js/paradise.js:211-230 | the records fail exactly when the rows do, with a RangeError |
| ParadiseFacts.RecordsShape | js/paradise.js:211-230 | the header comes first and every later record is an entry |
| ParadiseFacts.CharactersAreHandles | js/paradise.js:9-27 | every character id is a handle without `/` and every name is non-empty |
| ParadiseFacts.AuthorOfCharacter | js/paradise.js:225 | a message from a character's account, on any server, is written under that character's name |
| ParadiseFacts.AuthorOfStranger | js/paradise.js:225 | a message from any other account is written under its handle |
| ParadiseFacts.TimeColumnReadsBack | js/paradise.js:190-193 | the time column read back is the publication time plus nine hours, cut to the second |
| ParadiseFacts.UndatedKeptThreadFails | js/paradise.js:215-227 | a thread with a message that is not skipped and has no time fails with a RangeError |
| ParadiseFacts.ThreadFailsInRange | js/paradise.js:215-228 | a thread can fail only with a RangeError |
| ParadiseFacts.ChainFailsInRange | js/paradise.js:213-230 | when some thread fails and every failure is a RangeError, the upload fails with a RangeError |
| ParadiseFacts.ArrangedFailInRange | js/paradise.js:213-230 | in any order of their messages, every thread can fail only with a RangeError |
| ParadiseFacts.ArrangedResultInRange | js/paradise.js:215-228 | the same for one thread |
| ParadiseFacts.UndatedKeptFails | js/paradise.js:213-230 | a message without a time that is not skipped makes the upload fail with a RangeError, whatever order the sort leaves the messages of each thread in |
| MainUpload.KoContent | js/main.js:99-100 | the Korean content of the item's object, empty when the object is missing |
| MainUpload.PublishedOf | js/main.js:99-101 | the time of the item's object, missing when the object is |
| MainUpload.Records | js/main.js:97-106 | the records: a TypeError without `orderedItems`, else the header and the rows of the items with Korean content, or the first error |
| MainUpload.ToKst | js/main.js:60-65 | a missing or empty time gives the empty string; every error is a RangeError; any other text has 19 characters |
| MainUpload.StepOf | js/main.js:99-105 | an item is skipped iff its Korean content is empty, and throws iff it has content and its time does not format, with a RangeError |
| MainUpload.BuildRecords | js/main.js:97-106 | the record loop returns the records of the specification `Records` |
| MainUpload.StepOfPush | js/main.js:103-104 | a pushed row is `[toKST(published), target, content]` of the item's parsed content |
| MainUpload.RecordsOutcome | js/main.js:97-106 | a missing `orderedItems` throws a TypeError; otherwise the upload succeeds iff every item with content has a time that formats, and fails with a RangeError |
| MainUpload.PushedRowAt | js/main.js:102-104 | the `j`-th row comes from an item with Korean content and holds its time and split content |
| MainUpload.RecordsArePushed | js/main.js:97-106 | the records after the header are the pushed rows |
| MainUpload.KoItemsListed | js/main.js:102 | on success every item with Korean content gives a row |
| MainUpload.RecordsRows | js/main.js:97-106 | the header, then exactly one row per item with Korean content, every such item, in archive order, each with its KST time and split content |
| MainUpload.TimeColumnReadsBack | js/main.js:60-65 | the time column read back is the publication time plus nine hours, cut to the second |

## Left out

- OAuth and GIS set-up, `config.json`, the Sheets and Drive calls, the
  clipboard, alerts and the DOM: all network or browser I/O.
- The HTML-to-text step of `cleanText`/`parseContent` is a browser API.
  It is the parameter `textContent`.
- `Date` parsing of `published` text is left out. A timestamp is an integer
  time value, or `None` when `published` is absent or empty. A text that
  does not parse (an Invalid Date that is present) is represented only by
  out-of-range time values.
- Chrono.SortByPublished: `requires` every message of a thread to carry a
  time. With a missing time the comparator yields `NaN`, and the order of
  `Array.prototype.sort` is then left to the engine.
- Paradise.BuildRecords: `requires` every message of every thread to carry a
  time, as the sort does; `Paradise.Records` and `Paradise.ThreadResults`
  carry the same requirement. A thread with an undated message that is not
  skipped throws a RangeError in `toKST`, whatever order the sort leaves.
  That outcome is proved for every order of the messages by
  `ParadiseFacts.UndatedKeptFails` over `Paradise.ArrangedRecords`, not by
  the loop itself. When every undated message is skipped, the rows depend
  on the engine's order and are not modelled.
- Chrono.SortByPublished: it is insertion sort on values. The in-place
  mutation of the thread array by `thread.sort` is not modelled, and nothing
  else reads that array.
- JavaScript object keys are strings of the model. Inherited prototype keys
  such as `__proto__` or `constructor` in `idMap`, `repliesTo` or `idToName`
  are not modelled.
- `loadSelectedJsonFiles` is declared twice, and the second declaration wins.
  Only its note filter is modelled (`Activity.SelectNotes`). The Drive
  download, the per-file `try`/`catch` and the lookup of selected names are
  I/O.
- The checkbox limit of two characters and the `enabled` flag only drive the
  DOM. `fileName` names a Drive file. Both are kept in the table but not
  used.
- js/password.js is not part of this model. It is a prompt and a redirect
  around one string comparison.
- Clock.KstReadsBack: proved for years 0 to 9999, where `toISOString` writes
  four year digits. For other years the cut at 19 characters falls elsewhere,
  and the model only states the length and the error cases.
