# StudySync in Dafny

StudySync has two halves, and this project models the core of each.

The browser extension (`extension/content.js`) reads dated course items off a Brightspace page. Four scrapers are tried in a fixed order:

- the Calendar › List page;
- the assignments table;
- the quizzes table;
- the home page's "Upcoming events" widget.

They share a whitespace normaliser (`clean`), a month lookup (`monthToNum`), a keyword classifier (`classify`) and a date assembler (`toISO`). Each item carries a title, a course, a due time, a kind and a source uid.

The server (`app/main.py`, `app/feeds.py`) handles four things:

- stores items through a bulk upsert keyed on (user, source uid);
- lists a user's rows between optional bounds, sorted by due time;
- hands out one private share token per user;
- serves an iCalendar feed (RFC 5545) of a user's future rows, with a display alarm on each dated event.

The page is a snapshot, not a DOM (`PageModel.Page`):

- the path and href;
- the calendar rows' texts, each with an optional link text;
- the tables as header texts plus body-row cell texts;
- the texts of the candidate nodes under the "Upcoming events" heading.

The ambient inputs are parameters (`PageModel.Env`, `now`):

- the options;
- the current year;
- the browser's `new Date(text)` and `toISOString`;
- the server clock;
- the drawn share token.

The regular expressions are written out as deterministic matchers with a leftmost-match search (`Patterns`). Instants are integers on one UTC time line.

## Module layout

| module | models |
|---|---|
| Wrappers | `Option`, `Result`, `Completion` (normal return or throw); JavaScript/Python truthiness of a string |
| Strings | character classes, ASCII lower-casing, `indexOf`, `slice`, `String(n)`, `parseInt`, `padStart`, `split`, `rstrip` |
| TextNormalizer | `clean` and its characterisation by words |
| Patterns | the month, day, time and calendar-stamp regular expressions; `match`, `test`, `replace` |
| DateResolver | `monthToNum`, `toISO` |
| Classifier | `classify` |
| PageModel | page snapshot, options, items; the `seen`-set dedup and the result folds the scrapers share |
| CalendarList, TableLists, HomeUpcoming | the four scrapers, each as a loop method proved against a listing function |
| Dispatcher | `scrapeAll` |
| Schema | the `assignments` row, the validated bulk item, the table's constraints |
| Listing | `parse_iso` and `list_assignments` |
| Feeds | `build_ics` |
| Store | `upsert_bulk`, `get_share_url`, `token_feed`, and the `Database` class holding rows, next id and links |

Where the documented behaviour and the code differ, the model follows the code:

- Calendar and home items never have a course. `clean` removes every line break before the text is split on "\n" (extension/content.js:32, :55, :133, :143). The home title is therefore read from the whole text.
- The table scrapers do no uid dedup and do not check `toISO`'s result, so a table item's due time may be null (extension/content.js:90-91, :116-117).
- Table uids use the matched month text and the raw day text (extension/content.js:91, :117).
- Duplicate uids in one batch that are not yet stored for the user all take the insert branch of `upsert_bulk`, because the lookup sees only rows present before the request (the session does not autoflush, app/db.py:7). The commit then breaks the unique constraint on (`user_id`, `source_uid`) (app/models.py:40), so the whole request fails and nothing is stored (`Store.DuplicateNewUidFails`, `Store.Database.UpsertBulk`). When the uid is already stored for the user, every such item takes the update branch instead, the request succeeds and the last item wins (`Store.LastWriteWins`).
- A source uid of "" is falsy. Such an item is never looked up, and it collides with a stored "" uid of the same user (`Store.EmptyUidCollides`).
- The calendar scraper can throw: it indexes the day match inside the stamp without a null check (extension/content.js:46). `scrapeAll` passes the throw on.

## Model

| member | source | states |
|---|---|---|
| Strings.Lower | extension/content.js:6 | same length; each character lower-cased (ASCII) |
| Strings.IndexFrom | extension/content.js:36 | -1 exactly when `sub` occurs at no position from `from`; otherwise the first such position |
| Strings.Take | extension/content.js:61 | the prefix of length min(n, length) |
| Strings.NatToString | extension/content.js:61 | a non-empty digit string, one digit exactly below 10, no leading zero |
| Strings.ParseNatToString | extension/content.js:46 | `parseInt` of the decimal spelling gives the number back |
| Strings.NatToStringInjective | extension/content.js:61 | different numbers have different spellings |
| Strings.Pad2 | extension/content.js:15 | at least two digits, exactly two below 100, and reads back as the number |
| Strings.Split | extension/content.js:55 | at least one part, the first being the text before the first separator |
| Strings.PartsWithout | extension/content.js:55 | no part contains the separator |
| Strings.JoinSplit | extension/content.js:55 | joining the parts with the separator gives the text back |
| Strings.SplitJoin | extension/content.js:55 | separator-free parts joined by the separator split back into those parts, so the parts are exactly the pieces between separators |
| Strings.RStrip | app/main.py:157 | a prefix of the input that does not end in the stripped character, and every character removed is that character: exactly the trailing run goes |
| TextNormalizer.CleanSpec | extension/content.js:3 | the result is in normal form: single spaces only, each between two non-space characters. It holds exactly the input's words, joined by single spaces |
| TextNormalizer.CleanOfWord | extension/content.js:3 | a single word is already clean |
| TextNormalizer.CleanNull | extension/content.js:3 | `clean(null)` and `clean(undefined)` are "" |
| TextNormalizer.CleanIdempotent | extension/content.js:3 | cleaning twice is cleaning once |
| TextNormalizer.CleanTrimmed | extension/content.js:3 | no whitespace at either end |
| TextNormalizer.CleanSingleLine | extension/content.js:3 | no line break survives: splitting on "\n" gives the text alone |
| TextNormalizer.CleanIsUnwords | extension/content.js:3 | squeeze then trim equals the words joined by single spaces |
| TextNormalizer.WordsOfUnwords | extension/content.js:3 | splitting words joined by single spaces gives the words back |
| Patterns.Find | extension/content.js:33 | a found match starts at or after the search position, where the pattern matches, and its text is exactly what the pattern matches there |
| Patterns.FindLeftmost | extension/content.js:33 | the match found is the leftmost: no earlier position matches; `None` means no position from the search position on matches |
| Patterns.ReplaceFirst | extension/content.js:138 | without a match the text is unchanged; with one, exactly the leftmost match is cut out |
| Patterns.MonthMatch | extension/content.js:45 | a month match is three letters naming one of the twelve months |
| Patterns.DayMatch | extension/content.js:46 | a day match is one or two digits without a leading zero, between 1 and 31 |
| Patterns.StampStartsWithMonth | extension/content.js:45 | the month lookup inside a calendar stamp finds the stamp's first three characters, so it never fails |
| DateResolver.MonthToNum | extension/content.js:4 | defined exactly for the twelve abbreviations in any case; the value 1 to 12 is the abbreviation's place |
| DateResolver.MonthToNumOfName | extension/content.js:4 | the k-th abbreviation maps to k+1 |
| DateResolver.MonthToNumIgnoresCase | extension/content.js:4 | the lookup ignores ASCII case |
| DateResolver.PickTime | extension/content.js:14 | the cleaned time text when truthy, else the cleaned fallback when truthy, else "23:59" |
| DateResolver.ToISO | extension/content.js:13-18 | null exactly when the host cannot parse the assembled text; otherwise the ISO spelling of the parsed instant |
| DateResolver.DateStringInjective | extension/content.js:15 | different dates or times give different texts to parse |
| Classifier.Classify | extension/content.js:5-12 | one of five kinds; each kind exactly when its keywords occur and no earlier rule's do |
| Classifier.ClassifyByRules | extension/content.js:5-12 | equals the first-match reading of the ordered rule table |
| Classifier.ClassifyIgnoresCase | extension/content.js:6 | the title's ASCII case does not change the kind |
| Classifier.LabQuizIsQuiz | extension/content.js:8-9 | a title mentioning both "lab" and "quiz", and no exam word, is a quiz |
| PageModel.DedupFirstProperties | extension/content.js:62-63 | distinct uids, every input uid kept, items drawn from the input |
| PageModel.DedupFirstWins | extension/content.js:62-63 | the item kept for a uid is the first item that carries it |
| PageModel.DedupKeepsFirst | extension/content.js:62-63 | an item whose uid no earlier item carries is kept |
| PageModel.DatedUidInjective | extension/content.js:61 | two dated uids with one prefix are equal only for one year, month and day and one 64-character lower-cased title start |
| PageModel.KeptConcat | extension/content.js:65 | collecting results distributes over concatenation |
| CalendarList.StampIndex | extension/content.js:36 | the stamp text occurs in the row text, at or before the match |
| CalendarList.NoCourseInCleanText | extension/content.js:53-56 | a cleaned row text has no second line, so the course guess is null |
| CalendarList.StampVerdict | extension/content.js:45-61 | throws exactly when the stamp has no day; keeps exactly when it has one, `toISO` of its month, day and time is truthy and the "Available" filter lets the title through; the kept item has the title, the course guess, that `toISO` value, the classified kind and the uid "cal-" + year + month + day + the first 64 lower-cased title characters |
| CalendarList.StampMonth | extension/content.js:45-47 | the month number 1 to 12 whose abbreviation the stamp opens with |
| CalendarList.StampDay | extension/content.js:46 | a day exactly when the day pattern matches inside the stamp, and then between 1 and 31 |
| CalendarList.RowStamp | extension/content.js:33 | the stamp exactly when the calendar pattern matches the row text; it is the matched text and opens with its month |
| CalendarList.CalendarVerdict | extension/content.js:31-61 | no stamp: skipped; with a stamp the title is the text before the stamp, else the link text; it throws exactly when that title is non-empty and the stamp has no day, and is kept exactly when the title is non-empty, the stamp has a day, its `toISO` value is truthy and the "Available" filter passes; the kept item is that title, no course, that due value, the classified kind and the stamp's uid; kept items satisfy the calendar item invariant |
| CalendarList.SharedUidSameDate | extension/content.js:61-62 | two kept rows share a uid only when their stamps give one month and day and their titles one 64-character lower-cased start, so the `seen` test drops only a same-dated item |
| CalendarList.CandidatesOk | extension/content.js:31-65 | every pre-dedup item satisfies the calendar item invariant (title, truthy due, no course, classified, passes the filter, uid and due value from one month and day) and is the item some row is kept with |
| CalendarList.CollectThrown | extension/content.js:46 | the pass throws exactly when some row throws |
| CalendarList.ThrownPersists | extension/content.js:46 | once a row throws, the scraper throws |
| CalendarList.SkippedRowIsInert | extension/content.js:59-63 | a dropped row, e.g. one the "Available" filter drops, changes nothing: its uid never enters `seen` |
| CalendarList.CalendarListingProperties | extension/content.js:21-69 | [] off the calendar path; on it, throws exactly when some row throws; otherwise distinct uids, each item satisfies the calendar item invariant and is the item some row is kept with, and every kept row's uid is listed |
| CalendarList.ScrapeCalendarList | extension/content.js:21-69 | the loop with its `seen` set returns the calendar listing |
| TableLists.HeaderKeys | extension/content.js:77 | each header cleaned and lower-cased, in order |
| TableLists.FirstMentioning | extension/content.js:78-79 | -1 exactly when no header mentions a keyword; otherwise the first that does |
| TableLists.RowItemSpec | extension/content.js:83-91 | an item exactly when title and due are non-empty and the due text has a month and a day; it has the title, no course, due value `toISO` of that month, day and time, kind "quiz" for quizzes and the classified title for assignments, and uid prefix + year + month text + day text + 64-character lower-cased title; it satisfies the table item invariant |
| TableLists.DueMonth | extension/content.js:86 | the month text is a three-letter abbreviation `monthToNum` knows |
| TableLists.DueDay | extension/content.js:87 | the day text is one or two digits reading 1 to 31 |
| TableLists.UnparsedDueKept | extension/content.js:90-91 | an item is given whether or not its date parses: its due time is null exactly when the host cannot parse that row's own date text |
| TableLists.TableItemsOk | extension/content.js:78-91 | a table missing the title or due header gives nothing; every item satisfies the table item invariant (uid and due value from one month and day text) |
| TableLists.SectionListingOk | extension/content.js:72-95 | [] off the section's path; otherwise every item satisfies the table item invariant: title, no course, the section's kind, uid and due value from one month text and day text |
| TableLists.RepeatedRowsRepeatItems | extension/content.js:81-91 | no dedup: repeated body rows give repeated items |
| TableLists.ScrapeRows | extension/content.js:81-92 | the inner loop appends the rows' items in order |
| TableLists.ScrapeSection | extension/content.js:76-93 | the two nested loops return the section listing |
| TableLists.ScrapeAssignmentsList | extension/content.js:72-95 | returns the assignments listing |
| TableLists.ScrapeQuizzesList | extension/content.js:98-121 | returns the quizzes listing |
| HomeUpcoming.MarkRun | extension/content.js:139 | the leading run of dash, bullet and colon marks, maximal |
| HomeUpcoming.CandidateNodes | extension/content.js:130 | exactly the nodes whose text shows a bounded time and a month |
| HomeUpcoming.CandidateNodesConcat | extension/content.js:130 | the filter keeps node order: the candidates of two runs are the first run's followed by the second's |
| HomeUpcoming.OneLine | extension/content.js:138-143 | a cleaned text is its own first line and has no course line |
| HomeUpcoming.DatedHomeItemOk | extension/content.js:136-144 | an item exactly when the title is non-empty, `toISO` of the text's month, day and time is truthy and the "Available" filter passes; the item has that title, the second-line course, that due value, the classified kind and the uid "home-" + year + month + day + 64-character lower-cased title |
| HomeUpcoming.HomeMonth | extension/content.js:136 | the month number 1 to 12 of the first month match |
| HomeUpcoming.HomeVerdictOk | extension/content.js:133-144 | nothing without a month or a day; otherwise an item exactly when title, due value and filter allow, equal to the dated item with no course; every item satisfies the home item invariant |
| HomeUpcoming.SharedHomeUidSameDate | extension/content.js:141-142 | two candidates' items share a uid only when their texts give one month and day and their titles one 64-character lower-cased start |
| HomeUpcoming.HomeListingProperties | extension/content.js:124-147 | [] without the heading; otherwise distinct uids, every item satisfies the home item invariant, has no course and is some candidate's result, and every candidate item's uid is listed |
| HomeUpcoming.SkippedNodeIsInert | extension/content.js:140-142 | a node that yields nothing changes nothing: its uid never enters `seen` |
| PageModel.PushFirst | extension/content.js:131-145 | the loop with its `seen` set returns the first-wins dedup of the candidates' items |
| HomeUpcoming.ScrapeHomeUpcoming | extension/content.js:124-147 | returns the home listing |
| Dispatcher.FirstNonEmpty | extension/content.js:152-158 | the fallback when all are empty; otherwise the first non-empty listing, every earlier one empty |
| Dispatcher.DispatchOrder | extension/content.js:150-159 | throws exactly when the calendar scraper throws; otherwise calendar, then assignments, then quizzes if non-empty, else the home result |
| Dispatcher.DispatchItemsTitled | extension/content.js:150-159 | every item returned has a title and no course |
| Dispatcher.CalendarShadowsTheRest | extension/content.js:152-153 | once the calendar gives items, tables and widget are never consulted |
| Dispatcher.ScrapeAll | extension/content.js:150-159 | returns the dispatch result |
| Schema.ItemFromBody | app/main.py:57-62 | the given fields kept; `kind` defaults to "assignment", the others to null |
| Listing.ParseIso | app/main.py:120-129 | an empty or missing string is no bound; any other string is a bound or a failure |
| Listing.ZuluIsUtc | app/main.py:123-129 | a trailing "Z" and a naive time both mean UTC |
| Listing.ZuluOverridesOffset | app/main.py:123-127 | a "Z" after an explicit offset replaces the offset instead of converting |
| Listing.Selected | app/main.py:118-136 | exactly the caller's rows whose due time is within both given bounds (inclusive) |
| Listing.InsertByDue | app/main.py:138 | stays sorted; one more occurrence of the row |
| Listing.SortByDue | app/main.py:138 | sorted by due time, nulls last, and a permutation of the input |
| Listing.ListRows | app/main.py:118-138 | sorted; a permutation of the selected rows; membership exactly the caller's in-range rows |
| Listing.ListAssignments | app/main.py:111-138 | succeeds exactly when both bounds parse, and then lists with the parsed bounds |
| Listing.UnboundedListsAllOwnRows | app/main.py:118 | without bounds, every row of the caller and no other |
| Listing.BoundDropsUndated | app/main.py:133-136 | once a bound is given, undated rows are not listed |
| Listing.UndatedLast | app/main.py:138 | dated rows come before undated ones |
| Feeds.KeptRows | app/feeds.py:13-15 | exactly the rows not due before `now` when `future_only`; undated rows always kept |
| Feeds.AllKeptWhenNotFutureOnly | app/feeds.py:14 | without `future_only` every row is kept |
| Feeds.Summary | app/feeds.py:19 | the title when non-empty, and "Untitled" for an empty title |
| Feeds.Description | app/feeds.py:24-27 | the kind (or "assignment" for an empty kind), followed by " — " and the course exactly when the course is truthy |
| Feeds.EventOf | app/feeds.py:17-34 | uid "studysync-" + id; summary and description of the row's title, kind and course; dtstamp `now`; dtstart the due time exactly when there is one; the −30-minute display alarm exactly when alarms are on and the row is dated |
| Feeds.Events | app/feeds.py:13-36 | one event per kept row, in order |
| Feeds.EventUidsDistinct | app/feeds.py:18 | rows with distinct ids give events with distinct uids |
| Feeds.BuildIcs | app/feeds.py:5-36 | the loop gives a calendar with prodid "-//StudySync//EN", version "2.0", name "StudySync" and the kept rows' events |
| Store.Lookup | app/main.py:74-78 | -1 exactly when no row of the user carries the uid; otherwise such a row |
| Store.Target | app/main.py:72-78 | an update target among the rows present before the request, or -1 |
| Store.Overwrite | app/main.py:79-83 | title, course, kind and due time replaced; id, owner, uid and status kept |
| Store.CountsAddUp | app/main.py:70-97 | imported plus updated is the number of items |
| Store.UpdatedKeeps | app/main.py:79-84 | updates keep id, owner, uid and status; other users' rows untouched |
| Store.LastFor | app/main.py:71-79 | the last item aimed at a row, or -1 |
| Store.LastWriteWins | app/main.py:71-84 | a row carries the fields of the last item aimed at it, or is unchanged |
| Store.InsertedShape | app/main.py:85-97 | inserted rows belong to the caller, have status "todo" and consecutive ids |
| Store.NoUidsOnlyInsert | app/main.py:72-73 | items without a truthy uid always insert: no update, one row per item |
| Store.InsertedPrefix | app/main.py:85-97 | inserts happen in item order |
| Store.InsertedAt | app/main.py:85-97 | an inserting item's row sits after those of earlier items |
| Store.DuplicateNewUidFails | app/main.py:73-98 | two items with one new uid break the unique constraint at the commit |
| Store.EmptyUidCollides | app/main.py:73 | an empty uid is never looked up and collides with a stored empty uid |
| Store.UpsertKeepsIds | app/main.py:86-98 | ids stay distinct and below the next free id |
| Store.LinkOf | app/main.py:147 | -1 exactly when the user has no link; otherwise the user's link |
| Store.LinkOfUnique | app/models.py:19 | with one link per user, the link found is that one |
| Store.TokenOwner | app/main.py:163 | -1 exactly when no link has the token; otherwise a link that has it |
| Store.ShareUrl | app/main.py:157-158 | base without trailing slashes, "/calendar/", the token, ".ics" |
| Store.Share | app/main.py:147-159 | links stay valid, other users' links unchanged, the user has a link; a user with a truthy token keeps it, nothing changes and gets its URL; otherwise the token is `drawn` and the URL its URL, and the call fails exactly when `drawn` is another link's token, leaving only the created link |
| Store.OtherSharesKeepToken | app/main.py:153-158 | another user's share leaves a user's token and link alone, so asking again gives the same URL |
| Store.ShareIdempotent | app/main.py:153-158 | asking again returns the same URL and changes nothing |
| Store.FeedProperties | app/main.py:163-174 | 404 exactly when no link has the token; otherwise only events of the owner's rows not yet past |
| Store.Database.constructor | app/models.py:27-40 | an empty, valid database |
| Store.StageBatch | app/main.py:70-97 | the loop leaves the stored rows with the batch's updates, the rows queued for insertion, and the counts, as the `Updated`, `Inserted` and `UpdateCount` folds define them |
| Store.Database.UpsertBulk | app/main.py:64-99 | if the result meets the unique constraint, it is stored with the counts; otherwise nothing changes and the request fails |
| Store.Database.GetShareUrl | app/main.py:141-159 | links and answer as `Share` gives them; rows untouched |
| Store.Database.TokenFeed | app/main.py:161-174 | the feed for the token from the current state |

## Left out

- The DOM is out: `querySelectorAll`, `closest`, `innerText` and `textContent` are replaced by the page snapshot (extension/content.js:26, 39, 74, 77, 81-82, 125-130).
- The heading and container search of the home widget is out (extension/content.js:125-127). The snapshot holds the candidate nodes' texts, or nothing when there is no heading.
- The `chrome.runtime` message listener and its error reply are messaging glue (extension/content.js:161-167).
- extension/background.js is not part of this model. It is notifications, storage and `fetch`. It sends "SCRAPE", while the listener waits for "STUDYSYNC_SCRAPE".
- extension/options.js is not part of this model: it is UI, storage and HTTP.
- app/auth.py is not part of this model. It is JWT and bcrypt, foreign cryptographic libraries; the caller is a user id parameter.
- app/ingest.py is not part of this model. It is an HTTP fetch and `icalendar` parsing, and its upsert loop mirrors `upsert_bulk`.
- Engine and session configuration in app/db.py is out, apart from autoflush being off, which is modelled as the pre-request lookup.
- FastAPI routing, CORS and pydantic validation are out; `Schema.ItemFromBody` stands for the defaults only.
- `icalendar` serialisation (`to_ical`) is out; the calendar is a datatype.
- The 500 reply when `build_ics` raises is out.
- SQLAlchemy timestamps (`created_at`, `updated_at`) and `ics_url` are out.
- DateResolver.ToISO: `new Date(text)` and `toISOString` are an abstract host, so time zones and the browser's parsing rules are not modelled.
- Listing.ParseIso: `datetime.fromisoformat` is an abstract partial function. Aware and naive times stored in SQLite, and pydantic's datetime parsing, are represented only as integer instants.
- Strings.Lower: case folding covers the ASCII letters only. This is what `/i` without the `u` flag folds, but `toLowerCase` folds more.
- Strings.Take: strings are sequences of characters, not UTF-16 code units, so `slice(0, 64)` on astral characters is not modelled.
- DateResolver.MonthToNum: the lookup in an object literal would also find inherited keys such as "constructor"; only the twelve abbreviations can reach it from a match, so this is not modelled.
- PageModel.Env: the year is a natural number.
- Listing.SortByDue: SQL leaves the order of rows with equal due times unspecified; the model keeps table order.
- Store.Database.UpsertBulk: the id sequence is the `nextId` counter, and a failed commit is one failure without the database's message.
- Store.Share: `secrets.token_urlsafe(16)` is the non-empty `drawn` parameter. A failed token commit leaves the link created by the first commit in place, and the answer is a failure.
