# AI Campus Assistant chatbot — a Dafny model of its core

The AI Campus Assistant is a small FastAPI service. A student sends a chat
message; a rule-based bot classifies it into one of six intents by ordered,
case-insensitive substring tests and composes a reply. The reply is a fixed
greeting, enrollment hint, farewell or fallback, a listing of all course
names, or a keyword search over the course catalog. A separate endpoint,
`GET /courses/search`, filters the catalog by keyword. It matches against
the keyword string or the course name, copies each hit into a response
record, and answers 404 when nothing matches.

This project models that core and proves what it does:

- `text.dfy` (module `Text`): the Python string builtins the bot relies on.
  These are `str.lower()` (ASCII letters), the substring test `pat in s`
  (the empty pattern is in every string), `sep.join(parts)`, and
  `s.split(c)` as the inverse of a one-character join.
- `catalog.dfy` (module `Catalog`): the `courses` row and the keyword filter
  that both searches share. The filter is `Hits`, the matching courses in
  catalog order.
- `chatbot.dfy` (module `ChatBot`): the intents and their labels,
  `detect_intent`, `find_courses` (a loop, as in the source) and
  `process_message` (a loop for the listing branch).
- `course_search.dfy` (module `CourseSearch`): the search endpoint. Both of
  its passes are loops: the filter and the record copying.
- `scenarios.dfy` (module `Scenarios`): worked cases over the four sample
  courses the application seeds its database with.

`ChatBot` in the source is a class with no fields, so its methods are plain
functions and methods of a module here. The database query
`db.query(Courses).all()` becomes a `catalog: seq<Course>` parameter, in
the order the query returns. An intent is the datatype `Intent`; `Label` gives the exact
string the source returns and stores.

Three behaviours of the source are modelled as written:

- The classifier is a plain substring test. So "this" is a greeting (it
  contains "hi"), "machine learning" is a greeting too, and "html" is a
  course search (it contains "ml").
- On the `search_course` path the WHOLE message, not a word of it, is the
  query of `find_courses` (main.py:101). "do you have python courses?"
  therefore finds nothing, because no keyword string contains the entire
  sentence.
- The chat search looks at keyword strings only, while the endpoint also
  matches names. "ML Fundamentals", the name of ML201, is a course search (it
  contains "ml"); the endpoint finds ML201 for it while the chat finds nothing.

The classifier has ten trigger words across its rules, collected in
`ChatBot.ALL_TRIGGERS`.

## Model

| member | source | states |
|---|---|---|
| Text.LowerChar | main.py:59 | the ASCII lower-casing of one character: an upper-case letter moves 32 code points into 'a'..'z', any other character is kept |
| Text.Lower | main.py:59 | `str.lower()` keeps the length and lower-cases every position |
| Text.LowerIsLower | main.py:59 | a lowered string holds no upper-case letter |
| Text.LowerOfLower | main.py:59 | lowering a string with no upper-case letter gives the same string |
| Text.LowerIdempotent | main.py:59 | lowering twice is lowering once |
| Text.LowerAvoids | main.py:59 | a character that no character of `s` lowers to is absent from the lowered string |
| Text.Contains | main.py:60 | `pat in s`: the pattern occurs at some index of the string |
| Text.ContainsEmpty | main.py:60 | the empty pattern is in every string; a non-empty pattern is not in the empty string |
| Text.ContainsAt | main.py:60 | an occurrence at one index is enough for `pat in s` |
| Text.ContainsLength | main.py:78 | a pattern longer than the string never occurs in it |
| Text.NotContainsByChar | main.py:78 | a pattern holding a character the string lacks does not occur in it |
| Text.Join | main.py:81 | `sep.join(parts)` is empty for no parts and otherwise starts with the first part |
| Text.JoinSnoc | main.py:81 | joining one more part appends the separator and the part (just the part after an empty list) |
| Text.JoinLastChar | main.py:81 | a join ends with the last character of its last part, when that part is non-empty |
| Text.Split | main.py:81 | `split` always yields at least one piece |
| Text.SplitNoSeparator | main.py:81 | a string without the separator splits into itself alone |
| Text.SplitAfterPart | main.py:81 | a separator-free prefix followed by the separator splits off as the first piece |
| Text.SplitJoin | main.py:81 | splitting a one-character join of a non-empty list recovers the parts when no part holds the separator (the empty list joins to "", which splits into [""]) |
| Catalog.Matches | main.py:171 | a course matches when its lowered keyword string holds the lowered query, or, for the endpoint, its lowered name does |
| Catalog.Hits | main.py:77-79 | the filter returns no more courses than the catalog holds |
| Catalog.HitsAppend | main.py:170-172 | filtering a concatenation filters each part and concatenates, so catalog order is kept |
| Catalog.HitsSnoc | main.py:170-172 | one more course is kept exactly when it matches |
| Catalog.HitsMember | main.py:170-172 | a course is in the result exactly when it is in the catalog and matches |
| Catalog.HitsEmpty | main.py:173 | the result is empty exactly when no course matches |
| Catalog.HitsAll | main.py:170-172 | a catalog whose courses all match is returned whole |
| Catalog.HitsOnly | main.py:170-172 | when exactly one course matches, the result is that course alone |
| Catalog.KeywordHitsAreNameOrKeywordHits | main.py:78 | every chat-search hit is also an endpoint hit |
| ChatBot.Label | main.py:58-71 | the label of an intent is one of the six strings the classifier returns |
| ChatBot.Classify | main.py:60-71 | the rule chain on a lowered message: the result's rule fires unless it is the fallback, and it is the greeting exactly when "hi" or "hello" occurs |
| ChatBot.DetectIntent | main.py:58-71 | the classifier returns the fallback or an intent whose rule fires on the lowered message |
| ChatBot.Triggers | main.py:60-69 | every rule has trigger words; only the fallback has none |
| ChatBot.LabelsAreSixDistinct | main.py:58-71 | every intent has one of the six labels and distinct intents have distinct labels |
| ChatBot.ContainsAny | main.py:66 | `any(k in msg for k in words)` holds exactly when some word occurs |
| ChatBot.Rank | main.py:58-71 | each rule has its position in the priority order; only the fallback has none |
| ChatBot.FiresSpelledOut | main.py:60-69 | the trigger table says the same tests as the rule chain |
| ChatBot.DetectIntentFirstMatch | main.py:58-71 | the classifier returns an intent exactly when its rule fires (or it is the fallback) and no earlier rule fires |
| ChatBot.GreetingWins | main.py:60-61 | a message containing "hi" or "hello" in any case is a greeting, whatever else it contains |
| ChatBot.EnrollIff | main.py:60-65 | `enroll` exactly when no greeting or listing word occurs and "enroll" does |
| ChatBot.SearchCourseIff | main.py:60-67 | `search_course` exactly when none of the first five words occurs and one of the four topic words does |
| ChatBot.UnknownIff | main.py:58-71 | `unknown` exactly when none of the ten trigger words occurs |
| ChatBot.EmptyMessageIsUnknown | main.py:70-71 | the empty message is `unknown` |
| ChatBot.DetectIntentCaseInsensitive | main.py:59 | lowering the message first changes nothing; messages equal up to case get the same intent |
| ChatBot.Line | main.py:79 | a result line ends with ')' and holds a line break only if code, name or instructor does |
| ChatBot.Lines | main.py:79 | one line per course, in order |
| ChatBot.LinesSnoc | main.py:79 | one more course appends its line |
| ChatBot.LinesHitsSnoc | main.py:77-79 | one more course adds its line exactly when its lowered keyword string holds the query |
| ChatBot.ChatSearchReply | main.py:73-83 | the reply is the sentinel exactly when no lowered keyword string contains the lowered keyword |
| ChatBot.ChatSearchReplyLines | main.py:79-81 | when no code, name or instructor holds a line break, a non-sentinel reply splits at line breaks into exactly the matching courses' lines, in catalog order |
| ChatBot.FindCourses | main.py:73-83 | the loop returns the search reply: the matching lines joined by line breaks, or the sentinel exactly when nothing matches |
| ChatBot.Names | main.py:93-96 | the names list has one name per course, in order |
| ChatBot.NamesSnoc | main.py:95-96 | one more course appends its name |
| ChatBot.CourseListReply | main.py:92-98 | the listing starts with "Available courses: " and is that prefix alone for an empty catalog |
| ChatBot.CourseListReplySnoc | main.py:92-98 | one more course appends ", " and its name to the listing (just its name after an empty one) |
| ChatBot.SearchReplyUsesWholeMessage | main.py:100-101 | on the search path the reply lists courses exactly when some keyword string contains the entire lowered message |
| ChatBot.LongSearchMessageFindsNothing | main.py:100-101 | a search message longer than every keyword string gets the sentinel |
| ChatBot.ChatReplyOfOne | main.py:80-81 | when exactly one course matches, the chat reply is that course's line alone |
| ChatBot.Reply | main.py:86-110 | the reply is the sentinel only on the search path, and there exactly when no lowered keyword string holds the whole lowered message |
| ChatBot.ProcessMessage | main.py:86-110 | the intent is the classifier's, each intent gets its fixed reply, the listing is the prefix and the ", "-join of all names, the search is the chat search of the whole message |
| CourseSearch.ToData | main.py:178-184 | the response record of one course |
| CourseSearch.ToDataForgetsOnlyId | main.py:178-184 | two courses give the same record exactly when they differ at most in `id` |
| CourseSearch.Records | main.py:176-185 | one record per course, in order, with code, name, category, instructor and keywords copied |
| CourseSearch.RecordsSnoc | main.py:184-185 | one more course appends its record |
| CourseSearch.CatalogSearch | main.py:165-187 | not-found exactly when no course matches the keyword in its keyword string or name; a found result is non-empty |
| CourseSearch.SearchCourses | main.py:165-187 | the two loops return not-found exactly when nothing matches, else the records of the matches in catalog order |
| CourseSearch.CopyRecords | main.py:176-185 | the copying loop returns one record per found course, fields copied, order kept |
| CourseSearch.ChatHitMeansEndpointFound | main.py:78 | whatever the chat search finds, the endpoint finds too |
| CourseSearch.FoundRecordsComeFromMatches | main.py:170-185 | every returned record is the copy of a catalog course that matches |
| CourseSearch.EmptyKeywordFindsAll | main.py:171 | the empty keyword returns the whole non-empty catalog |
| Scenarios.ThisIsGreeting | main.py:60-61 | "this" is a greeting |
| Scenarios.GreetingBeforeEnroll | main.py:60-65 | "hi, I want to enroll" is a greeting, not an enroll |
| Scenarios.UpperCaseHello | main.py:59-61 | "HELLO" is a greeting |
| Scenarios.MachineLearningIsGreeting | main.py:60-67 | "machine learning" is a greeting, not a course search |
| Scenarios.HtmlIsSearch | main.py:66-67 | "html" is a course search |
| Scenarios.PythonIsSearch | main.py:66-67 | "python" is a course search |
| Scenarios.PythonHits | main.py:15-24 | among the sample courses the chat query "python" keeps CS102 alone |
| Scenarios.PythonFindsCS102 | main.py:100-101 | the chat reply to "python" is "CS102 - Python for AI (Dr. Meera Iyer)" |
| Scenarios.PythonQuestionIsSearch | main.py:66-67 | "do you have python courses?" is a course search |
| Scenarios.PythonQuestionFindsNothing | main.py:100-101 | and its reply is "No matching courses found." |
| Scenarios.ShowCoursesIsList | main.py:62-63 | "show courses" asks for the listing |
| Scenarios.ShowCoursesListsAll | main.py:92-98 | the listing names the four sample courses in order |
| Scenarios.CourseNameIsSearch | main.py:66-67 | "ML Fundamentals" is a course search |
| Scenarios.NameMatchAtEndpoint | main.py:165-187 | the endpoint search for "ML Fundamentals" finds ML201 alone, by its name |
| Scenarios.NameMatchNotInChat | main.py:86-110 | the chat reply to "ML Fundamentals" is "No matching courses found." |

## Left out

- The FastAPI application, its routing, request and response schemas, and HTTP transport. These are framework code; the 404 of the search endpoint is the `NotFound` result.
- The database: sessions, commits, the `Sessions`, `Enrollments` and `Messages` tables, and the seeding in `init_db`. The catalog is a parameter, and only the sample rows appear, as constants in `Scenarios`.
- The other endpoints (`/`, `/session`, `/courses`, `/chat`, `/enroll`, `/enrollments`, `/chat-history`). The `/chat` endpoint only calls `process_message` and stores its result.
- The row `id` of a course is kept in `Course` but plays no part in any operation, as in the source.
- Text.Lower: lower-cases ASCII letters only. Python's `str.lower()` also folds non-ASCII letters; that is not modelled because it needs the Unicode case tables.
- Text.Contains and Text.Split are the Python builtins `in` and `split` for the cases used here. `split` is only the one-character form, and it serves only to state the join round trip.
- Catalog.Course: every column is a non-NULL string. The `courses` columns are nullable, but the seeding fills all of them. A NULL would behave differently in the source: a NULL keyword string raises at main.py:78 and main.py:171; a NULL name raises at main.py:171 only for a course whose keyword string lacks the keyword (the `or` stops early otherwise, and the record then carries a null name), raises at the join on main.py:97, and prints as "None" at main.py:79; a NULL code or instructor prints as "None" at main.py:79.
- ChatBot.ChatSearchReplyLines: the split round trip is promised only when no code, name or instructor holds a line break. The columns allow one, and such a course's line would split into several pieces.
- Exceptions from the database or framework are not modelled.
