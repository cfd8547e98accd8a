# A verified model of the 1C technological-journal viewer

The viewer reads the technological journal of the 1C:Enterprise platform: a
directory of `YYMMDDHH.log` files, one file per process and hour, each line a
record `MM:SS.ffffff-duration,EVENT,level,key=value,...`. It does three things.

- It merges the files of one hour by time and streams the records.
- It filters them with a small query language (`WHERE a = 'x' AND b > 10`,
  or a bare `/pattern/`).
- It shows the result as a table, optionally behind a second filter of
  column patterns given on the command line.

This project models that core in Dafny and proves properties of the model.
Each module follows one source file:

| module | source |
|---|---|
| `Lexer`, `Queries`, `QueryCompiler` | `src/parser/compiler.rs`: the tokenizer, the query tree with `accept`, and the recursive-descent compiler |
| `FieldParser` | `src/parser/fields.rs`: the lazy tokenizer of a journal line |
| `Values` | `src/parser/value.rs`: field values, conversion from text, equality and partial order |
| `FieldMaps`, `Records` | `src/parser/mod.rs`: `FieldMap` and `LogString::get` |
| `Calendar`, `Directory`, `HeadMerge`, `HourMerge` | `src/parser/mod.rs`: `parse_dir`, covering selection of the files by name and hour, stable sort, grouping into runs of one hour, and the k-way merge loop |
| `LegacyParser` | `src/parser.rs`: the older reader with its byte state machine, its `IndexMap` record and `parse_dir`/`parse_file` |
| `Util` | `src/util.rs`: `read_until` and `sub_strings` |
| `Arguments` | `src/main.rs`: `parse_kv` and `LINE_ENDING` |
| `Tables` | `src/logdata.rs` and `src/ui/model.rs`: `LogData` behind the `TableModel` interface |
| `TableFilter` | `src/ui/filter.rs`: `DataModelFilter` and its background scan |
| `LogCollections` | `src/parser/logdata.rs`: `LogCollection` and its background scan |
| `Base`, `Host` | shared definitions, and the opaque collaborators |

Conventions of the model:

- Text is `seq<char>`. The two line tokenizers (`src/parser/fields.rs` and
  the older `src/parser.rs`) walk the bytes of a file, and there one `char`
  stands for one byte; every delimiter they look for is ASCII. Everywhere
  else a `char` is a Unicode scalar value, as Rust's `char` is: in the query
  lexer, which reads `chars()`, in `sub_strings` of `src/util.rs`, which
  cuts pieces of `width` characters whatever their UTF-8 length, and in
  file names matched by the regexes.
- The regex crate's `\d` is Unicode: a file name of eight decimal digits
  from any script is a log name. Reading its numbers takes byte slices and
  ASCII-only `parse`, so a name with a digit outside ASCII panics
  (`Calendar.NameHour`).
- An instant (`NaiveDateTime`) is an `int` number of nanoseconds since
  1970-01-01 00:00:00.
- A panic (`unreachable!()`, `unwrap` of `None`, a slice out of range) or a
  loop that never ends is an outcome of `Exec<T> = Returns(value) | Panics |
  Loops`, never a precondition. A thread that sends values and then stops
  is a `Stream`: the items sent, then how it ended.
- The regex engine, chrono's calendar, parsing and formatting of dates, and
  `util::parse_time` (whose file is not part of this model) are total
  functions held by a `Host` value and passed as parameters. So is the
  instant `now` the compiler captures.
- The background threads are step functions over an explicit state: the
  reading threads' `AddLine` and `Push`, and the scanning threads'
  `WorkerStep` and `ScanStep`. Each step preserves a consistency invariant,
  so the invariant holds however the steps interleave, except when
  `set_filter` overtakes a scan turn in flight (see
  `TableFilter.SetFilterAsWritten`).

## Model

| member | source | states |
|---|---|---|
| Lexer.Word | src/parser/compiler.rs:335-358 | a word is an identifier carrying the word exactly when it is not one of the keywords `WHERE`, `AND`, `OR`, `DESC`, `ASC`, matched exactly and case-sensitively |
| Lexer.ParseNumeric | src/parser/compiler.rs:278-284 | a number read is the value of a non-empty run of ASCII digits at the cursor, and the run ends at the end of the text or at a character that is not numeric; the only error is `FloatParseError` |
| Lexer.ParseDate | src/parser/compiler.rs:286-327 | reading a date literal never loops, only a relative literal (`now-…`) can panic, and one that reads yields a `Date` token |
| Lexer.Delimited | src/parser/compiler.rs:364-384 | the literal's text does not contain its delimiter, and the cursor moves past the opening delimiter without leaving the text |
| Lexer.LexAt | src/parser/compiler.rs:333-434 | a turn of the tokenizer's loop never loops, panics only at a date literal, and when it succeeds moves the cursor forward, within the program |
| Lexer.WordToken | src/parser/compiler.rs:335-358 | a word is read up to the first character that cannot continue it, and it is a keyword exactly when it spells one |
| Lexer.Operators | src/parser/compiler.rs:393-427 | `>=`, `<=` and `!=` are single tokens; `>` and `<` not followed by `=` stand alone; `!` followed by anything else is `UnexpectedChar`, and `!` at the end `UnexpectedEndOfInput` |
| Lexer.UnknownCharRejected | src/parser/compiler.rs:429 | a character outside the alphabet rejects the whole program with `UnexpectedChar`, whatever follows it |
| Lexer.NowIsCaptured | src/parser/compiler.rs:321 | `'now'` is the instant captured when the compiler was made, so all literals of one program share it |
| Lexer.RelativeDateValue | src/parser/compiler.rs:295-318 | `'now-N<u>'` is exactly N times the unit's length before `now`; it panics when that span is longer than chrono's `Duration` holds (`i64::MAX` milliseconds) or the instant falls outside chrono's calendar |
| Lexer.RelativeDateErrors | src/parser/compiler.rs:295-320 | after `now`, a sign other than `-` is `InvalidDate`; after `now-`, a missing count is `FloatParseError`, a missing unit `UnexpectedEndOfInput`, and an unknown unit `UnexpectedChar` naming it |
| Lexer.WordSpelled | src/parser/compiler.rs:335-358 | the spelling of a keyword or identifier reads back as that token |
| Lexer.NumericRun | src/parser/compiler.rs:360-363 | a number's digits followed by a non-digit, or the end, read back as its value and end where the digits end |
| Lexer.DateBodyParses | src/parser/compiler.rs:286-327 | the body of a spelled date literal parses back to the same date |
| Lexer.DelimitedSpelled | src/parser/compiler.rs:364-384 | a literal without its delimiter inside reads back whole |
| Lexer.TokenizeSpelledFrom | src/parser/compiler.rs:329-436 | a suffix of a program spelled from tokens, with a space after each, tokenizes back to those tokens |
| Lexer.TokenizeSpelled | src/parser/compiler.rs:329-436 | the spelling of a token sequence tokenizes back to the same sequence; this is the round trip of the lexer |
| Lexer.NumberSwallowsNext | src/parser/compiler.rs:360-363 | after a number the character that ends it is consumed unread, so `1)` lexes as the number alone |
| Lexer.FinalNumber | src/parser/compiler.rs:360-363 | a number at the very end of the program is its last token |
| Queries.Compare | src/parser/compiler.rs:164-262 | each operator builds its own comparison node from the two tokens |
| Queries.EmptyAcceptsAll | src/parser/compiler.rs:127-134 | a query without a condition accepts every record |
| Queries.MissingFieldRejects | src/parser/compiler.rs:164-262 | a comparison on a field the record lacks is false for every operator, `!=` included, and every literal |
| Queries.AnyStringMatchesIff | src/parser/compiler.rs:135-157 | the loop over the fields succeeds exactly when some string-valued pair matches the pattern |
| Queries.RegexAcceptsIff | src/parser/compiler.rs:135-157 | a bare pattern accepts a record exactly when it matches the event, the process or a string value among the fields; numbers, dates and lists are never searched |
| Queries.NotEqualVersusEqual | src/parser/compiler.rs:164-182 | `!=` is not the negation of `=`: both are false on a missing field, and on a present field exactly one of them holds |
| Queries.OtherVariantOnlyDiffers | src/parser/compiler.rs:164-262 | a field value of a variant other than the literal's satisfies `!=` and no other operator |
| Queries.PatternOnlyUnderEqual | src/parser/compiler.rs:164-262 | a pattern literal compares only under `=` |
| Queries.OrderOperatorsAgree | src/parser/compiler.rs:183-262 | on a present field of the literal's variant, `>=` is `>` or `=`, `<=` is `<` or `=`, and `<` is the negation of `>=` |
| QueryCompiler.Compile | src/parser/compiler.rs:524-525 | compiling never loops, and panics exactly when tokenizing the program does |
| QueryCompiler.CompileValue | src/parser/compiler.rs:438-459 | a value is accepted exactly when the token is a literal of a value kind, with patterns only where allowed, and it consumes that one token; no token is `UnexpectedEndOfInput` and a wrong token is `UnexpectedToken` naming it |
| QueryCompiler.CompileCondition | src/parser/compiler.rs:461-504 | a condition that parses consumes at least one token and stays within the tokens |
| QueryCompiler.CompileTerm | src/parser/compiler.rs:506-513 | a term that parses consumes at least one token and stays within the tokens |
| QueryCompiler.TermLoop | src/parser/compiler.rs:508-512 | the `AND` loop never moves back and stays within the tokens |
| QueryCompiler.CompileExpression | src/parser/compiler.rs:515-522 | an expression that parses consumes at least one token and stays within the tokens |
| QueryCompiler.ExprLoop | src/parser/compiler.rs:517-521 | the `OR` loop never moves back and stays within the tokens |
| QueryCompiler.CondRoundTrip | src/parser/compiler.rs:461-504 | a rendered condition parses back to itself |
| QueryCompiler.TermRoundTrip | src/parser/compiler.rs:506-513 | a rendered term parses back to itself when no `AND` follows it |
| QueryCompiler.ExprRoundTrip | src/parser/compiler.rs:515-522 | a rendered expression parses back to itself when neither `AND` nor `OR` follows it |
| QueryCompiler.CompileRendered | src/parser/compiler.rs:524-547 | `WHERE` and a rendered condition compile to a query with that condition; this is the round trip of the parser |
| QueryCompiler.AndBindsTighterRight | src/parser/compiler.rs:506-522 | `a OR b AND d` is `a OR (b AND d)` |
| QueryCompiler.AndBindsTighterLeft | src/parser/compiler.rs:506-522 | `a AND b OR d` is `(a AND b) OR d` |
| QueryCompiler.OrGroupsLeft | src/parser/compiler.rs:515-522 | `a OR b OR d` is `(a OR b) OR d` |
| QueryCompiler.AndGroupsLeft | src/parser/compiler.rs:506-513 | `a AND b AND d` is `(a AND b) AND d` |
| QueryCompiler.RegexOnlyAfterEqual | src/parser/compiler.rs:438-504 | a pattern is a value only after `=`; after any other operator it is an unexpected token |
| QueryCompiler.TopLevel | src/parser/compiler.rs:524-547 | no tokens give the empty query and a lone pattern gives a pattern query; a pattern followed by more tokens, or a first token other than `WHERE` or a pattern, is an error naming that token |
| QueryCompiler.BlankProgram | src/parser/compiler.rs:524-547 | a program of spaces compiles to the empty query, which accepts every record |
| QueryCompiler.ParenClosedByAnyToken | src/parser/compiler.rs:463-468 | a parenthesis is closed by whatever token follows the inner expression, and needs no closing at the end of the input |
| QueryCompiler.CompileSpelled | src/parser/compiler.rs:329-547 | from text to tree: a spelled `WHERE` condition compiles to that condition |
| QueryCompiler.RegexTokenExample | src/parser/compiler.rs:564-568 | in `WHERE name = /John/ AND age > 20` the fourth token is the pattern |
| QueryCompiler.RegexProgramExample | src/parser/compiler.rs:564-568 | the same program compiles to the `And` of its two comparisons |
| FieldParser.ReadByte | src/parser/fields.rs:62-69 | the byte at the cursor and the advanced cursor; at the end of the text, nothing and the same cursor |
| FieldParser.ReadUntil | src/parser/fields.rs:44-60 | the cursor moves forward within the text; a text returned is non-empty, does not hold `find`, and at least one byte more than it was read |
| FieldParser.ReadUntilDelimited | src/parser/fields.rs:44-60 | when `find` occurs, exactly the bytes before it are returned, nothing if there are none, and the cursor stops just past it |
| FieldParser.ReadUntilUndelimited | src/parser/fields.rs:44-60 | without `find`, the read runs to the end of the text and drops the last byte |
| FieldParser.FinishValue | src/parser/fields.rs:126-141 | the value is passed on unchanged and the cursor never moves back; it panics exactly on a byte other than `,`, `\r` and `\n` |
| FieldParser.ReadQuoted | src/parser/fields.rs:91-111 | a quoted value that is read leaves the cursor past where the loop started, within the text |
| FieldParser.ReadPlain | src/parser/fields.rs:113-125 | a bare value that is read leaves the cursor past where the loop started, within the text |
| FieldParser.ReadValue | src/parser/fields.rs:71-146 | a value that is read moves the cursor forward, within the text; being called at the end of the text panics |
| FieldParser.ParseField | src/parser/fields.rs:148-189 | a call that returns stays on the same text and never moves the cursor back, and a call that yields a pair moves it forward |
| FieldParser.Collect | src/parser/fields.rs:191-215 | collecting stays on the same text and never moves the cursor back |
| FieldParser.FindFieldAgreesWithCollect | src/parser/mod.rs:119-122 | the lazy search for a key agrees with searching the collected pairs whenever collecting succeeds |
| FieldParser.ValueRoundTrip | src/parser/fields.rs:71-146 | a value as the journal writes it, followed by a delimiter, reads back as its text |
| FieldParser.PairRoundTrip | src/parser/fields.rs:148-189 | a written `key=value` pair is yielded as the key and the value's text |
| FieldParser.PairsRoundTrip | src/parser/fields.rs:148-189 | the pairs of a line are yielded in order, and the call after the last one ends the line |
| FieldParser.LineRoundTrip | src/parser/fields.rs:148-189 | a well-formed line is tokenized into `time`, `duration`, `event` and its pairs in order, and the cursor ends at the start of the next line |
| Values.Elements | src/parser/value.rs:26-31 | a list yields its elements and a scalar yields itself once; there are `len` of them |
| Values.IndexAgreesWithElements | src/parser/value.rs:34-43 | indexing gives the same elements as `iter`, and a scalar is its own element at every index |
| Values.FromText | src/parser/value.rs:45-63 | text is a number exactly when it parses as a decimal, and is kept as a string otherwise |
| Values.Default | src/parser/value.rs:12-16 | the default value is the empty string, which is also what empty text converts to |
| Values.DecimalTextRoundTrip | src/parser/value.rs:45-63 | a written decimal converts back to the number it denotes |
| Values.NonNumericStaysString | src/parser/value.rs:45-63 | text with a character that no decimal contains stays a string |
| Values.CrossVariantIncomparable | src/parser/value.rs:76-96 | values of different variants, and any list, are neither equal nor ordered, a list not even against itself |
| Values.EqAgreesWithCmp | src/parser/value.rs:76-96 | equality holds exactly when the comparison gives `Equal`, and swapping the arguments flips the comparison |
| Values.CmpText | src/parser/value.rs:98-115 | a value compares with text exactly when it is a string |
| Values.CmpNum | src/parser/value.rs:116-133 | a value compares with a number exactly when it is a number |
| Values.CmpTime | src/parser/value.rs:134-150 | a value compares with an instant exactly when it is a date-time |
| Values.LiteralComparisonsAgree | src/parser/value.rs:98-150 | comparing with a literal is comparing with the value of the literal's variant |
| FieldMaps.Find | src/parser/mod.rs:55-57 | the position of the first entry with the key, or none when no entry has it |
| FieldMaps.Promote | src/parser/mod.rs:39-43 | a repeated key turns a scalar into a two-element list, and a list gets the new value appended |
| FieldMaps.Insert | src/parser/mod.rs:36-47 | a new key is added last; an existing key gets the value appended in place, and every other entry is unchanged |
| FieldMaps.Get | src/parser/mod.rs:55-57 | a key is found exactly when some entry has it, and the value returned is that of the first such entry, which in a map of distinct keys is the only one |
| FieldMaps.SizeIsFlattenLength | src/parser/mod.rs:49-74 | `len` counts exactly the pairs `iter` yields |
| FieldMaps.GetIndexIsFlattenIndex | src/parser/mod.rs:59-70 | `get_index(i)` is the i-th pair of `iter`, and nothing from `len` on |
| FieldMaps.InsertSize | src/parser/mod.rs:36-47 | inserting a new key adds all elements of the value, and an existing key exactly one more |
| FieldMaps.FromPairsKeepsEveryValue | src/parser/fields.rs:208-215 | after inserting pairs, a key is present exactly when some pair carries it, and its elements are that key's values in order |
| FieldMaps.FromPairsSize | src/parser/fields.rs:208-215 | the map's `len` is the number of pairs inserted |
| FieldMaps.FirstValueOfFlatten | src/parser/mod.rs:49-57 | the first pair of `iter` with a key holds the first element of that key's value |
| Records.Convert | src/parser/mod.rs:121-122 | a field's text becomes its converted value, if there is text |
| Records.ToFieldMap | src/parser/fields.rs:208-215 | the map exists exactly when the line can be read to its end, and then it holds one value per pair yielded |
| Records.Get | src/parser/mod.rs:114-124 | `get("time")` is the record's instant |
| Records.GetFindsFirstPair | src/parser/mod.rs:114-124 | whenever the line can be read to its end, `get` gives the converted value of the first pair with the key |
| Records.GetRenderedLine | src/parser/mod.rs:114-124 | on a well-formed line, `get` finds `duration`, `event` or the first pair with that key |
| Records.GetTimeIgnoresText | src/parser/mod.rs:116 | `get("time")` is the record's instant, whatever the line's text says |
| Records.GetAgreesWithFieldMap | src/parser/mod.rs:114-124 | `get` and the `FieldMap` built from the same line agree on every key |
| Calendar.TimeOfDay | src/parser.rs:135-150 | a time of day exists exactly when hour, minute and second are in range and the fraction is below two seconds, the second one standing for a leap second |
| Calendar.DateHour | src/parser/mod.rs:172 | a date at an hour exists exactly when the date exists and the hour is below 24, and it is the day's start plus the hours |
| Calendar.HourStart | src/parser/mod.rs:161 | the start of the hour of an instant is a whole hour, at or before the instant and less than an hour before it |
| Calendar.NameHour | src/parser/mod.rs:165-172 | a log name stands for year 2000 + YY, then month, day and hour; it panics exactly when one of its eight digits is not ASCII (a byte slice cuts that digit, or `parse` rejects it) or when that date and hour do not exist |
| Calendar.LogNameRoundTrip | src/parser/mod.rs:162-172 | a name written from two-digit year, month, day and hour is a log name of ASCII digits, and decodes to that date and hour, or panics when they do not exist |
| Calendar.LogNameOfDigits | src/parser/mod.rs:162-172 | every log name of ASCII digits is the name written for the numbers it decodes to |
| Calendar.FirstMatch | src/parser.rs:71-75 | the leftmost place, at or after the start, where eight decimal digits (Unicode `\d`) and `.log` begin, or none when there is no such place |
| Calendar.PathHour | src/parser.rs:70-86 | the older reader's dating never loops, and a path with no name match panics |
| Calendar.PathHourOfFile | src/parser.rs:70-86 | for a file in a directory whose path holds no match of its own, the older reader dates the file by its name, as the newer one does |
| Directory.Select | src/parser/mod.rs:164-179 | a name that is not a log name, eight decimal digits (Unicode `\d`) and `.log`, is dropped, and selection never loops |
| Directory.SelectAll | src/parser/mod.rs:154-181 | selection never loops, and keeps at most one entry per file of the walk |
| Directory.SelectAllKeeps | src/parser/mod.rs:154-181 | a file is kept with an hour exactly when its name is a log name that decodes to that hour and the hour is not before the requested one |
| Directory.SelectAllPanics | src/parser/mod.rs:165-172 | selection panics exactly when some log name of the walk has a digit outside ASCII or names an impossible date or hour |
| Directory.InsertByHour | src/parser/mod.rs:183 | the result holds the files and the inserted one, each as often as before |
| Directory.SortByHour | src/parser/mod.rs:183 | the sort is a permutation, and its result is sorted by hour |
| Directory.SortStable | src/parser/mod.rs:183 | files of the same hour keep their walk order |
| Directory.GroupStep | src/parser/mod.rs:185-199 | a step always leaves at least one run |
| Directory.Groups | src/parser/mod.rs:185-199 | there are no runs exactly when there are no files |
| Directory.GroupsPartition | src/parser/mod.rs:185-199 | the runs partition the sorted files into maximal runs of one hour, in ascending order of hour |
| HeadMerge.MinFrom | src/parser/mod.rs:254-271 | `min_by` keeps the best head so far and replaces it only with a strictly earlier one |
| HeadMerge.FirstMin | src/parser/mod.rs:254-271 | the chosen head is the first of the earliest full heads, and nothing is chosen exactly when every head is empty |
| HeadMerge.KMergeStep | src/parser/mod.rs:222-283 | one round of the reference merge: refill the empty heads, then send the first earliest head or stop |
| HeadMerge.KMergeKeepsAll | src/parser/mod.rs:222-283 | the merge sends every record of every queue and every full head, each as often as it occurs |
| HeadMerge.KMergeSorted | src/parser/mod.rs:254-283 | for queues in time order, the merge sends records in time order |
| HourMerge.Poll | src/parser/mod.rs:229-262 | a poll that returns leaves the tokenizer on the same text and never moves it back, and moves it forward when a head is found |
| HourMerge.Open | src/parser/mod.rs:202-217 | every file of a run that has text gets a tokenizer at the start of its first line |
| HourMerge.Nones | src/parser/mod.rs:219 | as many heads as asked for, all empty |
| HourMerge.Entries | src/parser/mod.rs:229-262 | a file contributes at most one record per line |
| HourMerge.PollLines | src/parser/mod.rs:229-262 | with early lines passed over whole, the poll yields the file's next record and leaves the tokenizer before the lines after it |
| HourMerge.PollSkipPanics | src/parser/mod.rs:231-249 | as written, a line before the requested instant reaches `unreachable!()` |
| HourMerge.FillSim | src/parser/mod.rs:223-264 | a refill of the files does to the heads what the reference refill does to the queues of records |
| HourMerge.MergeSim | src/parser/mod.rs:222-283 | the merge over files of well-formed lines sends what the reference merge sends, and finishes |
| HourMerge.RunMerges | src/parser/mod.rs:201-283 | a run sends every record its files contribute, each once, and finishes; when each file is in time order, so is what is sent |
| LegacyParser.Get | src/parser.rs:166-187 | a key has no value exactly when no entry has it |
| LegacyParser.InsertGet | src/parser.rs:166-187 | after an insertion the key holds the new value and every other key what it held |
| LegacyParser.InsertKeys | src/parser.rs:166-187 | an insertion keeps the order of the keys and adds a new key last |
| LegacyParser.InsertUnique | src/parser.rs:166-187 | an insertion never duplicates a key |
| LegacyParser.InsertPresent | src/parser.rs:166-187 | inserting a present key replaces its value in place and keeps the number of entries |
| LegacyParser.InsertAllGet | src/parser.rs:166-275 | after a sequence of insertions each key holds the value of its last pair, and every other key what it held |
| LegacyParser.Find | src/parser.rs:288-295 | the position of the first `search` at or after the cursor, or nothing when the text ends first |
| LegacyParser.ParseU32 | src/parser.rs:128-139 | a number read is below 2^32, from a text that starts with `+` or a digit |
| LegacyParser.AccumulateDigits | src/parser.rs:128-139 | the checked accumulation of digits gives the value of the whole digit string, or fails exactly when that value needs more than 32 bits |
| LegacyParser.ParseU32RoundTrip | src/parser.rs:128-139 | a 32-bit number written in decimal, with or without `+`, reads back; the empty text, a lone sign and a minus do not |
| LegacyParser.Scaled | src/parser.rs:138-153 | a scaled fraction is never less than the fraction's digits read as a number |
| LegacyParser.Instant | src/parser.rs:138-153 | the instant exists exactly when minutes and seconds are below 60 and the fraction below two seconds, and it lies within the hour of the file's date, plus a leap second |
| LegacyParser.SegmentTime | src/parser.rs:114-154 | a segment without `:`, `.` or `-` panics, and an instant read from it lies within the file's hour, plus a leap second |
| LegacyParser.ClockSegment | src/parser.rs:114-154 | a segment written from a clock reads back as that clock's instant |
| LegacyParser.BeginValue | src/parser.rs:188-207 | a value that is read ends before the end of the text, and an unquoted one ends at `,`, `\r` or `\n`; the end of the text is `unreachable!()` |
| LegacyParser.ReadQuoted | src/parser.rs:208-230 | the quoted loop never spins; a value that is read is the text from its start up to a closing `quote`, and the byte after that quote is inside the text |
| LegacyParser.ReadPlain | src/parser.rs:231-243 | a bare value runs to the first `,`, `\r` or `\n`, and spins forever exactly when none is left |
| LegacyParser.ParseLine | src/parser.rs:108-160 | the file is done exactly when no `,` is left; a record read has no key twice, and the cursor moves forward |
| LegacyParser.ReadField | src/parser.rs:161-187 | a state that returns finishes a record, moving the cursor forward, and keeps the keys unique |
| LegacyParser.AfterValue | src/parser.rs:244-273 | after a value, a line that returns finishes a record, moving the cursor forward, and keeps the keys unique |
| LegacyParser.HeaderInserts | src/parser.rs:161-181 | the header of a record is what inserting `event` and then `duration` into an empty map gives |
| LegacyParser.Records | src/parser.rs:104-284 | a file sends at most one record per byte, each as its line is finished |
| LegacyParser.RecordsUnique | src/parser.rs:104-284 | no record of a file has a key twice |
| LegacyParser.ParseFile | src/parser.rs:88-98 | an empty file panics when its first character is removed, and a path without a log name panics before any record is sent |
| LegacyParser.ValueRoundTrip | src/parser.rs:188-275 | a value as the journal writes it reads back as the text the newer tokenizer gives for it |
| LegacyParser.LineRoundTrip | src/parser.rs:104-284 | a well-formed line is read into the record it should give, and the cursor ends at the next line |
| LegacyParser.FileRoundTrip | src/parser.rs:104-284 | a text of well-formed lines, each with a clock, is read into the records those lines should give, one per line and in order, and the thread ends normally at its end |
| LegacyParser.ParseFileRoundTrip | src/parser.rs:88-98 | a file of the byte-order mark and such lines, on a path that names its hour, sends exactly the records of its lines and finishes |
| LegacyParser.ParseDirSkips | src/parser.rs:57-64 | files whose names are not log names, with `\d` the Unicode decimal digits, contribute nothing |
| LegacyParser.ParseDirNonAsciiPanics | src/parser.rs:57-95 | a file named with eight decimal digits, one of them outside ASCII, passes the name filter and then panics the walk before any record is sent |
| LegacyParser.ParseDirAppend | src/parser.rs:57-64 | the walk is read in order, and later files are read only if the earlier ones finish |
| Util.ReadUntil | src/util.rs:1-8 | the index of the first item equal to `search`, or nothing, and how many items were taken from the iterator |
| Util.ReadUntilScan | src/util.rs:1-8 | over an enumerated text the search finds the first occurrence at or after the cursor and stops just past it |
| Util.PieceLength | src/util.rs:15-25 | a piece takes up to `width` characters (Unicode scalar values, whatever their UTF-8 length) and stops after a line feed |
| Util.SubStrings | src/util.rs:10-27 | a zero width panics at the division; otherwise the pieces joined are the text, each one to `width` characters with a line feed only at its end, and each but the last full |
| Util.PiecesCut | src/util.rs:10-27 | the pieces joined again are the text, and they form a cut |
| Util.PiecesUnique | src/util.rs:10-27 | any cut of the text by those rules is the one `sub_strings` makes |
| Arguments.LineEnding | src/main.rs:29-32 | the line ending is non-empty and made of `\r` and `\n` |
| Arguments.Split | src/main.rs:35-36 | splitting always gives at least one piece |
| Arguments.JoinSplit | src/main.rs:35-36 | the pieces joined again by the separator give the text |
| Arguments.SplitJoin | src/main.rs:35-36 | lines without line-ending characters, joined by a line ending, split back into the same lines |
| Arguments.KeyPattern | src/main.rs:38-42 | a line is cut at its first `=` into column and pattern; no `=` is `unreachable!()` and an invalid pattern panics |
| Arguments.CollectLines | src/main.rs:37-45 | collecting panics exactly when some line does |
| Arguments.ParseKv | src/main.rs:34-46 | `parse_kv` panics exactly when some line of the argument has no `=` or an invalid pattern |
| Arguments.EmptyArgumentPanics | src/main.rs:34-46 | the empty argument is one empty line, which has no `=`, so it panics |
| Arguments.InsertPairsLast | src/main.rs:44-45 | collecting into a map keeps, for every column, the pattern of its last line, and no other column |
| Arguments.ParseKvRoundTrip | src/main.rs:34-46 | lines `column=pattern`, joined by the line ending, read back as the map where each column holds its last pattern |
| Tables.Position | src/logdata.rs:60-62 | the first place of a name, or none when it does not occur |
| Tables.HeaderIndex | src/logdata.rs:60-62 | the first column with that name, or none when no column has it |
| Tables.Data | src/logdata.rs:71-87 | a cell exists exactly inside the grid; a `time` column shows the formatted instant; any other column shows the field's first value, or nothing |
| Tables.AsTable | src/logdata.rs:52-87 | `LogData` behind the table interface: rows, columns, headers and cells are `LogData`'s own |
| Tables.HeaderInverse | src/logdata.rs:60-69 | a found name names its column, and a column's name leads back to it exactly when no earlier column has the same name |
| Tables.MainTableColumns | src/main.rs:77-86 | the viewer's five columns are told apart by name, and the first shows each record's instant |
| TableFilter.AcceptLoop | src/ui/filter.rs:22-34 | the loop over the patterns accepts exactly when each pattern's column exists, has a cell, and the pattern matches its text |
| TableFilter.AcceptLoopAnyOrder | src/ui/filter.rs:22-34 | whatever order the hash map yields the patterns in, the loop accepts exactly the rows of which every pattern holds |
| TableFilter.MissingColumnRejects | src/ui/filter.rs:22-34 | a pattern on a column the inner table lacks rejects every row |
| TableFilter.Data | src/ui/filter.rs:144-154 | with patterns, a shown row is looked up in the mapping, and a row past its end panics; without patterns, the cell is the inner one |
| TableFilter.SetFilter | src/ui/filter.rs:70-90 | once the earlier scan has stopped without pushing, new patterns replace the old, the mapping is cleared and the scan restarts at the first row |
| TableFilter.SetFilterAsWritten | src/ui/filter.rs:70-90 | as written, the earlier scan is not joined, so a row its in-flight turn pushes lands in the cleared mapping; with nothing in flight it is `SetFilter` |
| TableFilter.ScanWithStale | src/ui/filter.rs:103-113 | the scan only appends: a row in front of the mapping stays in front through any number of turns |
| TableFilter.StaleRowStays | src/ui/filter.rs:72-110 | as written, the stale row is shown first under the new patterns, accepted by them or not, however long the new scan runs, and the mapping is no longer consistent |
| TableFilter.ScanStep | src/ui/filter.rs:103-113 | below the bound the scan appends the row when accepted and moves on; at the bound it waits |
| TableFilter.SetFilterConsistent | src/ui/filter.rs:70-90 | setting the patterns leaves the mapping consistent with the scan |
| TableFilter.ScanStepConsistent | src/ui/filter.rs:103-113 | a turn of the scan keeps the mapping equal to the accepted rows among those looked at |
| TableFilter.ScanConsistent | src/ui/filter.rs:93-116 | any number of turns keeps it so, and the scan never passes the bound or goes back |
| TableFilter.ShownRowsAccepted | src/ui/filter.rs:120-154 | every shown row is an accepted inner row, shown rows keep the inner order, and a shown cell is the inner row's cell |
| TableFilter.LimitAsWritten | src/ui/filter.rs:102 | the bound as written is one less than the number of inner rows |
| TableFilter.Apply | src/ui/filter.rs:93-116 | between two turns the reading thread may append rows, which changes only the inner table; a turn reads its bound from the table as it is then |
| TableFilter.GrowConsistent | src/logdata.rs:30-38 | rows appended to the inner table leave the mapping equal to the accepted rows the scan has looked at |
| TableFilter.ApplyConsistent | src/ui/filter.rs:93-116 | an append or a turn keeps the mapping consistent and the scan within the inner table, and the scan moves by at most one row |
| TableFilter.RunConsistent | src/ui/filter.rs:93-116 | however appends and turns interleave, the mapping holds exactly the accepted rows looked at, and the scan stays within the inner table |
| TableFilter.LastRowSkipped | src/ui/filter.rs:102-113 | as written, once the inner table has stopped growing, its last row is never shown, however long the scan runs |
| TableFilter.OneAcceptedRowNeverShown | src/ui/filter.rs:102-127 | as written, a one-row table whose row is accepted shows no row |
| TableFilter.ScanCatchesUp | src/ui/filter.rs:93-116 | with every row in bounds, once the scan has had a turn per inner row, a row is shown exactly when it is accepted |
| LogCollections.AcceptRow | src/parser/logdata.rs:24-36 | a row past the records is `unreachable!()`; without a query every record is accepted, and otherwise the query decides |
| LogCollections.AddLine | src/parser/logdata.rs:57-61 | the reading thread appends a record and changes nothing else |
| LogCollections.Receive | src/parser/logdata.rs:69-75 | a received query replaces the old one, clears the mapping and restarts the scan |
| LogCollections.WorkerStep | src/parser/logdata.rs:81-92 | at the end of the records the scan waits; otherwise it tests the next record and moves on, keeping every record when there is no query |
| LogCollections.SetFilter | src/parser/logdata.rs:100-108 | a query that compiles is sent to the scan and `Ok` returned; a compile error is returned and nothing changes; it panics exactly when compiling does |
| LogCollections.Line | src/parser/logdata.rs:110-113 | a row has a record exactly when it is shown |
| LogCollections.Data | src/parser/logdata.rs:155-167 | a shown row's cell is the record's field, or the empty string when the record has none; outside the five columns, or for rows not shown, there is no cell |
| LogCollections.HeadersInverse | src/parser/logdata.rs:133-153 | the five header names and the five columns are each other's inverse |
| LogCollections.SetFilterConsistent | src/parser/logdata.rs:100-108 | setting a query, when it does not panic, leaves the state consistent with the scan |
| LogCollections.AddLineConsistent | src/parser/logdata.rs:57-61 | a record pushed by the reading thread does not disturb the scan |
| LogCollections.WorkerStepConsistent | src/parser/logdata.rs:81-92 | a turn of the scan keeps the mapping equal to the accepted records among those looked at |
| LogCollections.WorkConsistent | src/parser/logdata.rs:65-95 | any number of turns keeps it so, and the scan moves one record per turn until the end of the records |
| LogCollections.ShownLinesAccepted | src/parser/logdata.rs:110-167 | every shown row is an accepted record, shown rows keep the order of the records, and every accepted record the scan has passed is shown |
| LogCollections.NoFilterShowsAll | src/parser/logdata.rs:24-36 | without a query, once the scan has had a turn per record, every record is shown at its own row |

## Left out

- The threads, channels, locks and sleeps are left out. The reading and
  scanning threads are step functions over an explicit state, and the
  invariants hold whatever the interleaving of those steps, with the one
  exception of `TableFilter.SetFilter` below. The channel of
  `LogCollection::set_filter` is folded into `LogCollections.SetFilter`: the
  query is received at once.
- TableFilter.SetFilter: models the call once the earlier scan has stopped.
  As written, the earlier scan is never joined, so one turn of it that is
  already in flight may push a stale row into the cleared mapping. That
  case is `TableFilter.SetFilterAsWritten`, and it is listed under
  Findings.
- During one turn, the scan of `DataModelFilter` sees the inner table as one
  snapshot: `Table` is a value, not a live model. Between turns the reading
  thread may append rows (`TableFilter.Run`); an inner table that loses rows
  or changes a cell it already had is not something it produces, and such an
  event is ignored.
- File I/O is left out: opening, seeking past the byte-order mark, reading
  lines back through `BufReader` for `LogString::to_string`, and the
  directory walk. A file is its text, and a walk is a sequence of entries.
- The regex engine, chrono's calendar and its date formatting and parsing,
  and `util::parse_time` are opaque `Host` functions. `util::parse_time`'s
  file is not part of this model. The `f64` parser is narrowed to the
  decimal grammar `[+-]?(d+(.d*)?|.d+)` over exact reals; exponents, `inf`
  and `nan` are left out.
- `Display` of values, queries and tokens is left out, as are the terminal
  UI (`src/ui/` apart from `filter.rs`) and the command line parser.
  `TableModel` is modelled as the interface `src/ui/model.rs` declares.
- The order in which a `HashMap` yields its entries is a parameter: the
  `names` of `TableFilter.AcceptLoop`. `TableFilter.AcceptLoopAnyOrder`
  shows the result does not depend on it.
- `Query::accept` is given a record through what it reads of it, namely
  the event, the process, the field map and `get`. The `LogString` it
  takes in the source is not built from those four here, which is why
  `LogCollections` takes a `View` from records to that view.
- `DataModelFilter`'s `rows`, `cols`, `header_index` and `header_data` are plain
  delegations to the inner table, or the length of the mapping, and carry no
  contract of their own. `TableFilter.ShownRowsAccepted` and
  `TableFilter.ScanCatchesUp` state what the shown rows are.
- `LogCollection`'s `rows`, `cols`, `header_index` and `header_data` carry no
  contract of their own. `LogCollections.HeadersInverse` states the headers,
  and `LogCollections.ShownLinesAccepted` the rows.
- Characters are bytes: `chars().count()` in the older reader counts bytes
  here. This agrees with the code only for ASCII fractions, which is what
  the journal writes.
- Lexer.RelativeDate: the count is taken exactly. The code reads it as an
  `f64` and casts it to `i64`, so a count above 2^53 is rounded first.
- Lexer.ParseDate: its contract states only that the result is a date and
  where it can panic.
  The values are stated by `Lexer.NowIsCaptured`, `Lexer.RelativeDateValue`
  and `Lexer.RelativeDateErrors`, and the absolute form belongs to the
  opaque date parser.
- Lexer.LexAt: its contract states only progress and where it can panic. What each character
  yields is stated by `Lexer.WordToken`, `Lexer.Operators`,
  `Lexer.UnknownCharRejected` and `Lexer.NumberSwallowsNext`, and for whole
  programs by `Lexer.TokenizeSpelled`.
- Lexer.Delimited: its contract states only that the delimiter is absent
  and the cursor advances. `Lexer.DelimitedSpelled` states the exact text.
- QueryCompiler.CompileCondition: states only progress. The tree it builds is stated by `QueryCompiler.CondRoundTrip` and `QueryCompiler.ParenClosedByAnyToken`.
- QueryCompiler.CompileTerm: states only progress. The tree it builds is stated by `QueryCompiler.TermRoundTrip` and `QueryCompiler.AndGroupsLeft`.
- QueryCompiler.TermLoop: states only progress. `QueryCompiler.TermRoundTrip` states the tree.
- QueryCompiler.CompileExpression: states only progress. The tree it builds is stated by `QueryCompiler.ExprRoundTrip`, `QueryCompiler.OrGroupsLeft` and the two `AndBindsTighter` lemmas.
- QueryCompiler.ExprLoop: states only progress. `QueryCompiler.ExprRoundTrip` states the tree.
- FieldParser.ReadUntil: its contract states only bounds.
  `FieldParser.ReadUntilDelimited` and `FieldParser.ReadUntilUndelimited`
  state the exact result.
- FieldParser.ReadQuoted: states only how the cursor moves. `FieldParser.ValueRoundTrip` states the value read from well-formed text.
- FieldParser.ReadPlain: states only how the cursor moves. `FieldParser.ValueRoundTrip` states the value read from well-formed text.
- FieldParser.ReadValue: states only how the cursor moves and the panic at the end. `FieldParser.ValueRoundTrip` states the value read from well-formed text.
- FieldParser.ParseField: states only how the cursor moves. `FieldParser.PairRoundTrip` and `FieldParser.LineRoundTrip` state what it yields on well-formed text.
- FieldParser.Collect: states only how the cursor moves. `FieldParser.PairsRoundTrip` and `FieldParser.LineRoundTrip` state the pairs collected from well-formed text.
- Records.Get: its contract states only the `time` case. The other names
  are stated by `Records.GetFindsFirstPair`, `Records.GetRenderedLine` and
  `Records.GetAgreesWithFieldMap`.
- Directory.Select: states only that non-log names are dropped. `Directory.SelectAllKeeps` and `Directory.SelectAllPanics` state which files are kept and when selection panics.
- Directory.SelectAll: states only a size bound. `Directory.SelectAllKeeps` and `Directory.SelectAllPanics` state which files are kept and when selection panics.
- Directory.GroupStep: states only that a run exists. `Directory.GroupsPartition` states the partition.
- Directory.Groups: states only when there are no runs. `Directory.GroupsPartition` states the partition.
- Directory.InsertByHour: its contract states only the multiset.
  `Directory.SortByHour` and `Directory.SortStable` state the order.
- HourMerge.Poll: its contract states only how the tokenizer moves. What
  it returns is stated by `HourMerge.PollLines` and `HourMerge.PollSkipPanics`.
- HourMerge.Entries: its contract states only a size bound. It is the
  reference the merge is compared with in `HourMerge.RunMerges`.
- LegacyParser.ParseU32: its contract states only the range and the first
  character. The exact value is stated by `LegacyParser.AccumulateDigits`
  and `LegacyParser.ParseU32RoundTrip`.
- LegacyParser.Scaled: states only a lower bound. `LegacyParser.ClockSegment` states the exact instant for segments written from a clock.
- LegacyParser.SegmentTime: states the panics on missing separators and the range of the instant, not the exact instant for every text. `LegacyParser.ClockSegment` states the exact instant for segments written from a clock.
- LegacyParser.BeginValue: its contract states only where the value ends.
  `LegacyParser.ValueRoundTrip` states the exact value.
- LegacyParser.ParseLine: states only progress, the end of the file and unique keys. `LegacyParser.LineRoundTrip` states what a well-formed line gives.
- LegacyParser.ReadField: states only progress and unique keys. `LegacyParser.LineRoundTrip` states what a well-formed line gives.
- LegacyParser.AfterValue: states only progress and unique keys. `LegacyParser.LineRoundTrip` states what a well-formed line gives.
- LegacyParser.Records: its contract bounds the number of records. What
  each record holds is stated by `LegacyParser.LineRoundTrip`, and a whole
  text by `LegacyParser.FileRoundTrip`, for well-formed lines only.
- Calendar.PathHour: its contract states only the missing-match panic.
  `Calendar.PathHourOfFile` states the hour.
- HourMerge.RunMerges: proved for files of well-formed lines only. A
  malformed line reaches the same panics the code does, but no lemma
  states their position in the stream.

## Findings

| source | as written | input that shows it | evidently intended | confidence | as-written member | corrected member |
|---|---|---|---|---|---|---|
| src/ui/filter.rs:102 | the scan bound is `rows().saturating_sub(1)`, and the loop stops when `row >= rows`, so the last inner row is never tested | an inner table of one row that every pattern accepts: the filtered table stays empty | scan every inner row: the bound is `rows()` | medium, not executed | TableFilter.OneAcceptedRowNeverShown | TableFilter.ScanCatchesUp |
| src/parser/mod.rs:231-249 | a line before the requested instant is skipped by reading on with `parse_field`, which then yields that same line's `duration` field, and any key other than `time` is `unreachable!()` | a requested instant later than the first line of a selected file: the reading thread panics on that line | pass over the rest of the early line before reading the next `time` | high, not executed | HourMerge.PollSkipPanics | HourMerge.PollLines |
| src/ui/filter.rs:72-90 | `join` is never stored (:18, :55), so the `if let (Some(tx), Some(join))` at :73-76 never stops or joins the earlier scan; its sender is only dropped, and the scan notices at its next `try_recv` (:98) | `set_filter` while the earlier scan is between its `try_recv` and its `mapping.push` (:108-110): the row it pushes lands after `mapping.clear()` (:84) and is shown first under the new patterns, accepted by them or not | stop and join the earlier scan before the mapping is cleared | medium, not executed | TableFilter.StaleRowStays | TableFilter.SetFilterConsistent |
