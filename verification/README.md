# Useful Trainer Editor: the trainer-table reader

The editor opens a CFRU project's `src/Tables/trainer_data.c` and lists the
trainers it defines. Everything it knows about a trainer comes from two pieces
of `program.py`:

- `parseTrainers` goes over the file line by line. A line matching
  `\[(.+?)\]\s*=\s*\{` opens a record. The lines after it are collected while a
  brace counter, which starts at 1, moves by each line's `{` count minus its `}`
  count. When the counter is exactly 0 the record is finished. From the joined
  body the reader searches `.trainerName = {...}`, `.trainerClass = X` and
  `.trainerPic = Y`, and appends one entry `{id, name, class, sprite}`.
- `decodeMacroName` turns a name field such as `_B, _u, _g, _SPACE, _C, _END`
  into display text. It takes every `_(\w+)` token and looks each one up in the
  character table `gbaCharMap`. A missing key becomes `?`.

The Dafny project models both, module by module:

- `Text` holds the character classes and string helpers. These are Python's
  `\s` (the `str.isspace` set), ASCII `\w`, `strip`, `lower`, `count`,
  `''.join`, and the scan positions the hand-written matchers use.
- `CharMap` holds `gbaCharMap`.
- `Decoder` holds `decodeMacroName` and the `re.findall` token scan.
- `Patterns` holds the record-open pattern and the three field patterns. Each is
  a matcher with Python's greedy or lazy semantics and leftmost-match search,
  proved equal to a declarative description of the text it accepts.
- `Trainers` holds the entry built for a finished record, with its defaults.
- `Scanner` holds the line loop. It is written twice: as a pure state machine
  (`Next`, `Finished`, `Run`) and as the imperative loop of the source
  (`ParseTrainersLoop`). The two are proved equal.

The file read is replaced by the sequence of lines `readlines` returns. Each
line keeps its trailing line break, but the model accepts any strings.

The model follows the code on these points:

- Decoding does not stop at `_END`. That key stands for the empty text, and the
  keys after it are still decoded (`Decoder.EndDoesNotStop`). An unknown token
  is not dropped: it becomes `?` (`Decoder.UnknownKeyIsQuestionMark`).
- Token scanning is greedy, and `_` is itself a word character. So `__A` is the
  single token `_A`, looked up as `__A`, and it decodes to `?`.
- The record-open pattern's group is lazy but may contain `]`. It is the
  shortest text, with no line break, after the leftmost `[` that can be followed
  by `]`, optional spaces, `=`, optional spaces and `{`.
- Braces on the opening line itself are not counted. A record therefore never
  closes on its own opening line.
- The brace counter can go negative. A record closes only when the counter is
  exactly 0. A record still open at the end of the file yields nothing.

## Model

| member | source | states |
|---|---|---|
| CharMap.TranslateShape | program.py:10-22 | a key outside the table (one letter or digit after `_`, or one of the named entries) gives `?`, and among keys in the table only `_QUESTION` gives `?` |
| CharMap.Translate | program.py:26 | a token's lookup, with `?` for a missing key, is at most two characters long |
| Decoder.TokensFrom | program.py:25 | every name `re.findall(r'_(\w+)')` captures is a non-empty run of word characters |
| Decoder.DecodeMacroName | program.py:24-26 | the decoded text is never longer than the field text, and text with no `_` followed by a word character decodes to the empty text |
| Decoder.TokensFromEmpty | program.py:25 | the scan finds no token exactly when no `_` is followed by a word character |
| Decoder.NoTokenDecodesEmpty | program.py:24-26 | text with no `_` followed by a word character, and only such text, yields no tokens, so it decodes to the empty text |
| Decoder.TokensFromShift | program.py:25 | scanning the tail of `pre + s` from inside `s` finds the same tokens as scanning `s` |
| Decoder.NonUnderscoreLead | program.py:25 | a leading character other than `_` adds no token |
| Decoder.SeparatorLead | program.py:25 | a leading run of non-word characters adds no token |
| Decoder.TokensFromSplit | program.py:25 | a non-word character splits the scan: the tokens after it are those of the rest scanned alone |
| Decoder.TokensAcrossSeparator | program.py:25 | no token straddles a separator: the tokens of `a + sep + b` are those of `a` followed by those of `b` |
| Decoder.KeyIsOneToken | program.py:25 | a key written alone is scanned as exactly one token, its name after the `_` |
| Decoder.TranslateAllAppend | program.py:26 | the joined translation of two token lists is the two translations joined |
| Decoder.TranslateKeysAppend | program.py:26 | the reference translation of a key list distributes over concatenation |
| Decoder.DecodeAcrossSeparator | program.py:24-26 | decoding `a + sep + b` gives the decoded `a` followed by the decoded `b` |
| Decoder.DecodeJoin | program.py:24-26 | decoding a separator-joined list equals decoding each element and joining the results in order |
| Decoder.DecodeKeyList | program.py:24-26 | a separator-joined list of keys decodes to the in-order concatenation of each key's table text, `?` for a missing one |
| Decoder.DecodeEachKeys | program.py:24-26 | decoding keys one by one agrees with the reference translation of the key list |
| Decoder.EndDoesNotStop | program.py:21-26 | `_END` contributes nothing and decoding continues past it: keys after the sentinel still appear in the text |
| Decoder.EndKey | program.py:21 | `_END` is a key, and the table maps it to the empty text |
| Decoder.UnknownKeyIsQuestionMark | program.py:26 | a well-formed key the table lacks decodes to a single `?` |
| Decoder.DecodeNoLonger | program.py:24-26 | the decoded text is never longer than the field text it came from |
| Decoder.DecodeKey | program.py:24-26 | a single key decodes to its table text |
| Decoder.DecodeCons | program.py:24-26 | a key followed by a separator decodes to the key's text followed by the decoding of the rest |
| Decoder.BugCatcherName | program.py:10-26 | the example name `_B, _u, _g, _SPACE, _C, _END` decodes to `Bug C` |
| Patterns.AssignBraceIff | program.py:31 | the greedy matcher for `\s*=\s*\{` accepts a position exactly when spaces, `=`, spaces and `{` follow it |
| Patterns.LazyClose | program.py:31 | the lazy group closes at the least position at or after the start bound where `]` and `\s*=\s*\{` follow with no line break in the group, or nowhere |
| Patterns.NewlineEndsGroup | program.py:31 | a line break inside the group rules out every later close, because `.` does not match it |
| Patterns.ClosesHere | program.py:31 | with the group so far free of line breaks, the match closes at a position exactly when `]` and `\s*=\s*\{` follow there |
| Patterns.CloseOf | program.py:31 | the close found for a `[` is a real match, and no shorter group matches |
| Patterns.OpenSearch | program.py:43 | `search` returns the leftmost `[` from which the pattern matches |
| Patterns.StartMatch | program.py:43-46 | a captured identifier is non-empty and holds no line break |
| Patterns.StartMatchSpec | program.py:31-46 | `start_re.search(line).group(1)` is the group of the leftmost, shortest match; there is no match exactly when no `[` and `]` on the line form one |
| Patterns.FirstOpeningFound | program.py:31-46 | any leftmost, shortest match on a line is the one found |
| Patterns.OpeningAt | program.py:31-46 | a match whose `[` is the first on the line and whose `]` is the first after it is the one found, capturing the text between them |
| Patterns.OpeningLine | program.py:31-46 | a line `pre[id]` followed by spaces, `=`, spaces and `{`, with no `[` in `pre` and an `id` holding neither `]` nor a line break, captures exactly `id` |
| Patterns.OpeningLineSpaced | program.py:31-46 | a line `pre[id]`, spaces, `=`, spaces, `{` and anything after, with no `[` in `pre` and an `id` holding neither `]` nor a line break, captures exactly `id` |
| Patterns.AssignText | program.py:31 | text of the form spaces, `=`, spaces, `{`, anything, is laid out as the pattern's tail `\s*=\s*\{` demands |
| Patterns.ValueSound | program.py:58-60 | what a value matcher captures is laid out after the `=` as spaces and then the value |
| Patterns.ValueComplete | program.py:58-60 | a value laid out after the `=` is what the matcher captures |
| Patterns.FieldAtIff | program.py:58-60 | a field pattern captures `g` at a position exactly when the text there reads the field's literal, spaces, `=`, spaces, and `g` (`{g}` with no `}` in `g` for the name; a maximal run of word characters otherwise) |
| Patterns.HeadComplete | program.py:58-60 | text reading a field's literal, spaces and `=` is matched by the head of the field pattern, with the `=` found where it is |
| Patterns.FieldSound | program.py:58-60 | each capture is laid out as the pattern describes |
| Patterns.FieldComplete | program.py:58-60 | each text laid out as the pattern describes is captured |
| Patterns.FieldSearchFrom | program.py:58-60 | `re.search` returns the leftmost position where the field pattern matches, or none |
| Patterns.FieldSearch | program.py:58-60 | the search finds nothing exactly when the field is laid out nowhere in the body |
| Patterns.FieldSearchNone | program.py:58-60 | the leftmost-position search fails exactly when no position of the body reads the field's literal, spaces, `=`, spaces and a value |
| Patterns.FieldValueShape | program.py:58-60 | a found name value is non-empty and holds no `}`; a found class or picture value is a non-empty run of word characters |
| Trainers.NameOf | program.py:62-65 | the displayed name is never empty |
| Trainers.ClassOf | program.py:70 | the class is `???` exactly when the body has no `.trainerClass` field |
| Trainers.SpriteOf | program.py:71 | the sprite is absent exactly when the body has no `.trainerPic` field |
| Trainers.MakeTrainer | program.py:67-72 | the entry's id is the captured identifier stripped, its name is non-empty, and its class and sprite default exactly when their fields are missing |
| Trainers.ClassDefault | program.py:59-70 | a found class is shown as written; the class is either `???` or a non-empty run of word characters, so a real class is never mistaken for the default |
| Trainers.SpriteShape | program.py:60-71 | a sprite is a non-empty word with no upper-case letter, followed by `.png` |
| Trainers.FieldFound | program.py:58-60 | a field laid out at a position with no match earlier in the body is the value the search returns |
| Trainers.NameFound | program.py:58-65 | when the first name field in the body holds `g`, the name is `g` decoded, or `???` if that decodes to nothing |
| Trainers.ClassFound | program.py:59-70 | when the first class field in the body holds `g`, the class is `g` |
| Trainers.SpriteFound | program.py:60-71 | when the first picture field in the body holds `g`, the sprite is `g` lowered, followed by `.png` |
| Trainers.FieldsAbsent | program.py:58-71 | with no name field laid out in the body the name is `Unknown`, with no class field the class is `???`, and with no picture field there is no sprite |
| Text.SkipSpace | program.py:58-60 | `\s*` consumes exactly the maximal run of whitespace |
| Text.Strip | program.py:68 | `strip` returns a slice of its input with only whitespace before and after it, and starting and ending with a non-space character |
| Text.WordEnd | program.py:59-60 | `\w+` consumes exactly the maximal run of word characters |
| Text.StripPadded | program.py:68 | `strip` removes exactly the surrounding whitespace of a text that does not itself start or end with whitespace |
| Text.Lower | program.py:71 | `lower` keeps the length and lowers each character |
| Text.Count | program.py:52-53 | `count` is zero exactly when the character does not occur, never exceeds the length, and counts a one-character text as 1 or 0 |
| Text.CountOccurrences | program.py:52-53 | `count` returns the number of occurrences of the character: its multiplicity among the text's characters |
| Text.CountAppend | program.py:52-53 | the count over two texts joined is the sum of their counts |
| Text.ConcatAppend | program.py:56 | `''.join` distributes over concatenation of line lists |
| Scanner.Finished | program.py:56-73 | a line appends exactly one entry when it brings a collected record's depth to exactly 0, and none otherwise |
| Scanner.ParseTrainersLoop | program.py:28-79 | the imperative loop over the lines returns exactly the entries of the state-machine definition |
| Scanner.ParseTrainers | program.py:28-79 | a file yields at most as many entries as it has lines on which the record-open pattern matches |
| Scanner.RunAppend | program.py:41-79 | the loop over `a + b` is the loop over `a`, then over `b` from the state `a` ended in, with the entries appended in order |
| Scanner.RunSnoc | program.py:41-79 | one more line moves the state by one step and appends that step's entries |
| Scanner.ParsePrefix | program.py:41-79 | entries are only appended, never removed: the entries of a prefix of the file are a prefix of the file's entries |
| Scanner.ParseSplit | program.py:74-77 | once lines leave the reader idle, the entries of the rest of the file depend on the rest alone |
| Scanner.NextConsistent | program.py:41-78 | every step keeps the loop variables consistent: reset while seeking; while collecting, depth 1 plus the body's net braces, and not 0 |
| Scanner.RunConsistent | program.py:36-79 | the loop variables stay consistent from the initial state over any lines |
| Scanner.StaysOpenPrefix | program.py:52-56 | a body that never brings the depth to 0 has no prefix that does |
| Scanner.CollectStep | program.py:51-56 | a line that leaves the depth off 0 joins the body and appends nothing |
| Scanner.CollectOpen | program.py:51-56 | while the depth stays off 0, every line joins the open record and nothing is appended |
| Scanner.OneRecord | program.py:43-79 | an opening line with identifier `id`, followed by a body that closes on its last line, gives exactly one entry built from `id` and the joined body, and leaves the reader idle |
| Scanner.UnclosedRecord | program.py:41-79 | a record whose depth never returns to 0 yields no entry, and the reader ends still collecting it |
| Scanner.GapSkipped | program.py:43-50 | lines on which no record opens are skipped while seeking and yield nothing |
| Scanner.RecordRun | program.py:41-79 | a record preceded by lines where nothing opens yields its entry and leaves the reader idle |
| Scanner.ParseRecords | program.py:28-79 | a file of well-formed records parses to one entry per record, in record order |
| Scanner.ParseRecordsCount | program.py:28-79 | such a file yields exactly as many entries as it has records |
| Scanner.RunBound | program.py:41-79 | a run appends at most one entry per opening line, plus one for a record already open when it starts |

## Left out

- The tkinter window, its list box, dialogs and image preview (`TrainerApp`, program.py:81-143) are not modelled. They only display the entries.
- The PIL sprite loading, the sprite folder and the `os.path.exists` checks are not modelled. These are file-system and image I/O.
- The file read (program.py:33-34) is replaced by the list of lines it returns. The UTF-8 decoding and the path join are not modelled.
- `\w` is modelled as ASCII `[A-Za-z0-9_]`. Python's `\w` on `str` also matches every other Unicode letter and digit, so the model is exact only for tokens and identifiers written in ASCII.
- Text.Lower: lowers only `A`-`Z`, where Python's `str.lower` lowers every Unicode letter. The picture identifiers it is applied to are ASCII.
- `program.py` has no encoder, field rewriter, party resolver, `#ifdef` filter or flag table, so the model has none either.
