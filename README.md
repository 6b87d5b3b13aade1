# Per-user task store of a Discord task bot, in Dafny

The bot keeps one task list per (guild, user) pair. The list is a pickled
list of `[status, description]` records stored at
`./guilds/<sha256(str(guild id))>/<sha256(str(user id))>.tasks`. Three slash
commands work on it. `task` adds a record or overwrites one record's status.
`view` lists the records. `clear` removes the finished or cancelled records,
or, after a "Y" confirmation, the whole file.

This project models that store and its three command handlers and proves
what they do:

- `wrappers.dfy`: `Option`.
- `decimal.dfy`: Python's `str` on integers and `int` on text. It proves that
  `str` is injective and that `int(str(n)) == n`.
- `addressing.dfy`: `obscure` and `get_path_variables`. SHA-256 is a function
  parameter `hash`. The predicate `IsDigestFunction` says what the scheme
  assumes of it: a 64-digit hex digest, and no collision between the decimal
  texts of two Discord ids (snowflakes, unsigned 64-bit integers). Under that
  assumption, distinct (guild, user) pairs get distinct files. The function
  `PaddedDigits` meets the assumption, so it is not contradictory.
- `records.dfy`: status codes, glyphs, records, and the list operations the
  handlers perform. These are append, Python-style indexing, a status
  overwrite, the status filter of `clear`, and the rendering of `view`.
- `bot.dfy`: the class `Store`. Its fields are the set of existing
  directories and a map from file path to the stored list. It has one method
  per command. Each method states its whole new state and the replies it
  sends, in order.
- `scenarios.dfy`: concrete command sequences whose outcomes follow from the methods' contracts.

The file system is a set `dirs` plus a map `files`. A path that is not in
`files` has no file. Pickling is taken to round-trip. Replies are abstract
values (`Reply`), not message texts. An exception that escapes a handler is
an `Outcome` of `Raised(IndexError)` or `Raised(FileNotFoundError)`. The
`clear all` wait for a confirmation is an input (`Response`): either
`Timeout` or the next `Message(content)`. `MAX_NUMBER_OF_TASKS` is the
constructor argument `maxTasks`.

Behaviour the model keeps exactly as main.py has it:

- The capacity limit only warns. When the list already holds `maxTasks` or
  more records, `CapacityWarning` is sent, the record is still appended, and
  then `TaskAdded` is sent.
- The index is never bounds-checked. `k - 1` is a Python index, so `"0"`
  means the last task and `"-1"` the one before it. An index above the length,
  or below one minus the length, raises `IndexError`, so nothing is sent and only the set-up of `task`
  remains in effect.
- Any status may overwrite any other.
- `task` creates the guild directory and an empty file before it looks at
  the action. So an unknown action or an unparsable index still leaves an
  empty list file behind. Creating the directory raises `FileNotFoundError`
  when `./guilds` itself is missing.
- `clear` with a scope outside finished/cancelled compares the status codes
  with a string. That comparison never matches, so every record is kept. The
  file is still deleted when the list is empty.
- `clear` sends `ClearedSelected` whether or not anything was removed.
- The glyphs carry a trailing space, so a finished task is shown as
  `1. ✅ buy milk`.
- `view` on an existing empty list sends the empty text.

## Model

| member | source | states |
|---|---|---|
| `Decimal.NatToString` | main.py:139 | `str(n)` of a natural number is a non-empty run of digits; only zero starts with '0' |
| `Decimal.IntToString` | main.py:22 | `str(id)` is non-empty, starts with '-' exactly for negative ids, and ends in a digit; its value is pinned by `ParseIntOfIntToString` |
| `Decimal.DigitsValueOfNatToString` | main.py:139 | reading back the digits of `str(n)` gives `n` |
| `Decimal.IntToStringInjective` | main.py:22 | different ids have different `str` texts, so hashing `str(id)` distinguishes ids |
| `Decimal.LeadingSpaces` | main.py:100 | counts exactly the leading space, \t, \n, \v, \f and \r characters that `int()` skips |
| `Decimal.TrailingSpaces` | main.py:100 | counts exactly the trailing space, \t, \n, \v, \f and \r characters that `int()` skips |
| `Decimal.ParseIntOfIntToString` | main.py:100 | `int(str(n)) == n` for every integer `n` of at most 4300 digits |
| `Decimal.ParseIntNeedsDigit` | main.py:98-101 | `int()` raises `ValueError` on a text without a digit, such as "abc" |
| `Decimal.ParseIntRejectsLongLiteral` | main.py:98-101 | `int()` raises `ValueError` on a literal of more than 4300 digits, whatever its sign, underscores, leading zeros and surrounding white space |
| `Addressing.ObscureInjective` | main.py:21-22 | under the SHA-256 assumption, `obscure(id)` is a 64-digit hex token, and two snowflakes share a token exactly when they are equal |
| `Addressing.DigestFunctionExists` | main.py:21-22 | some function meets the assumption made of SHA-256, so the lemmas that rest on it are not vacuous |
| `Addressing.GuildDir` | main.py:51 | `guild_dir` lies directly under `./guilds/`; with a hex digest it is 73 characters long and has no further '/' |
| `Addressing.FileName` | main.py:52 | `filename` ends in `.tasks`; with a hex digest it is 70 characters long and has no '/' |
| `Addressing.FilePath` | main.py:53 | `filepath` is `guild_dir + "/"` followed by `filename` |
| `Addressing.GetPathVariables` | main.py:50-54 | `filepath == guild_dir + "/" + filename`, with `guild_dir` and `filename` those of the guild and the user |
| `Addressing.GuildDirInjective` | main.py:51 | assuming no SHA-256 collision on snowflakes, two guilds share a directory exactly when they are equal |
| `Addressing.GuildDirIsNotAFile` | main.py:50-54 | a guild directory path is never a task file path |
| `Addressing.FilePathInjective` | main.py:50-54 | assuming 64-digit hex digests and no collision on snowflakes, two (guild, user) pairs share a task file exactly when they are equal |
| `Tasks.CodeRoundTrip` | main.py:42 | the codes -1, 0, 1 and the three statuses correspond one to one |
| `Tasks.Glyph` | main.py:118-122 | every status has a two-character glyph ending in a space, without a line break |
| `Tasks.GlyphInjective` | main.py:118-122 | distinct statuses show distinct glyphs |
| `Tasks.Appended` | main.py:76 | one record longer, earlier records unchanged, and the last is `[ADDED, description]` |
| `Tasks.PyIndex` | main.py:109 | `l[i]` is defined exactly for `-len <= i < len` and addresses the position congruent to `i` modulo `len` |
| `Tasks.ViewNumberAddressesRecord` | main.py:100-109 | the number `view` prints before record i (main.py:139), given as the index text, parses to i+1 and addresses record i |
| `Tasks.OneBasedIndex` | main.py:100 | index text `k` addresses task `k` for `1 <= k <= len`, the last task for 0, and raises `IndexError` beyond `[1 - len, len]` |
| `Tasks.WithStatus` | main.py:109 | same length; only record `p` changes, only in its status, and its description stays |
| `Tasks.AnyTransition` | main.py:85-92 | any status can be written over any other, and writing back the old one restores the list |
| `Tasks.Without` | main.py:181 | the filtered list is no longer than the list |
| `Tasks.WithoutMembers` | main.py:181 | the filtered list holds exactly the records whose status differs from the target |
| `Tasks.WithoutConcat` | main.py:181 | filtering distributes over concatenation, so relative order is kept |
| `Tasks.WithoutSingle` | main.py:181 | a single record is kept as is or dropped |
| `Tasks.WithoutIdempotent` | main.py:176-186 | clearing the same status twice is the same as clearing it once |
| `Tasks.WithoutCommutes` | main.py:176-186 | clearing finished then cancelled equals clearing cancelled then finished |
| `Tasks.WithoutNothing` | main.py:178-181 | a `which` left as a text, or an integer that is no status code, keeps the whole list |
| `Tasks.WithoutEmpty` | main.py:182-183 | the file is deleted exactly when every record has the cleared status |
| `Tasks.LineShape` | main.py:139-141 | a line of `view` (`Line`) is the position's digits, ". ", the glyph of the status, then the description |
| `Tasks.RenderFromEnds` | main.py:137-142 | the message built by the loop (`RenderFrom`) is empty exactly for an empty list, and otherwise ends in a line break |
| `Tasks.Render` | main.py:137-143 | the message `view` sends is empty exactly for an empty list, and otherwise ends in a line break |
| `Tasks.RenderFromSnoc` | main.py:137-142 | each loop turn of `view` appends the line of the next record |
| `Tasks.NewlineIndex` | main.py:137-143 | helper for reading `view`'s message line by line: finds the first line break of a text, or its length |
| `Tasks.SplitLinesCons` | main.py:137-143 | helper for reading `view`'s message line by line: a line, a break, then a rest split into that line and the lines of the rest |
| `Tasks.LineHasNoNewline` | main.py:139-141 | a line of `view` has no break inside when its description has none |
| `Tasks.RenderedLines` | main.py:137-143 | without line breaks in descriptions, the message has one line per record, and line i reads `str(i+1) + ". " + glyph + description` |
| `TaskBot.OtherUsersUntouched` | main.py:59-64 | assuming no SHA-256 collision on snowflakes, a command leaves every other (guild, user) pair's file as it was: present or absent as before, and holding the same list |
| `TaskBot.Initialised` | main.py:62-64 | after the set-up the user's file exists and holds its old list, or `[]` when it was absent; no other file changes |
| `TaskBot.ScopeTarget` | main.py:178-179 | "finished" and "cancelled" become the codes FINISHED and CANCELLED, and every other text stays a text, which no code equals |
| `TaskBot.Store.Task` | main.py:57-115 | set-up, then add / finished / cancel / invalid action; the new directories, files, replies and raised exception; only this user's file changes and no directory is removed |
| `TaskBot.Store.Initialise` | main.py:59-64 | creates the guild directory and an empty list only where missing; an existing list is left alone; fails when `./guilds` is missing |
| `TaskBot.Store.Add` | main.py:67-82 | appends `[ADDED, description]`; the warning is sent exactly when the old length is at least `maxTasks`, and before `TaskAdded(old length + 1)` |
| `TaskBot.Store.Mark` | main.py:84-113 | unparsable index: no change and a usage reply; index out of Python range: `IndexError` and no change; otherwise only that record's status becomes FINISHED or CANCELLED |
| `TaskBot.Store.View` | main.py:125-143 | "no registered tasks" when the directory or the file is missing, else the rendering of the stored list |
| `TaskBot.Store.Clear` | main.py:146-187 | no store: nothing changes; `all`: the file is removed only on the reply "Y", timeout sends no further reply; otherwise the filtered list is stored, or the file removed when nothing is left |

## Left out

- The Discord client is not modelled: bot set-up, intents, `on_ready`, command registration and `ping` (main.py:28-38, 190-192).
- The 30-second `bot.wait_for` is not modelled as time or concurrency. Its result is the input `Response`.
- SHA-256 is not computed. It is the parameter `hash`, and its digest format and collision freedom on the texts of 64-bit ids are the assumption `IsDigestFunction`. The UTF-8 encoding before hashing is not modelled because it is injective.
- A command run outside a guild (a direct message) is not modelled: there `ctx.guild` is `None`, and `ctx.guild.id` raises `AttributeError` before any file changes. Guild and user ids are integers.
- The `print(e)` of a parse failure (main.py:102) is console logging and is not modelled.
- Pickle and real file I/O are not modelled. Files hold `seq<Record>` values, and a corrupt or foreign file content is not modelled.
- `dotenv` loading is not modelled. `MAX_NUMBER_OF_TASKS` is a constructor argument.
- Message wording, mentions and `emoji.emojize` are not modelled. Replies are `Reply` values, and the glyphs are the three code points written in `STATUS_EMOJIS`.
- Token entry and `DEBUG_MODE` start-up are not modelled (main.py:195-208).
- Decimal.ParseInt: models Python's `int()` on ASCII text only, including its limit of 4300 digits; non-ASCII digits and non-ASCII white space, which Python also accepts, are not modelled.
- Decimal.IntToString: renders every integer, while Python's `str` raises `ValueError` beyond 4300 digits; ids and positions never come near that length, so that error is not modelled.
- Tasks.RenderedLines: the line-by-line reading of `view` assumes that no description contains a line break; a description with one spans several lines.
- Messages that Discord itself refuses are not modelled. For example, `view` of an existing empty list sends the empty text.
- Concurrent commands on the same file are not modelled. Every handler runs as one atomic state change.
