# memebot2 core, modelled in Dafny

memebot2 is a chat bot that keeps, per guild (community), a table of short
text snippets ("memes") and a table of permission flags granted to users and
roles. This project models the three pieces of it that carry real rules:

- **Identifier resolution** (`IdNameMap`, module `Directory`). A user-typed
  query is resolved against an id → name map. A query that parses as a `u64`
  is an exact id lookup and never falls through to name matching. Any other
  query matches every name that contains it, ignoring case. `lookup` turns the
  matches into a reply: "no matches", the callback's reply for a unique match,
  or an ambiguity report listing at most five candidates. A HashMap has no
  iteration order, so the model takes the order as a parameter that lists
  every key exactly once.
- **Permission flags** (module `Perms`). `Modes` is a set of characters
  updated in place (class `Modes`). The permissions table of each guild maps a
  user or role id to a tag and to its flags, stored as a string (class
  `PermsDb`). `check_perms` lets administrators through without touching any
  table. For everyone else it unions the member's own flags with the flags of
  every role they hold. A missing row counts as no flags. The result maps to
  a pass, a "permission denied", or an internal error.
- **The meme store** (module `Memes`, class `MemeTable`). This is an
  auto-numbered table id → (time, text) plus the table's `sqlite_sequence`
  cursor. `delmeme` deletes a row and, in the same transaction, re-pins the
  cursor to the greatest remaining id, or to 0. The `meme` command chooses
  between a random meme, a meme by id, the latest meme and a text search.
  The text search uses SQLite's `LIKE`, which is modelled as written
  (`Memes.Like`).

Shared helpers live in `Text`. It models Rust's `u64`/`i32` `from_str`: an
optional sign, then one or more ASCII digits, then a range check. It also
holds decimal rendering, lowercasing, substring search and `join`.
`Wrappers` holds `Option` and `Result`.

Two invariants are central to `MemeTable`:

- `Valid` is SQLite's own AUTOINCREMENT guarantee: the cursor is not negative,
  and every id lies between 1 and the cursor.
- `Synced` says the cursor is the greatest id, or 0 when the table is empty.

`addmeme` preserves `Synced`. A successful `delmeme` establishes `Synced`
whatever the cursor was before. A `delmeme` of an absent id changes nothing,
so afterwards `Synced` holds only if it held before.

Behaviour of the code worth knowing:

- The ambiguity header wraps the query in backticks.
- The internal-error text is spelled "an internal error occured".
- `Modes::check` compares a count of set members with the query's byte
  length. It is therefore false for a required string with a repeated or
  non-ASCII character, even when every character is held (`Perms.CheckFlagsMeaning`).
- Numeric queries accept a leading `+`. Numbers of 2^64 or more are not `u64`,
  so they fall through to name matching.
- `delmeme` of an absent id is a normal reply, not an error.

## Model

| member | source | states |
|---|---|---|
| Text.ParseU64 | src/misc.rs:12 | an optional '+' then one or more digits of value below 2^64 parse to that value; everything else (empty, a leading '-', any other character, 2^64 or more) fails |
| Text.ParseI32 | src/modules/memes.rs:39 | an optional '+' then digits of value at most 2^31-1 parse to that value; '-' then digits of value at most 2^31 parse to its negation; everything else (empty, a bare sign, any other character) fails |
| Text.U64RoundTrip | src/misc.rs:47 | an id rendered in decimal parses back as the same u64 |
| Text.I32RoundTrip | src/modules/memes.rs:46 | an i32 rendered in decimal (with '-' when negative) parses back as the same number |
| Text.Lower | src/misc.rs:21-22 | the lowercased string has the same length and each character is lowercased |
| Directory.FilterByName | src/misc.rs:17-25 | the result holds exactly the enumerated entries whose name contains the query ignoring case, with distinct ids when the enumeration has no repeats |
| Directory.Search | src/misc.rs:11-27 | a u64 query yields at most one pair, the entry with that id if present, and never name matches; any other query yields exactly the entries whose names contain it ignoring case; every pair is an entry of the map, ids are distinct and come in the map's iteration order |
| Directory.FilterByNameInOrder | src/misc.rs:17-25 | the name matches come in the same relative order as the map's iteration |
| Directory.EmptyQueryMatchesAll | src/misc.rs:12-25 | the empty query returns every entry of the map, in enumeration order |
| Directory.Candidates | src/misc.rs:43-50 | the report lists min(5, n) lines, line i being "id name" of the i-th match |
| Directory.Lookup | src/misc.rs:29-55 | 0 matches gives "no matches for `q` found"; 1 match gives the callback's reply for that entry of the map; 2 or more give the ambiguity header and a fenced block of the candidate lines joined by newlines |
| Directory.CallbackOnlyOnUniqueMatch | src/misc.rs:34-37 | unless there is exactly one match the reply does not depend on the callback; with one match it is the callback applied to that match |
| Directory.ReportIgnoresMatchesBeyondFifth | src/misc.rs:43-50 | two match lists that agree on their first five entries produce the same ambiguity report |
| Directory.CandidateIdResolves | src/misc.rs:11-47 | typing back the id of any match resolves to exactly that entry |
| Perms.CharsOf | src/modules/perms.rs:181-185 | the set holds exactly the characters of the string and is no larger than the string |
| Perms.CharsOfSize | src/modules/perms.rs:181-185 | duplicates collapse: the set is as large as the string exactly when no character repeats |
| Perms.Utf8LenBound | src/modules/perms.rs:190 | the byte length is at least the character count, with equality exactly for ASCII strings |
| Perms.CheckFlagsMeaning | src/modules/perms.rs:189-191 | check holds exactly when the string is ASCII, has no repeated character, and every character is in the set |
| Perms.CheckEdgeCases | src/modules/perms.rs:189-191 | the empty string always passes; a string with a repeated character never does |
| Perms.CheckFlagsMonotone | src/modules/perms.rs:186-191 | extending the set never turns a passing check into a failing one |
| Perms.CheckExamples | src/modules/perms.rs:293-312 | over {a,b,c,d}: "a" and "ad" pass, "e" and "ae" fail |
| Perms.Modes.Empty | src/modules/perms.rs:178-180 | a new set is empty |
| Perms.Modes.FromStr | src/modules/perms.rs:181-185 | the set is the characters of the string |
| Perms.Modes.Extend | src/modules/perms.rs:186-188 | the set becomes its old value united with the argument's |
| Perms.Modes.Check | src/modules/perms.rs:189-191 | true exactly when the string is ASCII, repeat-free, and contained in the set |
| Perms.Modes.ToString | src/modules/perms.rs:192-194 | one character per flag, no repeats, and parsing it back gives the same set (the round trip behind set then get) |
| Perms.PermsDb.Table | src/modules/perms.rs:202-216 | the guild's table exists afterwards, created empty only if it was absent; nothing else changes |
| Perms.PermsDb.GetPerms | src/modules/perms.rs:231-243 | succeeds exactly when the id has a row, returning that id, its tag, and the parsed flags |
| Perms.PermsDb.SetPerms | src/modules/perms.rs:245-263 | upsert: afterwards exactly one row for the id, with the new tag and a string whose characters are the new flags; other ids and guilds unchanged |
| Perms.PermsDb.DelPerms | src/modules/perms.rs:265-271 | removes only the id's row in that guild |
| Perms.SetThenGet | src/modules/perms.rs:231-263 | storing flags then reading them back returns the same id, tag and flags |
| Perms.EntryOrDefault | src/modules/perms.rs:70-78 | a missing row reads as id 0, empty tag, no flags |
| Perms.RoleFlagsMeaning | src/modules/perms.rs:37-43 | a flag comes from the roles exactly when some held role's row grants it |
| Perms.EffectiveFlagsMeaning | src/modules/perms.rs:30-43 | a flag is effective exactly when the member's own row or a held role's row grants it |
| Perms.ExtraRoleKeepsPass | src/modules/perms.rs:37-45 | holding one more role never turns a pass into a failure |
| Perms.EffectiveModes | src/modules/perms.rs:30-43 | the accumulated set equals the member's effective flags |
| Perms.Verdict | src/modules/perms.rs:48-55 | true passes, false is "permission denied", an error is an internal error with a log line; denial and fault never coincide |
| Perms.CheckPermsInner | src/modules/perms.rs:16-46 | a platform error propagates; an administrator gets true with no table touched; a storage fault propagates; otherwise the guild's table exists and the result is check of the effective flags |
| Perms.CheckPerms | src/modules/perms.rs:13-56 | administrators pass and faults become an internal error, both with no table touched; otherwise only the guild's table is created if absent, and the member passes exactly when the effective flags satisfy the required string, else "permission denied" |
| Memes.LikeWildcardFree | src/modules/memes.rs:191-194 | under SQLite's LIKE (`Memes.Like`: '%' any run, '_' any character, other characters equal up to ASCII case), a pattern without wildcards matches exactly the texts equal to it up to case |
| Memes.SearchPatternIsSubstring | src/modules/memes.rs:188-202 | for a query without '%' or '_', `text LIKE '%query%'` holds exactly when the text contains the query ignoring ASCII case |
| Memes.ParseMemeArg | src/modules/memes.rs:36-53 | empty is random; a nonzero i32 is by id; an i32 zero is latest; anything else non-empty is a search with the argument as query |
| Memes.MemeTable.constructor | src/modules/memes.rs:127-141 | a new table is empty with cursor 0, and both invariants hold |
| Memes.MemeTable.AddMeme | src/modules/memes.rs:230-237 | the new row gets cursor+1, above every present id; the cursor advances to it; Valid and Synced are preserved |
| Memes.MemeTable.GetSeq | src/modules/memes.rs:204-210 | returns the cursor |
| Memes.MemeTable.SetSeq | src/modules/memes.rs:212-219 | sets the cursor and leaves the rows alone |
| Memes.MemeTable.DelMeme | src/modules/memes.rs:221-228 | removes only that id's row and leaves the cursor alone |
| Memes.MemeTable.MemeById | src/modules/memes.rs:162-173 | succeeds exactly when the id is present, with that id's text |
| Memes.MemeTable.LatestMeme | src/modules/memes.rs:175-186 | succeeds exactly when the table is non-empty, with the row of greatest id |
| Memes.MemeTable.RandomMeme | src/modules/memes.rs:143-160 | succeeds exactly when the table is non-empty, with some present row; on an empty table the offset is NULL and the query fails |
| Memes.MemeTable.SearchMeme | src/modules/memes.rs:188-202 | succeeds exactly when some row's text is LIKE '%query%', with such a row |
| Memes.MemeTable.MemeCommand | src/modules/memes.rs:31-57 | random on an empty table fails the command; by id replies with the text or "meme x not found"; latest replies with the greatest-id text or "meme 0 not found"; a search replies with a matching text or "meme matching "q" not found" |
| Memes.MemeTable.AddMemeCommand | src/modules/memes.rs:64-80 | the text is stored under id cursor+1 (above every present id, as AUTOINCREMENT assigns), the cursor advances to it, and the reply "meme id added successfully" names it; the invariants are preserved; after a successful delmeme the next id is one above the greatest remaining id |
| Memes.MemeTable.DelMemeCommand | src/modules/memes.rs:87-111 | a non-i32 argument fails with nothing changed; an absent id replies with the "probably doesn't exist" text and changes nothing; a present id is removed alone, the reply carries its text, and the cursor becomes the greatest remaining id or 0; deleting a non-tail id of a synced table keeps the cursor |

## Left out

- The chat-framework plumbing is not modelled: command macros, argument splitting with `Args`, replies with `say`, the `dispatch_error` hook and start-up in src/main.rs. The `perms list`, `perms set` and `perms del` commands are glue around `lookup` and the table operations, and `get_all_perms` only feeds them.
- src/bin/memebot2-http.rs (the HTTP listener) and src/modules/roles.rs (role CRUD and a fire-and-forget toggle) are not part of this model.
- SQL text and per-guild table names are not modelled. Permission tables are a map keyed by guild id. A `MemeTable` object is one guild's meme table.
- Text.Lower: folds only ASCII letters. Rust's `to_lowercase` also lowercases non-ASCII letters, so `Directory.Search` may miss some non-ASCII case-insensitive matches that the bot finds. It may also report matches the bot does not: Rust lowercases a word-final 'Σ' to 'ς' but a lone 'Σ' to 'σ', so the bot finds no "Σ" in "ΑΣ", while the model does. SQLite's `LIKE` folds only ASCII, so the meme search is exact here.
- Memes.SearchPatternIsSubstring: stated only for queries without `%` or `_`. The search itself (`Memes.Like`) models both wildcards as SQLite interprets them.
- Memes.MemeTable.RandomMeme: the choice among rows is nondeterministic. The same holds for `SearchMeme`'s `ORDER BY random()`. Uniformity is not modelled.
- Wall-clock time is a parameter of `AddMeme`/`AddMemeCommand`.
- Panics are not modelled. These are the `unwrap`s on `guild_id`, on `member` and on stored ids, and `set_perms`'s `execute(...).unwrap()`. `SetPerms` always succeeds.
- Stored ids are decimal text in the database. The model keys rows by the number directly. `Text.U64RoundTrip` shows that this text round-trips.
- Database failures are not modelled in the meme commands. These are failing to open the connection, to begin or commit the transaction, or to run the delete or `set_seq` statements. Transaction rollback is not modelled either. Each command runs as one sequential step.
- In `check_perms`, two external outcomes are parameters. The platform's administrator query is `administrator`. Failing to open the database or create the table is `storageFault`. `get_perms` errors other than a missing row are not modelled. The bot reads them as "no flags", as it does a missing row.
- SQLite only creates a table's `sqlite_sequence` row on its first insert. The model starts the cursor at 0, which makes AUTOINCREMENT choose the same ids. Memes.MemeTable.AddMeme: chooses cursor+1. SQLite chooses max(cursor, largest id)+1, and under `Valid` the two are equal.
- Meme ids are unbounded here. Reading an id or the cursor past the 32-bit range, and SQLite's 64-bit rowid limit, are not modelled.
