# rqs — a verified model of the alias store and dispatcher

rqs is a small command-line tool that stores aliases. An alias names either
a shell command, which is run when the alias is invoked, or a piece of text
such as a secret, which is printed. `rqs add NAME TOKENS...` stores an entry.
`rqs list` (or `ls`) lists the entries. `rqs delete NAME` removes one entry.
`rqs delete_all` removes all of them after a confirmation prompt. Any other
first word is a wildcard pattern over the stored aliases. No match gives a
notice. Several matches give a listing. One match runs the command or prints
the text.

This Dafny project models that core, `rqs.py`, module by module:

- `Entries` (entries.dfy) is the entry model. It covers the two entry kinds,
  building an entry from its tokens (content joined with single spaces, kind
  decided by an executable probe on the first token), executing an entry and
  rendering it as `alias -> content` or `alias = content`.
- `Glob` (glob.dfy) models `fnmatch.filter` on POSIX, which the lookup uses.
  It handles `*`, `?`, `[...]`, `[!...]`, ranges and an unclosed `[`.
  Matching is case-sensitive.
- `Listing` (listing.dfy) models the descending sort on
  `(type.value, alias)` and the printed lines.
- `KeyValue` (keyvalue.dfy) is a `Store` class over a map. It stands in for
  the file-system key-value store: `get`, `put`, `delete`, `keys`.
- `Rqs` (rqs.dfy) holds the `subcommands` table and the `Outcome` of one
  invocation. It has a method per operation (`Add`, `Delete`, `DeleteAll`,
  `ListAll`, `PrintEntries` and `Run` for the `rqs` body). Each method is
  proved against a function of the store's map. `Dispatch` is the function
  for a whole invocation.
- `RqsProperties` (properties.dfy) proves what the tool promises about
  `Dispatch`, for every probe and every answer at the prompt. The lemmas about
  lookups and key order hold for every store that keeps each entry under its
  own alias, which `DispatchKeepsConsistent` shows every invocation preserves.

External dependencies become parameters:

- The executable probe (`which`) is `isValidCommand: string -> bool`.
- The answer typed at the `delete_all` prompt is `answer: string`.
- The order in which the store lists its keys is `order`. `Run` returns it
  as a ghost value. `RqsProperties.DispatchIgnoresKeyOrder` shows the result
  does not depend on it.

Printing, running a program and exiting become values of `Outcome`.
`ExitCode` gives the exit status.

Where the code and its documentation differ, the model follows the code,
with one exception:

- Running a command entry follows the documentation, which shows
  `rqs mongo_local` running `mongo` with its arguments. The code as written
  hands the whole content to `subprocess.call` as one string without a shell.
  For a content of two or more words the spawn then raises
  FileNotFoundError, which escapes `rqs` and ends it with exit status 1. The
  model runs the content split into words instead (see Findings).

- An entry built from no tokens raises IndexError at `args_content[0]`, not
  ValueError.
- `del` is in the verb table, but it is invoked without its key and fails.
- An alias spelled like a verb (`add`, `ls`, `list`, `del`, `delete`,
  `delete_all`) can be stored but is never looked up by its own name, because
  the verb test compares the literal first word. A wildcard such as `ad?`
  still reaches it.

## Model

| member | source | states |
|---|---|---|
| `Entries.NewEntry` | rqs.py:25-36 | a non-sequence raises ValueError, an empty token sequence IndexError; otherwise the entry has the given alias, its content is the tokens joined by single spaces, and it is a command exactly when the probe accepts the first token |
| `Entries.NewEntryKeepsTokens` | rqs.py:30 | when no token holds a space, splitting the stored content on single spaces gives back exactly the tokens |
| `Entries.SplitJoin` | rqs.py:30 | `' '.join` is undone by `split(' ')` for one or more space-free tokens |
| `Entries.JoinSplit` | rqs.py:30 | every string is rebuilt by splitting it on single spaces and joining again |
| `Entries.Execute` | rqs.py:38-42 | executing raises ValueError exactly for text entries; a command entry runs a non-empty word list whose join is its content |
| `Entries.AsWrittenSpawnsUnprobedProgram` | rqs.py:42 | as written, an entry of two or more tokens asks the spawner for a program named by the whole content, never the first token the probe accepted |
| `Entries.CommandRunsItsTokens` | rqs.py:31-42 | corrected: an entry added from space-free tokens whose first token the probe accepts is a command and runs exactly those tokens |
| `Entries.RenderRoundTrip` | rqs.py:44-52 | a rendered line is the alias, `->` for a command or `=` for a text, and the content, separated by single spaces: it parses back to the same entry when the alias holds no space |
| `Entries.FirstSpace` | rqs.py:44-52 | helper of `RenderRoundTrip` for reading a rendered line back: the index of the first space, which ends the alias, with no space before it |
| `Glob.Filter` | rqs.py:114 | the matches are exactly the given names that the pattern matches, no more of them than names, without duplicates when the names have none, and in the order the names were given |
| `Glob.PlainMatchesOnlyItself` | rqs.py:114 | a pattern without `*`, `?` or `[` matches exactly the name it spells |
| `Glob.StarMatchesSomeSuffix` | rqs.py:114 | `*` followed by a pattern matches a name exactly when the rest matches some suffix of it |
| `Glob.StarMatchesEverything` | rqs.py:114 | `*` matches every name, `/` included |
| `Glob.PrefixStarMatchesPrefixes` | rqs.py:114 | a plain prefix followed by `*` matches exactly the names that start with that prefix |
| `Glob.QuestionMarkMatchesOneCharacter` | rqs.py:114 | `?` matches exactly the one-character names |
| `Glob.BracketRange` | rqs.py:114 | `[a-z]` matches exactly the one-character names whose character is in the range; the empty name and longer names fail |
| `Glob.NegatedBracketRange` | rqs.py:114 | `[!a-z]` matches exactly the one-character names whose character is outside the range; the empty name and longer names fail |
| `Glob.ClosingBracketFirst` | rqs.py:114 | a `]` in first place is a member of the set, not its end: `[]]` matches exactly the name `]` |
| `Glob.UnclosedBracketIsLiteral` | rqs.py:114 | a `[` followed by no `]` matches exactly the character `[`, and the rest of the pattern must match the rest of the name |
| `Listing.CommandKeyBelowText` | rqs.py:146 | the key value "command" sorts below "text", so a descending sort puts text entries first |
| `Listing.InsertPermutes` | rqs.py:146 | inserting adds exactly the entry to the list's contents |
| `Listing.InsertSorted` | rqs.py:146 | inserting into a descending list keeps it descending and adds exactly the entry |
| `Listing.SortDescendingSorts` | rqs.py:146 | the sort yields a permutation of its input that is descending on `(type.value, alias)` |
| `Listing.SortKeepsAliasesDistinct` | rqs.py:146 | sorting keeps the same entries and keeps their aliases distinct |
| `Listing.StrictlyDescendingUnique` | rqs.py:146 | a strictly descending list is determined by its set of entries |
| `Listing.SortIgnoresInputOrder` | rqs.py:145-146 | two lists of the same entries with distinct aliases sort to the same listing |
| `Listing.DescendingGroupsByKind` | rqs.py:146 | in a sorted listing every text entry precedes every command entry, and aliases descend within one kind |
| `Listing.ListingLinesShowEntries` | rqs.py:142-148 | the printed listing is the header and `empty` exactly when there are no entries, and otherwise one line per entry, which is tab-indented and parses back to the entry when its alias holds no space |
| `KeyValue.Store.Keys` | rqs.py:114 | lists every stored key exactly once |
| `KeyValue.Store.Get` | rqs.py:162 | finds the value of a present key, and reports a missing one |
| `KeyValue.Store.Put` | rqs.py:133 | the value is stored under the key, replacing an earlier one; nothing else changes |
| `KeyValue.Store.Delete` | rqs.py:167 | the key is removed; nothing else changes |
| `Rqs.Add` | rqs.py:130-134 | builds the entry and stores it under its alias, or raises without storing; the outcome reports the kind |
| `Rqs.PrintEntries` | rqs.py:141-148 | reads the entry of every given key and returns them sorted for printing, one per key |
| `Rqs.ListAll` | rqs.py:137-138 | lists the entries of every stored key, in the store's key order before sorting |
| `Rqs.Delete` | rqs.py:160-168 | a missing key gives a not-found notice and an unchanged store; a present key is removed |
| `Rqs.DeleteAll` | rqs.py:171-178 | unless the answer is `y` or empty nothing changes; otherwise the loop deletes every key and the store ends empty |
| `Rqs.Run` | rqs.py:95-127 | one invocation does what `Dispatch` says for the store before it, for the order in which the store listed its keys |
| `RqsProperties.VerbsAreNeverLookedUp` | rqs.py:95-112 | a first word in the verb table is never resolved as an alias: nothing is run or printed |
| `RqsProperties.LookupLeavesStoreUnchanged` | rqs.py:113-127 | a lookup never changes the store; corrected: it always exits 0 |
| `RqsProperties.AddNeedsAliasAndContent` | rqs.py:96-100 | `add` with fewer than two arguments exits 1 and leaves the store unchanged |
| `RqsProperties.DeleteNeedsOneKey` | rqs.py:104-107 | `delete` with other than one argument exits 1 and leaves the store unchanged |
| `RqsProperties.DelIsInvokedWithoutKey` | rqs.py:112 | `del` is invoked without its key whatever follows it, so it fails with exit 1 and deletes nothing |
| `RqsProperties.AddStoresEntry` | rqs.py:98-101 | `add alias t1..tn` sets the alias to the entry from the tokens, overwriting, reports its kind, and leaves every other key as it was |
| `RqsProperties.AddIsIdempotent` | rqs.py:130-133 | a second identical `add` leaves the store as the first one left it |
| `RqsProperties.DeleteRemovesOnlyItsKey` | rqs.py:160-168 | deleting a missing key gives a notice and an unchanged store; deleting a present key removes it and keeps every other entry |
| `RqsProperties.DeleteAllNeedsConfirmation` | rqs.py:173-177 | `delete_all` empties the store on `y` or an empty answer and otherwise changes nothing |
| `RqsProperties.EntryErrorsAreUnreachable` | rqs.py:124-127 | no invocation raises out of the entry model: `add` always has a token and only command entries are executed |
| `RqsProperties.DispatchKeepsConsistent` | rqs.py:131-133 | every entry stays stored under its own alias |
| `RqsProperties.LookupOutcomes` | rqs.py:114-127 | the matches are exactly the stored keys the pattern accepts; none gives a notice, several give a sorted listing of exactly the matching entries, one runs a command or prints a text |
| `RqsProperties.DispatchIgnoresKeyOrder` | rqs.py:114-116 | the outcome and the new store do not depend on the order in which the store lists its keys |
| `RqsProperties.ListingIgnoresKeyOrder` | rqs.py:145-146 | listing the same keys in any order prints the same entries in the same order |
| `RqsProperties.EntriesOfDistinctKeys` | rqs.py:145 | the entries read for distinct keys have distinct aliases and are exactly the entries of those keys |
| `RqsProperties.AddThenLookup` | rqs.py:122-127 | corrected: after `add alias t1..tn`, invoking a plain alias that is not a verb leaves the store as it is; it runs words whose join is the tokens' join if the probe accepted `t1`, the very tokens when none holds a space, and prints the tokens' join otherwise |
| `RqsProperties.OnlyTheAliasMatches` | rqs.py:114 | a plain stored alias used as a pattern matches itself alone |
| `RqsProperties.DeleteThenLookup` | rqs.py:118-120 | after `delete key`, invoking the key gives the not-found notice |
| `RqsProperties.DeleteAllThenList` | rqs.py:143-144 | after a confirmed `delete_all` the store lists no keys and `list` prints the empty notice |
| `RqsProperties.WildcardMatches` | rqs.py:114 | among `foo1`, `foo2` and `bar`, `foo*` matches the two foo names and `baz*` none |
| `RqsProperties.FooStarListsBothFoos` | rqs.py:115-117 | with `foo1`, `foo2` and `bar` stored, `foo*` lists exactly the two foo entries and runs nothing |
| `RqsProperties.BarActsAloneBazFindsNothing` | rqs.py:118-127 | with the same store, `bar` acts on the bar entry alone and `baz*` gives the not-found notice |

## Definitions

The functions and constants that model the source's code paths. The members
in the table above state what they do.

| definition | source | models |
|---|---|---|
| `Entries.Join` | rqs.py:30 | `' '.join(args_content)` |
| `Entries.Split` | rqs.py:42 | splitting the content on single spaces, the argument vector of the corrected spawn |
| `Entries.SpawnedAsWritten` | rqs.py:42 | the argument vector `subprocess.call(self.content)` hands the spawner as written |
| `Entries.Render` | rqs.py:44-52 | `Entry.__str__` without colours |
| `Glob.Translate` | rqs.py:114 | `fnmatch.translate`: the pattern as a list of atoms |
| `Glob.MatchAtoms` | rqs.py:114 | the compiled expression matching a whole name |
| `Glob.FnMatch` | rqs.py:114 | `fnmatch.fnmatch` on POSIX |
| `Listing.KeyLess` | rqs.py:146 | Python's ordering of the key `(type.value, alias)` |
| `Listing.SortDescending` | rqs.py:146 | `entries.sort(key=..., reverse=True)`, stable |
| `Listing.ListingLines` | rqs.py:142-148 | the lines `print_entries` prints |
| `Rqs.Subcommands` | rqs.py:181 | the `subcommands` table |
| `Rqs.ExitCode` | rqs.py:99-100 | exit status 1 after `exit(1)` or an uncaught exception, 0 otherwise |
| `Rqs.AddResult` | rqs.py:130-134 | `add` |
| `Rqs.ListingOf` | rqs.py:141-148 | `print_entries` |
| `Rqs.DeleteResult` | rqs.py:160-168 | `delete` |
| `Rqs.DeleteAllResult` | rqs.py:171-178 | `delete_all` |
| `Rqs.InvokeResult` | rqs.py:112 | `ctx.invoke(subcommands[command])` with no arguments |
| `Rqs.LookupResult` | rqs.py:113-127 | the lookup branch of `rqs` |
| `Rqs.Dispatch` | rqs.py:95-127 | the body of `rqs` |

## Left out

- Click argument parsing, `--version` and `ignore_unknown_options` are library plumbing. The input is `command: string, args: seq<string>`.
- pw.py, an earlier prototype, is not part of this model. Its `add`, `list` and lookup are plain store calls that rqs.py supersedes.
- Pickle serialisation is an opaque library encoding. Entries are stored in the map as values.
- The `which` probe is a foreign process call. It is the parameter `isValidCommand`.
- Running a command is a foreign process call. It is the outcome `Ran(argv)`, and the child's exit status is not modelled.
- The file-system store, its directory under the home directory, and the key validation done by the key-value library are not part of this model. Every string is accepted as a key.
- Colours, emoji and message wording are terminal presentation. Only the connector text, the `empty` notice and the outcome kind are kept.
- The `input()` prompt is the parameter `answer`. `exit(1)` and uncaught exceptions are the outcomes that `ExitCode` maps to 1.
- Glob.Translate: follows `fnmatch.translate` of Python 3.9 and later. Earlier versions raise `re.error` on an empty range such as `[z-a]`, which the model treats as matching nothing.
- Listing.SortDescending: the in-place `list.sort` is modelled by its result, as a function on sequences. Timsort's steps are not modelled.
- Entries.Execute: runs `Split(content)`, the corrected argument vector (see Findings). It gives back the tokens passed to `add` only when none of them holds a space: a quoted token such as `"a b"` is run as two words.
- Rqs.Run: runs the corrected argument vector (see Findings), not the single-string call as written.
- RqsProperties.LookupLeavesStoreUnchanged: its exit status 0 holds for the corrected spawn. As written, invoking a command entry of two or more words raises FileNotFoundError and exits 1.
- RqsProperties.AddThenLookup: the words run are those of the corrected spawn. As written, the argument vector is the whole content as one string, and for two or more words the spawn fails with FileNotFoundError (exit 1).

## Findings

| source | as written | input that shows it | evidently intended | confidence | as-written member | corrected member |
|---|---|---|---|---|---|---|
| rqs.py:42 | `subprocess.call(self.content)` passes the joined content as one string without a shell, which POSIX takes as the name of the program | `rqs add l ls -la`, then `rqs l`: the probe accepted `ls`, but the spawn looks for a program named `ls -la`, finds none and raises FileNotFoundError, so rqs ends with a traceback and exit status 1 | run the tokens given to `add`: program `ls` with argument `-la` | not executed | `Entries.AsWrittenSpawnsUnprobedProgram` | `Entries.CommandRunsItsTokens` |
