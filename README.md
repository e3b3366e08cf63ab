# ji page store and task commands, in Dafny

ji is a personal task tracker. Tasks live on numbered *pages*. A persisted
*working pointer* (`wp`) names the current page. Each task moves through the
statuses `TODO`, `STAGED` and `PUSHED` and collects comments.

This project models two parts of ji:

- the page store, `Repo` in `src/ji/model.py`;
- the command bodies of `src/ji/cli.py` that run on it.

The Dafny modules follow the source:

- `Wrappers` (`wrappers.dfy`): `Option` and `Result`.
- `Records` (`records.dfy`): `Status`, `Comment`, `Task`, `Page` and the
  page's `task_map`, plus `Page.filter`. A `task_map` is a Python dict, so it
  keeps insertion order. It is modelled as a sequence of `(key, task)` entries
  with distinct keys. `Put` is `task_map[k] = t`: a present key keeps its
  position and a new key goes last. `Delete` is `del task_map[k]`. `Get` is
  `task_map.get(k)`.
- `Codec` (`codec.dfy`): the stored form of a page, which is what
  `asdict` plus `json.dump` write and `json.load` reads back. Integer keys
  become decimal strings and statuses become their names. Decoding is
  `Page.from_dict` and `Comment.from_dict`: `int(k)` on each key, `Status(v)`
  on each status, and every task's id forced to its key.
- `Store` (`store.dfy`): class `Repo`. Its fields are `pages`, a map from page
  id to the stored record of `page_<id>.json`, `wp`, and the constant
  `eventTime`. It provides bootstrap, `get_wp`/`set_wp`, `get_page`,
  `write_page` and the working-page session. The session is
  `OpenWorkingPage` (resolve the id, load) plus `CloseWorkingPage` (the
  `finally` clause: stamp `last_modified` and write back).
- `Commands` (`commands.dfy`): one method per command (`n`, `st`, `t`, `rm`,
  `a`, `rs`, `c`, `p`).
  - `st`, `t`, `rm`, `a`, `c` and `p` take the page id already resolved from
    `-p` and run their bodies inside the session.
  - `rs` opens the session on the working page and takes no id.
  - `n` opens no session. It moves the pointer and writes a fresh page.
  - The bodies that change the `task_map` (`t`, `rm`, `a`, `rs`, `c`, `p`)
    are also functions on it, with their properties. `st` only shows the page
    and changes no task.
  - The loops of `c` and `p` are methods (`AppendComment`, `PushAll`) proved
    to compute those functions.
- `Scenario` (`scenario.dfy`):
  - the lifecycle of one task through touch, add, comment, push and restore;
  - a fresh store that gets a task and moves on to its next page;
  - how a command's page id is resolved.

What the source promises and the model proves:

- Round trip: decoding what was encoded gives back the same page, including
  comment order, when every task's id equals its key. Decoding always produces
  such pages.
- Decoding fails exactly when a stored key is not an integer or a status is
  not one of the three names. The error is the first offending member's.
- `get_page` is absent exactly when no file is stored.
- Every session that loaded a page writes it back stamped with the event
  time, even when the command changed nothing or returned early. No other page
  is touched, and a failed or absent load writes nothing.
- Each command states exactly which keys, statuses and comment lists change.

The model follows what the code does, including where one might expect
otherwise:

- The session writes the page back unconditionally. There is no dirty check.
- There is no journal and no backlog.
- Statuses are the three above. There is no `BACKLOG` status and no
  `difficulty` field.
- Commands do not refresh a task's `last_modified`.
- Restoring a task that is not staged does not stop the write-back.

## Model

| member | source | states |
|---|---|---|
| `Records.IndexOf` | src/ji/model.py:38 | the position of a key in the dict, absent exactly when the key is not one of its keys, and the first position holding it |
| `Records.Get` | src/ji/cli.py:83 | `task_map.get(k)` is present exactly when k is a key, and then it is the task stored under k |
| `Records.GetAt` | src/ji/model.py:38 | in a dict, looking up the key at a position gives that position's task |
| `Records.Put` | src/ji/cli.py:46 | definition of `task_map[k] = t`, no contract of its own; `Records.PutKeys`, `Records.PutGet` and `Records.PutShape` state its meaning |
| `Records.PutKeys` | src/ji/cli.py:46 | after `task_map[k] = t` the keys are the old keys plus k |
| `Records.PutGet` | src/ji/cli.py:46 | after `task_map[k] = t` the map holds t under k and every other key keeps its task |
| `Records.PutShape` | src/ji/cli.py:46 | a new key is appended at the end; a present key is replaced where it stands and nothing else moves; the map stays a dict, and stays well-keyed when t's id is k |
| `Records.Delete` | src/ji/cli.py:70 | definition of `del task_map[k]`, no contract of its own; `Records.DeleteShape`, `Records.DeleteKeys`, `Records.DeleteGetOther` and `Records.DeleteGet` state its meaning |
| `Records.DeleteShape` | src/ji/cli.py:70 | `del task_map[k]` closes up the map at k's position: one entry fewer, the others in their order |
| `Records.DeleteKeys` | src/ji/cli.py:70 | `del task_map[k]` removes exactly key k, shrinks the map by one when k was present, and keeps it a dict with ids equal to keys |
| `Records.DeleteGetOther` | src/ji/cli.py:70 | (proof step of `Records.DeleteGet`, one key at a time) `del task_map[k]` keeps the task of any one other key |
| `Records.DeleteGet` | src/ji/cli.py:70 | `del task_map[k]` keeps every other key's task |
| `Records.Filter` | src/ji/model.py:60-61 | definition of `Page.filter(s)`, no contract of its own; `Records.FilterSpec` and `Records.FilterAppend` state its meaning |
| `Records.FilterSpec` | src/ji/model.py:60-61 | `filter(s)` has at most as many tasks as the map; every task it returns has status s and is a task of the map; every task of the map with status s is in it |
| `Records.FilterAppend` | src/ji/model.py:60-61 | `filter` keeps map order: filtering a concatenation concatenates the filters |
| `Records.EmptyPage` | src/ji/model.py:98-104 | definition of the page `write_page` builds when given none; its meaning for callers, that the stored empty page reads back as this page, is stated by `Store.Repo.WritePage` and `Store.Repo.constructor` |
| `Codec.StatusName` | src/ji/model.py:10-13 | definition of each `Status` member's string value, which is how `json.dump` writes a status; `Codec.StatusRoundTrip` and `Codec.ParseStatus` state its meaning |
| `Codec.ParseStatus` | src/ji/model.py:10-13 | `Status(v)` succeeds exactly for "TODO", "STAGED" and "PUSHED" and gives the member with that value; there is no default |
| `Codec.StatusRoundTrip` | src/ji/model.py:10-13 | a status written by its name reads back as the same status |
| `Codec.NatToString` | src/ji/model.py:105 | an integer is written as a non-empty string of decimal digits without leading zeros |
| `Codec.IntToString` | src/ji/model.py:105 | definition of how `json.dump` writes an integer key, no contract of its own; `Codec.IntRoundTrip` and `Codec.IntToStringInjective` state its meaning |
| `Codec.ParseDigits` | src/ji/model.py:43 | definition of the digit value, no contract of its own; `Codec.ParseDigitsSome` and `Codec.NatRoundTrip` state its meaning |
| `Codec.ParseInt` | src/ji/model.py:43 | definition of `int(k)`, no contract of its own; `Codec.ParseIntSome` and `Codec.IntRoundTrip` state its meaning |
| `Codec.ParseDigitsSome` | src/ji/model.py:43 | a string of digits has a value exactly when it is non-empty and all digits |
| `Codec.ParseIntSome` | src/ji/model.py:43 | `int(k)` succeeds exactly on an optionally signed non-empty digit string |
| `Codec.NatRoundTrip` | src/ji/model.py:43 | the digits of n read back as n |
| `Codec.IntRoundTrip` | src/ji/model.py:43 | a key written by `json.dump` reads back through `int(k)` as the same integer, negative keys included |
| `Codec.IntToStringInjective` | src/ji/model.py:105 | distinct integer keys are stored under distinct strings |
| `Codec.DecodeComment` | src/ji/model.py:20-22 | definition of `Comment.from_dict`, no contract of its own; `Codec.CommentsRoundTrip` and `Codec.TaskRoundTrip` state its meaning |
| `Codec.DecodeComments` | src/ji/model.py:47 | definition of the comment-list comprehension; its meaning is stated by `Codec.CommentsRoundTrip` |
| `Codec.CommentsRoundTrip` | src/ji/model.py:47 | a comment list written by `asdict` reads back through `Comment.from_dict` as the same list, order included |
| `Codec.DecodeTask` | src/ji/model.py:43-49 | definition of the `Task(...)` built for key k, no contract of its own; `Codec.TaskRoundTrip` and `Codec.DecodeIgnoresStoredId` state its meaning |
| `Codec.EntryError` | src/ji/model.py:43-45 | definition of the error one stored member raises, key first; `Codec.DecodeSucceedsIff` and `Codec.DecodeFirstError` state its meaning |
| `Codec.DecodeEntries` | src/ji/model.py:42-51 | definition of the `task_map` comprehension, no contract of its own; `Codec.DecodeWellKeyed`, `Codec.DecodeSucceedsIff`, `Codec.DecodeFirstError`, `Codec.DecodeKeys` and `Codec.EntriesRoundTrip` state its meaning |
| `Codec.Absorb` | src/ji/model.py:42-50 | definition of one step of the `task_map` comprehension, no contract of its own; `Codec.AbsorbErrors` and `Codec.AbsorbIgnoresId` state its meaning |
| `Codec.DecodeWellKeyed` | src/ji/model.py:42-51 | a successful decode of `task_map` is a dict in which every task's id equals its key |
| `Codec.DecodeSnoc` | src/ji/model.py:42-51 | (proof step of an induction) the comprehension adds one more stored member by `task_map[int(k)] = Task(...)` |
| `Codec.CleanLast` | src/ji/model.py:42-44 | (proof step of an induction) a sequence of stored members has no bad key or status exactly when its prefix and its last member have none |
| `Codec.AbsorbErrors` | src/ji/model.py:42-45 | one step of the comprehension keeps an earlier error, raises the member's own error (key before status), or succeeds |
| `Codec.AbsorbIgnoresId` | src/ji/model.py:43-49 | one step of the comprehension does not read the stored id |
| `Codec.DecodeErrorStep` | src/ji/model.py:42-44 | (proof step of an induction) the comprehension raises the prefix's error first, then the last member's own error, and otherwise succeeds |
| `Codec.DecodeSucceedsIff` | src/ji/model.py:42-51 | decoding succeeds exactly when no member has a non-integer key or a status outside the enumeration |
| `Codec.FirstErrorExtends` | src/ji/model.py:42-50 | (proof step of an induction) a first bad member of the prefix is a first bad member of the whole |
| `Codec.DecodeFirstError` | src/ji/model.py:42-51 | a failed decode raises the error of the first member with a bad key or status |
| `Codec.DecodeLast` | src/ji/model.py:42-51 | (proof step of an induction) a successful decode decoded every earlier member and stored the last one by `task_map[int(k)] = Task(...)` |
| `Codec.StoredKeysLast` | src/ji/model.py:42-44 | (proof step of an induction) the last stored member adds exactly the integer its key names, if any, to the stored keys |
| `Codec.DecodeKeys` | src/ji/model.py:42-44 | the decoded keys are exactly the integers that the stored keys name |
| `Codec.DecodeSameLast` | src/ji/model.py:42-50 | (proof step of an induction) sequences that decode alike up to their last members, which differ at most in the stored id, decode alike |
| `Codec.DecodeIgnoresIds` | src/ji/model.py:43-44 | stored members that differ only in their stored ids decode to the same map, or fail with the same error |
| `Codec.DecodeIgnoresStoredId` | src/ji/model.py:43-44 | changing a stored task's id changes neither a successful decode, whose ids come from the keys, nor the error of a failed one |
| `Codec.DecodePage` | src/ji/model.py:53-58 | `Page.from_dict` keeps the stored page id and timestamps and succeeds exactly when its `task_map` decodes |
| `Codec.TaskRoundTrip` | src/ji/model.py:43-49 | a task encoded by `asdict` and decoded under its own id is the same task, comments in order |
| `Codec.EncodeComment` | src/ji/model.py:105 | definition of `asdict` on a comment, no contract of its own; `Codec.CommentsRoundTrip` and `Codec.TaskRoundTrip` state its meaning |
| `Codec.EncodeComments` | src/ji/model.py:105 | definition of `asdict` on a `comment_list`, in order, no contract of its own; `Codec.CommentsRoundTrip` and `Codec.TaskRoundTrip` state its meaning |
| `Codec.EncodeTask` | src/ji/model.py:105 | definition of `asdict` on a task, no contract of its own; `Codec.TaskRoundTrip` states its meaning |
| `Codec.EncodeEntries` | src/ji/model.py:105 | definition of `asdict` on a `task_map`; `Codec.EntriesRoundTrip` states its meaning |
| `Codec.EncodePage` | src/ji/model.py:105 | definition of `asdict` on a page, no contract of its own; `Codec.PageRoundTrip` states its meaning |
| `Codec.EncodeSnoc` | src/ji/model.py:42-51 | (proof step of an induction) encoding keeps the map's order: one more entry at the end is encoded last |
| `Codec.EntriesRoundTripStep` | src/ji/model.py:42-51 | (proof step of an induction) decoding the encoding of one more entry, whose key is new, appends that entry |
| `Codec.EntriesRoundTrip` | src/ji/model.py:42-51 | a well-keyed `task_map` survives encoding and decoding unchanged, order included |
| `Codec.PageRoundTrip` | src/ji/model.py:42-58 | `from_dict` after `asdict` gives back the page when every task's id equals its key |
| `Store.Repo.constructor` | src/ji/model.py:70-79 | a missing store is bootstrapped with `wp = 0` and an empty page 0 that reads back as such; an existing store is opened as stored |
| `Store.Repo.SetWp` | src/ji/model.py:84-87 | after `set_wp(id)`, `get_wp()` is id, and no page changes |
| `Store.Repo.GetPage` | src/ji/model.py:89-94 | `get_page(id)` is absent exactly when no file is stored for id, fails exactly when the stored page does not decode, and otherwise gives a well-keyed page |
| `Store.Repo.WritePage` | src/ji/model.py:96-105 | the file for id is overwritten with the page, or with an empty page stamped with the event time; a page whose every task's id equals its key reads back as written (decoding replaces ids by keys); no other page and not the pointer change |
| `Store.Repo.Resolve` | src/ji/cli.py:9-11 | definition of the page-id choice; its meaning is stated by `Scenario.NewThenResolve` and `Scenario.NewThenExplicit` |
| `Store.Repo.OpenWorkingPage` | src/ji/model.py:108-110 | definition of entering the session; its meaning is stated by `Scenario.NewThenResolve` and the command methods |
| `Store.Repo.CloseWorkingPage` | src/ji/model.py:111-116 | on exit a loaded page is stamped with the event time and written back under its id, and, when every task's id equals its key, reads back stamped; an absent page writes nothing; no other page changes |
| `Commands.Touched` | src/ji/cli.py:45-53 | touch puts under key n = size a TODO task with id n, no comments and both timestamps equal to the event time; keys gain n; every other key keeps its task; ids stay equal to keys |
| `Commands.TouchGapFree` | src/ji/cli.py:45-53 | when the keys are exactly 0..n-1, touch appends key n and the keys become exactly 0..n |
| `Commands.TouchOverwrites` | src/ji/cli.py:45-46 | when key n is already present, touch overwrites that task: same keys, same size, the new task under n |
| `Commands.RemoveThenTouchLosesTask` | src/ji/cli.py:45-70 | on a gap-free page, rm of any task but the last followed by touch replaces the task under the last key |
| `Commands.Staged` | src/ji/cli.py:83-87 | add sets an existing task's status to STAGED whatever it was, in place; a missing id changes nothing; all other tasks are untouched |
| `Commands.Restored` | src/ji/cli.py:95-103 | restore changes a task only when it is STAGED, and then to TODO, in place; TODO and PUSHED tasks and missing ids are unchanged |
| `Commands.Commented` | src/ji/cli.py:120-121 | definition of the `task_map` after comment, no contract of its own; `Commands.GetCommented`, `Commands.FilterCommented` and `Commands.FilterCommentedOthers` state its meaning |
| `Commands.Pushed` | src/ji/cli.py:139-140 | definition of the `task_map` after push, no contract of its own; `Commands.GetPushed` and `Commands.FilterPushed` state its meaning |
| `Commands.AppendComment` | src/ji/cli.py:116-121 | the comment loop reports the number of staged tasks and appends one comment to each staged task, none when none is staged |
| `Commands.PushAll` | src/ji/cli.py:134-140 | the push loop reports the number of staged tasks and turns each STAGED task into PUSHED |
| `Commands.NoneStagedUnchanged` | src/ji/cli.py:116-118 | with no staged task, comment and push change no task |
| `Commands.GetCommented` | src/ji/cli.py:120-121 | after comment each key keeps its place; a staged task gains exactly the new comment at the end, with the event time; others are untouched |
| `Commands.GetPushed` | src/ji/cli.py:139-140 | after push each key keeps its place; a STAGED task is PUSHED and every other task is unchanged; keys are the same |
| `Commands.FilterPushed` | src/ji/cli.py:134-140 | after push `filter(STAGED)` is empty, the PUSHED tasks number the old PUSHED plus STAGED ones, and `filter(TODO)` is unchanged |
| `Commands.FilterCommented` | src/ji/cli.py:116-121 | after comment `filter(STAGED)` lists the same tasks in the same order, each with the comment appended |
| `Commands.FilterCommentedOthers` | src/ji/cli.py:116-121 | comment leaves `filter(TODO)` and `filter(PUSHED)` unchanged |
| `Commands.NewPage` | src/ji/cli.py:15-19 | `n` sets `wp` to old `wp + 1` and stores an empty page there that reads back; every other page is untouched |
| `Commands.ShowStatus` | src/ji/cli.py:26-33 | `st` shows the page as loaded, and the session still writes it back with a new `last_modified`; a missing or undecodable page writes nothing |
| `Commands.Touch` | src/ji/cli.py:38-53 | `t` stores the touched page, stamped, under the resolved id; a missing page reports so and writes nothing |
| `Commands.Remove` | src/ji/cli.py:59-71 | `rm` reports a missing task and otherwise deletes exactly that key; in both cases the loaded page is written back |
| `Commands.Add` | src/ji/cli.py:76-88 | `a` reports a missing task exactly when the id is absent, stages it otherwise, and writes the page back |
| `Commands.Restore` | src/ji/cli.py:93-104 | `rs` works on the working page; it reports a missing task or a task that is not staged, restores a staged one, and writes the page back |
| `Commands.CommentStaged` | src/ji/cli.py:109-123 | `c` reports "no staged tasks" exactly when none is staged and otherwise how many got the comment; the page is written back |
| `Commands.Push` | src/ji/cli.py:127-141 | `p` reports "no staged tasks" exactly when none is staged and otherwise pushes them all; the page is written back |
| `Scenario.NewThenResolve` | src/ji/cli.py:9-19 | after `n`, a command given no `-p` works on page old `wp + 1`, which loads as the empty page `n` wrote |
| `Scenario.NewThenExplicit` | src/ji/cli.py:9-19 | after `n`, a command given `-p q` loads page q as `n` left it: the new empty page when q is the new `wp`, and otherwise exactly what q held before |
| `Scenario.TaskLifecycle` | src/ji/cli.py:38-104 | on an empty page, touch, add, comment and push take task 0 through TODO, STAGED with one comment, and PUSHED; restore then leaves it alone |

## Left out

- The write-ahead journal, the backlog store, the dirty check, the `BACKLOG` status and the `difficulty` field do not appear in the modelled code.
- The filesystem, JSON text and paths are abstracted. `Path.home()`, `os.makedirs`, `open`, `json.dump` and `json.load` become the `pages` map of stored records and the `wp` field. I/O errors and the atomicity of bootstrap are not modelled.
- `datetime.now()` is read once by `Repo()`. It is the `eventTime` parameter of the constructor.
- The working pointer file: `int(f.readlines()[0])` becomes the integer `Disk.wp`. A missing or malformed pointer file is not modelled.
- Codec.ParseInt: it accepts only an optional sign and ASCII digits. Python's `int()` also accepts surrounding whitespace, underscores between digits and non-ASCII digits. Keys written by `json.dump` never contain these.
- Stored `task_map` keys are distinct strings, since `json.load` keeps only the last of repeated keys. `Codec.PageRecord` does not enforce this, so `Codec.DecodeSucceedsIff` and `Codec.DecodeFirstError` also cover inputs that `json.load` never produces.
- Codec.DecodeEntries: the stored record types have every field with the right JSON type. A `KeyError` or a type error from a hand-edited file is not modelled, only the two `ValueError`s from `int(k)` and `Status(v)`.
- Commands.Restore: the source's `restore` uses `repo` without binding it (src/ji/cli.py:93-94). As written it raises `NameError` and changes nothing. The model gives the evidently intended behaviour on the working page. For an absent working page the source would fail on `page.task_map`; the model reports `NoPage`, and in both cases nothing is written.
- Click plumbing is not modelled: decorators, option parsing, the `rm` confirmation prompt, the `-p` option of `st` (shadowed by the group's resolved id), its unused `-n` option, its `-v` flag (only passed to the pretty printer), and the text of `click.echo` messages. The messages are the `Outcome` values.
- `src/ji/pretty.py` (rendering and `format_time`) and `src/ji/html.py` (the HTML report) are not part of this model.
- `Store.Repo.GetWp` reads the field, so it has no contract of its own. Its property is stated by `SetWp`.
- Aliasing: in the source, `filter(STAGED)` returns the map's own task objects, and the loops of `c` and `p` change them through that list. The model updates those same tasks through their positions in the map.
