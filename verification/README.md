# MrCTF CTF tracker — Dafny model

A model of the CTF-management plugin of the MrCTF chat bot
(`plugins/CTF-management/ctf.py`). The plugin keeps a list of CTF events
in the bot's persistent key/value storage under the key `CTFS`. It offers
three commands:

- `addctf` registers a CTF. It derives a category room `##<name>` and a
  general sub-channel `<name>-general` for it, then appends a record.
- `ctf_status` is still a stub that answers a fixed text.
- `rarf2reef` fires on messages containing the word `rarf` and answers
  with every `rarf` replaced by `reef`.

`addctf` and `ctf_status` are modelled as pure transitions. Each takes the
storage before the command and returns the storage after it, paired with the
command's reply: a text, Python's `None`, or a raised exception. Plugin
activation (`activate`) maps the storage to the new storage. `rarf2reef`
maps a message body to an optional answer, where `None` means the pattern
did not fire and the handler is never called.

Modules:

- `options.dfy` (`Options`): the `Option` datatype.
- `rooms.dfy` (`Rooms`): abstract room handles. A `Backend` says which
  room identifiers support sub-channels. Creating a sub-channel under a room
  that cannot hold one yields `Unsupported`. This stands in for the
  `AttributeError` the plugin catches.
- `tracker.dfy` (`Tracker`): the `Ctf` record, the storage, and three
  transitions: `Activate`, `CtfStatus` and `AddCtf`. It also has `Run`,
  which executes a script of commands, and the store invariants.
- `rarf.dfy` (`Rarf`): the trigger pattern `(^| )rarf( |$)`. It is searched
  case-insensitively and given both as a predicate and as a left-to-right
  scanning method. The module also has `str.replace("rarf", "reef")` and
  its properties.

The storage is modelled as a map, so a missing `CTFS` key is a real case.
Before `activate` has run, `self[CTF_KEY]` raises `KeyError` in both
`addctf` (line 56) and `ctf_status` (line 35). The model keeps those error
paths.

## Model

| member | source | states |
|---|---|---|
| Rooms.CreateSubchannel | plugins/CTF-management/ctf.py:51-54 | creating a sub-channel succeeds exactly when the parent room supports sub-channels; the new room has the requested identifier and is a child of the parent |
| Rooms.QueryRoom | plugins/CTF-management/ctf.py:48 | looking up a room gives a handle with the requested identifier and no parent, which supports sub-channels exactly when the backend says rooms of that identifier do |
| Tracker.NewCtf | plugins/CTF-management/ctf.py:10-15 | a new CTF record has an empty challenge list and exactly the given name, category room and general room |
| Tracker.Activate | plugins/CTF-management/ctf.py:23-28 | after activation the `CTFS` key is present; an existing list is kept as is, a missing one becomes the empty list; no other key is added or changed |
| Tracker.ActivateIdempotent | plugins/CTF-management/ctf.py:27-28 | activating twice gives the same storage as activating once |
| Tracker.CtfStatus | plugins/CTF-management/ctf.py:30-38 | `ctf_status` never changes the storage; with the CTF list present it answers the fixed text, without it it raises `KeyError` |
| Tracker.CtfStatusIgnoresRecords | plugins/CTF-management/ctf.py:35-38 | the reply of `ctf_status` is the same whatever CTFs are stored |
| Tracker.AddCtf | plugins/CTF-management/ctf.py:40-56 | empty name: the usage text, storage unchanged, independent of the rooms; category room without sub-channel support: `RuntimeError`, storage unchanged; no CTF list: `KeyError`, storage unchanged; otherwise no reply and the list grows by exactly one record at its end, earlier records and other keys untouched, the new record named `name` with the looked-up category room `##name`, general room `name-general` created under the category, and no challenges |
| Tracker.AddCtfAfterActivate | plugins/CTF-management/ctf.py:56 | once the plugin is activated, `addctf` never raises `KeyError` |
| Tracker.AddCtfPreservesWellFormed | plugins/CTF-management/ctf.py:48-56 | `addctf` keeps every stored record well formed (non-empty name, rooms named after it, general room under the category, no challenges) |
| Tracker.AddCtfAllowsDuplicateNames | plugins/CTF-management/ctf.py:56 | adding a name that is already stored succeeds and leaves two records with that name |
| Tracker.RunAppendOnly | plugins/CTF-management/ctf.py:23-56 | over any script of commands on an activated store the CTF list only grows at its end, earlier records stay in place, and the names appended are exactly those of the `addctf` commands that pass both checks, in order |
| Tracker.RunPreservesWellFormed | plugins/CTF-management/ctf.py:23-56 | every storage a script reaches from a well-formed storage is well formed |
| Rarf.FindTrigger | plugins/CTF-management/ctf.py:58 | the left-to-right search returns the first position where `rarf` in any letter case is preceded by the start of the text or a space and followed by a space, the end of the text or a final newline; it returns nothing exactly when the trigger predicate is false |
| Rarf.Replace | plugins/CTF-management/ctf.py:61 | the replacement keeps the length of the text |
| Rarf.ReplaceRewritesEveryOccurrence | plugins/CTF-management/ctf.py:61 | every lower-case `rarf` of the input reads `reef` at the same position of the output |
| Rarf.ReplaceKeepsUncovered | plugins/CTF-management/ctf.py:61 | every character outside all occurrences of `rarf` is unchanged |
| Rarf.ReplaceRemovesWord | plugins/CTF-management/ctf.py:61 | the output contains no lower-case `rarf` |
| Rarf.ReplaceNoWordUnchanged | plugins/CTF-management/ctf.py:61 | a text without `rarf` is returned unchanged |
| Rarf.ReplaceFixedIff | plugins/CTF-management/ctf.py:61 | the replacement leaves a text unchanged if and only if it contains no `rarf` |
| Rarf.ReplaceIdempotent | plugins/CTF-management/ctf.py:61 | replacing twice gives the same text as replacing once |
| Rarf.Rarf2Reef | plugins/CTF-management/ctf.py:58-61 | the command answers exactly when the trigger matches, and its answer has the body's length and no `rarf` |
| Rarf.TriggeredWithoutWordUnchanged | plugins/CTF-management/ctf.py:58-61 | a body that fires the trigger but holds no lower-case `rarf` (say one written in capitals) is answered with itself |
| Rarf.UpperCaseTriggersUnchanged | plugins/CTF-management/ctf.py:58-61 | matching ignores case but replacing does not: `RARF` fires the command and comes back unchanged |
| Rarf.LowerCaseWordRewritten | plugins/CTF-management/ctf.py:58-61 | a lower-case `rarf` standing as a delimited word fires the command, and the answer differs from the body |

## Left out

- `plugins/CTF-management/ctftime.py` is not part of this model. It does HTTP requests, JSON and HTML parsing, time-zone formatting and floating-point score arithmetic.
- `config.py` is not part of this model. It is static configuration and an environment-variable lookup.
- Persistence: durability, flushing, and whether errbot persists an in-place `append` to the stored list are not modelled. The storage is a plain value, and a successful `addctf` is taken to store the appended list.
- Room side effects: `category.create()` is not modelled, so a category room created before a failing sub-channel step is not tracked. `super().activate()` is not modelled either.
- Rooms.QueryRoom: a looked-up room carries no parent. Whether it supports sub-channels comes from the `Backend` set, and a created sub-channel's own support comes from the same set.
- Tracker.AddCtf: the `RuntimeError` keeps only its message text, not the wrapped `AttributeError` object.
- Tracker.CtfStatus: the `KeyError` raised for a missing list is given the argument `'CTFS'`; the actual argument is chosen by the bot framework's storage, which is not part of this model.
- Tracker.AddCtf: the same holds for its `KeyError`.
- Tracker.CtfStatus: the loop over the stored list has an empty body, so it is reduced to its one observable effect, the `KeyError` raised when the list is missing.
- Command registration through the `@botcmd` and `@re_botcmd` decorators, and message dispatch, are not modelled. `Rarf2Reef` takes the message body and assumes errbot searches the pattern in the whole body.
- Rarf.SameLetterIgnoringCase: case-insensitive matching is modelled for the ASCII letters of `rarf` only. Under Python's simple case folding no other character matches `r`, `a` or `f`.
- Concurrency and locking: the code has none. Commands are modelled as sequential transitions.
- Challenge operations are not modelled because the code has none. The challenge list's element type is a placeholder (`string`).
