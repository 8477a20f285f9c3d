# Command history of the qutebrowser status bar, in Dafny

This project models the status bar's command history (`History` in
`qutebrowser/models/cmdhistory.py`). The model has two parts:

- **The log.** This is the chronological list of executed commands, oldest
  first. It is seeded by the application. It grows only through `append`,
  which skips a command equal to the newest entry.
- **The browsing session.** It is either idle or holds a cursor over a
  snapshot of candidates. `start(text)` picks as candidates the log entries
  that start with `text` (the whole log when `text` is empty). It then
  returns the newest candidate. `previtem`/`nextitem` step through the
  snapshot, and `stop` ends the session.

The model is written as pure functions over immutable values. Each
operation returns the new state together with either the returned command or
an error value. The error values are `HistoryEmpty`, `HistoryEndReached`,
`NotBrowsing` (the source's `ValueError`) and `IndexOutOfRange` (the
`IndexError` of a list read). They stand in for the exceptions the source
raises.

Files:

- `outcomes.dfy` (module `Outcomes`): `Option` and `Result`.
- `neighbor.dfy` (module `Neighbor`): the bounded cursor the session uses.
  The source gets it from `NeighborList` in `qutebrowser/utils/usertypes.py`,
  which is not part of this model. Its behaviour here is an **assumption**,
  chosen to match how the history uses it in its exception mode:
  - `New` refuses an empty snapshot (`EmptySequence`). `Start` never reaches
    that case, because it checks for candidates first.
  - `LastItem` moves to the newest item and returns it.
  - `Prev` fails at index 0. `Next` fails at the last index.
  - A failed step leaves the cursor where it was. There is no wrap-around and
    no clamping.
- `cmdhistory.dfy` (module `CmdHistory`): the history state and its
  operations `Init`, `Get`, `Start`, `Stop`, `PrevItem`, `NextItem` and
  `Append`, plus the prefix `Filter`. The predicate `History.Browsing`
  models the `browsing` property (`cmdhistory.py:63-66`): a session is open.
  `HistoryProperties.BrowsingLifecycle` states how each operation affects it.
- `history_properties.dfy` (module `HistoryProperties`): lemmas that relate
  several calls. They cover filtering, duplicate suppression over runs of
  appends, browsing round trips, and the worked scenarios.

Two facts about the history that follow from the code:

- **A failed `start` keeps the previous state.** `HistoryEmptyError` is
  raised (`cmdhistory.py:82-83`) before `_tmphist` is assigned (`:84`), so a
  session that was already open stays open at its position.
  `CmdHistory.Start` states `r.state == h` on failure.
- **Adjacent duplicates are suppressed only for appended commands.** The
  seed is taken as given (`cmdhistory.py:54-58`) and may hold adjacent
  duplicates. `append` (`:130-131`) keeps a log free of adjacent duplicates
  when it already is (`HistoryProperties.AppendAllKeepsNoAdjacentDups`).

## Model

| member | source | states |
|---|---|---|
| CmdHistory.Init | qutebrowser/models/cmdhistory.py:52-58 | A new history is idle. Its log is the seed, or empty when the seed is missing. |
| CmdHistory.Get | qutebrowser/models/cmdhistory.py:60-61 | A read succeeds exactly for indices in `-len .. len-1`. A non-negative index `i` yields `log[i]`, and a negative index `i` yields `log[len + i]`, counting from the newest entry. Any other index is `IndexOutOfRange`. |
| CmdHistory.Filter | qutebrowser/models/cmdhistory.py:79 | An entry is a candidate exactly when it is in the log and starts with the prefix. The candidate list has no more entries than the log. Order and multiplicity follow from `FilterConcat` together with `FilterSingle`. |
| CmdHistory.FilterEmptyPrefix | qutebrowser/models/cmdhistory.py:78-81 | Filtering by the empty prefix gives the whole log, so the code's two branches agree. |
| CmdHistory.Start | qutebrowser/models/cmdhistory.py:68-85 | Fails with `HistoryEmpty` exactly when no log entry starts with the text, and then changes nothing, an open session included. On success the log is unchanged and a valid session is open over exactly the filtered candidates. That session is positioned on the newest candidate, which is what `Start` returns. |
| CmdHistory.Stop | qutebrowser/models/cmdhistory.py:87-90 | Afterwards nothing is being browsed and the log is unchanged. |
| CmdHistory.PrevItem | qutebrowser/models/cmdhistory.py:92-106 | Idle gives `NotBrowsing` and the oldest position gives `HistoryEndReached`, in both cases with the state unchanged. Otherwise it succeeds, moving one position back over the same snapshot and returning the item now current. The log never changes. |
| CmdHistory.NextItem | qutebrowser/models/cmdhistory.py:108-122 | The same as `PrevItem`, mirrored: the newest position gives `HistoryEndReached`, and a success moves one position forward. |
| CmdHistory.Append | qutebrowser/models/cmdhistory.py:124-131 | On an empty log, or with text different from the newest entry, the log becomes `log + [text]`. Otherwise it is unchanged. Either way the newest entry is `text` and the session is untouched. |
| Neighbor.New | qutebrowser/models/cmdhistory.py:84 | Building a cursor succeeds exactly on a non-empty snapshot, and the cursor keeps that snapshot. |
| Neighbor.LastItem | qutebrowser/models/cmdhistory.py:85 | Moves to the newest item of the same snapshot and returns it. No forward step is then possible. |
| Neighbor.Prev | qutebrowser/models/cmdhistory.py:103-106 | A step back succeeds exactly when the index is positive. It lowers the index by one and returns the new current item. Otherwise it fails with `OutOfRange`. |
| Neighbor.Next | qutebrowser/models/cmdhistory.py:119-122 | A step forward succeeds exactly when a newer item exists. It raises the index by one and returns the new current item. Otherwise it fails with `OutOfRange`. |
| Neighbor.PrevThenNext | qutebrowser/models/cmdhistory.py:92-122 | A successful step back followed by a step forward restores the cursor and shows the previously current item. |
| Neighbor.NextThenPrev | qutebrowser/models/cmdhistory.py:92-122 | A successful step forward followed by a step back restores the cursor. |
| Neighbor.PrevNWalk | qutebrowser/models/cmdhistory.py:92-106 | `k` steps back succeed exactly when `k <= idx`. They show the older items newest first and end at `idx - k`. |
| Neighbor.NextNWalk | qutebrowser/models/cmdhistory.py:108-122 | `k` steps forward succeed exactly when `idx + k` is still an index. They show the newer items oldest first and end at `idx + k`. |
| Neighbor.PrevNThenNextN | qutebrowser/models/cmdhistory.py:92-122 | `k` steps back and then `k` steps forward return to the starting cursor. The last item shown is the one current at the start. |
| HistoryProperties.FilterConcat | qutebrowser/models/cmdhistory.py:79 | Filtering preserves chronological order: the candidates of `a + b` are those of `a` followed by those of `b`. |
| HistoryProperties.FilterSingle | qutebrowser/models/cmdhistory.py:79 | A one-entry log keeps its entry exactly when the entry starts with the prefix. |
| HistoryProperties.FilterAllMatch | qutebrowser/models/cmdhistory.py:79 | A log whose every entry matches is its own candidate list. |
| HistoryProperties.FilterNewestMatch | qutebrowser/models/cmdhistory.py:79-85 | The newest candidate is a matching log entry with no matching entry after it. |
| HistoryProperties.StartEmptyPrefix | qutebrowser/models/cmdhistory.py:78-85 | With empty text, `start` fails exactly on an empty log. Otherwise it browses the whole log and returns its newest entry. |
| HistoryProperties.StartReturnsNewestMatch | qutebrowser/models/cmdhistory.py:78-85 | A successful `start` returns the most recent log entry that starts with the text. |
| HistoryProperties.AppendKeepsNoAdjacentDups | qutebrowser/models/cmdhistory.py:130-131 | `append` keeps a log free of adjacent duplicates. |
| HistoryProperties.AppendTwice | qutebrowser/models/cmdhistory.py:130-131 | Appending the same text twice in a row equals appending it once. |
| HistoryProperties.AppendAllKeepsNoAdjacentDups | qutebrowser/models/cmdhistory.py:124-131 | Any sequence of appends keeps a log free of adjacent duplicates. |
| HistoryProperties.RepeatedAppend | qutebrowser/models/cmdhistory.py:124-131 | A run of `k > 0` identical appends has the effect of one append, so it adds at most one entry. |
| HistoryProperties.StopIdempotent | qutebrowser/models/cmdhistory.py:87-90 | `stop` twice equals `stop` once, and `stop` while idle changes nothing. |
| HistoryProperties.PrevItemThenNextItem | qutebrowser/models/cmdhistory.py:92-122 | A successful `previtem` followed by `nextitem` restores the history and returns the command that was current. |
| HistoryProperties.NextItemThenPrevItem | qutebrowser/models/cmdhistory.py:92-122 | A successful `nextitem` followed by `previtem` restores the history and returns the command that was current. |
| HistoryProperties.AppendKeepsSnapshot | qutebrowser/models/cmdhistory.py:81-84 | A command appended during a session started with empty text is not seen by that session, which keeps the log as it was at `start`. |
| HistoryProperties.GetFromNewestEnd | qutebrowser/models/cmdhistory.py:60-61 | Index `i - len` reads the same entry as index `i`. |
| HistoryProperties.BrowsingLifecycle | qutebrowser/models/cmdhistory.py:63-66 | `browsing` becomes true only through a successful `start` and false only through `stop`. `previtem`, `nextitem`, `append` and a failed `start` leave it as it was. |
| HistoryProperties.PrevItemsFollowCursor | qutebrowser/models/cmdhistory.py:92-106 | Inside a session, `k` repeated `previtem` calls succeed exactly when `k` cursor steps back do. They then show the same items and leave the history on the cursor's final position. |
| HistoryProperties.NextItemsFollowCursor | qutebrowser/models/cmdhistory.py:108-122 | The same as `PrevItemsFollowCursor`, mirrored for `nextitem`. |
| HistoryProperties.PrevItemsThenNextItems | qutebrowser/models/cmdhistory.py:92-122 | `k > 0` repeated `previtem` calls succeed exactly inside a session with at least `k` older candidates. They show those candidates newest first. `k` `nextitem` calls then restore the history and end on the command that was current. |
| HistoryProperties.ScenarioCandidates | qutebrowser/models/cmdhistory.py:79 | In the log `["ls", "cd /tmp", "ls -la"]`, the candidates for `ls` are `["ls", "ls -la"]`. |
| HistoryProperties.ScenarioPrefix | qutebrowser/models/cmdhistory.py:68-122 | Browsing that log with prefix `ls` yields `ls -la`, then `ls`, then the oldest end with the state unchanged, then `ls -la` again. |
| HistoryProperties.ScenarioSmallLogs | qutebrowser/models/cmdhistory.py:82-122 | An empty log fails to start with `HistoryEmpty`. A one-entry log starts on its entry, and both steps then reach an end. |

## Left out

- The seed comes from the application's global command-history object (`cmdhistory.py:54`). It is replaced by the `seed` parameter of `CmdHistory.Init`.
- The `pyqtSlot` decorator on `stop` and all Qt signal wiring are UI plumbing with no effect on the state.
- The debug log line in `start` has no behavioural effect.
- Shared seed list: with a seed, the code makes the log the application's own list (`cmdhistory.py:58`), so every `append` (`:131`) also changes that list in place. That shared list is how new commands reach the owner that saves them. With a `None` seed the log is a private empty list (`:56`), and the owner never sees appended commands. The model copies the seed as a value and does not model this sharing in either case.
- Saving the log to disk happens in the owner of the shared list, outside this class.
- `NeighborList` (`qutebrowser/utils/usertypes.py`) is not part of this model. Its other modes (block, wrap), its default index and its argument checks are not modelled. Only the exception-mode behaviour listed above is modelled, and that behaviour is an assumption.
- Snapshot vs. alias: with empty text the code hands `self._history` itself to `NeighborList`. The model's session is a value snapshot, which is right only if `NeighborList` copies its input. That copy is part of the assumption above.
- CmdHistory.Get: slice arguments to `__getitem__` are not modelled; only integer indices are.
- CmdHistory.PrevItem: requires `Valid()`, meaning an open session's index lies inside its snapshot. Every state built by `Init` and the operations satisfies this, so no reachable input is excluded.
- CmdHistory.NextItem: requires `Valid()`, for the same reason as `PrevItem`.
- Python exceptions become error values in a `Result`. Their message texts are not modelled.
