# Fly-Pie menu server, modelled in Dafny

Fly-Pie's server is a GNOME Shell extension object. It receives a `ShowMenu` request
over D-Bus carrying a JSON menu description and hands the decoded menu to its menu
widget, a `TileMenu` (server.js:20, 38). Later it
reports the user's choice with an `OnSelect(id, item)` or `OnCancel(id)` signal. The id
ties each signal to the request that opened the menu. Only one menu can be shown at a
time. The server keeps two counters: `_currentID` is the id of the menu on screen
(0 means no menu), and `_nextID` is the id the next successful request receives.

This project models that session protocol and the server's debug printer for menu trees:

- `menu_tree.dfy` (module `MenuTree`) holds the decoded menu description (`MenuNode`, a
  tree of `name`, `icon` and `items`). It also holds the debug printer `DebugLines`: one
  line per node, in pre-order, indented by two blanks per level. A missing or empty name
  prints as `No Name` and a missing or empty icon as `No Icon`. `PreOrder` lists the
  same traversal as (node, depth) entries without the text. The lemmas tie the lines to
  those entries. They also tie the entries to the node count (`NodeCount`), which is
  defined separately. Through those node counts they fix the position and depth of
  every child.
- `session.dfy` (module `Session`) gives the server's state as a value (`SessionState`:
  both counters and the log of emitted signals). It has one function per entry point
  (`ShowMenu`, `Select`, `Cancel`) and the invariant they keep. Ids start at 1. Every
  signal carries either 0 or a positive id that has already been handed out. No
  positive id is signalled twice. `Run` replays any sequence of calls. The lemmas about
  runs prove that successful requests get strictly increasing positive ids. They prove
  that a request made while a menu is shown is refused without effect. They also prove
  that every signal emitted during a run carries one of three ids: 0 (a callback while
  no menu is shown), the id current when the run began, or an id returned by a request
  of the run.
- `server.dfy` (module `Server`) holds the class `Server`. Its fields are `currentID`,
  `nextID` and the signal log. Its methods `ShowMenu`, `OnSelect` and `OnCancel` change
  those fields as the JavaScript does. Each method is proved to produce exactly the
  state that the matching `Session` function gives. The method `ExampleClient` plays
  the same scenario as `Session.ExampleSession` against the class contracts only: show
  gets 1, a second show while busy gets -1, selecting "A" signals `OnSelect(1, "A")`, and
  the next show gets 2.

The collaborators are inputs to the model. What `JSON.parse` returns for the
description is an `Option<MenuNode>` argument: `None` is a parse error. What
`TileMenu.show` returns is a `bool` argument. Emitting a D-Bus signal means appending an
`Event` to the log.

Three points about the code, which the model follows as written:

- A callback while no menu is shown is not ignored. It emits a signal with id 0 and
  changes no counter (`Session.StrayCallbackReportsZero`).
- The callbacks emit the signal with the current `_currentID` and then reset it to 0.
  Capturing the id, resetting, and then emitting would give the same state, provided
  emitting does not throw. Simply swapping the two lines would not: the signal would
  then carry 0.
- The server itself does not check for an empty menu. Any such refusal happens inside
  `TileMenu.show`, so it is part of the `shown` input.

## Model

| member | source | states |
|---|---|---|
| `MenuTree.Indent` | server.js:89 | the indentation for depth d is exactly 2·d blank characters |
| `MenuTree.TextOr` | server.js:87-88 | a present, non-empty field is used as is; a missing or empty one is replaced by the fallback text |
| `MenuTree.Line` | server.js:87-89 | a node's line is 2·depth blanks, then the name (or `No Name`), then ` (`, then the icon (or `No Icon`), then `)`; its length is the sum of those parts |
| `MenuTree.PreOrderSize` | server.js:86-96 | the pre-order walk of a tree visits exactly as many entries as the tree has nodes |
| `MenuTree.PreOrderDepths` | server.js:91-95 | the walk starts with the root at the starting depth, and every later entry is strictly deeper (children are printed at depth + 1 and below) |
| `MenuTree.DebugLines` | server.js:86-96 | the printer emits exactly `NodeCount(m)` lines, one per node, and the first is the root's own line; where each other line sits is given by `DebugLinesFollowPreOrder` and `ChildLineAt` |
| `MenuTree.ChildAt` | server.js:91-94 | the i-th child of a node is visited at position 1 + (number of nodes in the earlier siblings' subtrees), at exactly depth + 1: children come in sibling order, each right after the subtrees before it |
| `MenuTree.ChildLineAt` | server.js:91-94 | the debug line at position 1 + (number of nodes in the earlier siblings' subtrees) is the i-th child's line, printed at depth + 1 |
| `MenuTree.DebugLinesFollowPreOrder` | server.js:86-96 | the printer emits as many lines as the walk has entries, and the k-th line is the line of the k-th node of the pre-order walk at that node's depth |
| `Session.Initial` | server.js:40-41 | the initial state has no menu shown (`currentID` 0), will hand out id 1 next, has an empty signal log and satisfies the invariant |
| `Session.ShowMenu` | server.js:51-72 | while a menu is shown, or when the description did not decode, or when the widget refused it, the reply is -1 and the state is unchanged; otherwise the reply is the old `nextID`, which becomes `currentID`, `nextID` grows by one and no signal is emitted; the invariant is preserved and a reply is -1 or at least 1 |
| `Session.Select` | server.js:76-79 | exactly `OnSelect(old currentID, item)` is appended to the log, `currentID` becomes 0, `nextID` is unchanged; the invariant is preserved |
| `Session.Cancel` | server.js:81-84 | exactly `OnCancel(old currentID)` is appended to the log, `currentID` becomes 0, `nextID` is unchanged; the invariant is preserved |
| `Session.ReadyAfterOutcome` | server.js:53-84 | after either callback, a request whose menu decodes and is accepted by the widget succeeds and gets the next id |
| `Session.BusyRequestsChangeNothing` | server.js:53-55 | while a menu is shown, any number of requests each return -1 and leave the state (both counters and the log) unchanged |
| `Session.OutcomeCarriesRequestId` | server.js:53-84 | the outcome of a session is signalled with exactly the id its request returned, even when refused requests arrive in between |
| `Session.RunKeepsInvariant` | server.js:40-84 | over any sequence of calls the invariant holds, `nextID` never decreases, and signals already emitted are never altered (the log only grows) |
| `Session.RunAllocatesIncreasingIds` | server.js:69-71 | over any sequence of calls, every reply is -1 or an id at least the starting `nextID` (so at least 1) and below the final `nextID`, and the successful replies are strictly increasing, so no id is handed out twice |
| `Session.RunSignalsCorrelate` | server.js:76-84 | every signal emitted during a run carries the id that was current at its start, an id returned by a request of the run, or 0 |
| `Session.AtMostOneOutcomePerSession` | server.js:76-84 | in every log reachable from the initial state, no positive session id is signalled twice |
| `Session.StrayCallbackReportsZero` | server.js:76-84 | a callback while no menu is shown emits a signal with id 0 and leaves both counters unchanged |
| `Session.ExampleSession` | server.js:51-84 | from the initial state: show returns 1, selecting "A" emits `OnSelect(1, "A")`, the next show returns 2, and a show while that menu is up returns -1 and changes nothing |
| `Server.Server.constructor` | server.js:34-42 | a new server has `nextID` 1, `currentID` 0, an empty log, and satisfies the invariant |
| `Server.Server.ShowMenu` | server.js:51-72 | the returned id and the new fields are exactly those of `Session.ShowMenu`; -1 exactly when busy, undecodable or refused, and then nothing changes; otherwise the id is the old `nextID` (at least 1), now current, and `nextID` is one larger |
| `Server.Server.OnSelect` | server.js:76-79 | the new fields are those of `Session.Select`: `OnSelect(old currentID, item)` is appended, `currentID` becomes 0, `nextID` is unchanged |
| `Server.Server.OnCancel` | server.js:81-84 | the new fields are those of `Session.Cancel`: `OnCancel(old currentID)` is appended, `currentID` becomes 0, `nextID` is unchanged |

## Left out

- Exporting and unexporting the object on the D-Bus session bus, `destroy`, and the
  `GLib.Variant` marshalling of signal arguments (server.js:35-36, 44-47, 77, 82). Signals
  are modelled as events appended to a log.
- Constructing the `TileMenu` widget and binding the callbacks to it (server.js:38-39). The
  widget is a foreign component. Its `show` answer is an input, and its callbacks are the
  `OnSelect` and `OnCancel` methods.
- The internals of `JSON.parse` and of the widget's `show`. Only their results are
  modelled. JavaScript duck typing of the decoded object is not modelled either: a
  `name` or `icon` that is not a string, or `items` that is not an array, has no
  counterpart in `MenuNode`. A missing `items` array is the empty sequence, which gives
  the same output.
- `_debugPrintMenu` writes each line to the debug log. The model returns the lines as a
  sequence instead.
- The `debug(...)` messages written on the failure paths of `ShowMenu` (server.js:60, 65)
  are not modelled. They are log output only, and the caller sees just -1.
- Session.ShowMenu: an exception raised inside `TileMenu.show` is not modelled. That call
  (server.js:64) is outside any `try`. It can be reached with valid JSON that is not a
  menu object, such as `null` or `42`. Such an exception would reach the D-Bus caller as
  an error, not as -1. The model treats it as `shown == false`.
- Server.Server.OnSelect / Server.Server.OnCancel: an exception raised while emitting
  (server.js:77, 82) skips the reset to 0 and leaves the server busy, so every later
  `ShowMenu` returns -1. In the model, emitting always succeeds. This can happen, for
  example, when `GLib.Variant.new` is given an `item` that is not a string, or when
  `emit_signal` fails.
- Server.Server.ShowMenu: the same exception path is treated as `shown == false` here too.
- Server.Server.ShowMenu: ids are unbounded integers. The signals carry them as 32-bit
  integers, and what happens after 2^31 - 1 requests is not modelled.
- Concurrency: each entry point runs to completion before the next one starts, as in
  GNOME Shell's main loop.
- client/MenuFactory.js is not part of this model. It only reads menu content from
  desktop services and launches applications.
