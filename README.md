# collaborate-code: operational transformation core in Dafny

collaborate-code is a shared code editor with a whiteboard. Clients edit a
line-oriented text. Each edit is one operation: an insert of one character
at a (row, column) position, a delete at a position, or an identity that
does nothing. Column -1 stands for the line break before a row, so a delete
there joins the row to the one before it.

The server keeps a document with the text and an append-only revision log,
plus a cursor per client (the last revision that client has seen). A client
submits a batch of operations based on its cursor. The server transforms
that batch against the revisions the client has not seen, and they against
it. It then appends the rebased batch, applies it to its text, and sends the
client what the client must apply. The whiteboard keeps the same kind of log
but relays strokes untransformed. An editor object ties a document and a
drawing to a registry of clients, and gives each client a colour
round-robin from a fixed palette.

The project has seven modules:

- `Wire` (wire.dfy): the JSON values exchanged with clients, and the error
  outcomes `KeyError` and `IndexError`. The Python code raises these; here
  they are results.
- `Transform` (transform.dfy): operations and their list form, and Python's
  string order on session ids. It also holds the relative-position tests,
  the four pairwise transforms, `Xform`, and the batch transform
  `XformMultiple`, proved against the grid function `Grid`.
- `RevisionLog` (revision_log.dfy): the revision record and the
  "changes since revision n" walk that the document and the drawing share.
- `Document` (document.dfy):
  - `ApplyOp` is the reference semantics of one operation on the rows, with
    Python's index rules: negative indices count from the end, and
    `list.insert` and slices clamp.
  - `Text` is a class whose `Apply` changes its rows in place and is proved
    against `ApplyOp`.
  - `Document` is a class whose `AddChanges` is proved against
    `ChangesSince`, `Grid` and `ApplyAll`.
- `Convergence` (convergence.dfy): the transform property for one-character
  edits inside a line, and its batch form over the whole grid. It also has a
  concrete counterexample showing the two sides diverge once a newline on
  an earlier row is involved.
- `Drawing` (drawing.dfy): the whiteboard's revision log.
- `Editor` (editor.dfy): the client registry and the colour allocator.

The model follows the code where the two differ from a textbook design:

- `is_op_before` compares the first operation's row with itself, so
  "before" means "smaller row OR smaller column". `IsOpBefore` keeps this,
  and `IsOpBeforeNotAsymmetric` shows it is not an order. Line-split and
  line-join shifts in the pairwise transforms check the same row before
  shifting a column, as the code does.
- A join at column -1 pops the row before it indexes the row above it. When
  that index fails, the popped row is lost, and `ApplyOp` returns that
  partial state.
- No row of the text ever holds a line break (part of `Document.Document.Valid`),
  since a newline insert splits its row; so `get_text` loses nothing, as
  `JoinRows` states. A failed line join on the only row leaves no rows at
  all, and the text is then empty.
- When applying a rebased batch raises, the revision has already been
  appended and the client's cursor is not moved. `Document.Document.AddChanges`
  states exactly that.

## Model

| member | source | states |
|---|---|---|
| Transform.Kind | transform.py:91-145 | the tag is "INS", "DEL" or "ID" exactly when the operation is an insert, a delete or an identity |
| Transform.ListStructure | transform.py:41-142 | an operation is sent as a list of 2 to 4 items: its tag first, its [row, column] second unless it is an identity, and its author last |
| Transform.ListStructureRoundTrip | transform.py:79-142 | every operation is read back from its list form unchanged |
| Transform.ListStructureInjective | transform.py:79-142 | two different operations are never sent as the same list |
| Transform.StrLess | transform.py:248 | the `<` on authors: it never holds between equal strings, a proper prefix sorts first, and differing first code points decide; `StrLessFirstDifference` extends this to the first differing code point anywhere |
| Transform.StrLessFirstDifference | transform.py:248 | when two authors agree up to position k and differ there, the code points at k decide the comparison, as Python's string `<` does |
| Transform.StrLessTotal | transform.py:248 | the author comparison is asymmetric, irreflexive and total: of two different session ids exactly one sorts first, and none sorts before itself |
| Transform.StrLessTransitive | transform.py:248 | the author comparison is transitive; with `StrLessTotal` it is a strict total order on session ids |
| Transform.IsOpBefore | transform.py:221-227 | "before" holds exactly when the row is smaller or the column is smaller, because the row test compares a row with itself; it never holds between operations at the same position |
| Transform.IsOpSamePos | transform.py:230-234 | same position holds exactly when row and column are equal, and then neither operation is before the other |
| Transform.SamePosReflexiveSymmetric | transform.py:230-234 | same position is reflexive and symmetric |
| Transform.IsOpBeforeNotAsymmetric | transform.py:225-227 | two inserts on different rows can each be "before" the other (the lemma exhibits such a pair), so "before" is not an order |
| Transform.TieBreakDecides | transform.py:248 | of two inserts at one position by different authors, exactly one keeps its place |
| Transform.TransformInsIns | transform.py:237-261 | the rebased insert keeps its character and author; it stays when it precedes the other insert; otherwise it moves down a row exactly when the other inserted a newline, and right a column exactly when the other inserted a character on its row |
| Transform.TransformInsDel | transform.py:264-286 | the rebased insert stays when it is before or at the deleted place; otherwise it moves up a row exactly for a line join, and left a column exactly for a delete on its row |
| Transform.TransformDelIns | transform.py:289-311 | the rebased delete stays when it is before the insert; otherwise it moves down a row exactly for a newline, and right a column exactly for an insert on its row |
| Transform.TransformDelDel | transform.py:314-339 | the result is a delete or an identity, and an identity exactly when both deletes are at the same place; otherwise it stays when before, and moves up exactly for a line join and left exactly for a delete on its row |
| Transform.Xform | transform.py:197-218 | an identity on either side leaves the first operation as it is; otherwise the result keeps the kind, character and author and moves at most one row or column; it becomes an identity only for a second delete of the same place |
| Transform.PassThrough | transform.py:182-187 | one pass of the inner loop rebases every right operation, keeping their number and authors, and the left operation keeps its author |
| Transform.Grid | transform.py:151-194 | the left side gets one operation per right operation and the right side one per left operation |
| Transform.GridNoRights | transform.py:168-194 | with no right operations, the left side has nothing to apply and the right side applies the left batch unchanged |
| Transform.GridNoLefts | transform.py:168-194 | with no left operations, the left side applies the right batch unchanged and the right side has nothing to apply |
| Transform.PassLeft | transform.py:177-189 | the inner loop threads one left operation through the right batch and returns exactly `PassThrough` of it: the rebased right batch and the rebased left operation |
| Transform.XformMultiple | transform.py:151-194 | the two nested loops compute exactly `Grid` of the two batches |
| RevisionLog.FlattenAppend | document.py:84-92 | the changes of two consecutive stretches of the log are those of the first followed by those of the second |
| RevisionLog.FlattenMembers | document.py:84-92 | a change is in the flattened log exactly when it is in one of its revisions |
| RevisionLog.ChangesSinceAppend | document.py:84-98 | appending a revision adds exactly its changes at the end of what every cursor up to the old last revision has yet to see |
| RevisionLog.LastRevisionNum | document.py:73-75 | the last revision number is one less than the number of revisions, at least -1, and a cursor there has nothing left to see |
| RevisionLog.ChangesSince | document.py:84-92 | nothing is left to see from a cursor at or past the last revision; otherwise what is left starts with the changes of the next revision |
| RevisionLog.ChangesSinceMembers | document.py:84-92 | every change of every revision after the cursor is among the changes left to see, and every change left to see comes from a revision after the cursor |
| RevisionLog.CollectChangesSince | document.py:84-92 | the walk over revisions n + 1 to the last yields exactly their changes, revision by revision, in order |
| Document.PyIndex | document.py:41-56 | a valid Python index names one element: a non-negative one names itself, and a negative one counts back from the end (`i + n`) |
| Document.PyClamp | document.py:41-48 | an insert or slice bound always lands inside the list: one already inside stays where it is, one past the end is clamped to the end, and a negative one counts back from the end and is clamped to 0 |
| Document.SplitRow | document.py:40-45 | cutting a row at a line break adds exactly one row and puts no line break inside a row |
| Document.JoinRow | document.py:51-54 | joining a popped row to another removes exactly one row and puts no line break inside a row |
| Document.ApplyOp | document.py:35-56 | an identity changes nothing; a successful operation adds a row for a newline insert, removes one for a line join and keeps the row count otherwise; a failure other than a join leaves the rows unchanged; no operation puts a line break inside a row |
| Document.ApplyAll | document.py:100-102 | a batch of identities changes nothing, and no batch puts a line break inside a row |
| Document.JoinRows | document.py:32-33 | for at least one row and no line break inside a row, cutting the joined text at its line breaks gives the rows back |
| Document.ApplyIdentity | document.py:35-56 | an identity operation leaves the text unchanged |
| Document.ApplyInsertChar | document.py:46-48 | a character insert in range grows only its row by that character at that column; all other rows stay |
| Document.ApplyInsertNewline | document.py:40-45 | a newline insert in range cuts the row at the column into two rows; the rows before and after keep their order |
| Document.ApplyJoinRows | document.py:51-54 | a delete at column -1 of row r >= 1 removes row r and appends its contents to row r - 1 |
| Document.ApplyDeleteChar | document.py:55-56 | a delete in range removes exactly that character of its row; all other rows stay |
| Document.InsertThenDeleteRestores | document.py:35-56 | a character insert followed by a delete at the same place gives the text back |
| Document.NewlineThenJoinRestores | document.py:35-56 | a newline insert followed by a join of the new row gives the text back |
| Document.Encode | document.py:117-129 | one list structure per operation |
| Document.EncodeRoundTrip | document.py:117-129 | each returned list reads back as the operation it came from, in order |
| Document.Text.constructor | document.py:29-30 | a fresh text is one empty row, so its text is the empty string |
| Document.Text.GetText | document.py:32-33 | while no row holds a line break, the text cut at its line breaks is the rows; no rows give the empty string |
| Document.Text.Apply | document.py:35-56 | the rows after the in-place update are those of `ApplyOp`, and the update fails exactly where the code raises `IndexError` |
| Document.Document.constructor | document.py:60-64 | a fresh document has no revisions, no clients and an empty text |
| Document.Document.GetRevision | document.py:66-68 | a stored revision is returned exactly for Python indices inside the log: the one with that number, counting from the end for negative ones; `IndexError` otherwise |
| Document.Document.GetText | document.py:70-71 | the document keeps every line break between rows, so while the text has a row, cutting the returned text at its line breaks gives the rows back |
| Document.Document.GetLastRevisionNum | document.py:73-75 | the last revision number is one less than the number of revisions and is that revision's own number |
| Document.Document.IsOnLatestRevision | document.py:77-82 | `KeyError` exactly for an unknown session; otherwise true exactly when the cursor is the last revision number, and then nothing is left to see |
| Document.Document.GetChangesSinceRevisionNum | document.py:84-92 | yields exactly the changes of the revisions after the given number, in order |
| Document.Document.AddRevision | document.py:94-98 | appends one revision numbered by its index, leaves earlier revisions and cursors as they were, and returns its number |
| Document.Document.ApplyChanges | document.py:100-102 | applies the changes in order, stopping at the first that raises, and the text is exactly what `ApplyAll` gives |
| Document.Document.Join | server.py:39 | registers the session at the last revision, with the log unchanged |
| Document.Document.AddChanges | document.py:104-129 | `KeyError` for an unknown session, with nothing changed. An empty submission moves the cursor to the last revision and returns everything unseen. Otherwise it appends the batch rebased past the unseen changes and applies it; on success it returns the unseen changes rebased past the batch and moves the cursor to the new revision; on `IndexError` the cursor stays |
| Convergence.ApplyInLine | document.py:35-56 | a one-character edit inside a line applies without error and changes only its row |
| Convergence.XformOtherRow | transform.py:197-339 | one-character in-line edits (no line break inserted or joined) on different rows pass each other unchanged |
| Convergence.SameRowInsIns | transform.py:237-261 | two inserts on one row by different authors, rebased past each other, give the same row in both orders |
| Convergence.SameRowInsDel | transform.py:264-311 | an insert and a delete on one row, rebased past each other, give the same row in both orders |
| Convergence.SameRowDelDel | transform.py:314-339 | two deletes on one row, rebased past each other, give the same row in both orders, including the delete of one character twice |
| Convergence.XformConverges | transform.py:197-218 | for one-character edits inside lines by different authors, applying `op2` then `Xform(op1, op2)` gives the same text as applying `op1` then `Xform(op2, op1)`, and the rebased edits are again in range |
| Convergence.AllInLineApplies | document.py:100-102 | a batch of in-range edits applies without error |
| Convergence.PassThroughConverges | transform.py:182-189 | one left edit threaded through a right batch lands where the right batch rebased past it lands |
| Convergence.GridConverges | transform.py:151-194 | the side that applied the left batch and then what `Grid` gives it holds the same text as the side that applied the right batch and then what `Grid` gives it |
| Convergence.NewlineOnEarlierRowDiverges | transform.py:221-261 | an insert on row 1 and a newline at column 5 of row 0 pass each other unchanged, and the two orders give different texts |
| Drawing.Drawing.constructor | drawing.py:49-54 | a fresh drawing has no revisions and no clients, and its last revision number is -1 |
| Drawing.Drawing.GetRevision | drawing.py:56-58 | a stored revision is returned exactly for Python indices inside the log: the one with that number, counting from the end for negative ones; `IndexError` otherwise |
| Drawing.Drawing.GetLastRevisionNum | drawing.py:60-62 | the last revision number is one less than the number of revisions and is that revision's own number |
| Drawing.Drawing.IsOnLatestRevision | drawing.py:64-69 | `KeyError` exactly for an unknown session; otherwise true exactly when the cursor is the last revision number, and then nothing is left to see |
| Drawing.Drawing.GetChangesSinceRevisionNum | drawing.py:71-79 | yields exactly the changes of the revisions after the given number, in order |
| Drawing.Drawing.AddRevision | drawing.py:81-89 | appends one revision holding the given changes unmodified, numbered by its index, and returns that number |
| Drawing.Drawing.AddChanges | drawing.py:91-102 | `KeyError` for an unknown session, with nothing changed. Otherwise it returns exactly the changes unseen from the old cursor, appends the submission untransformed, leaves earlier revisions as they were, and leaves the session on the latest revision |
| Editor.NextColorIndex | editor.py:87 | the next index is the following one, wrapping to 0 after the last, and always a palette index |
| Editor.ColorsDrawnWalk | editor.py:84-89 | k consecutive colour requests return the palette colours cyclically from the start index, and leave the index k steps further on, modulo the palette size |
| Editor.PaletteDistinct | editor.py:52 | the five palette colours are different |
| Editor.ColorsCycleCovers | editor.py:52-89 | five consecutive requests hand out every palette colour |
| Editor.ColorsCycleDistinct | editor.py:52-89 | five consecutive requests hand out five different colours |
| Editor.ColorsCycleReturns | editor.py:52-89 | after five requests the index is back where it started, so the sixth request repeats the first colour |
| Editor.ClientsState | editor.py:55-64 | one `[alias, color]` pair per listed session, in order |
| Editor.ClientsStateOnePerClient | editor.py:55-64 | with each registered session listed once, there are as many pairs as clients, and each client's pair occurs at exactly one place |
| Editor.Editor.constructor | editor.py:43-53 | a fresh editor has an empty document and drawing, no clients, and the first palette colour up next |
| Editor.Editor.GetClientsState | editor.py:55-64 | the loop yields exactly `ClientsState` in registration order |
| Editor.Editor.DoesClientExist | editor.py:66-71 | true exactly when the session is registered |
| Editor.Editor.AddClient | editor.py:73-82 | the session is registered with the alias and the returned colour, which is the next palette colour; other clients are unchanged and a new session goes last in the order |
| Editor.Editor.GetNextColors | editor.py:84-89 | k consecutive colour requests return `ColorsDrawn` from the current index and leave the index at `IndexAfter`, so the palette-cycle lemmas hold of the colours handed out |
| Editor.Editor.GetNextColor | editor.py:84-89 | returns the colour at the current index and advances the index round-robin; the clients are unchanged |

## Left out

- Logging, the web server and the socket handlers in server.py are I/O. Only the registration `document.clients[session_id] = ...` (server.py:39) is modelled, as `Document.Document.Join`. Nothing in server.py or editor.py registers drawing cursors: editor.py:49 only creates the drawing. The model therefore has no `Join` for the drawing, and its `clients` map starts empty and gains entries only from callers outside the repository.
- The parsing of incoming JSON into operations (server.py:49-61) is not modelled. That code takes the author from the session and not from the list, rejects any tag other than `'INS'` and `'DEL'` (so also `'ID'`), and passes `change[1]` on as the position without converting it. `ParseListStructure` is only the inverse of `ListStructure`: it reads back the lists that `get_list_structure` sends, not what server.py accepts.
- The method `GetNextColors` has no loop of its own in the code: it stands for the colour requests of successive `add_client` calls.
- `get_random_string` (editor.py:92-101) depends on the `random` library.
- The `__str__` methods are only used for logging.
- The client-side synchronisation loop and its pending buffer live in the JavaScript client, which is not part of this model.
- A Python character is a string, and nothing in the code stops a client from sending several characters in one insert. The model uses a single `char`.
- Dictionary iteration order is modelled by the explicit `order` list in `Editor.Editor`. Python dictionaries keep insertion order, and re-registering a session keeps its place.
- The palette list is never changed by the code, so it is the module constant `Palette`, which the field `colors` holds.
- RevisionLog.CollectChangesSince: requires the revision number to be at least -1. Cursors never go below -1, and a smaller number would make the Python loop read revisions by negative, wrapped indices.
- Document.Document.GetChangesSinceRevisionNum: the same requirement as `CollectChangesSince`, for the same reason.
- Drawing.Drawing.GetChangesSinceRevisionNum: the same requirement as `CollectChangesSince`, for the same reason.
- Convergence.XformConverges: convergence is stated only for one-character edits inside a line (no newline inserts, no line joins, positions in range). Across a line split on an earlier row the transform does not converge, as `NewlineOnEarlierRowDiverges` shows. Nothing is claimed for line joins either: an operation moved up a row keeps its column.
- Document.Encode: states only the length. Each item's content is stated by `EncodeRoundTrip`.
- The Python `add_changes` returns the operations themselves in their list form, and `get_changes_since_revision_num` is a generator. Here the former returns a sequence of `Json` lists, and the latter is a method returning the whole sequence.
