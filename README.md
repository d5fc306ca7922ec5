# shelp line editor, modelled in Dafny

`shelp` is a Rust library for building interactive shells. Its `Repl` reads key events from
the terminal and edits a multi-line command. It keeps a bounded history of earlier commands,
which can be browsed and persisted to a file. When Enter is pressed, the language's indent
rule decides whether the command is complete. Complete commands are returned to the caller.
Ctrl-C, Ctrl-D and Esc return the sentinels `exit`, `detach` and `back`.

This project models that line-editing engine without the terminal:

- `text.dfy` (`Text`): strings as sequences of Unicode scalar values, with their UTF-8 byte
  lengths. It holds `get_byte_i`, character insertion and removal, the byte offsets they act
  on, and `join`/`split`.
- `history_store.dfy` (`HistoryStore`): the history as a value. Commands are stored newest
  first, with a browsing index where -1 means "not browsing". It holds `push`, `prev`,
  `next`, `cur`, `reset_iter` and `clear`, and what a run of pushes does.
- `history_format.dfy` (`HistoryFormat`): the history file format. It proves that writing a
  history and reading it back gives the same history. It also proves the known limitation
  with lines that start with `---`.
- `history.dfy` (`ReplHistory.History`): the `History` struct as a class whose methods
  update its buffer and index in place. Each method is proved equal to its `HistoryStore`
  operation. Loading a file and writing one are loops.
- `lang.dfy` (`Lang`): the default `get_indent`.
- `editor_state.dfy` (`EditorState`): the live lines, the `Cursor`, the active lines (`cur`),
  `reset_lines`, and the copy of a browsed command into the live lines.
- `navigation.dfy` (`Navigation`): the `history_up!`/`history_down!` macros and their
  `retain` forms.
- `prompt.dfy` (`Prompt`): the prompt settings and the leader-width arithmetic.
- `editor.dfy` (`Editor`): one key of the loop of `next` as a function (`Step`), and the loop
  over a list of keys (`RunKeys`).
- `editor_laws.dfy` (`EditorLaws`): properties of the key handlers. This includes which
  edits undo each other, what Enter submits, and a few concrete sessions.
- `repl.dfy` (`ReplSession.Repl`): the `Repl` struct as a class. Each key handler and each
  macro is a method that changes the lines, the cursor and the history step by step. Each
  method is proved equal to its function in `Editor` or `Navigation`. `Next` is the input
  loop, proved equal to `RunKeys`.

The source panics in three places: `String::remove` at the end of a line,
`String::insert_str` at a byte offset that is not a character boundary, and `print_lines`
on an empty stored command. The model reports each of these as the outcome `Panic` instead
of excluding it by a precondition. The model's invariant (`EditorState.Inv`) states that the
cursor's line exists in the active lines. It does not bound the column: PageUp and PageDown
can leave the column past the end of the line, and Backspace then panics. This is proved in
`Navigation.PageUpLeavesColumnPastLine`, `Navigation.PageDownLeavesColumnPastLine` and
`EditorLaws.PageUpThenBackspacePanics`. Every other key keeps the column inside its line
(`Editor.Step`, `EditorLaws.RunKeepsColumn`).

Some behaviours of the code are kept exactly as written:

- The continued leader's width is the leader's character count.
- The module length is a byte count.
- Tab inserts at the column used as a byte offset.
- A sentinel key resets the lines but not the history index, so a later Up or PageDown
  starts from the stale index. The invariant only asks that browsing implies a valid index.
- The eviction bound is the capacity the deque was actually allocated with. `with_capacity`
  asks for `capacity + 1`, and the allocator may give more.
- Up onto an older command clamps the column against that command's first line before
  moving to its last line. This is because `print_lines` runs while the cursor is still on
  line 0. From column 3 of `abcdef`, Up onto `x`/`wxyz` lands at column 1
  (`Navigation.UpClampsAgainstFirstLine`).
- Ctrl-L clamps the column against the first line and then against the cursor's own line,
  so it can move a column that was inside its line. At column 5 of `abcdef` below `ab` it
  moves to column 2 (`EditorLaws.RedrawMovesInRangeColumn`).
- PageUp and PageDown can leave the column past the end of the cursor's line. The retain
  forms of the history macros move the cursor back to its old line after the column has
  been snapped against a different line. The next Backspace then panics.
- From a stale history index while not browsing, Down and PageDown snap the column against
  the newer command's first line, which `print_lines` paints, while the live lines remain
  the ones being edited. The lines on screen are then not the lines being edited. From
  column 0 of the live line `a`, with the index on `q` and `abcdef` newer, PageDown ends at
  column 6 (`Navigation.StaleDownSnapsToShownLine`).

One promise of the source's own documentation does not hold as the code is written, and the
model follows the code:

- The documentation of `Repl` (`src/repl.rs:34-36`) says that the default capacity is 64 and
  that with 64 commands stored "the oldest one will be forgotten". `History::with_capacity`
  (`src/repl/history.rs:33-39`) allocates the deque with `capacity + 1`, and `at_capacity`
  compares against the capacity actually allocated. So at least 65 commands are kept before
  the first is dropped. `HistoryStore.EvictionScenario` shows the same at a small size:
  three pushes evict nothing at an allocation of 3, and evict the oldest at an allocation
  of 2.

## Model

| member | source | states |
|---|---|---|
| Text.GetByteI | src/repl.rs:641-647 | the byte offset of character `i` is the UTF-8 length of the first `min(i, len)` characters; past the end it is the whole byte length; a character starting there fits in the string |
| Text.CharAtByte | src/repl.rs:402 | a byte offset is a character boundary exactly when some prefix has that many bytes, and then it names that prefix; otherwise no prefix has that byte length (`insert_str` panics) |
| Text.ByteLenVersusCount | src/repl.rs:179 | a string's byte length is at least its character count, and equal to it exactly when the string is ASCII |
| Text.AsciiByteIsCharIndex | src/repl.rs:402 | on a string whose first `b` characters are ASCII, byte offset `b` is the boundary of character `b` |
| Text.InsertAt | src/repl.rs:391-394 | inserting a character before position `min(i, len)`: one longer, the prefix and suffix kept, the character in between |
| Text.InsertAtBytes | src/repl.rs:391-394 | `String::insert` at the offset `get_byte_i` gives puts the character's bytes exactly between the bytes of the characters before and after position `i` |
| Text.RemoveAt | src/repl.rs:465-466 | removing character `i`: one shorter, the characters before kept, the ones after shifted down |
| Text.RemoveAtBytes | src/repl.rs:465-466 | `String::remove` at the offset `get_byte_i` gives removes exactly the bytes of character `i` |
| Text.InsertStrBytes | src/repl.rs:402 | `insert_str` at a character boundary inserts the bytes of the text before the character that starts there |
| Text.LeadingWs | src/lang.rs:46 | the number of leading characters `trim_start` removes: all of them whitespace, and the next one not |
| Text.Spaces | src/repl.rs:567 | `" ".repeat(k)` has `k` characters, all spaces |
| Text.SplitJoin | src/repl.rs:622 | splitting the newline-joined lines at newlines gives the lines back when none contains a newline |
| HistoryStore.AtCapacity | src/repl/history.rs:41-43 | a valid history is at capacity exactly when it has no room left, and is then non-empty |
| HistoryStore.ResetIter | src/repl/history.rs:157-159 | `reset_iter` keeps the commands and the capacity and stops browsing, so `cur` gives nothing |
| HistoryStore.Empty | src/repl/history.rs:33-39 | a new history has no commands and is not browsing |
| HistoryStore.Push | src/repl/history.rs:45-53 | `push` keeps the length within the capacity, grows it by one unless full, puts the command in front, shifts the older ones up by one in order (dropping the oldest when full), and stops browsing |
| HistoryStore.Cur | src/repl/history.rs:126-132 | `cur` is empty exactly when the history is empty or not browsing, and is otherwise the browsed command |
| HistoryStore.Prev | src/repl/history.rs:134-143 | `prev` succeeds exactly when an older command exists, then moves the index one older and returns that command; otherwise nothing changes |
| HistoryStore.Next | src/repl/history.rs:145-155 | `next` moves the index one newer while browsing and returns a command exactly when the index stays at 0 or above; from -1 nothing changes |
| HistoryStore.Clear | src/repl/history.rs:162-165 | `clear` empties the history and stops browsing, keeping the capacity |
| HistoryStore.PrevThenNext | src/repl/history.rs:134-155 | a successful `prev` followed by `next` returns to the same index and command |
| HistoryStore.NextThenPrev | src/repl/history.rs:134-155 | while browsing, `next` followed by `prev` returns to the same index and command |
| HistoryStore.PushAll | src/repl/history.rs:82-89 | pushing a list of commands leaves the last one newest, with browsing stopped and the capacity respected |
| HistoryStore.PushAllNoEviction | src/repl/history.rs:45-53 | pushing commands into a history with room for all of them puts them in front in reverse order and keeps every earlier command |
| HistoryStore.PushAllStaysFull | src/repl/history.rs:41-49 | once the length reaches the capacity it stays there, whatever is pushed |
| HistoryStore.EvictionScenario | src/repl/history.rs:41-53 | three pushes into a history allocated for two evict the oldest; into one allocated for three they evict nothing |
| ReplHistory.History.WithCapacity | src/repl/history.rs:33-39 | a new `History` is empty and not browsing, with eviction at the allocated capacity |
| ReplHistory.History.ResetIter | src/repl/history.rs:157-159 | `reset_iter` in place |
| ReplHistory.History.Push | src/repl/history.rs:45-53 | `push` in place, as `HistoryStore.Push` |
| ReplHistory.History.Prev | src/repl/history.rs:134-143 | `prev` in place, as `HistoryStore.Prev` |
| ReplHistory.History.Next | src/repl/history.rs:145-155 | `next` in place, as `HistoryStore.Next` |
| ReplHistory.History.Clear | src/repl/history.rs:162-165 | `clear` in place, as `HistoryStore.Clear` |
| ReplHistory.History.LoadFrom | src/repl/history.rs:77-91 | reading a file's contents pushes every `---`-terminated command of the file, in file order |
| ReplHistory.History.WriteToString | src/repl/history.rs:94-108 | the text written is exactly the serialised history: oldest command first, every line followed by a newline, every command by `---` |
| HistoryFormat.Serialise | src/repl/history.rs:94-108 | the written text is empty exactly for an empty history, and takes at least the four bytes of a delimiter line per command |
| HistoryFormat.SerialiseEndsWithDelimiter | src/repl/history.rs:99-105 | the text written from a non-empty history ends with the line `---` |
| HistoryFormat.Lines | src/repl/history.rs:82 | `str::lines` gives no lines exactly for empty text, and no line holds a newline |
| HistoryFormat.ScanLines | src/repl/history.rs:81-89 | reading lines closes at most one command per line, and no closed or open command holds a delimiter line |
| HistoryFormat.Parse | src/repl/history.rs:77-91 | a file's contents give one command per delimiter line, none holding a delimiter line |
| HistoryFormat.LinesOfEntry | src/repl/history.rs:100-103 | the lines written for a command are read back as its lines when none holds a newline, starts with `---` or ends in a carriage return |
| HistoryFormat.LinesOfEntryText | src/repl/history.rs:100-104 | the text written for a storable command is read back as its lines followed by the `---` delimiter line |
| HistoryFormat.LinesOfSerialised | src/repl/history.rs:99-106 | the lines of a written history are each command's lines followed by `---`, oldest first |
| HistoryFormat.ScanFileLines | src/repl/history.rs:82-89 | reading those lines closes exactly the written commands, oldest first, and leaves nothing open |
| HistoryFormat.ParseSerialised | src/repl/history.rs:77-108 | reading the text written from a storable history gives its commands oldest first |
| HistoryFormat.RoundTrip | src/repl/history.rs:77-108 | writing a history that fits its capacity and reading it into an empty history of that capacity gives the same history |
| HistoryFormat.DropsUnterminatedTail | src/repl/history.rs:81-89 | lines after the last `---` belong to no command and are dropped |
| HistoryFormat.OneCommandPerDelimiter | src/repl/history.rs:82-88 | reading closes exactly one command per line starting with `---` |
| HistoryFormat.LinesOfOneLine | src/repl/history.rs:99-105 | a history holding one one-line command is written as that line, with a final carriage return dropped, followed by `---` |
| HistoryFormat.StripCRKeepsDelimiter | src/repl/history.rs:82-83 | a line starting with `---` still starts with `---` once `str::lines` drops a final carriage return |
| HistoryFormat.DelimiterCollision | src/repl/history.rs:83 | any one-line command whose line starts with `---` is read back as two empty commands |
| Lang.GetIndent | src/lang.rs:44-50 | the indent of no lines is 0; otherwise it is the byte length of the last line's leading whitespace, at most that line's byte length |
| Lang.IndentOfSpaces | src/lang.rs:45-46 | a last line of `k` spaces, followed by nothing or by a non-whitespace character, has indent `k` |
| EditorState.Active | src/repl.rs:166-174 | `cur` is the browsed command, the one `History::cur` returns, while browsing, and the live lines otherwise |
| EditorState.CurLine | src/repl.rs:199-201 | `cur_str` is the cursor's line of `cur`; the column is within the line exactly when it is at most that line's length |
| EditorState.PrintClamp | src/repl.rs:284 | `print_lines` keeps the cursor's line and browsing flag, brings the column within the line, never moves it right, and keeps an in-range column |
| EditorState.Snap | src/macros.rs:25-29 | the history macros' column lands within the target line: kept when it is inside and not 0, and otherwise the line's end |
| EditorState.Reset | src/repl.rs:294-297 | `reset_lines` empties the live lines and puts the cursor at its default, leaving the history alone |
| EditorState.Materialise | src/repl.rs:204-214 | an edit while browsing first makes the live lines an exact copy of the browsed command and stops browsing, with the index reset and the stored commands unchanged; when not browsing it changes nothing |
| EditorState.MaterialiseKeepsInv | src/repl.rs:204-214 | the copy keeps the editing invariant, the active lines and the column bound |
| Navigation.HistoryUp | src/macros.rs:4-30 | Up on the first line leaves the live lines alone and either panics on an empty stored command or keeps the invariant and the column bound. A successful `prev` browses the older command with the cursor on its last line, and the column is clamped to the command's first line and then snapped to its last line. A failed one stays on the browsed command or falls back to the live lines on line 0, with the column snapped to that line: 0 or past its end goes to its end, otherwise it is kept |
| Navigation.HistoryUpRetain | src/macros.rs:32-44 | PageUp does what Up on the first line does, with the same column and history, then keeps the cursor on `min(old line, last line of the new command)`, or line 0 when `prev` failed |
| Navigation.HistoryDown | src/macros.rs:50-70 | Down leaves the live lines alone, puts the cursor on line 0, and shows the newer command, or the live lines with browsing stopped when there is none. It panics only on an empty stored command. On every continue the column is snapped against the first line of what `next` returned, or of the live lines when it returned nothing: 0 or past that line's end goes to its end, otherwise it is kept. When the shown lines are the active ones this is the cursor's own line |
| Navigation.HistoryDownRetain | src/macros.rs:72-80 | PageDown does what Down does, with the same outcome, column, history and browsing flag, then keeps the cursor on `min(old line, last active line)` |
| Navigation.UpClampsAgainstFirstLine | src/macros.rs:7-10 | Up from column 3 of `abcdef` onto `x`/`wxyz` lands at line 1, column 1 |
| Navigation.PageUpLeavesColumnPastLine | src/macros.rs:32-44 | PageUp can leave the column past the end of the line it keeps |
| Navigation.PageDownLeavesColumnPastLine | src/macros.rs:72-80 | PageDown can leave the column past the end of the line it keeps |
| Navigation.StaleDownSnapsToShownLine | src/macros.rs:50-80 | from a stale index while not browsing, PageDown snaps the column against the newer command's first line and keeps editing the live line: column 0 of `a` goes to column 6, past the end of `a` |
| Prompt.Initial | src/repl.rs:129-158 | the constructor records the leader's character count as the width of both leaders, the clear keyword `clear`, and no module or attachment |
| Prompt.Decimal | src/repl.rs:271 | `to_string` of a number is a non-empty string of decimal digits without leading zeros, starting with `0` exactly for 0 |
| Prompt.DecimalLength | src/repl.rs:271 | the digit count added to the attached leader's width is the number's length in decimal: `n < 10^k`, and `10^(k-1) <= n` when `k > 1` |
| Prompt.DecimalRoundTrip | src/repl.rs:272 | the digits written are the number's value |
| Prompt.PrintModuleName | src/repl.rs:650-652 | `print_module_name` is `(`, the name, `)` and a space, three characters longer than the name |
| Prompt.LeaderWidth | src/repl.rs:269-282 | continuation lines are offset by the continued leader's width; the first line by at least the leader's width, and exactly that with no module and no attachment |
| Prompt.FirstLineWidth | src/repl.rs:269-282 | the first-line width equals the length of the leader `print_lines` prints, whenever the module name is ASCII |
| Prompt.ModuleWidthCountsBytes | src/repl.rs:179 | with the module `é`, the first-line width is one more than the printed leader |
| Prompt.ContinuedWidthIsLeaderWidth | src/repl.rs:145 | continuation lines are offset by the main leader's width under the constructor's settings |
| Prompt.AttachedLoopLeader | src/repl.rs:596-609 | when attached, the loop reprints an empty leader but offsets the column by at least 14 plus the leader width |
| Editor.InsertChar | src/repl.rs:385-395 | typing keeps the invariant and never panics, and keeps the column bound |
| Editor.InsertTab | src/repl.rs:396-405 | Tab panics exactly when the column, read as a byte offset, is not a character boundary of the cursor's line. Otherwise it materialises the browsed command, inserts four spaces at that boundary in the cursor's line, leaves every other line and the stored commands alone, and stops browsing with the column moved by four. It keeps the invariant and the column bound |
| Editor.DeletePrevChar | src/repl.rs:458-467 | Backspace inside a line panics exactly when the column is past the end of the line, and otherwise keeps the invariant and the column bound |
| Editor.JoinWithPrevious | src/repl.rs:469-482 | joining with the line above keeps the invariant and the column bound |
| Editor.DeleteChar | src/repl.rs:485-495 | Delete inside a line keeps the invariant and the column bound |
| Editor.JoinWithNext | src/repl.rs:496-506 | joining with the line below keeps the invariant and the column bound |
| Editor.Redraw | src/repl.rs:361-384 | Ctrl-L changes neither lines nor history, keeps the line and the browsing flag, and sets the column to `min(min(column, first line's length), own line's length)` |
| Editor.LineUp | src/repl.rs:429-433 | Up below the first line moves one line up with the column `min(that line's length, column)`, keeping lines and history |
| Editor.LineDown | src/repl.rs:451-455 | Down above the last line moves one line down with the column `min(that line's length, column)`, keeping lines and history |
| Editor.EnterKey | src/repl.rs:508-571 | Enter never panics; it continues with the invariant and column bound kept and the stored commands unchanged, or returns with the live lines reset; a submit pushes the shown lines |
| Editor.Submit | src/repl.rs:619-631 | submitting returns the active lines joined with newlines, pushes them onto the history, and leaves empty live lines, the default cursor and a valid history |
| Editor.OpenLine | src/repl.rs:560-570 | opening an indented line keeps the invariant and the column bound |
| Editor.Step | src/repl.rs:334-572 | every key either continues with the invariant kept, or returns with the live lines reset and the session invariant kept, or panics; every key but PageUp and PageDown keeps the column inside its line |
| Editor.Begin | src/repl.rs:316-325 | `next` starts from the kept lines, or from one empty line, in a state where the invariant holds |
| Editor.RunKeys | src/repl.rs:327-590 | the loop reads at most the given keys; if it is still waiting, it read all of them and the invariant holds; if it returned, the live lines are reset |
| EditorLaws.TypeChar | src/repl.rs:385-395 | typing puts the character at the cursor's position, moves one right, leaves every other line as shown, keeps the stored commands, and stops browsing |
| EditorLaws.TypeThenBackspace | src/repl.rs:385-467 | Backspace right after typing a character restores the shown lines and cursor |
| EditorLaws.BackspaceChar | src/repl.rs:458-467 | Backspace inside a line removes the character before the cursor and moves one left, leaving the other lines |
| EditorLaws.BackspacePastEndPanics | src/repl.rs:458-467 | Backspace with the column past the end of its line panics |
| EditorLaws.PageUpThenBackspacePanics | src/repl.rs:421-467 | PageUp onto a command whose last line is longer than its first, then Backspace, panics |
| EditorLaws.DeleteCharLaw | src/repl.rs:485-495 | Delete inside a line removes the character under the cursor and keeps the cursor, leaving the other lines |
| EditorLaws.ConcatJoin | src/repl.rs:478-479 | appending a line to the one before it keeps the text of all lines together |
| EditorLaws.BackspaceJoin | src/repl.rs:469-482 | Backspace at column 0 of line `k > 0` leaves one line fewer with the same text, line `k - 1` followed by line `k` joined, and the cursor where they meet |
| EditorLaws.DeleteJoin | src/repl.rs:496-506 | Delete at the end of a line above the last leaves one line fewer with the same text, the two lines joined, and the cursor where it was |
| EditorLaws.MotionLeavesLines | src/repl.rs:406-455 | Home, End, Left, Right, Up and Down never change the live lines or the stored commands and never return; only Up and Down can panic |
| EditorLaws.HorizontalKeys | src/repl.rs:406-419 | Home sets the column to 0, End to the line's length, Left moves one back unless at 0, Right one on unless at the end; nothing else changes |
| EditorLaws.RedrawMovesInRangeColumn | src/repl.rs:364-375 | Ctrl-L at column 5 of `abcdef` below `ab` moves the cursor to column 2 |
| EditorLaws.DownOnLastLiveLine | src/repl.rs:448-450 | Down on the last live line does nothing |
| EditorLaws.Sentinels | src/repl.rs:335-360 | Ctrl-C, Ctrl-D and Esc return `exit`, `detach` and `back`, reset the live lines, and leave the history, its index included, unchanged |
| EditorLaws.EnterWhenAttached | src/repl.rs:509-516 | Enter while attached returns `detach` with the history unchanged |
| EditorLaws.EnterOnBlank | src/repl.rs:518-528 | Enter on a command whose first line is blank changes nothing |
| EditorLaws.EnterClear | src/repl.rs:530-546 | Enter on a single live line holding the clear keyword empties it, puts the cursor at column 0, and pushes nothing |
| EditorLaws.EnterDecision | src/repl.rs:549-570 | past those cases, Enter submits exactly on the last line of a browsed command, or on the last live line when the indent is 0. It then returns the shown lines joined by newlines, pushes them as the newest command, and resets the lines. Otherwise it inserts a line of `indent` spaces below the cursor and moves to its end |
| EditorLaws.SubmittedSplitsBack | src/repl.rs:619-631 | the string Enter returns splits back at newlines into the command it pushed, when no line holds a newline |
| EditorLaws.IndentCarriesOver | src/repl.rs:560-567 | with the default indent rule, the new line Enter opens has the indent that was computed for it |
| EditorLaws.ScenarioIndentedLine | src/repl.rs:560-570 | Enter on the first of `if true {` and an empty line, with indent 4, gives `if true {`, four spaces, and the empty line, with the cursor at line 1, column 4 |
| EditorLaws.ScenarioSubmit | src/repl.rs:619-631 | Enter on the single line `let a = 1` returns exactly `let a = 1` and stores it |
| EditorLaws.ScenarioClear | src/repl.rs:530-546 | Enter on the single line `clear` leaves one empty line and an unchanged history |
| EditorLaws.TabAscii | src/repl.rs:396-405 | Tab inserts four spaces at the cursor and moves four right when the line before the cursor is ASCII |
| EditorLaws.AsciiPrefixBytes | src/repl.rs:402 | when the first `i` characters of a line are ASCII, only the prefix of length `i` has `i` bytes |
| EditorLaws.TabInsideWideCharPanics | src/repl.rs:396-405 | Tab at column 1 of `éa` lands inside `é` and panics |
| EditorLaws.TabAfterWideChar | src/repl.rs:396-405 | Tab at column 2 of `éab`, the byte boundary after `é`, gives `é    ab` with the column at 6 |
| EditorLaws.RunKeepsColumn | src/repl.rs:327-590 | through any list of keys without PageUp and PageDown, the column stays inside its line |
| ReplSession.Repl.WithCapacity | src/repl.rs:129-158 | the constructor's settings, empty live lines, and a history loaded from the file's contents when there are any |
| ReplSession.Repl.SetClearKeyword | src/repl.rs:161-163 | only the clear keyword changes |
| ReplSession.Repl.Module | src/repl.rs:177-180 | the module is set and its recorded length is its byte length |
| ReplSession.Repl.ExitModule | src/repl.rs:183-186 | the module is cleared and its length is 0 |
| ReplSession.Repl.Attach | src/repl.rs:189-191 | only the attached id changes |
| ReplSession.Repl.Detach | src/repl.rs:194-196 | only the attachment is cleared |
| ReplSession.Repl.ResetLines | src/repl.rs:294-297 | in place, as `EditorState.Reset` |
| ReplSession.Repl.MaterialiseLines | src/repl.rs:204-214 | resizing and overwriting the live lines line by line ends in `EditorState.Materialise` |
| ReplSession.Repl.HistoryUp | src/macros.rs:4-30 | the macro's assignments end in `Navigation.HistoryUp`, or both panic |
| ReplSession.Repl.HistoryUpRetain | src/macros.rs:32-44 | the macro's assignments end in `Navigation.HistoryUpRetain`, or both panic |
| ReplSession.Repl.HistoryDown | src/macros.rs:50-70 | the macro's assignments end in `Navigation.HistoryDown`, or both panic |
| ReplSession.Repl.HistoryDownRetain | src/macros.rs:72-80 | the macro's assignments end in `Navigation.HistoryDownRetain`, or both panic |
| ReplSession.Repl.TypeChar | src/repl.rs:385-395 | in place, as `Editor.InsertChar` |
| ReplSession.Repl.TypeTab | src/repl.rs:396-405 | in place, as `Editor.InsertTab`, or both panic |
| ReplSession.Repl.RemovePrevChar | src/repl.rs:458-467 | in place, as `Editor.DeletePrevChar`, or both panic |
| ReplSession.Repl.JoinPrevious | src/repl.rs:469-482 | removing the line and appending it to the one above ends in `Editor.JoinWithPrevious` |
| ReplSession.Repl.RemoveChar | src/repl.rs:485-495 | in place, as `Editor.DeleteChar` |
| ReplSession.Repl.JoinNext | src/repl.rs:496-506 | removing the next line and appending it ends in `Editor.JoinWithNext` |
| ReplSession.Repl.RedrawScreen | src/repl.rs:361-384 | in place, as `Editor.Redraw` |
| ReplSession.Repl.SubmitLines | src/repl.rs:619-631 | the join, push and reset after the loop end in `Editor.Submit` |
| ReplSession.Repl.EnterPressed | src/repl.rs:508-571 | in place, as Enter in `Editor.Step` |
| ReplSession.Repl.OpenIndentedLine | src/repl.rs:560-570 | copying a browsed command, moving down a line and inserting the indent line ends in `Editor.OpenLine` |
| ReplSession.Repl.MoveCursor | src/repl.rs:406-455 | the cursor and history keys' handlers end in `Editor.Step`, or both panic |
| ReplSession.Repl.HandleKey | src/repl.rs:334-572 | every key's handler ends in `Editor.Step`, or both panic |
| ReplSession.Repl.Next | src/repl.rs:300-632 | the input loop over a list of keys ends as `Editor.RunKeys` from `Editor.Begin` does, and leaves the session invariant unless it panicked |

## Left out

- Terminal output is not modelled: cursor movement, clearing, colours, raw mode, the
  `print_line` hook and the cursor columns passed to `MoveToColumn`. These are foreign
  crossterm calls. Only the leader widths they are computed from are modelled.
- The event stream is not modelled. It is a list of keys. Stream errors and the end of the
  stream are left out; a call that runs out of keys ends as `Pending`, which is the state a
  dropped `next` future leaves. Non-key events and unhandled keys are the key `Other`.
- `HandleKey` changes the kept lines and cursor directly. The source works on local copies
  and copies them into the struct before each key. The two agree at every point where the
  source waits for a key. The `reset_lines` of a blank Enter is overwritten by that copy, so
  it is modelled as no change.
- File access is not modelled: opening, reading, writing, and the flush in `Drop`
  (`pre_exit`). `ReplSession.Repl.WithCapacity` takes the file's contents, `None` when there
  is no file or it cannot be read; `ReplHistory.History.WriteToString` returns the text.
- `src/repl/iter.rs` and `src/lib.rs` are not part of this model. They are an iterator
  wrapper and re-exports.
- The `Index` implementation of `History` and its `len` are not modelled as separate
  operations. `ReplHistory.History.Len` is the length.
- The allocator's rounding of the deque capacity is not modelled; the allocated capacity
  is a parameter of at least `capacity + 1`.
- Integer widths are not modelled: `usize` arithmetic and the `u16` casts of columns. They
  would only overflow on lines or ids far beyond a terminal.
- The method states after a panic are not modelled. `ReplSession.Repl` methods that can
  panic only promise that they panic when the model does.
- `HistoryFormat.RoundTrip`: stated for commands whose lines hold no newline, do not start
  with `---`, and do not end in a carriage return. Other lines do not survive
  `str::lines` and the delimiter check, as `HistoryFormat.DelimiterCollision` shows.
- `HistoryFormat.Lines` follows current `str::lines`, which drops a carriage return only before a
  newline. Older toolchains also dropped a final carriage return with no newline after it.
  `HistoryFormat.Parse` cannot tell the two apart: such a final line is either dropped as
  unterminated or read as a delimiter either way.
- Character classification is not modelled beyond the Unicode White_Space list used by
  `trim`. Characters are Unicode scalar values, and no normalisation is done.
