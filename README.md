# tmux-fzy in Dafny

A model of the core of tmux-fzy, a terminal picker that fuzzy-searches a
catalogue of directories and opens, attaches or switches to the tmux
session named after the chosen one. The model covers five parts.

- `session.dfy` (module `Session`): the session-reconciliation table. Three
  facts select one of five actions: is a tmux server running, is `$TMUX`
  set, does the session exist. Each action is a fixed list of tmux
  commands.
- `lib.dfy` (module `Lib`): `start_tmux` and `switch_sessions` of
  `src/lib.rs`. The tmux queries are inputs. A run is the list of queries
  and commands it issues, together with its result.
- `tmux.dfy` (module `Tmux`): `run`, `sessions` and `is_running` of
  `src/tmux.rs`. `revisions.dfy` (module `Revisions`) compares this
  revision of the launcher with the one in `src/lib.rs`.
- `config.dfy` (module `Config`): the saved directory list of
  `src/config.rs` covers `Paths::from_str`, `to_string` and `insert_row`,
  with their round trip. The colour theme covers `int_to_ansi_colors`, the
  `Colors` setters and the `name = value` loop of `get_or_init_config`.
- `tui.dfy` (module `Tui`): the `App` of `src/tui.rs`, a class with the
  fields the code mutates. It covers `next`/`prev` with the `i16` cast,
  `update` with the matcher as a parameter, the marking and stable
  "active first" sort of `ui`, the key dispatch and event loop of
  `run_app`, and `color_fzf`.
- `components.dfy` (module `TuiComponents`): `get_list` of
  `src/tui_components.rs`, meaning the visible window and the splitting of
  a path into plain and highlighted spans, plus the `get_total_item_no`
  counter.
- `text.dfy` (module `RustText`): the Rust standard-library behaviour the
  other modules rely on.
  - `str::find`, `split`, `split_once`, `lines`, `trim` and
    `strip_suffix`.
  - Decimal parsing and printing of unsigned integers.
  - `Path::file_name`.
  - Saturating and wrapping `usize` arithmetic.
  - `String::from_utf8_lossy`.

Integer overflow follows a release build: `usize` is 64 bits wide and
wraps, and `i16` arithmetic wraps. Strings are sequences of characters.

Four points about what the code does:
- The code does not sort matches by score. The list keeps catalogue order,
  and drawing only moves the entries of running sessions first.
- The code has no undo history. Backspace drops a character and filters
  again, and the selection is not reset.
- The code has no page scrolling.
- The selection stays `Some` on an empty list.

## Model

| member | source | states |
|---|---|---|
| Session.Commands | src/lib.rs:52-70 | An action issues no command exactly when it is the no-op, and every command it issues targets the session name |
| Session.NeverNests | src/lib.rs:52-70 | Under the decision table `Session.Resolve`, inside tmux no foreground command (`new-session`, `attach`) is issued; outside tmux only foreground commands are |
| Session.Command.Argv | src/tmux.rs:105-143 | A command has at least three arguments; the last one is the path for the two `new-session` forms and the session name otherwise |
| Lib.Decide | src/lib.rs:52-70 | The nested match of `start_tmux` issues exactly the commands that the decision table `Session.Resolve` selects for the three facts |
| Lib.StartTmux | src/lib.rs:40-73 | No file name: an error before any query. Ok exactly when there is a file name and both queries answered; then the two queries, followed by the table's commands for the basename and the full path. An error issues no command |
| Lib.StartOutsideWithoutServer | src/lib.rs:53 | With no server and outside tmux, exactly one `new-session`, whatever `has-session` said |
| Lib.StartInconsistentEnvironment | src/lib.rs:69 | With no server but `$TMUX` set, no command is issued and the result is Ok |
| Lib.StartAlwaysQueriesSession | src/lib.rs:48-50 | `has-session` is queried on every run that gets past the status query |
| Lib.SwitchSessions | src/lib.rs:75-85 | Exactly one command for the given name: `switch-client` exactly when inside tmux, a foreground `attach` exactly when outside |
| Tmux.Run | src/tmux.rs:4-32 | A path without a file name panics before any query, and only such a path does |
| Tmux.RunFollowsTable | src/tmux.rs:8-31 | With both queries answered, `run` (through `Tmux.Launch`, its part after the basename) issues exactly the table's commands and succeeds, except that no server with `$TMUX` set reaches `unreachable!()` |
| Tmux.RunQueriesSessionOnlyWhenRunning | src/tmux.rs:13-29 | `has-session` is queried exactly when the server runs |
| Tmux.IsRunningIff | src/tmux.rs:82-92 | `Tmux.IsRunning` decodes the output of `pgrep` lossily, as `is_running` does; it is true exactly when `pgrep` succeeded and printed at least one byte |
| RustText.DecodeLossy | src/tmux.rs:89 | `from_utf8_lossy` never yields more characters than bytes, and yields none exactly for no bytes |
| RustText.DecodeAscii | src/tmux.rs:89 | ASCII bytes decode to the characters with the same numbers |
| RustText.DecodeExamples | src/tmux.rs:89 | A two-byte sequence is one character; a byte that starts no sequence, and a sequence cut short, each become one U+FFFD |
| Tmux.SessionNameOfLine | src/tmux.rs:60-67 | `Tmux.SessionName`: a line panics exactly when it has no space or its first word lacks a trailing ':'; otherwise the line is the name, ": " and the rest, and the name has no space |
| Tmux.SessionNamesPerLine | src/tmux.rs:57-68 | `Tmux.SessionNames` succeeds exactly when every line has a name; then one name per line, in order |
| Tmux.SessionsOfListing | src/tmux.rs:50-71 | For session names without a space (and any one-line descriptions), `Tmux.Sessions` recovers the names of the `tmux ls` listing, in order; one session whose name has a space makes the whole listing panic unless the part before that space ends in ':' (see `Tmux.NameWithSpacePanics`) |
| Tmux.NameWithSpacePanics | src/tmux.rs:60-65 | The listing line of a name with a space panics with the missing-colon error whenever the part of the name before its first space does not end in ':' |
| Revisions.SameCommandsExceptInconsistentEnvironment | src/tmux.rs:8-31 | Given the same facts, both revisions issue the same commands. The exception is no server with `$TMUX` set: `start_tmux` then does nothing and succeeds, while `run` panics |
| Revisions.FailedSessionQueryWithoutServer | src/lib.rs:48-53 | With no server and outside tmux, a failing `has-session` query aborts `start_tmux` before any command, while `run` never asks and creates the session |
| Config.OrInsert | src/config.rs:103-106 | The key is added, every existing key keeps its depths, and a new key gets the given ones |
| Config.ParseRow | src/config.rs:89-102 | A line fails with "Invalid number of values" exactly when it does not split into three fields on `:|:`. Then it fails with an invalid min_depth exactly when the second field is not a `usize`, and with an invalid max_depth exactly when the second is and the third is not; both carry the line's index. Otherwise it gives the first field, which is the text before the first separator, and the two parsed depths |
| Config.ParseRows | src/config.rs:86-109 | The loop of `from_str` yields `Config.PathsOf`, the fold of the parsed lines: it stops at the first bad line, otherwise inserts each entry first-writer-wins |
| Config.CollectError | src/config.rs:88-102 | Loading (`Config.PathsOf`) fails exactly when some line is bad |
| Config.CollectFirstError | src/config.rs:88-102 | A failed load reports the error of the first bad line, and every line before it parsed |
| Config.FirstOccurrenceWins | src/config.rs:103-106 | After a successful load, the directories are exactly those of the lines, and a repeated directory has the depths of its first line |
| Config.Paths.FromStr | src/config.rs:84-110 | A fresh `Paths` holding the loaded map, or the load's error |
| Config.Paths.InsertRow | src/config.rs:28-33 | Adds the directory with the given depths if it is absent, and otherwise leaves the map unchanged |
| Config.Paths.ToString | src/config.rs:112-120 | The text is empty exactly when the map is. Without line breaks in the keys, its lines are the entries' `key:|:min:|:max` rows in the iteration order. It ends in a digit, so never in a newline, and has no carriage return when no directory has one |
| Config.RowFields | src/config.rs:116 | A saved row splits back into the directory and the two printed depths |
| Config.RoundTrip | src/config.rs:84-119 | Loading the saved text gives back the same map, whatever the iteration order, when no directory holds a line break or `:|:` or ends in `:|` |
| Config.RoundTripFailsForKeyEndingInSeparatorPrefix | src/config.rs:89-99 | The directory "a:|" saved with depths 1 and 2 does not load back: the load fails with an invalid min_depth on line 0 |
| Config.IntToAnsiColors | src/config.rs:217-237 | Some exactly for 0 to 15, and then the colour whose ANSI number is the input |
| Config.AnsiTableIsOnto | src/config.rs:217-237 | Every colour is the image of its own ANSI number |
| Config.Palette.Set | src/config.rs:186-214 | A setter changes only its own colour, and only for a value from 0 to 15 |
| Config.ColorLineParts | src/config.rs:268-289 | `Config.ColorLine`: a line that sets a colour is a name, '=' and a value, where the trimmed name is a theme colour and the trimmed value a `u8` |
| Config.LastLineWins | src/config.rs:267-291 | Applying the lines in order (`Config.ApplyLine`, `Config.ApplyLines`), the last line that sets a colour decides it, and a colour no line sets keeps its value |
| Config.Colors.constructor | src/config.rs:176-184 | The defaults: white, white, dark grey, red, green |
| Config.Colors.SetBorder | src/config.rs:186-190 | The theme after the setter is `Palette.Set(Border, v)` of the theme before |
| Config.Colors.SetInactive | src/config.rs:192-196 | As `Palette.Set(Inactive, v)` |
| Config.Colors.SetActive | src/config.rs:198-202 | As `Palette.Set(Active, v)` |
| Config.Colors.SetSelection | src/config.rs:204-208 | As `Palette.Set(Selection, v)` |
| Config.Colors.SetFg | src/config.rs:210-214 | As `Palette.Set(Fg, v)` |
| Config.Colors.ApplyConfig | src/config.rs:267-291 | The theme after the loop is the theme before it with every line applied in order |
| Config.Colors.ApplyConfigLine | src/config.rs:268-289 | One turn of the loop leaves the theme as `ApplyLine` of the theme before it and the line |
| Config.Colors.SetNamed | src/config.rs:277-284 | The five names call their setters, and any other name changes nothing |
| Config.GetOrInitConfig | src/config.rs:239-294 | The defaults when the file cannot be read, otherwise the defaults overridden by its lines |
| Tui.AsI16 | src/tui.rs:78 | `as i16` keeps the value modulo 65536, in the range of `i16` |
| Tui.NextBound | src/tui.rs:78-80 | The bound `next` compares with, in closed form: `usize::MAX` for a length divisible by 65536, the length minus 1 up to 32768, and a sign-extended negative number beyond that |
| Tui.NextSelection | src/tui.rs:77-84 | `next` keeps the selection present or absent, and moves it by at most one row down |
| Tui.PrevSelection | src/tui.rs:86-92 | `prev` keeps the selection present or absent, moves it up one row, and stays put exactly at row 0 |
| Tui.NextClamps | src/tui.rs:77-84 | On a list of 1 to 32768 entries, `next` moves down one row and stops at the last |
| Tui.MovesStayOnList | src/tui.rs:77-92 | On such a list, both moves keep a selection on the list |
| Tui.NextOnEmptyList | src/tui.rs:78-81 | On an empty list the bound is `usize::MAX`, so `next` moves the selection down anyway |
| Tui.NextLeavesLongList | src/tui.rs:78-81 | With 32769 to 65535 entries, `next` moves past the last entry |
| Tui.FilteredSpec | src/tui.rs:94-104 | `Tui.Filtered`, the list `update` builds, lists a catalogue entry exactly when the matcher accepts it, with the matcher's positions, unmarked, in catalogue order |
| Tui.Marked | src/tui.rs:185-188 | Marking each entry with `Tui.Mark` keeps every entry's catalogue index and highlight |
| Tui.ActiveFirst | src/tui.rs:190 | The sorted list has the active entries before the inactive ones |
| Tui.ActiveFirstIsStablePartition | src/tui.rs:190 | The sort is a permutation and keeps the order within each group |
| Tui.StableSortIsActiveFirst | src/tui.rs:190 | Any stable sort on the mark gives `ActiveFirst` |
| Tui.Redraw | src/tui.rs:185-190 | Drawing panics exactly when a listed path has no file name; otherwise it keeps the list pointing into the catalogue |
| Tui.RedrawSortsMarks | src/tui.rs:185-190 | When drawing succeeds, the drawn list is the marked list sorted stably with the active entries first (`ActiveFirst` of `Marked`): a permutation of it that keeps the order within each group |
| Tui.ColorFzf | src/tui.rs:247-262 | One span per character |
| Tui.ColorFzfSpans | src/tui.rs:247-262 | The spans show exactly the path, one character each. A character is red and bold exactly when its position is among the matched ones |
| Tui.KeyStep | src/tui.rs:120-144 | Quit exactly on Esc or Ctrl-c. Launch exactly on Enter with the selection on the list, and then the selected entry's path. An index panic exactly on Enter with a non-empty list and the selection past its end. A stopping key changes nothing, a changed list is a fresh filtering, and the selection stays present |
| Tui.TypingAndErasing | src/tui.rs:121-129 | A character is appended, selects row 0 and filters again. Backspace drops the last character, if any, and filters again without touching the selection |
| Tui.InertKeys | src/tui.rs:130-143 | Enter on an empty list, and every key the match does not name, change nothing |
| Tui.RunFrom | src/tui.rs:110-146 | The loop only stops on a key that does not continue it, a panic or a read error |
| Tui.Start | src/tui.rs:108-109 | The loop starts on the filtered catalogue with row 0 selected |
| Tui.RunNeverUnwrapsNone | src/tui.rs:134 | The `unwrap` of the selection never panics during a run |
| Tui.NextOnEmptyListThenEnterPanics | src/tui.rs:130-134 | On the catalogue "a", typing "z", then Ctrl-j, Backspace and Enter panics on the list index, whatever events follow |
| Tui.App.constructor | src/tui.rs:67-75 | The empty input, the empty list and no selection |
| Tui.App.Next | src/tui.rs:77-84 | The selection becomes `NextSelection` of the list length; nothing else changes |
| Tui.App.Prev | src/tui.rs:86-92 | The selection becomes `PrevSelection`; nothing else changes |
| Tui.App.Update | src/tui.rs:94-104 | The list becomes the filtering of the catalogue for the input; nothing else changes |
| Tui.MarkEntries | src/tui.rs:185-188 | The marking loop succeeds exactly when every listed path has a file name, and then yields `Tui.Marked` of the list |
| Tui.App.MarkActive | src/tui.rs:185-188 | Succeeds exactly when every listed path has a file name, and then marks each entry by whether its name is a running session |
| Tui.App.Draw | src/tui.rs:185-190 | The list becomes its `Redraw`, or the draw panics exactly when `Redraw` does |
| Tui.App.HandleKey | src/tui.rs:120-144 | The new state and the outcome are those of `KeyStep` |
| Tui.RunApp | src/tui.rs:107-147 | The loop ends as `RunFrom` from the start view on the given events |
| TuiComponents.WindowAroundCursor | src/tui_components.rs:31-35 | `TuiComponents.InWindow`: without wrap-around, a row gets spans exactly when it is at most `rows` above the cursor or fewer than `rows` below it; the cursor's row gets spans exactly when `rows > 0` |
| TuiComponents.WrappedWindowIsEmpty | src/tui_components.rs:35 | When `cur + rows` wraps, no row gets spans, not even the selected one |
| TuiComponents.Pushed | src/tui_components.rs:42-50 | After the loop, the position reached is one past the last index (0 without indices), beyond every index and within the path |
| TuiComponents.RowSpans | src/tui_components.rs:42-53 | A row panics exactly when the loop over its indices panics |
| TuiComponents.SplitSpans | src/tui_components.rs:36-53 | The loop's spans are those of `RowSpans` |
| TuiComponents.PushedPanicsIff | src/tui_components.rs:43-49 | The loop panics unless the indices are strictly increasing and all below the path length |
| TuiComponents.PushedCells | src/tui_components.rs:42-50 | The pushed spans show the path up to the position reached, with each character highlighted exactly when matched |
| TuiComponents.RowCells | src/tui_components.rs:51-53 | A row shows the whole path styled as intended, except that the last character is lost when the last match (or, with none, the start) is just before it |
| TuiComponents.LastCharacterLost | src/tui_components.rs:51-53 | "ab" with position 0 matched renders "" and a highlighted "a", so "b" is lost |
| TuiComponents.SingleCharacterVanishes | src/tui_components.rs:51-53 | "a" without a match renders no span |
| TuiComponents.RowStyle | src/tui_components.rs:37-41 | Only the cursor's row is bold |
| TuiComponents.GetList | src/tui_components.rs:24-61 | The list panics exactly when some row does; otherwise it holds one item per row, each the row's rendering |
| TuiComponents.ListRows | src/tui_components.rs:30-58 | A row is the bare path exactly outside the window. Inside it, every span is bold exactly in the cursor's row and is coloured active there, foreground elsewhere, or the selection colour |
| TuiComponents.TotalItemNoReadsBack | src/tui_components.rs:72 | The counter `TuiComponents.TotalItemNo` splits at its '/' into the printed shown and total counts, and each parses back to its number |

## Left out

- Subprocesses. The `pgrep`, `tmux ls`, `has-session`, `new-session`, `attach`, `switch-client` and `kill-session` invocations are not run. Their answers are inputs, and the commands are values.
- Errors of the commands themselves. The I/O errors `new_session`, `attach` and `switch` can return are not modelled, because they depend on the operating system.
- `kill_session` (src/tmux.rs:39-48): it only spawns a process.
- Non-UTF-8 input. Paths and the `tmux ls` output are strings, so the `to_str().unwrap()` and `from_utf8(...).unwrap()` failures are not represented.
- `error_chain_fmt`, which only writes to a formatter.
- The terminal, through the crossterm and tui/ratatui libraries. This covers raw mode, the alternate screen, layout, widgets, the cursor position and the search bar of `ui`, and `get_input_bar`. Colours and bold are values.
- The scroll offset of the list state, which belongs to the terminal library.
- The fuzzy matcher's scoring and its choice of positions, which belong to a foreign library. The matcher is a function parameter that returns the matched positions or None.
- The Enter key's `tmux::run` and `tmux::sessions` refresh. The model ends the loop with `Launch(path)` and leaves the launch to `Tmux.Run`.
- File access in src/config.rs. This covers `save_configuration`, `get_paths`, `init_config`, `get_paths_dir`, the directory walk of `expand_paths`, the reading half of `get_or_init_config`, and the global theme behind a lock (`AppColors::get`).
- `PathBuf::from_str` in `from_str`, which cannot fail, so its error is never produced.
- Hash-map iteration order. `to_string` takes the order as a parameter, and the properties hold for every order.
- The order in which `get_list` reads the binary heap. The rows are a given sequence.
- Debug-build overflow panics, because the model follows a release build. These are `len as i16 - 1` for a length of 32768 modulo 65536, `curr_row + rows` near `usize::MAX`, and `item.path.len() - 1` on an empty path.
- Byte slicing. src/tui_components.rs slices paths by byte offsets and would panic inside a multi-byte character. The model slices characters, so it assumes single-byte characters.
- Tui.ColorFzf: its own contract states only the length; the highlighting is stated by `Tui.ColorFzfSpans`.
- Tui.RunFrom: its own contract states only how the loop may stop; its behaviour is stated by `Tui.RunApp`, `Tui.RunNeverUnwrapsNone` and the example lemma.
- TuiComponents.RowSpans: its own contract states only when it panics; its contents are stated by `TuiComponents.RowCells`.
- src/cli.rs, src/startup.rs and src/main.rs: argument parsing and printing.
