# Termphyrio core, modelled in Dafny

Termphyrio is a desktop SSH client. It opens each SSH shell in a tab, relays
keystrokes to the remote shell and shows the shell's output. Most of it is
glue around a widget toolkit and an SSH library. This project models the
four pieces of its own logic, all in `termphyrio-v2.py`:

- **The escape-sequence stripper** `strip_ansi` (`ansi.dfy`, module `Ansi`). It
  removes two-character escapes `ESC Fe` (section 5.3 of ECMA-48, Fe in
  0x40-0x5F except `[`). It also removes control sequences `ESC [ P* I* F`
  (section 5.4 of ECMA-48). Every other character is kept. The model is a
  left-to-right scanner, `StripAnsi`. The recognised sequences are defined
  separately, by `IsEscFe` and `IsCsi`, and tied to the scanner by an
  if-and-only-if (`MatchLenSound`, `MatchLenComplete`).
- **The display of shell output** (`receive.dfy`, module `Receive`). The reader
  loop strips each chunk it receives on its own (`ChunkwiseDisplay`). A
  corrected, buffered filter (`Feed`, `FeedAll`, `BufferedDisplay`) is also
  modelled; see "## Findings".
- **The saved connection records** of `save_session` (`records.dfy`, module
  `Records`). A `{ip, username}` record is appended only when it is not
  already saved.
- **The command history of a tab** (`session.dfy`, class `Session.SshSession`).
  It holds the history list, the cursor `history_index` and the input field.
  Return, Up and Down are its methods. The invariant `Valid()` keeps every
  `history[index]` read in bounds.
- **The list of open tabs** (`app.dfy`, class `App.TermphyrioApp`). Connect
  validates the three fields and opens a tab. Closing a tab removes it as
  Python's `list.remove` does.

`seqs.dfy` holds list facts used by the model: first occurrence and removal
of the first occurrence. `wrappers.dfy` holds `Option`.

Two behaviours of the code a reader may not expect:

- Pressing Down past the newest command clears the field but leaves the cursor
  on that newest command. The next Up therefore shows the second newest
  command, not the newest (`Session.RecallThreeCommands`).
- A connection that fails still opens a tab and lists it. Only a connection
  that comes up is saved. The save runs inside the same `try` as the
  connection, so when it fails the tab keeps its working channel and nothing is
  saved (`App.SaveFailureKeepsChannel`).

Inputs from the outside world are parameters. These are whether the SSH
connection came up, whether saving it succeeded, whether the channel is ready to send, whether sending
raised, the text the user types, and the chunks the channel delivers.

## Model

| member | source | states |
|---|---|---|
| `Ansi.RunEnd` | termphyrio-v2.py:12 | a byte-class run ends at the end of the text or at a character outside the class |
| `Ansi.RunEndAllIn` | termphyrio-v2.py:12 | every character of the run is in the class, so with `RunEnd` the run is the maximal one |
| `Ansi.MatchLen` | termphyrio-v2.py:12 | a match at the front of a text covers at least two characters and lies within the text |
| `Ansi.MatchLenSound` | termphyrio-v2.py:12 | a match found at the front of a text is a recognised ECMA-48 sequence, `ESC Fe` or `ESC [ P* I* F` |
| `Ansi.MatchLenComplete` | termphyrio-v2.py:12 | with `MatchLenSound`, an if-and-only-if: every recognised sequence at the front of a text is found, with its exact length |
| `Ansi.EscSeqPrefixFree` | termphyrio-v2.py:12 | at most one prefix of a text is a recognised sequence, so the greedy match is the only one |
| `Ansi.StripAnsi` | termphyrio-v2.py:11-13 | the stripped text is never longer than the input |
| `Ansi.StripIsSubsequence` | termphyrio-v2.py:11-13 | the output is a subsequence of the input: kept characters stay in their original order |
| `Ansi.StripPlainPrefix` | termphyrio-v2.py:11-13 | leading text without ESC passes through unchanged, whatever follows it |
| `Ansi.StripNoEsc` | termphyrio-v2.py:11-13 | text without ESC is returned unchanged |
| `Ansi.StripRemoves` | termphyrio-v2.py:12 | a recognised sequence at the front is dropped whatever follows it |
| `Ansi.StripKeeps` | termphyrio-v2.py:12 | a character that starts no recognised sequence, a stray ESC included, is kept and scanning goes on at the next character |
| `Ansi.TrailingEscKept` | termphyrio-v2.py:12 | an ESC as the last character is kept literally |
| `Ansi.UnterminatedCsiKept` | termphyrio-v2.py:12 | `ESC [` with parameter and intermediate bytes but no final byte is kept literally |
| `Ansi.StripNoStrayEsc` | termphyrio-v2.py:11-13 | when every ESC of the input starts a recognised sequence, the output holds no ESC |
| `Ansi.RunEndBlocked` | termphyrio-v2.py:12 | a byte-class run stops at a character outside the class, whatever follows |
| `Ansi.MatchLenBeforeEsc` | termphyrio-v2.py:12 | no recognised sequence extends across an ESC |
| `Ansi.SplitBeforeEsc` | termphyrio-v2.py:11-13 | stripping a text cut right before an ESC gives the same as stripping the two parts |
| `Receive.ChunkwiseDisplay` | termphyrio-v2.py:145-148 | the display built by stripping each chunk on its own is no longer than the stream |
| `Receive.SplitSequenceSurvives` | termphyrio-v2.py:146-148 | a control sequence cut right before its final byte reaches the display whole, while the joined stream strips to nothing |
| `Receive.SplitColourCodeShown` | termphyrio-v2.py:146-148 | the chunks `ESC[31` and `m` give a display that differs from the stripped stream |
| `Receive.ChunkwiseDisplayFaithful` | termphyrio-v2.py:145-148 | the per-chunk display equals stripping the whole stream when every chunk boundary is settled or falls before an ESC |
| `Receive.MatchLenSettled` | termphyrio-v2.py:12 | once an ESC is followed by enough text to decide the match, later text does not change it |
| `Receive.StripAppendSettled` | termphyrio-v2.py:11-13 | a text with no unfinished sequence at its end strips the same with or without what follows |
| `Receive.PendingStartFinds` | termphyrio-v2.py:145-148 | the search finds an unfinished sequence at the end of a text when there is one, and no earlier suffix is unfinished |
| `Receive.FeedHoldsBackUnfinished` | termphyrio-v2.py:145-148 | one read of the buffered filter holds back only an unfinished sequence, or nothing |
| `Receive.FeedSound` | termphyrio-v2.py:145-148 | what one read shows, followed by stripping the held-back text with what comes later, equals stripping everything |
| `Receive.FeedAllHoldsBackUnfinished` | termphyrio-v2.py:145-148 | after one or more reads the filter holds back only an unfinished sequence, or nothing |
| `Receive.FeedAllSound` | termphyrio-v2.py:145-148 | the same equality over any sequence of reads |
| `Receive.BufferedDisplayCorrect` | termphyrio-v2.py:142-151 | however the stream is cut into chunks, the buffered display equals stripping the whole stream |
| `Records.WithRecord` | termphyrio-v2.py:23-26 | the saved list contains the entry and the old entries, nothing else; the old list is a prefix, at most one entry longer |
| `Records.WithRecordUnchangedIff` | termphyrio-v2.py:25-26 | the list is unchanged exactly when the entry is already in it |
| `Records.WithRecordAppends` | termphyrio-v2.py:25-26 | a new entry is appended at the end |
| `Records.WithRecordNoDup` | termphyrio-v2.py:25-26 | a duplicate-free list stays duplicate-free |
| `Records.WithRecordIdempotent` | termphyrio-v2.py:21-26 | saving the same connection twice is the same as saving it once |
| `Records.SessionFile.constructor` | termphyrio-v2.py:15-19 | the file model starts with the loaded records, `[]` when there is no file |
| `Records.SessionFile.Save` | termphyrio-v2.py:21-28 | the records become the dedup of the old ones with the entry; the file is rewritten exactly when the entry was new |
| `Session.SshSession.constructor` | termphyrio-v2.py:163-164 | a new tab has an empty history, cursor -1 and an empty input field |
| `Session.SshSession.SendCmd` | termphyrio-v2.py:166-175 | without a ready channel nothing changes; with one the input goes to the channel with a newline and the field is cleared; a good send appends it to the history and puts the cursor past the end; a failed send keeps history and cursor |
| `Session.SshSession.HistoryUp` | termphyrio-v2.py:177-181 | with a history and cursor above 0, the cursor moves back one and the field shows that command; otherwise nothing changes; the history is never changed |
| `Session.SshSession.HistoryDown` | termphyrio-v2.py:183-189 | below the newest command the cursor moves forward one and the field shows that command; otherwise the field is cleared and the cursor stays |
| `Session.RecallThreeCommands` | termphyrio-v2.py:166-189 | after sending a, b, c: Up three times shows c, b, a; Down three times shows b, c, nothing; Up then shows b |
| `Session.SendFailures` | termphyrio-v2.py:166-175 | a failed send keeps the history empty and clears the field; a tab without a channel keeps the typed command |
| `Seqs.IndexOf` | termphyrio-v2.py:93 | the position found holds the element |
| `Seqs.IndexOfFirst` | termphyrio-v2.py:93 | no earlier position holds the element, so it is the first occurrence |
| `Seqs.RemoveFirst` | termphyrio-v2.py:93 | the list is one element shorter when the element occurs, and unchanged when it is absent |
| `Seqs.RemoveFirstMultiset` | termphyrio-v2.py:93 | removal takes away one occurrence of the element when there is one, and nothing else |
| `Seqs.RemoveFirstAt` | termphyrio-v2.py:93 | removal cuts out exactly the first occurrence and keeps the order of the rest |
| `Seqs.RemoveFirstNoDup` | termphyrio-v2.py:93 | on a duplicate-free list, removal leaves no copy of the element and no duplicates |
| `App.TermphyrioApp.constructor` | termphyrio-v2.py:36 | the app starts with no tabs |
| `App.TermphyrioApp.Connect` | termphyrio-v2.py:71-79 | with a field empty (`AllFilled`, the `all([ip, username, password])` test, fails) nothing changes; otherwise a fresh tab is appended, connected or not; an established connection whose save succeeds is saved with dedup, and in every other case the records are unchanged |
| `App.TermphyrioApp.RemoveSession` | termphyrio-v2.py:92-93 | the first occurrence of the tab is removed and the outcome is `Removed`; an unlisted tab gives `NotInList` (the `ValueError`) and no change |
| `App.CloseTwice` | termphyrio-v2.py:92-93 | closing the same tab twice removes it once; the second close finds it gone |
| `App.ConnectTwiceSavesOnce` | termphyrio-v2.py:21-28 | connecting twice to the same host and user opens two tabs but saves one record; a failed connection is not saved |
| `App.SaveFailureKeepsChannel` | termphyrio-v2.py:114-121 | a connection that comes up but whose save fails keeps its channel and saves nothing |

## Findings

| source | as written | input that shows it | evidently intended | confidence | as-written member | corrected member |
|---|---|---|---|---|---|---|
| termphyrio-v2.py:145-148 | each chunk received from the channel is stripped on its own, so a sequence cut by a chunk boundary is not removed | chunks `ESC [ 3 1` and `m` are shown as `ESC[31m`, but the joined stream strips to nothing | the display shows the stream with every recognised sequence removed, however it was cut into chunks | medium (not executed) | `Receive.SplitColourCodeShown` | `Receive.BufferedDisplayCorrect` |

## Left out

- Widget construction, layout, styling, `print_output` and scrolling are user interface. The status messages a tab prints (connected, connection failed, send error, receive error) are not modelled.
- The SSH library: connecting, `invoke_shell`, `recv_ready`, `recv`, `send_ready`, `send` and the host-key policy, which trusts unknown hosts. These are a foreign library and network I/O. Their outcomes are method parameters.
- The reader thread `receive_output` and its `after(0, ...)` hand-over to the UI thread are concurrency. Only what it shows, as a function of the chunks received, is modelled.
- `bytes.decode(errors='ignore')`, UTF-8 decoding, is not modelled. The stripper works on decoded characters. A multi-byte character cut by a chunk boundary is dropped by that decoding, and the model does not show this.
- The JSON load and dump and `os.makedirs` of `load_sessions` and `save_session` are file I/O. The file is modelled as the list of records it holds.
- `open_native_terminal` starts a shell process, which is process I/O. It puts the username and IP into a shell command without escaping them.
- `_on_click` and `_add_tab_click_close` do pixel hit-testing on tabs, which is UI geometry. Each new tab also re-binds the notebook's click handler.
- `SSHSession.close` closes the channel and the SSH client and hides the tab. Only its call to `_remove_session` is modelled (`App.TermphyrioApp.RemoveSession`).
- App.TermphyrioApp.Connect: a failing save is modelled as leaving the records unchanged. A write that fails after `open(..., 'w')` has already emptied the file is not modelled, because the file's bytes are not part of the model.
- `Session.SshSession.SetInput` stands for the user editing the input field. It is a widget action, not a function of the source.
