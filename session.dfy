/**
  The command history of one session tab (`SSHSession`, termphyrio-v2.py:153-189).

  A tab keeps the commands it has sent, a cursor `index` into them (-1 while
  there are none) and the text of its input field. Return sends the input,
  Up and Down move the cursor and copy the selected command into the field.
  The channel is reduced to what these handlers look at: whether the tab has
  one, whether it is ready to send, and whether sending raised.
 */
module Session {
  import opened Wrappers

  class SshSession {
    const ip: string
    const username: string
    /** `self.chan` was set: the connection and its shell were established. */
    const hasChannel: bool
    /** `command_history`: the commands sent, oldest first. */
    var history: seq<string>
    /** `history_index`: the history cursor. */
    var index: int
    /** The text of the input field `cmd_input`. */
    var input: string

    /** Every `history[index]` read by Up and Down is in bounds. */
    ghost predicate Valid()
      reads this
    {
      (history == [] && index == -1) || (history != [] && 0 <= index <= |history|)
    }

    /** A new tab with an empty history and an empty input field (`setup_input_bar`). */
    constructor (ip: string, username: string, established: bool)
      ensures Valid()
      ensures this.ip == ip && this.username == username && hasChannel == established
      ensures history == [] && index == -1 && input == []
    {
      this.ip := ip;
      this.username := username;
      hasChannel := established;
      history := [];
      index := -1;
      input := [];
    }

    /** The user types into the input field. */
    method SetInput(text: string)
      modifies this`input
      ensures input == text
    {
      input := text;
    }

    /**
      Return (`send_cmd`): `sendReady` is `chan.send_ready()`, `sendOk` that
      `chan.send` did not raise; `sent` is what was handed to the channel.
     */
    method SendCmd(sendReady: bool, sendOk: bool) returns (sent: Option<string>)
      requires Valid()
      modifies this
      ensures Valid()
      ensures sent == if hasChannel && sendReady then Some(old(input) + "\n") else None
      ensures !(hasChannel && sendReady) ==>
        history == old(history) && index == old(index) && input == old(input)
      ensures hasChannel && sendReady && sendOk ==>
        history == old(history) + [old(input)] && index == |history| && input == []
      ensures hasChannel && sendReady && !sendOk ==>
        history == old(history) && index == old(index) && input == []
    {
      sent := None;
      var cmd := input;
      if hasChannel && sendReady {
        sent := Some(cmd + "\n");
        if sendOk {
          history := history + [cmd];
          index := |history|;
        }
        input := [];
      }
    }

    /** Up (`navigate_history_up`): step back to the previous command, if there is one. */
    method HistoryUp()
      requires Valid()
      modifies this
      ensures Valid()
      ensures history == old(history)
      ensures old(history) != [] && old(index) > 0 ==>
        index == old(index) - 1 && input == history[index]
      ensures !(old(history) != [] && old(index) > 0) ==>
        index == old(index) && input == old(input)
    {
      if history != [] && index > 0 {
        index := index - 1;
        input := history[index];
      }
    }

    /**
      Down (`navigate_history_down`): step forward to the next command; past
      the last one the field is cleared and the cursor stays where it is.
     */
    method HistoryDown()
      requires Valid()
      modifies this
      ensures Valid()
      ensures history == old(history)
      ensures old(history) != [] && old(index) < |old(history)| - 1 ==>
        index == old(index) + 1 && input == history[index]
      ensures !(old(history) != [] && old(index) < |old(history)| - 1) ==>
        index == old(index) && input == []
    {
      if history != [] && index < |history| - 1 {
        index := index + 1;
        input := history[index];
      } else {
        input := [];
      }
    }
  }

  /**
    Send a, b and c, then press Up three times, Down three times and Up once:
    the field shows c, b, a, then b, c, nothing (the cursor stays on c), then b.
   */
  method RecallThreeCommands(a: string, b: string, c: string) returns (shown: seq<string>)
    ensures shown == [c, b, a, b, c, [], b]
  {
    var tab := new SshSession("host", "user", true);
    var sent;
    tab.SetInput(a);
    sent := tab.SendCmd(true, true);
    tab.SetInput(b);
    sent := tab.SendCmd(true, true);
    tab.SetInput(c);
    sent := tab.SendCmd(true, true);
    assert tab.history == [a, b, c] && tab.index == 3;
    tab.HistoryUp();
    var s1 := tab.input;
    tab.HistoryUp();
    var s2 := tab.input;
    tab.HistoryUp();
    var s3 := tab.input;
    assert tab.index == 0;
    tab.HistoryDown();
    var s4 := tab.input;
    tab.HistoryDown();
    var s5 := tab.input;
    tab.HistoryDown();
    var s6 := tab.input;
    assert tab.index == 2;
    tab.HistoryUp();
    shown := [s1, s2, s3, s4, s5, s6, tab.input];
  }

  /** A failed send keeps the history but loses the typed command; without a channel nothing changes. */
  method SendFailures(cmd: string) returns (afterFailure: (seq<string>, string), withoutChannel: (seq<string>, string))
    ensures afterFailure == ([], [])
    ensures withoutChannel == ([], cmd)
  {
    var tab := new SshSession("host", "user", true);
    tab.SetInput(cmd);
    var sent := tab.SendCmd(true, false);
    afterFailure := (tab.history, tab.input);
    var idle := new SshSession("host", "user", false);
    idle.SetInput(cmd);
    sent := idle.SendCmd(true, true);
    withoutChannel := (idle.history, idle.input);
  }
}
