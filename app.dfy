/**
  The application's list of open session tabs (`TermphyrioApp`,
  termphyrio-v2.py:30-93).

  Connect validates the three input fields and opens a tab; a tab whose
  connection failed is still opened and listed. Closing a tab removes it
  from the list with Python's `list.remove`, which deletes the first
  occurrence and raises `ValueError` when the tab is not listed. Tabs are
  objects and are compared by identity, as Python compares them.
 */
module App {
  import opened Wrappers
  import opened Seqs
  import opened Records
  import opened Session

  /** The result of `list.remove`. */
  datatype RemoveOutcome = Removed | NotInList

  /** The input check of `connect`: every one of the three fields is non-empty. */
  predicate AllFilled(ip: string, username: string, password: string) {
    ip != [] && username != [] && password != []
  }

  class TermphyrioApp {
    /** `self.sessions`: the open tabs, in the order they were opened. */
    var sessions: seq<SshSession>
    /** The saved-sessions file that successful connections are recorded in. */
    const file: SessionFile

    ghost predicate Valid()
      reads this
    {
      NoDup(sessions)
    }

    constructor (file: SessionFile)
      ensures Valid() && sessions == [] && this.file == file
    {
      sessions := [];
      this.file := file;
    }

    /**
      The Connect button (`connect`). `established` is whether the SSH
      connection and its shell came up; the connection is then saved.
      `saveOk` is whether that save succeeded: it runs inside the same `try`
      as the connection, so a failing save leaves a tab with a working
      channel and nothing saved.
     */
    method Connect(ip: string, username: string, password: string, established: bool, saveOk: bool)
      returns (tab: Option<SshSession>)
      requires Valid()
      modifies this, file
      ensures Valid()
      ensures !AllFilled(ip, username, password) ==>
        tab == None && sessions == old(sessions) && file.records == old(file.records)
      ensures AllFilled(ip, username, password) ==>
        && tab.Some? && fresh(tab.value)
        && sessions == old(sessions) + [tab.value]
        && tab.value.ip == ip && tab.value.username == username
        && tab.value.hasChannel == established
        && tab.value.Valid() && tab.value.history == [] && tab.value.input == []
      ensures AllFilled(ip, username, password) && established && saveOk ==>
        file.records == WithRecord(old(file.records), Record(ip, username))
      ensures !(established && saveOk) ==> file.records == old(file.records)
    {
      if !AllFilled(ip, username, password) {
        return None;
      }
      var s := new SshSession(ip, username, established);
      if established && saveOk {
        var written := file.Save(ip, username);
      }
      sessions := sessions + [s];
      tab := Some(s);
    }

    /** Closing a tab (`_remove_session`). */
    method RemoveSession(s: SshSession) returns (outcome: RemoveOutcome)
      requires Valid()
      modifies this
      ensures Valid()
      ensures outcome == (if s in old(sessions) then Removed else NotInList)
      ensures sessions == RemoveFirst(old(sessions), s)
      ensures s !in sessions
    {
      RemoveFirstNoDup(sessions, s);
      if s in sessions {
        sessions := RemoveFirst(sessions, s);
        outcome := Removed;
      } else {
        outcome := NotInList;
      }
    }
  }

  /**
    Closing the same tab twice: the first close removes it and keeps the
    other tabs in order; the second finds it gone, as `list.remove` raises.
   */
  method CloseTwice() returns (first: RemoveOutcome, second: RemoveOutcome, left: nat)
    ensures first == Removed && second == NotInList && left == 1
  {
    var file := new SessionFile([]);
    var app := new TermphyrioApp(file);
    var a := app.Connect("10.0.0.1", "root", "pw", true, true);
    var b := app.Connect("10.0.0.2", "root", "pw", false, true);
    var none := app.Connect("10.0.0.3", "", "pw", true, true);
    assert none == None && |app.sessions| == 2;
    first := app.RemoveSession(a.value);
    second := app.RemoveSession(a.value);
    left := |app.sessions|;
  }

  /**
    Connecting twice to the same host as the same user opens two tabs but
    saves the connection once; a failed connection is listed but not saved.
   */
  method ConnectTwiceSavesOnce() returns (tabs: nat, saved: seq<Record>)
    ensures tabs == 3 && saved == [Record("10.0.0.1", "root")]
  {
    var file := new SessionFile([]);
    var app := new TermphyrioApp(file);
    var a := app.Connect("10.0.0.1", "root", "pw", true, true);
    var b := app.Connect("10.0.0.1", "root", "pw", true, true);
    var c := app.Connect("10.0.0.2", "admin", "pw", false, true);
    tabs := |app.sessions|;
    saved := file.records;
  }

  /**
    A connection that comes up but whose save fails: the tab has a working
    channel, and the saved records are left as they were.
   */
  method SaveFailureKeepsChannel() returns (hasChannel: bool, tabs: nat, saved: seq<Record>)
    ensures hasChannel && tabs == 1 && saved == []
  {
    var file := new SessionFile([]);
    var app := new TermphyrioApp(file);
    var a := app.Connect("10.0.0.1", "root", "pw", true, false);
    hasChannel := a.value.hasChannel;
    tabs := |app.sessions|;
    saved := file.records;
  }
}
