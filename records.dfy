/**
  The saved connection records of `save_session` (termphyrio-v2.py:21-28).

  The file holds a list of `{ip, username}` entries. Saving a connection
  loads the list, appends the entry only when an equal entry is not in it
  yet, and writes the file back only in that case. The JSON encoding, the
  directory creation and the file access themselves are not modelled: the
  class `SessionFile` stands for the file's contents.
 */
module Records {
  import opened Seqs

  /** One saved connection: the host and the user name; compared by value. */
  datatype Record = Record(ip: string, username: string)

  /** The list after the dedup step of `save_session`. */
  function WithRecord(records: seq<Record>, entry: Record): (r: seq<Record>)
    ensures entry in r
    ensures forall x :: x in r <==> x in records || x == entry
    ensures |records| <= |r| <= |records| + 1 && r[..|records|] == records
  {
    if entry in records then records else records + [entry]
  }

  /** The list is left alone exactly when the entry is already in it. */
  lemma WithRecordUnchangedIff(records: seq<Record>, entry: Record)
    ensures WithRecord(records, entry) == records <==> entry in records
  {
  }

  /** A new entry goes at the end, after all the old ones. */
  lemma WithRecordAppends(records: seq<Record>, entry: Record)
    requires entry !in records
    ensures WithRecord(records, entry) == records + [entry]
  {
  }

  /** A list without duplicate entries stays without duplicates. */
  lemma WithRecordNoDup(records: seq<Record>, entry: Record)
    requires NoDup(records)
    ensures NoDup(WithRecord(records, entry))
  {
    var r := WithRecord(records, entry);
    if entry !in records {
      forall i, j | 0 <= i < j < |r| ensures r[i] != r[j] {
        if j == |records| { assert r[i] in records; }
      }
    }
  }

  /** Saving the same connection twice saves it once. */
  lemma WithRecordIdempotent(records: seq<Record>, entry: Record)
    ensures WithRecord(WithRecord(records, entry), entry) == WithRecord(records, entry)
  {
  }

  /** The saved-sessions file, as the list of records it holds. */
  class SessionFile {
    var records: seq<Record>

    /** A file holding `existing`; `[]` when there is no file yet (`load_sessions`). */
    constructor (existing: seq<Record>)
      ensures records == existing
    {
      records := existing;
    }

    /** `save_session(ip, username)`: `written` tells whether the file was rewritten. */
    method Save(ip: string, username: string) returns (written: bool)
      modifies this
      ensures records == WithRecord(old(records), Record(ip, username))
      ensures written <==> Record(ip, username) !in old(records)
    {
      var entry := Record(ip, username);
      written := entry !in records;
      if written {
        records := records + [entry];
      }
    }
  }
}
