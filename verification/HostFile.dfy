/** The host-file side of the Kata config agent (`src/kata_config_agent.rs`): the atomic write, the
    sync engine and the restart guard. Any set of steps may fail, and a crash may strike at every one. */
module HostFile {
  import opened Base

  type Bytes = seq<Byte>

  /** `sha256_hex`. Nothing is assumed of it unless a lemma says so. */
  type Hash = Bytes -> string

  const DEST_FILE_MODE: nat := 420 // 0o644
  const ABSENT_HASH_MARKER: string := "absent"

  datatype File = File(content: Bytes, mode: nat)

  function Lookup(files: map<string, File>, path: string): Option<File> {
    if path in files then Some(files[path]) else None
  }

  function Content(files: map<string, File>, path: string): Option<Bytes> {
    if path in files then Some(files[path].content) else None
  }

  /** The temporary file beside `dest`: the same directory, a longer name. */
  function TempPath(dest: string, pid: string): (tmp: string)
    ensures tmp != dest
    ensures dest <= tmp && ('/' !in pid ==> '/' !in tmp[|dest|..])
  {
    var tmp := dest + (".5spot-tmp." + pid);
    assert |tmp| > |dest| && tmp[|dest|..] == ".5spot-tmp." + pid;
    tmp
  }

  /** The steps of the host operations. */
  datatype Step = Hashing | Mkdir | Cleanup | WriteTemp | Chmod | Rename | Discard | Unlink | Return

  /** What goes wrong: any set of steps that fail, and the step at which the process is killed, if
      any. A write that fails or is killed leaves its first `written` bytes behind. */
  datatype Faults = Faults(fails: set<Step>, crash: Option<Step>, written: nat) {
    predicate None() { fails == {} && crash.None? }
  }

  datatype Outcome = Done | Failed | Crashed

  function Prefix(content: Bytes, n: nat): Bytes {
    if n < |content| then content[..n] else content
  }

  datatype SyncAction = Write | Delete | NoOp

  datatype SyncOutcome = Wrote(hash: string) | Deleted | Unchanged(current: Option<string>)

  function HashOf(sha: Hash, content: Option<Bytes>): Option<string> {
    if content.Some? then Some(sha(content.value)) else None
  }

  function DecideAction(sha: Hash, source: Option<Bytes>, destHash: Option<string>): SyncAction {
    match source
    case Some(bytes) => if destHash == Some(sha(bytes)) then NoOp else Write
    case None => if destHash.Some? then Delete else NoOp
  }

  /** What a completed sync leaves on the host, given what was there. */
  function SyncedContent(sha: Hash, source: Option<Bytes>, before: Option<Bytes>): Option<Bytes> {
    match DecideAction(sha, source, HashOf(sha, before))
    case Write => source
    case Delete => None
    case NoOp => before
  }

  /** What a completed sync reports. */
  function SyncReport(sha: Hash, source: Option<Bytes>, before: Option<Bytes>): SyncOutcome {
    match DecideAction(sha, source, HashOf(sha, before))
    case Write => Wrote(if source.Some? then sha(source.value) else "")
    case Delete => Deleted
    case NoOp => Unchanged(HashOf(sha, before))
  }

  function IntendedHash(outcome: SyncOutcome): string {
    match outcome
    case Wrote(hash) => hash
    case Unchanged(Some(hash)) => hash
    case Unchanged(None) => ABSENT_HASH_MARKER
    case Deleted => ABSENT_HASH_MARKER
  }

  predicate NeedsRestart(applied: Option<string>, intended: string) {
    applied != Some(intended)
  }

  predicate IsDriftCorrection(outcome: SyncOutcome, applied: Option<string>) {
    outcome.Wrote? && applied == Some(outcome.hash)
  }

  /** The mark a source calls for: its hash, or the absent marker. */
  function SourceMark(sha: Hash, source: Option<Bytes>): string {
    if source.Some? then sha(source.value) else "absent"
  }

  /** A completed sync leaves the source on the host, with one exception: a different file with the
      same hash is taken for it. */
  lemma SyncReachesSourceExactly(sha: Hash, source: Option<Bytes>, before: Option<Bytes>)
    ensures SyncedContent(sha, source, before) == source <==>
            before == source || before.None? || source.None? || sha(before.value) != sha(source.value)
  {
  }

  /** What a completed sync reports, in terms of the source and what was on the host; and it counts as a
      correction of drift exactly when it wrote a file whose hash was already on record. */
  lemma SyncReportExactly(sha: Hash, source: Option<Bytes>, before: Option<Bytes>, applied: Option<string>)
    ensures var report := SyncReport(sha, source, before);
            if source.Some? && (before.None? || sha(before.value) != sha(source.value)) then report == Wrote(sha(source.value))
            else if source.None? && before.Some? then report == Deleted
            else report == Unchanged(if before.Some? then Some(sha(before.value)) else None)
    ensures IsDriftCorrection(SyncReport(sha, source, before), applied) <==>
            && source.Some? && (before.None? || sha(before.value) != sha(source.value))
            && applied == Some(sha(source.value))
  {
  }

  /** A second sync finds nothing to do and changes nothing. */
  lemma SecondSyncIsUnchanged(sha: Hash, source: Option<Bytes>, before: Option<Bytes>)
    ensures var after := SyncedContent(sha, source, before);
            && SyncedContent(sha, source, after) == after
            && SyncReport(sha, source, after) == Unchanged(HashOf(sha, source))
  {
  }

  /** The hash a sync calls for depends on the source alone, whatever was on the host, and even if
      hashes collide; so a sync that merely corrects drift never asks for a restart. */
  lemma DriftNeverRestarts(sha: Hash, source: Option<Bytes>, before: Option<Bytes>, applied: Option<string>)
    ensures IntendedHash(SyncReport(sha, source, before)) == SourceMark(sha, source)
    ensures NeedsRestart(applied, IntendedHash(SyncReport(sha, source, before))) <==>
            applied != Some(SourceMark(sha, source))
    ensures IsDriftCorrection(SyncReport(sha, source, before), applied) ==>
              !NeedsRestart(applied, IntendedHash(SyncReport(sha, source, before)))
  {
  }

  class HostFs {
    var files: map<string, File>

    constructor (files: map<string, File>)
      ensures this.files == files
    {
      this.files := files;
    }

    /** Write a temporary file, set its mode, rename it over `dest`. Removing the temporary file,
        before and after, is best effort. Under every combination of failures and at every crash
        point the destination is whole: its old state, or the new content with mode 0644. */
    method AtomicWrite(dest: string, content: Bytes, pid: string, umask: nat, faults: Faults) returns (r: Outcome)
      modifies this
      ensures r.Done? <==>
              && faults.fails !! {Mkdir, WriteTemp, Chmod, Rename}
              && faults.crash !in {Some(Mkdir), Some(Cleanup), Some(WriteTemp), Some(Chmod), Some(Rename), Some(Return)}
      ensures faults.crash.None? ==> !r.Crashed?
      ensures var whole := Some(File(content, 420)); // mode 0644
              match r
              case Done => Lookup(files, dest) == whole && TempPath(dest, pid) !in files
              case Failed => Lookup(files, dest) == Lookup(old(files), dest)
              case Crashed => Lookup(files, dest) == if faults.crash == Some(Return) then whole else Lookup(old(files), dest)
      ensures r.Failed? && faults.fails !! {Mkdir, WriteTemp, Chmod} ==>
                (TempPath(dest, pid) !in files <==> Discard !in faults.fails)
      ensures forall p :: p != dest && p != TempPath(dest, pid) ==> Lookup(files, p) == Lookup(old(files), p)
    {
      hide TempPath, Prefix;
      if faults.crash == Some(Mkdir) { return Crashed; }
      if Mkdir in faults.fails { return Failed; }
      var tmp := TempPath(dest, pid);
      if faults.crash == Some(Cleanup) { return Crashed; }
      if Cleanup !in faults.fails {
        files := files - {tmp};
      }
      if faults.crash == Some(WriteTemp) || WriteTemp in faults.fails {
        files := files[tmp := File(Prefix(content, faults.written), umask)];
        return if faults.crash == Some(WriteTemp) then Crashed else Failed;
      }
      files := files[tmp := File(content, umask)];
      if faults.crash == Some(Chmod) { return Crashed; }
      if Chmod in faults.fails { return Failed; }
      files := files[tmp := File(content, DEST_FILE_MODE)];
      if faults.crash == Some(Rename) { return Crashed; }
      if Rename in faults.fails {
        if faults.crash == Some(Discard) { return Crashed; }
        if Discard !in faults.fails {
          files := files - {tmp};
        }
        return Failed;
      }
      files := (files - {tmp})[dest := files[tmp]];
      if faults.crash == Some(Return) { return Crashed; }
      return Done;
    }

    /** Unlink `dest`; an absent file is not an error. */
    method RemoveIfPresent(dest: string, faults: Faults) returns (r: Outcome)
      modifies this
      ensures r.Done? <==> Unlink !in faults.fails && faults.crash !in {Some(Unlink), Some(Return)}
      ensures faults.crash.None? ==> !r.Crashed?
      ensures r.Done? ==> files == old(files) - {dest}
      ensures r.Failed? ==> files == old(files)
      ensures r.Crashed? ==> files == if faults.crash == Some(Return) then old(files) - {dest} else old(files)
    {
      if faults.crash == Some(Unlink) { return Crashed; }
      if Unlink in faults.fails { return Failed; }
      files := files - {dest};
      if faults.crash == Some(Return) { return Crashed; }
      return Done;
    }

    /** Reconcile `dest` to `source` once. */
    method SyncContent(sha: Hash, source: Option<Bytes>, dest: string, pid: string, umask: nat, faults: Faults)
      returns (r: Outcome, outcome: SyncOutcome)
      modifies this
      ensures r.Done? ==>
                && Content(files, dest) == SyncedContent(sha, source, old(Content(files, dest)))
                && outcome == SyncReport(sha, source, old(Content(files, dest)))
                && (outcome.Wrote? ==> files[dest].mode == 420)
      ensures r.Failed? ==> Content(files, dest) == old(Content(files, dest))
      ensures r.Crashed? ==> Content(files, dest) in {old(Content(files, dest)), SyncedContent(sha, source, old(Content(files, dest)))}
      ensures var before := old(Content(files, dest));
              r.Done? <==>
              && Hashing !in faults.fails && faults.crash != Some(Hashing)
              && if source.Some? && (before.None? || sha(before.value) != sha(source.value)) then
                   && faults.fails !! {Mkdir, WriteTemp, Chmod, Rename}
                   && faults.crash !in {Some(Mkdir), Some(Cleanup), Some(WriteTemp), Some(Chmod), Some(Rename), Some(Return)}
                 else if source.None? && before.Some? then
                   Unlink !in faults.fails && faults.crash !in {Some(Unlink), Some(Return)}
                 else true
      ensures faults.crash.None? ==> !r.Crashed?
      ensures forall p :: p != dest && p != TempPath(dest, pid) ==> Lookup(files, p) == Lookup(old(files), p)
    {
      outcome := Unchanged(None);
      if faults.crash == Some(Hashing) { return Crashed, outcome; }
      if Hashing in faults.fails { return Failed, outcome; }
      var destHash := HashOf(sha, Content(files, dest));
      var action := DecideAction(sha, source, destHash);
      if action.Write? {
        r := AtomicWrite(dest, source.value, pid, umask, faults);
        outcome := Wrote(sha(source.value));
      } else if action.Delete? {
        r := RemoveIfPresent(dest, faults);
        outcome := Deleted;
      } else {
        r := Done;
        outcome := Unchanged(destHash);
      }
    }
  }
}
