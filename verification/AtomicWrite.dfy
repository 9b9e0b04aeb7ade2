// The temp / backup / rename write of a scope file, over a disk on which every call may fail.
module AtomicWrite {
  import opened JsText

  datatype Held = Nothing | Text(text: JsText.Text)

  function At(files: map<JsText.Text, JsText.Text>, path: JsText.Text): Held {
    if path in files then Text(files[path]) else Nothing
  }

  datatype DiskCall =
    | Probing(path: JsText.Text)
    | Touching
    | Reading(path: JsText.Text)
    | Writing(path: JsText.Text)
    | Renaming(source: JsText.Text, target: JsText.Text)
    | Removing(path: JsText.Text)

  /** A call the disk received, and whether it succeeded. */
  datatype Event = Event(call: DiskCall, ok: bool)

  /** A rename succeeded at or after position `from` of the log. */
  ghost predicate Renamed(log: seq<Event>, from: nat, source: JsText.Text, target: JsText.Text) {
    exists k :: from <= k < |log| && log[k] == Event(Renaming(source, target), true)
  }

  ghost predicate NoRename(log: seq<Event>, from: nat) {
    forall k :: from <= k < |log| ==> !log[k].call.Renaming?
  }

  /**
   * A disk. Every call may fail; a failed write may leave any partial text, a failed removal may
   * or may not have removed, a failed rename has no effect. `log` records the calls and `seen` the files
   * after each of them, which is what another process, or a crash, could observe.
   */
  class Disk {
    var files: map<JsText.Text, JsText.Text>
    ghost var seen: seq<map<JsText.Text, JsText.Text>>
    ghost var log: seq<Event>

    constructor (initial: map<JsText.Text, JsText.Text>)
      ensures files == initial && seen == [] && log == []
    {
      files := initial;
      seen, log := [], [];
    }

    /** access, mkdir, sync and close: calls that change no file. access is true only of existing paths. */
    method Probe(path: JsText.Text) returns (ok: bool)
      modifies this
      ensures files == old(files) && seen == old(seen) + [files]
      ensures log == old(log) + [Event(Probing(path), ok)]
      ensures ok ==> path in files
    {
      ok := *;
      ok := ok && path in files;
      seen, log := seen + [files], log + [Event(Probing(path), ok)];
    }

    method Touch() returns (ok: bool)
      modifies this
      ensures files == old(files) && seen == old(seen) + [files]
      ensures log == old(log) + [Event(Touching, ok)]
    {
      ok := *;
      seen, log := seen + [files], log + [Event(Touching, ok)];
    }

    method ReadFile(path: JsText.Text) returns (ok: bool, text: JsText.Text)
      modifies this
      ensures files == old(files) && seen == old(seen) + [files]
      ensures log == old(log) + [Event(Reading(path), ok)]
      ensures ok ==> path in files && text == files[path]
    {
      ok, text := *, [];
      ok := ok && path in files;
      if ok {
        text := files[path];
      }
      seen, log := seen + [files], log + [Event(Reading(path), ok)];
    }

    method WriteFile(path: JsText.Text, text: JsText.Text) returns (ok: bool)
      modifies this
      ensures seen == old(seen) + [files]
      ensures log == old(log) + [Event(Writing(path), ok)]
      ensures ok ==> files == old(files)[path := text]
      ensures files == old(files) || (path in files && files == old(files)[path := files[path]])
    {
      ok := *;
      var touched: bool := *;
      var partial: JsText.Text := *;
      if ok {
        files := files[path := text];
      } else if touched {
        files := files[path := partial];
      }
      seen, log := seen + [files], log + [Event(Writing(path), ok)];
    }

    method Rename(source: JsText.Text, target: JsText.Text) returns (ok: bool)
      requires source != target
      modifies this
      ensures seen == old(seen) + [files]
      ensures log == old(log) + [Event(Renaming(source, target), ok)]
      ensures ok ==> source in old(files) && files == old(files)[target := old(files)[source]] - {source}
      ensures !ok ==> files == old(files)
    {
      ok := *;
      ok := ok && source in files;
      if ok {
        files := files[target := files[source]] - {source};
      }
      seen, log := seen + [files], log + [Event(Renaming(source, target), ok)];
    }

    /** rm with force: succeeds on a missing path. */
    method Rm(path: JsText.Text) returns (ok: bool)
      modifies this
      ensures seen == old(seen) + [files]
      ensures log == old(log) + [Event(Removing(path), ok)]
      ensures ok ==> files == old(files) - {path}
      ensures files == old(files) || files == old(files) - {path}
    {
      ok := *;
      var removed: bool := *;
      if ok || removed {
        files := files - {path};
      }
      seen, log := seen + [files], log + [Event(Removing(path), ok)];
    }
  }

  // ".tmp-" and ".bak-"
  const TEMP: JsText.Text := [46, 116, 109, 112, 45]
  const BACKUP: JsText.Text := [46, 98, 97, 107, 45]

  datatype Outcome = Returned | ThrewFileError | ThrewScopeWriteFailed | ThrewRolledBack

  lemma SiblingPathsDiffer(scope: JsText.Text, u: JsText.Text, v: JsText.Text)
    ensures scope + TEMP + u != scope && scope + BACKUP + v != scope && scope + TEMP + u != scope + BACKUP + v
  {
    assert |scope + TEMP + u| > |scope| && |scope + BACKUP + v| > |scope|;
    assert (scope + TEMP + u)[|scope| + 1] == 116;
    assert (scope + BACKUP + v)[|scope| + 1] == 98;
  }

  datatype Target = Target(scope: JsText.Text, temp: JsText.Text, backup: JsText.Text)

  /** What an observer may see while a scope file is being replaced: the old state or the new text, nothing else. */
  ghost predicate OldOrNew(before: map<JsText.Text, JsText.Text>, now: map<JsText.Text, JsText.Text>, at: Target,
                           payload: JsText.Text)
  {
    && (At(now, at.scope) == At(before, at.scope) || At(now, at.scope) == Text(payload))
    && OthersKept(before, now, at)
  }

  ghost predicate OthersKept(before: map<JsText.Text, JsText.Text>, now: map<JsText.Text, JsText.Text>, at: Target) {
    forall p :: p != at.scope && p != at.temp && p != at.backup ==> At(now, p) == At(before, p)
  }

  /** Every state observed from call number `from` on shows the old state or the new text. */
  ghost predicate AllOldOrNew(before: map<JsText.Text, JsText.Text>, seen: seq<map<JsText.Text, JsText.Text>>,
                              from: nat,
                              at: Target, payload: JsText.Text)
  {
    forall k :: from <= k < |seen| ==> OldOrNew(before, seen[k], at, payload)
  }

  ghost predicate Siblings(at: Target) {
    at.scope != at.temp && at.scope != at.backup && at.temp != at.backup
  }

  /** The backup, when present, holds the old content. */
  ghost predicate BackupSound(before: map<JsText.Text, JsText.Text>, now: map<JsText.Text, JsText.Text>, at: Target) {
    at.backup in now ==> at.scope in before && now[at.backup] == before[at.scope]
  }

  /** copilot-vscode-adapter/src/index.ts, lines 314-320: the directory and, when the scope file is seen, its backup. */
  method Prepare(disk: Disk, at: Target, ghost payload: JsText.Text) returns (ok: bool, scopeExists: bool)
    requires Siblings(at)
    modifies disk
    ensures old(disk.seen) <= disk.seen && old(disk.log) <= disk.log && NoRename(disk.log, |old(disk.log)|)
    ensures AllOldOrNew(old(disk.files), disk.seen, |old(disk.seen)|, at, payload)
    ensures At(disk.files, at.scope) == At(old(disk.files), at.scope) && OthersKept(old(disk.files), disk.files, at)
    ensures scopeExists ==> at.scope in old(disk.files)
    ensures ok ==> disk.files == if scopeExists then old(disk.files)[at.backup := old(disk.files)[at.scope]]
                                 else old(disk.files)
  {
    scopeExists := false;
    ok := disk.Touch();
    if ok {
      scopeExists := disk.Probe(at.scope);
      if scopeExists {
        var existing: JsText.Text;
        ok, existing := disk.ReadFile(at.scope);
        if ok {
          ok := disk.WriteFile(at.backup, existing);
        }
      }
    }
  }

  /** Lines 325-328 there: only the temporary file is touched; on success it holds the payload. */
  method WriteTemp(disk: Disk, at: Target, payload: JsText.Text) returns (ok: bool)
    requires Siblings(at)
    modifies disk
    ensures old(disk.seen) <= disk.seen && old(disk.log) <= disk.log && NoRename(disk.log, |old(disk.log)|)
    ensures AllOldOrNew(old(disk.files), disk.seen, |old(disk.seen)|, at, payload)
    ensures disk.files == old(disk.files) || (at.temp in disk.files
              && disk.files == old(disk.files)[at.temp := disk.files[at.temp]])
    ensures ok ==> disk.files == old(disk.files)[at.temp := payload]
  {
    ok := disk.WriteFile(at.temp, []);
    if ok {
      ok := disk.WriteFile(at.temp, payload);
      if ok {
        ok := disk.Touch();
      }
      var closed := disk.Touch();
      ok := ok && closed;
    }
  }

  lemma Glue(before: map<JsText.Text, JsText.Text>, middle: map<JsText.Text, JsText.Text>,
             seen0: seq<map<JsText.Text, JsText.Text>>, seen1: seq<map<JsText.Text, JsText.Text>>, from: nat,
             at: Target, payload: JsText.Text)
    requires seen0 <= seen1 && from <= |seen0|
    requires AllOldOrNew(before, seen0, from, at, payload)
    requires AllOldOrNew(middle, seen1, |seen0|, at, payload)
    requires OldOrNew(before, middle, at, payload)
    ensures AllOldOrNew(before, seen1, from, at, payload)
  {
  }

  /** The rename of the temporary file to the scope file has succeeded. */
  ghost predicate Committed(log: seq<Event>, from: nat, at: Target) {
    Renamed(log, from, at.temp, at.scope)
  }

  /** The rename of the backup to the scope file has succeeded. */
  ghost predicate PutBack(log: seq<Event>, from: nat, at: Target) {
    Renamed(log, from, at.backup, at.scope)
  }

  /** copilot-vscode-adapter/src/index.ts, lines 331-335: the committing rename, then the removal of the backup. */
  method Commit(disk: Disk, at: Target, scopeExists: bool, payload: JsText.Text) returns (ok: bool)
    requires Siblings(at)
    requires at.temp in disk.files && disk.files[at.temp] == payload
    modifies disk
    ensures old(disk.seen) <= disk.seen && old(disk.log) <= disk.log
    ensures AllOldOrNew(old(disk.files), disk.seen, |old(disk.seen)|, at, payload)
    ensures !PutBack(disk.log, |old(disk.log)|, at)
    ensures ok ==> Committed(disk.log, |old(disk.log)|, at)
                   && disk.files == old(disk.files)[at.scope := payload] - {at.temp} - if scopeExists then {at.backup} else {}
    ensures OthersKept(old(disk.files), disk.files, at)
    ensures At(disk.files, at.scope)
         == if Committed(disk.log, |old(disk.log)|, at) then Text(payload) else At(old(disk.files), at.scope)
    ensures at.backup in disk.files ==>
              at.backup in old(disk.files) && disk.files[at.backup] == old(disk.files)[at.backup]
  {
    ghost var from := |disk.log|;
    ok := disk.Rename(at.temp, at.scope);
    assert disk.log[from] == Event(Renaming(at.temp, at.scope), ok);
    assert Committed(disk.log, from, at) <==> ok;
    if ok && scopeExists {
      ok := disk.Rm(at.backup);
      assert disk.log[from] == Event(Renaming(at.temp, at.scope), true);
    }
  }

  /**
   * copilot-vscode-adapter/src/index.ts, lines 337-365: clean up and put the backup back when it is there. The
   * restore's own error is thrown inside the guarded block, so the handler at line 352 replaces it like any other.
   * The scope file ends old or as it was.
   */
  method Recover(disk: Disk, at: Target, scopeExists: bool, ghost before: map<JsText.Text, JsText.Text>,
                 ghost payload: JsText.Text)
    returns (outcome: Outcome)
    requires Siblings(at) && BackupSound(before, disk.files, at) && OldOrNew(before, disk.files, at, payload)
    modifies disk
    ensures old(disk.seen) <= disk.seen && old(disk.log) <= disk.log
    ensures AllOldOrNew(before, disk.seen, |old(disk.seen)|, at, payload)
    ensures OthersKept(before, disk.files, at)
    ensures !Committed(disk.log, |old(disk.log)|, at)
    ensures At(disk.files, at.scope)
         == if PutBack(disk.log, |old(disk.log)|, at) then At(before, at.scope) else At(old(disk.files), at.scope)
    ensures PutBack(disk.log, |old(disk.log)|, at) ==> at.scope in before
    ensures outcome.ThrewScopeWriteFailed?
  {
    ghost var from := |disk.log|;
    var _ := disk.Rm(at.temp);
    assert NoRename(disk.log, from);
    outcome := ThrewScopeWriteFailed;
    if scopeExists {
      var backedUp := disk.Probe(at.backup);
      assert NoRename(disk.log, from);
      if backedUp {
        ghost var here := |disk.log|;
        var restored := disk.Rename(at.backup, at.scope);
        assert disk.log[here] == Event(Renaming(at.backup, at.scope), restored);
        outcome := if restored then ThrewRolledBack else ThrewFileError;
        // Either error is caught at once, and its handler throws its own.
        outcome := ThrewScopeWriteFailed;
      }
    }
  }

  /**
   * copilot-vscode-adapter/src/index.ts, lines 305-367. At every observable moment the scope path holds the old
   * content (or is absent if it was) or exactly the payload, and no path other than the two siblings changes. A normal
   * return leaves the new text and nothing else changed. A throw leaves the new text if the rename of the temporary
   * file succeeded and no rename of the backup did, and the old content otherwise.
   */
  method WriteFileAtomically(disk: Disk, scope: JsText.Text, payload: JsText.Text, uuid0: JsText.Text, uuid1: JsText.Text)
    returns (outcome: Outcome)
    requires scope + TEMP + uuid0 !in disk.files && scope + BACKUP + uuid1 !in disk.files
    modifies disk
    ensures old(disk.seen) <= disk.seen && old(disk.log) <= disk.log
    ensures var at := Target(scope, scope + TEMP + uuid0, scope + BACKUP + uuid1);
            var committed, putBack := Committed(disk.log, |old(disk.log)|, at), PutBack(disk.log, |old(disk.log)|, at);
            && AllOldOrNew(old(disk.files), disk.seen, |old(disk.seen)|, at, payload)
            && OthersKept(old(disk.files), disk.files, at)
            && (outcome.Returned? ==> committed && !putBack && disk.files == old(disk.files)[scope := payload])
            && At(disk.files, scope) == (if committed && !putBack then Text(payload) else At(old(disk.files), scope))
            && (outcome.ThrewFileError? ==> !committed && !putBack)
            && (putBack ==> scope in old(disk.files))
    ensures !outcome.ThrewRolledBack?
  {
    SiblingPathsDiffer(scope, uuid0, uuid1);
    var at := Target(scope, scope + TEMP + uuid0, scope + BACKUP + uuid1);
    ghost var before, from, start := disk.files, |disk.seen|, |disk.log|;
    var ok, scopeExists := Prepare(disk, at, payload);
    if !ok {
      return ThrewFileError;
    }
    ghost var middle, soFar, logged := disk.files, disk.seen, disk.log;
    ok := WriteTemp(disk, at, payload);
    Glue(before, middle, soFar, disk.seen, from, at, payload);
    NoRenameJoins(logged, disk.log, start);
    if ok {
      middle, soFar, logged := disk.files, disk.seen, disk.log;
      ok := Commit(disk, at, scopeExists, payload);
      Glue(before, middle, soFar, disk.seen, from, at, payload);
      RenamedLater(logged, disk.log, start, at.temp, at.scope);
      RenamedLater(logged, disk.log, start, at.backup, at.scope);
      if ok {
        return Returned;
      }
    }
    soFar, logged := disk.seen, disk.log;
    outcome := Recover(disk, at, scopeExists, before, payload);
    GlueSame(before, soFar, disk.seen, from, at, payload);
    RenamedLater(logged, disk.log, start, at.temp, at.scope);
    RenamedLater(logged, disk.log, start, at.backup, at.scope);
  }

  lemma NoRenameJoins(log0: seq<Event>, log1: seq<Event>, from: nat)
    requires log0 <= log1 && from <= |log0| && NoRename(log0, from) && NoRename(log1, |log0|)
    ensures NoRename(log1, from)
  {
  }

  /** A rename in a longer log happened in the shorter one or after it. */
  lemma RenamedLater(log0: seq<Event>, log1: seq<Event>, from: nat, source: JsText.Text, target: JsText.Text)
    requires log0 <= log1 && from <= |log0|
    ensures Renamed(log1, from, source, target)
       <==> Renamed(log0, from, source, target) || Renamed(log1, |log0|, source, target)
  {
    if k :| from <= k < |log0| && log0[k] == Event(Renaming(source, target), true) {
      assert log1[k] == log0[k];
    }
    if k :| from <= k < |log1| && log1[k] == Event(Renaming(source, target), true) {
      assert k < |log0| ==> log0[k] == log1[k];
    }
  }

  lemma GlueSame(before: map<JsText.Text, JsText.Text>,
                 seen0: seq<map<JsText.Text, JsText.Text>>, seen1: seq<map<JsText.Text, JsText.Text>>, from: nat,
                 at: Target, payload: JsText.Text)
    requires seen0 <= seen1 && from <= |seen0|
    requires AllOldOrNew(before, seen0, from, at, payload)
    requires AllOldOrNew(before, seen1, |seen0|, at, payload)
    ensures AllOldOrNew(before, seen1, from, at, payload)
  {
  }
}
