/**
 Repair and rollback of an adopted skill copy (scripts/skill-provenance.ts). The disk keeps every state it was
 in, half-written files included, so that a claim about all of them is a claim about a crash at any point.
 */
module SkillRepair {
  import opened Wrappers
  import opened UnicodeText
  import opened Bytes

  type Digest = Text

  /** A file in the tree, or a backup, which is named after the digest of what it keeps and lies outside the tree. */
  datatype Place = Tree(path: Text) | Backup(digest: Digest)

  type Files = map<Place, Bytes>

  // .kizuki-repair-tmp
  const TEMP_SUFFIX: Text := [46, 107, 105, 122, 117, 107, 105, 45, 114, 101, 112, 97, 105, 114, 45, 116, 109, 112]

  function TempOf(path: Text): Place { Tree(path + TEMP_SUFFIX) }

  datatype Host = Host(path: Text, copy: bool, sha256: Digest)
  datatype Entry = Entry(canonical: Text, sha256: Digest, hosts: seq<Host>)
  type Lock = seq<Entry>

  // Provenance of one host, as checkProvenance reports it.

  datatype Complaint = MissingSource(path: Text) | DigestMismatch(path: Text) | Diverges(path: Text)

  ghost function FileComplaints(files: Files, path: Text, sha256: Digest, hash: Bytes -> Digest): set<Complaint> {
    if Tree(path) !in files then {MissingSource(path)}
    else if hash(files[Tree(path)]) != sha256 then {DigestMismatch(path)}
    else {}
  }

  /** The complaints about a copy, its canonical file aside. */
  ghost function HostComplaints(files: Files, e: Entry, host: Host, hash: Bytes -> Digest): set<Complaint> {
    FileComplaints(files, host.path, host.sha256, hash) +
    (if Tree(host.path) in files && Tree(e.canonical) in files && hash(files[Tree(host.path)]) != hash(files[Tree(e.canonical)])
     then {Diverges(host.path)} else {})
  }

  // The preview.

  datatype Reason =
    | NotAdopted | CanonicalDrift | PointerBytes | LockDigests | MissingCanonical | CanonicalMismatch
    | MissingDestination | BackupInside | BackupNotRecorded | MissingBackup

  datatype Preview = Refuse(reason: Reason) | Unchanged | WouldRestore(from: Entry)

  function HostIndex(hosts: seq<Host>, path: Text): (k: Option<nat>)
    ensures k.Some? ==> k.value < |hosts| && hosts[k.value].path == path && forall j :: 0 <= j < k.value ==> hosts[j].path != path
    ensures k.None? ==> forall j :: 0 <= j < |hosts| ==> hosts[j].path != path
  {
    if hosts == [] then None
    else if hosts[0].path == path then Some(0)
    else
      match HostIndex(hosts[1..], path)
      case None =>
        assert forall j :: 0 < j < |hosts| ==> hosts[j] == hosts[1..][j - 1];
        None
      case Some(k) =>
        assert forall j :: 0 < j < |hosts| ==> hosts[j] == hosts[1..][j - 1];
        Some(k + 1)
  }

  /** The first entry with a host at this path, and that host. */
  function FindHost(lock: Lock, path: Text): (r: Option<(Entry, Host)>)
    ensures r.Some? ==> r.value.0 in lock && r.value.1 in r.value.0.hosts && r.value.1.path == path
  {
    if lock == [] then None
    else
      match HostIndex(lock[0].hosts, path)
      case Some(k) => Some((lock[0], lock[0].hosts[k]))
      case None => FindHost(lock[1..], path)
  }

  function PreviewAdoption(lock: Lock, files: Files, hash: Bytes -> Digest, path: Text): (r: Preview)
    ensures r.WouldRestore? ==>
              && FindHost(lock, path).Some? && r.from == FindHost(lock, path).value.0
              && FindHost(lock, path).value.1.copy && FindHost(lock, path).value.1.sha256 == r.from.sha256
              && Tree(r.from.canonical) in files && hash(files[Tree(r.from.canonical)]) == r.from.sha256
  {
    match FindHost(lock, path)
    case None => Refuse(if exists e :: e in lock && e.canonical == path then CanonicalDrift else NotAdopted)
    case Some((e, host)) =>
      var current := Tree(path) in files && hash(files[Tree(path)]) == host.sha256;
      if !host.copy then if current then Unchanged else Refuse(PointerBytes)
      else if host.sha256 != e.sha256 then Refuse(LockDigests)
      else if Tree(e.canonical) !in files then Refuse(MissingCanonical)
      else if hash(files[Tree(e.canonical)]) != e.sha256 then Refuse(CanonicalMismatch)
      else if current then Unchanged
      else WouldRestore(e)
  }

  ghost predicate HasHost(lock: Lock, path: Text) {
    exists e, h :: e in lock && h in e.hosts && h.path == path
  }

  ghost predicate IsCanonical(lock: Lock, path: Text) {
    exists e :: e in lock && e.canonical == path
  }

  /** The first entry that hosts the path, and its first host there. */
  ghost predicate FirstHost(lock: Lock, path: Text, i: int, j: int) {
    && 0 <= i < |lock| && 0 <= j < |lock[i].hosts| && lock[i].hosts[j].path == path
    && (forall h :: h in lock[i].hosts[..j] ==> h.path != path)
    && forall k, h :: 0 <= k < i && h in lock[k].hosts ==> h.path != path
  }

  lemma {:induction false} FindHostMeaning(lock: Lock, path: Text)
    ensures FindHost(lock, path).Some? <==> HasHost(lock, path)
    ensures FindHost(lock, path).Some? ==>
              exists i, j :: FirstHost(lock, path, i, j) && FindHost(lock, path).value == (lock[i], lock[i].hosts[j])
  {
    hide FirstHost, HasHost;
    if lock != [] {
      HasHostFirst(lock, path);
      match HostIndex(lock[0].hosts, path) {
        case Some(j) =>
          FirstHostHere(lock, path, j);
        case None =>
          FindHostMeaning(lock[1..], path);
          if FindHost(lock[1..], path).Some? {
            var i, j :| FirstHost(lock[1..], path, i, j) && FindHost(lock[1..], path).value == (lock[1..][i], lock[1..][i].hosts[j]);
            FirstHostLater(lock, path, i, j);
          }
      }
    } else {
      NoHosts(path);
    }
  }

  lemma NoHosts(path: Text)
    ensures !HasHost([], path)
  {
  }

  lemma HasHostFirst(lock: Lock, path: Text)
    requires lock != []
    ensures HasHost(lock, path) <==> HostIndex(lock[0].hosts, path).Some? || HasHost(lock[1..], path)
    ensures forall i, j :: FirstHost(lock[1..], path, i, j) ==> 0 <= i < |lock[1..]| && 0 <= j < |lock[1..][i].hosts|
  {
    hide HostIndex;
    assert lock == [lock[0]] + lock[1..];
    if k :| 0 <= k < |lock[0].hosts| && lock[0].hosts[k].path == path {
      assert lock[0].hosts[k] in lock[0].hosts;
    }
  }

  lemma FirstHostHere(lock: Lock, path: Text, j: nat)
    requires lock != [] && HostIndex(lock[0].hosts, path) == Some(j)
    ensures FirstHost(lock, path, 0, j)
  {
    hide HostIndex;
  }

  lemma FirstHostLater(lock: Lock, path: Text, i: int, j: int)
    requires lock != [] && HostIndex(lock[0].hosts, path).None? && FirstHost(lock[1..], path, i, j)
    ensures FirstHost(lock, path, i + 1, j) && lock[1..][i] == lock[i + 1]
  {
    hide HostIndex;
    forall k, h | 0 <= k < i + 1 && h in lock[k].hosts ensures h.path != path {
      assert k > 0 ==> lock[1..][k - 1] == lock[k];
    }
  }

  /** Why a copy whose entry is not sound is refused. */
  ghost function CopyFault(files: Files, e: Entry, host: Host, hash: Bytes -> Digest): Reason {
    if host.sha256 != e.sha256 then LockDigests
    else if MissingSource(e.canonical) in FileComplaints(files, e.canonical, e.sha256, hash) then MissingCanonical
    else CanonicalMismatch
  }

  /**
   The preview of a host in terms of the provenance check. A pointer is left alone exactly when its file is as locked. A copy can
   be restored exactly when its entry locks one digest, the canonical file gives no complaint and the copy does; it is left
   alone exactly when neither gives any.
   */
  ghost predicate PreviewsHost(files: Files, hash: Bytes -> Digest, path: Text, e: Entry, host: Host, r: Preview) {
    var sound := host.sha256 == e.sha256 && FileComplaints(files, e.canonical, e.sha256, hash) == {};
    && (!host.copy ==> r == if FileComplaints(files, path, host.sha256, hash) == {} then Unchanged else Refuse(PointerBytes))
    && (host.copy ==>
          && (r == WouldRestore(e) <==> sound && HostComplaints(files, e, host, hash) != {})
          && (r == Unchanged <==> sound && HostComplaints(files, e, host, hash) == {})
          && (!sound ==> r == Refuse(CopyFault(files, e, host, hash))))
  }

  /** A path is previewed as the first host that the lock has for it; a path that is no host is refused. */
  lemma PreviewMeaning(lock: Lock, files: Files, hash: Bytes -> Digest, path: Text)
    ensures var r := PreviewAdoption(lock, files, hash, path);
      && (!HasHost(lock, path) ==> r == Refuse(if IsCanonical(lock, path) then CanonicalDrift else NotAdopted))
      && (HasHost(lock, path) ==>
            exists i, j :: FirstHost(lock, path, i, j) && PreviewsHost(files, hash, path, lock[i], lock[i].hosts[j], r))
  {
    FindHostMeaning(lock, path);
    hide FindHost;
    if FindHost(lock, path).Some? {
      var i, j :| FirstHost(lock, path, i, j) && FindHost(lock, path).value == (lock[i], lock[i].hosts[j]);
      var e, host := lock[i], lock[i].hosts[j];
      hide HasHost;
      assert FirstHost(lock, path, i, j);
      assert FileComplaints(files, path, host.sha256, hash) == {}
        <==> Tree(path) in files && hash(files[Tree(path)]) == host.sha256;
    }
  }

  // What every state on the way must satisfy.

  ghost predicate Untouched(start: Files, s: Files, touched: set<Place>) {
    forall q :: q !in touched ==> (q in s <==> q in start) && (q in start ==> s[q] == start[q])
  }

  /** The destination is whole: old, or new with the old bytes already kept; and nothing else has changed. */
  ghost predicate SafeState(start: Files, s: Files, path: Text, backup: Place, next: Bytes)
    requires Tree(path) in start
  {
    && Tree(path) in s
    && (s[Tree(path)] == start[Tree(path)] ||
        (s[Tree(path)] == next && backup in s && s[backup] == start[Tree(path)]))
    && Untouched(start, s, {Tree(path), TempOf(path), backup})
    && (backup in start ==> backup in s && s[backup] == start[backup])
  }

  datatype Receipt =
    | Refused(reason: Reason)
    | NothingToDo
    | Restored(backup: Place, before: Digest, after: Digest)
    | RolledBack(before: Digest, after: Digest)

  /** A thrown error: some file operation failed. */
  datatype Thrown = IoError

  class Disk {
    var files: Files
    ghost var history: seq<Files>
    /** How many operations the system has failed. */
    ghost var faults: nat

    ghost predicate Valid()
      reads this
    {
      history != [] && history[|history| - 1] == files
    }

    constructor (files: Files)
      ensures Valid() && this.files == files && history == [files]
    {
      this.files := files;
      history := [files];
      faults := 0;
    }

    /** All states from `since` on satisfy what SafeState asks. */
    ghost predicate SafeSince(since: nat, start: Files, path: Text, backup: Place, next: Bytes)
      reads this
      requires Tree(path) in start
    {
      forall i :: since <= i < |history| ==> SafeState(start, history[i], path, backup, next)
    }

    /** Creates a file exclusively and writes it bit by bit; it may fail at any point and leave what it has written. */
    method WriteNew(place: Place, bytes: Bytes) returns (ok: bool)
      requires Valid()
      modifies this
      ensures Valid() && |history| >= |old(history)| && history[..|old(history)|] == old(history)
      ensures old(place in files) ==> !ok && files == old(files) && history == old(history)
      ensures place !in old(files) ==> (ok <==> faults == old(faults)) && faults >= old(faults)
      ensures ok ==> files == old(files)[place := bytes]
      ensures forall i :: |old(history)| <= i < |history| ==>
                place !in old(files) && exists k :: 0 <= k <= |bytes| && history[i] == old(files)[place := bytes[..k]]
      ensures files == old(files) || (place !in old(files) && exists k :: 0 <= k <= |bytes| && files == old(files)[place := bytes[..k]])
    {
      ghost var start, past := files, history;
      if place in files {
        return false;
      }
      var fails: bool := *;
      if fails {
        faults := faults + 1;
        return false;
      }
      files := files[place := []];
      history := history + [files];
      assert bytes[..0] == [];
      for k := 0 to |bytes|
        invariant files == start[place := bytes[..k]] && Valid() && faults == old(faults)
        invariant |history| > |past| && history[..|past|] == past
        invariant forall i :: |past| <= i < |history| ==> exists j :: 0 <= j <= |bytes| && history[i] == start[place := bytes[..j]]
      {
        fails := *;
        if fails {
          faults := faults + 1;
          return false;
        }
        assert bytes[..k + 1] == bytes[..k] + [bytes[k]];
        files := files[place := files[place] + [bytes[k]]];
        assert files == start[place := bytes[..k + 1]];
        history := history + [files];
      }
      assert bytes[..|bytes|] == bytes;
      fails := *;
      if fails {
        faults := faults + 1;
      }
      return !fails;
    }

    /** Moves a file over another in one step, or fails and changes nothing. */
    method Rename(from: Place, to: Place) returns (ok: bool)
      requires Valid() && from in files && from != to
      modifies this
      ensures Valid()
      ensures ok ==> files == (old(files) - {from})[to := old(files)[from]] && history == old(history) + [files]
      ensures !ok ==> files == old(files) && history == old(history)
      ensures (ok <==> faults == old(faults)) && faults >= old(faults)
    {
      var fails: bool := *;
      if fails {
        faults := faults + 1;
        return false;
      }
      files := (files - {from})[to := files[from]];
      history := history + [files];
      return true;
    }

    method Remove(place: Place) returns (ok: bool)
      requires Valid() && place in files
      modifies this
      ensures Valid()
      ensures ok ==> files == old(files) - {place} && history == old(history) + [files]
      ensures !ok ==> files == old(files) && history == old(history)
      ensures (ok <==> faults == old(faults)) && faults >= old(faults)
    {
      var fails: bool := *;
      if fails {
        faults := faults + 1;
        return false;
      }
      files := files - {place};
      history := history + [files];
      return true;
    }

    /** keepBackup: whether the bytes are on record; None is a thrown error. A backup that exists is never written. */
    method KeepBackup(hash: Bytes -> Digest, bytes: Bytes) returns (kept: Option<bool>)
      requires Valid() && Injective(hash)
      modifies this
      ensures Valid() && |history| >= |old(history)| && history[..|old(history)|] == old(history)
      ensures (kept.Some? <==> faults == old(faults)) && faults >= old(faults)
      ensures kept == Some(true) ==> files == old(files)[Backup(hash(bytes)) := bytes]
      ensures kept == Some(false) ==> files == old(files)
      ensures kept == Some(false) <==> Backup(hash(bytes)) in old(files) && old(files)[Backup(hash(bytes))] != bytes
      ensures forall i :: |old(history)| <= i < |history| ==> BackupState(old(files), history[i], Backup(hash(bytes)))
      ensures BackupState(old(files), files, Backup(hash(bytes)))
    {
      var place := Backup(hash(bytes));
      if place in files {
        return Some(hash(files[place]) == hash(bytes));
      }
      var ok := WriteNew(place, bytes);
      return if ok then Some(true) else None;
    }

    /** replaceRegularFile: a temporary sibling is written and moved over the file; false is a thrown error. */
    method Replace(path: Text, next: Bytes) returns (ok: bool)
      requires Valid() && Tree(path) in files
      modifies this
      ensures Valid() && |history| >= |old(history)| && history[..|old(history)|] == old(history)
      ensures forall i :: |old(history)| <= i < |history| ==> ReplaceState(old(files), history[i], path, next)
      ensures ReplaceState(old(files), files, path, next)
      ensures ok ==> files[Tree(path)] == next && TempOf(path) !in files
      ensures (ok <==> faults == old(faults)) && faults >= old(faults)
    {
      var temp := TempOf(path);
      if temp in files {
        ok := Remove(temp);
        if !ok {
          return false;
        }
      }
      ok := WriteNew(temp, next);
      if !ok {
        return false;
      }
      ok := MoveOver(path);
    }

    /** The temporary sibling takes the file's place; where it cannot, it is removed if it can be. */
    method MoveOver(path: Text) returns (ok: bool)
      requires Valid() && Tree(path) in files && TempOf(path) in files && TempOf(path) != Tree(path)
      modifies this
      ensures Valid() && |history| >= |old(history)| && history[..|old(history)|] == old(history)
      ensures forall i :: |old(history)| <= i < |history| ==> history[i] == files
      ensures ok <==> faults == old(faults)
      ensures ok ==> files == (old(files) - {TempOf(path)})[Tree(path) := old(files)[TempOf(path)]]
      ensures !ok ==> faults > old(faults) && (files == old(files) - {TempOf(path)} || (files == old(files) && faults > old(faults) + 1))
    {
      ok := Rename(TempOf(path), Tree(path));
      if !ok {
        var removed := Remove(TempOf(path));
      }
    }

    method RepairAdoption(lock: Lock, hash: Bytes -> Digest, path: Text, backupOutside: bool) returns (r: Result<Receipt, Thrown>)
      requires Valid() && Injective(hash)
      modifies this
      ensures Valid() && |history| >= |old(history)| && history[..|old(history)|] == old(history)
      // At every point, a crash included.
      ensures Tree(path) in old(files) ==>
                SafeSince(|old(history)|, old(files), path, BackupOf(old(files), hash, path), NextBytes(lock, old(files), hash, path))
      // On return.
      ensures r.Ok? <==> faults == old(faults)
      ensures RepairAnswers(lock, old(files), hash, path, backupOutside, r)
      ensures r.Ok? ==> (r.value.Restored? <==> CanRepair(lock, old(files), hash, path) && backupOutside)
      ensures r.Ok? && !r.value.Restored? ==> files == old(files)
      ensures r.Ok? && r.value.Restored? ==> Repaired(lock, old(files), files, hash, path, r.value)
    {
      hide SafeState, Repaired, BackupState, ReplaceState, HostComplaints, FileComplaints, Untouched, PreviewAdoption, Injective, FindHost;
      if Tree(path) !in files {
        return Ok(Refused(MissingDestination));
      }
      var preview := PreviewAdoption(lock, files, hash, path);
      if preview.Refuse? {
        return Ok(Refused(preview.reason));
      }
      if preview.Unchanged? {
        return Ok(NothingToDo);
      }
      if !backupOutside {
        return Ok(Refused(BackupInside));
      }
      var next, current := files[Tree(preview.from.canonical)], files[Tree(path)];
      ghost var start := files;
      var kept := KeepBackup(hash, current);
      forall i | |old(history)| <= i < |history| ensures SafeState(start, history[i], path, BackupOf(start, hash, path), next) {
        KeepingSafe(start, history[i], path, BackupOf(start, hash, path), next);
      }
      if kept.None? {
        return Err(IoError);
      }
      if !kept.value {
        return Ok(Refused(BackupNotRecorded));
      }
      ghost var kept', since := files, |history|;
      var ok := Replace(path, next);
      forall i | since <= i < |history| ensures SafeState(start, history[i], path, BackupOf(start, hash, path), next) {
        ReplacingSafe(start, kept', history[i], path, BackupOf(start, hash, path), next);
      }
      if !ok {
        return Err(IoError);
      }
      FinishedRepair(lock, start, files, hash, path);
      return Ok(Restored(Backup(hash(current)), hash(current), preview.from.sha256));
    }

    method RollbackAdoption(lock: Lock, hash: Bytes -> Digest, path: Text, backup: Place) returns (r: Result<Receipt, Thrown>)
      requires Valid() && Injective(hash) && backup.Backup?
      modifies this
      ensures Valid() && |history| >= |old(history)| && history[..|old(history)|] == old(history)
      ensures forall i :: |old(history)| <= i < |history| ==>
                Tree(path) in old(files) && backup in old(files) && ReplaceState(old(files), history[i], path, old(files)[backup])
      ensures r.Ok? <==> faults == old(faults)
      ensures RollbackAnswers(lock, old(files), path, backup, r)
      ensures r.Ok? && !r.value.RolledBack? ==> files == old(files)
      ensures r.Ok? ==>
                (r.value.RolledBack? <==>
                 Tree(path) in old(files) && HasCopy(lock, path) && backup in old(files) && old(files)[backup] != old(files)[Tree(path)])
      ensures r.Ok? && r.value.RolledBack? ==>
                ReplaceState(old(files), files, path, old(files)[backup]) && files[Tree(path)] == old(files)[backup]
                && r.value == RolledBack(hash(old(files)[Tree(path)]), hash(old(files)[backup]))
    {
      if Tree(path) !in files {
        return Ok(Refused(MissingDestination));
      }
      if !exists e :: e in lock && exists h :: h in e.hosts && h.path == path && h.copy {
        if exists e :: e in lock && e.canonical == path {
          return Ok(Refused(CanonicalDrift));
        }
        if exists e :: e in lock && exists h :: h in e.hosts && h.path == path {
          return Ok(Refused(PointerBytes));
        }
        return Ok(Refused(NotAdopted));
      }
      if backup !in files {
        return Ok(Refused(MissingBackup));
      }
      var bytes, current := files[backup], files[Tree(path)];
      if hash(current) == hash(bytes) {
        return Ok(NothingToDo);
      }
      var ok := Replace(path, bytes);
      if !ok {
        return Err(IoError);
      }
      return Ok(RolledBack(hash(current), hash(bytes)));
    }
  }

  /** Everything that a repair may answer: with nothing to restore or no place to keep the old bytes, one receipt; else it restores or throws. */
  ghost predicate RepairAnswers(lock: Lock, start: Files, hash: Bytes -> Digest, path: Text, backupOutside: bool, r: Result<Receipt, Thrown>) {
    if Tree(path) !in start then r == Ok(Refused(MissingDestination))
    else
      match PreviewAdoption(lock, start, hash, path)
      case Refuse(reason) => r == Ok(Refused(reason))
      case Unchanged => r == Ok(NothingToDo)
      case WouldRestore(_) =>
        if !backupOutside then r == Ok(Refused(BackupInside))
        else if !CanRepair(lock, start, hash, path) then r == Ok(Refused(BackupNotRecorded))
        else r.Err? || r.value.Restored?
  }

  /** The same of a rollback. */
  ghost predicate RollbackAnswers(lock: Lock, start: Files, path: Text, backup: Place, r: Result<Receipt, Thrown>) {
    if Tree(path) !in start then r == Ok(Refused(MissingDestination))
    else if !HasCopy(lock, path) then
      r == Ok(Refused(if IsCanonical(lock, path) then CanonicalDrift else if HasHost(lock, path) then PointerBytes else NotAdopted))
    else if backup !in start then r == Ok(Refused(MissingBackup))
    else if start[backup] == start[Tree(path)] then r == Ok(NothingToDo)
    else r.Err? || r.value.RolledBack?
  }

  ghost predicate Injective(hash: Bytes -> Digest) {
    forall s, t :: hash(s) == hash(t) ==> s == t
  }

  /** Nothing but a backup that was not there before. */
  ghost predicate BackupState(start: Files, s: Files, backup: Place) {
    Untouched(start, s, {backup}) && (backup in start ==> backup in s && s[backup] == start[backup])
  }

  ghost predicate ReplaceState(start: Files, s: Files, path: Text, next: Bytes)
    requires Tree(path) in start
  {
    && Tree(path) in s && (s[Tree(path)] == start[Tree(path)] || s[Tree(path)] == next)
    && Untouched(start, s, {Tree(path), TempOf(path)})
  }

  ghost function BackupOf(files: Files, hash: Bytes -> Digest, path: Text): Place
    requires Tree(path) in files
  {
    Backup(hash(files[Tree(path)]))
  }

  /** What a repair puts in place. */
  ghost function NextBytes(lock: Lock, files: Files, hash: Bytes -> Digest, path: Text): Bytes
    requires Tree(path) in files
  {
    var preview := PreviewAdoption(lock, files, hash, path);
    if preview.WouldRestore? then files[Tree(preview.from.canonical)] else files[Tree(path)]
  }

  /** The preview would restore, and no other bytes stand under the name that the backup will have. */
  ghost predicate CanRepair(lock: Lock, files: Files, hash: Bytes -> Digest, path: Text) {
    && Tree(path) in files && PreviewAdoption(lock, files, hash, path).WouldRestore?
    && (BackupOf(files, hash, path) in files ==> files[BackupOf(files, hash, path)] == files[Tree(path)])
  }

  lemma KeepingSafe(start: Files, s: Files, path: Text, backup: Place, next: Bytes)
    requires Tree(path) in start && backup.Backup? && BackupState(start, s, backup)
    ensures SafeState(start, s, path, backup, next)
  {
  }

  lemma ReplacingSafe(start: Files, kept: Files, s: Files, path: Text, backup: Place, next: Bytes)
    requires Tree(path) in start && backup.Backup? && kept == start[backup := start[Tree(path)]]
    requires backup in start ==> start[backup] == start[Tree(path)]
    requires ReplaceState(kept, s, path, next)
    ensures SafeState(start, s, path, backup, next)
  {
  }

  lemma FinishedRepair(lock: Lock, start: Files, s: Files, hash: Bytes -> Digest, path: Text)
    requires CanRepair(lock, start, hash, path)
    requires var kept := start[BackupOf(start, hash, path) := start[Tree(path)]];
      ReplaceState(kept, s, path, NextBytes(lock, start, hash, path))
    requires s[Tree(path)] == NextBytes(lock, start, hash, path) && TempOf(path) !in s
    ensures Repaired(lock, start, s, hash, path,
                     Restored(BackupOf(start, hash, path), hash(start[Tree(path)]), PreviewAdoption(lock, start, hash, path).from.sha256))
  {
    hide FindHost;
  }

  ghost predicate HasCopy(lock: Lock, path: Text) {
    exists e :: e in lock && exists h :: h in e.hosts && h.path == path && h.copy
  }

  /** A finished repair: the canonical bytes are in place, the old ones on record, and nothing is left to complain of. */
  ghost predicate Repaired(lock: Lock, start: Files, s: Files, hash: Bytes -> Digest, path: Text, receipt: Receipt) {
    && CanRepair(lock, start, hash, path) && receipt.Restored?
    && var (e, host) := FindHost(lock, path).value;
    && receipt == Restored(BackupOf(start, hash, path), hash(start[Tree(path)]), e.sha256)
    && Tree(path) in s && s[Tree(path)] == start[Tree(e.canonical)]
    && receipt.backup in s && s[receipt.backup] == start[Tree(path)]
    && Untouched(start, s, {Tree(path), TempOf(path), receipt.backup})
    && HostComplaints(s, e, host, hash) == {} && TempOf(path) !in s
  }

  /** The canonical file itself stays sound exactly unless it stands where the temporary sibling goes. */
  lemma CanonicalSurvives(lock: Lock, start: Files, s: Files, hash: Bytes -> Digest, path: Text, receipt: Receipt)
    requires Repaired(lock, start, s, hash, path, receipt)
    ensures var e := FindHost(lock, path).value.0;
      FileComplaints(s, e.canonical, e.sha256, hash) == {} <==> Tree(e.canonical) != TempOf(path)
  {
  }

  /** After a finished repair the preview finds nothing more to do, with the same exception. */
  lemma RepairSettles(lock: Lock, start: Files, s: Files, hash: Bytes -> Digest, path: Text, receipt: Receipt)
    requires Repaired(lock, start, s, hash, path, receipt)
    ensures var e := FindHost(lock, path).value.0;
      PreviewAdoption(lock, s, hash, path) == (if Tree(e.canonical) != TempOf(path) then Unchanged else Refuse(MissingCanonical))
  {
  }

  // The exception: a locked canonical file at the temporary sibling's path.

  const HOSTED: Text := Plain("skills/a.md")
  const GOOD: Bytes := [1]
  const DRIFTED: Bytes := [2]

  ghost function OddLock(hash: Bytes -> Digest): Lock {
    [Entry(HOSTED + TEMP_SUFFIX, hash(GOOD), [Host(HOSTED, true, hash(GOOD))])]
  }

  lemma CanonicalConsumed(hash: Bytes -> Digest)
    requires Injective(hash)
    ensures var lock := OddLock(hash);
      var start := map[Tree(HOSTED) := DRIFTED, TempOf(HOSTED) := GOOD];
      var s := map[Tree(HOSTED) := GOOD, Backup(hash(DRIFTED)) := DRIFTED];
      && Repaired(lock, start, s, hash, HOSTED, Restored(Backup(hash(DRIFTED)), hash(DRIFTED), hash(GOOD)))
      && Tree(lock[0].canonical) in start && Tree(lock[0].canonical) !in s
  {
    var lock := OddLock(hash);
    assert hash(GOOD) != hash(DRIFTED);
    assert HostIndex(lock[0].hosts, HOSTED) == Some(0);
    assert FindHost(lock, HOSTED) == Some((lock[0], lock[0].hosts[0]));
    assert HOSTED + TEMP_SUFFIX != HOSTED by {
      assert |HOSTED + TEMP_SUFFIX| != |HOSTED|;
    }
  }

  lemma FoundCopy(lock: Lock, path: Text)
    requires FindHost(lock, path).Some? && FindHost(lock, path).value.1.copy
    ensures HasCopy(lock, path)
  {
    var (e, h) := FindHost(lock, path).value;
    assert e in lock && h in e.hosts && h.path == path && h.copy;
  }

  /**
   Repair and rollback with the returned backup. If the repair restores something, a rollback that does not throw undoes it:
   the destination is as it was, and so is everything but the temporary sibling and the backup.
   */
  method RepairThenRollback(disk: Disk, lock: Lock, hash: Bytes -> Digest, path: Text)
    returns (repaired: Result<Receipt, Thrown>, undone: Option<Result<Receipt, Thrown>>)
    requires disk.Valid() && Injective(hash)
    modifies disk
    ensures disk.Valid()
    ensures disk.faults == old(disk.faults) ==> repaired.Ok? && (undone.Some? ==> undone.value.Ok?)
    ensures repaired.Ok? ==> (repaired.value.Restored? <==> CanRepair(lock, old(disk.files), hash, path))
    ensures undone.Some? <==> repaired.Ok? && repaired.value.Restored?
    ensures undone.Some? && undone.value.Ok? ==>
              && Tree(path) in old(disk.files)
              && undone.value.value == RolledBack(repaired.value.after, repaired.value.before)
              && repaired.value.before == hash(old(disk.files)[Tree(path)])
              && Untouched(old(disk.files), disk.files, {TempOf(path), BackupOf(old(disk.files), hash, path)})
  {
    repaired := disk.RepairAdoption(lock, hash, path, true);
    undone := None;
    if repaired.Ok? && repaired.value.Restored? {
      FoundCopy(lock, path);
      var back := disk.RollbackAdoption(lock, hash, path, repaired.value.backup);
      undone := Some(back);
    }
  }
}
