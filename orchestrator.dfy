/**
 * The run of the archiver: load the history, look at each subdirectory of the working
 * directory in listing order, archive the ones changed since they were last archived,
 * stop at the first failure, and save the history.
 *
 * Writing an archive is an outside action; its outcome, including the clock reading
 * taken when the archive was closed, is a parameter.
 */
module Orchestrator {
  import opened Wrappers
  import opened TimeFormat
  import opened HistoryStore
  import opened ChangeDetector

  /** A reading of the wall clock in whole seconds (`int(time.time())`), within years 1..9999. */
  type ClockTime = t: int | InTimeRange(t) witness 0

  /** What creating one archive came to. */
  datatype ArchiveOutcome =
    | Archived(closedAt: ClockTime) // the tar.gz file was written and closed at this time
    | Failed(reason: string)        // an exception was raised while writing it
    | Interrupted                   // KeyboardInterrupt while writing it

  /** create_archive for a subdirectory and the archive name chosen for it. */
  type Archiver = (Dir, string) -> ArchiveOutcome

  /** An entry of `os.listdir` of the working directory. */
  datatype Entry = FileEntry(name: string) | DirEntry(tree: Dir)

  // ---- Listing ------------------------------------------------------------------------

  /** get_sub_dirs: the entries that are directories, in listing order. */
  function GetSubDirs(listing: seq<Entry>): (r: seq<Dir>)
    ensures forall d | d in r :: DirEntry(d) in listing
    ensures forall d | DirEntry(d) in listing :: d in r
    ensures |r| <= |listing|
  {
    if listing == [] then []
    else if listing[0].DirEntry? then [listing[0].tree] + GetSubDirs(listing[1..])
    else GetSubDirs(listing[1..])
  }

  /** The subdirectories of a listing split in two are those of the first part, then those of the second. */
  lemma {:induction false} GetSubDirsAppend(a: seq<Entry>, b: seq<Entry>)
    ensures GetSubDirs(a + b) == GetSubDirs(a) + GetSubDirs(b)
    decreases |a|
  {
    if a == [] {
      assert a + b == b;
    } else {
      assert (a + b)[1..] == a[1..] + b;
      GetSubDirsAppend(a[1..], b);
    }
  }

  function DirNames(ds: seq<Dir>): set<string>
  {
    set d | d in ds :: d.name
  }

  // ---- Archive names ------------------------------------------------------------------

  /** The subdirectory an archive name was made for, if it is one. */
  function ArchiveSubject(archiveName: string): Option<string>
  {
    if |archiveName| >= 16 && archiveName[..9] == "z-backup-" && archiveName[|archiveName| - 7..] == ".tar.gz"
    then Some(archiveName[9..|archiveName| - 7])
    else None
  }

  /** get_archive_name: `z-backup-<name>.tar.gz`, from which the name can be read back. */
  function GetArchiveName(name: string): (r: string)
    ensures ArchiveSubject(r) == Some(name)
  {
    var r := "z-backup-" + name + ".tar.gz";
    assert r[..9] == "z-backup-" && r[|r| - 7..] == ".tar.gz" && r[9..|r| - 7] == name;
    r
  }

  /** Every archive name is the name of exactly the subdirectory it is read back as. */
  lemma ArchiveSubjectInverse(archiveName: string)
    requires ArchiveSubject(archiveName).Some?
    ensures GetArchiveName(ArchiveSubject(archiveName).value) == archiveName
  {
    var s := archiveName;
    assert s == s[..9] + s[9..|s| - 7] + s[|s| - 7..];
  }

  /** Distinct subdirectories get distinct archives. */
  lemma ArchiveNameInjective(a: string, b: string)
    requires GetArchiveName(a) == GetArchiveName(b)
    ensures a == b
  {
    assert Some(a) == ArchiveSubject(GetArchiveName(a)) == Some(b);
  }

  // ---- One subdirectory ---------------------------------------------------------------

  /**
   * get_last_archivized_time: the watermark, -1 when the directory has no entry, and the
   * text shown for it, `never` for a negative watermark.
   */
  function GetLastArchivizedTime(name: string, history: History): (r: (int, string))
    requires TimesInRange(history)
    ensures name in history ==> r.0 == history[name]
    ensures name !in history ==> r.0 == -1
    ensures r.1 == "never" <==> r.0 < 0
    ensures r.0 >= 0 ==> StrTimeToSec(r.1) == Some(r.0)
  {
    var t := if name in history then history[name] else -1;
    if t >= 0 then
      SecToStrTimeNotNever(t);
      StrTimeRoundTrip(t);
      (t, SecToStrTime(t))
    else (t, "never")
  }

  /** Python truthiness of what is_modified_after returns: `None` and `0` are false. */
  predicate Truthy(found: Option<int>)
  {
    found.Some? && found.value != 0
  }

  /** Where the loop over the subdirectories stands: the history so far, and whether it broke off. */
  datatype Progress = Progress(history: History, stopped: bool)

  /**
   * try_archive, with update_archives' handling of its exceptions: archive the directory
   * when something in it is newer than its watermark. Only the directory's own entry can
   * change, and only to the time its archive was closed; a failed or interrupted archive
   * changes nothing and stops the run.
   */
  function ArchiveStep(d: Dir, history: History, archive: Archiver): (r: Progress)
    requires TimesInRange(history)
    ensures TimesInRange(r.history)
    ensures history.Keys <= r.history.Keys <= history.Keys + {d.name}
    ensures forall k | k in history && k != d.name :: r.history[k] == history[k]
    ensures d.name in r.history && (d.name !in history || r.history[d.name] != history[d.name]) ==>
      archive(d, GetArchiveName(d.name)) == Archived(r.history[d.name])
    ensures r.stopped ==> r.history == history && !archive(d, GetArchiveName(d.name)).Archived?
  {
    var (lastTime, _) := GetLastArchivizedTime(d.name, history);
    if Truthy(ModifiedAfter(d, lastTime)) then
      match archive(d, GetArchiveName(d.name))
      case Archived(t) => Progress(history[d.name := t], false)
      case _ => Progress(history, true)
    else Progress(history, false)
  }

  /** try_archive: walk the directory, and archive it if the walk found a change. */
  method TryArchive(d: Dir, history: History, archive: Archiver) returns (r: Progress)
    requires TimesInRange(history)
    ensures r == ArchiveStep(d, history, archive)
  {
    var archiveName := GetArchiveName(d.name);
    var (lastTime, _) := GetLastArchivizedTime(d.name, history);
    var isModified := IsModifiedAfter(d, lastTime);
    if isModified.Some? && isModified.value != 0 {
      var outcome := archive(d, archiveName);
      match outcome {
        case Archived(t) =>
          r := Progress(history[d.name := t], false);
        case _ =>
          r := Progress(history, true);
      }
    } else {
      r := Progress(history, false);
    }
  }

  /** A directory with an entry and nothing newer than it is left alone. */
  lemma StepUnmodified(d: Dir, history: History, archive: Archiver)
    requires TimesInRange(history) && d.name in history
    requires forall x | x in Preorder(d) :: x <= history[d.name]
    ensures ArchiveStep(d, history, archive) == Progress(history, false)
  {
    ModifiedAfterSpec(d, history[d.name]);
  }

  /** A directory without an entry, whose own time is after the epoch, is archived. */
  lemma StepNewDirectory(d: Dir, history: History, archive: Archiver)
    requires TimesInRange(history) && d.name !in history && d.mtime > 0
    ensures ArchiveStep(d, history, archive) ==
      match archive(d, GetArchiveName(d.name))
      case Archived(t) => Progress(history[d.name := t], false)
      case _ => Progress(history, true)
  {
    ModifiedAfterSpec(d, -1);
  }

  /**
   * A directory with an entry at or after the epoch and some time in it newer than that
   * entry is archived again: stamped with the closing time on success, and the run stops
   * otherwise.
   */
  lemma StepModified(d: Dir, history: History, archive: Archiver)
    requires TimesInRange(history) && d.name in history && history[d.name] >= 0
    requires exists x | x in Preorder(d) :: x > history[d.name]
    ensures ArchiveStep(d, history, archive) ==
      match archive(d, GetArchiveName(d.name))
      case Archived(t) => Progress(history[d.name := t], false)
      case _ => Progress(history, true)
  {
    ModifiedAfterSpec(d, history[d.name]);
  }

  /**
   * A walk that reports its change at time 0 is read as no change by the truth test: the
   * directory is not archived, and the run goes on.
   */
  lemma FoundAtEpochNotArchived(d: Dir, history: History, archive: Archiver)
    requires TimesInRange(history)
    requires ModifiedAfter(d, GetLastArchivizedTime(d.name, history).0) == Some(0)
    ensures ArchiveStep(d, history, archive) == Progress(history, false)
  {
  }

  /**
   * A directory without an entry whose own time is the epoch, holding a file changed
   * later: the walk reports the directory's own time 0 first, so the directory is not
   * archived although the file is newer than the watermark.
   */
  lemma EpochTimeNotArchived(archive: Archiver)
    ensures var d := Dir("a", 0, [File("f", 100)], []);
      && 100 in Preorder(d)
      && ModifiedAfter(d, -1) == Some(0)
      && ArchiveStep(d, map[], archive) == Progress(map[], false)
  {
    var d := Dir("a", 0, [File("f", 100)], []);
    ModifiedAfterSpec(d, -1);
    assert FileTimes(d.files) == [100];
    FoundAtEpochNotArchived(d, map[], archive);
  }

  // ---- All subdirectories -------------------------------------------------------------

  /** The loop of update_archives, from a given history: one step per subdirectory, stopping at the first failure. */
  function UpdateRun(subdirs: seq<Dir>, history: History, archive: Archiver): (r: Progress)
    requires TimesInRange(history)
    ensures TimesInRange(r.history)
    decreases |subdirs|
  {
    if subdirs == [] then Progress(history, false)
    else
      var step := ArchiveStep(subdirs[0], history, archive);
      if step.stopped then step else UpdateRun(subdirs[1..], step.history, archive)
  }

  /**
   * update_archives: try each subdirectory in listing order; on the first failure or
   * interruption, stop and return the history as it stands.
   */
  method UpdateArchives(listing: seq<Entry>, history: History, archive: Archiver) returns (result: History)
    requires TimesInRange(history)
    ensures result == UpdateRun(GetSubDirs(listing), history, archive).history
  {
    var subdirs := GetSubDirs(listing);
    result := history;
    var i := 0;
    while i < |subdirs|
      invariant 0 <= i <= |subdirs|
      invariant TimesInRange(result)
      invariant UpdateRun(subdirs[i..], result, archive) == UpdateRun(subdirs, history, archive)
    {
      assert subdirs[i..][1..] == subdirs[i + 1..];
      var step := TryArchive(subdirs[i], result, archive);
      if step.stopped {
        break;
      }
      result := step.history;
      i := i + 1;
    }
  }

  /** No entry is ever dropped, and the only entries added are for subdirectories. */
  lemma {:induction false} UpdateRunKeys(subdirs: seq<Dir>, history: History, archive: Archiver)
    requires TimesInRange(history)
    ensures history.Keys <= UpdateRun(subdirs, history, archive).history.Keys <= history.Keys + DirNames(subdirs)
    decreases |subdirs|
  {
    if subdirs != [] {
      var step := ArchiveStep(subdirs[0], history, archive);
      if !step.stopped {
        UpdateRunKeys(subdirs[1..], step.history, archive);
        assert DirNames(subdirs) == {subdirs[0].name} + DirNames(subdirs[1..]);
      }
    }
  }

  /** An entry for a name that is not a subdirectory keeps its time. */
  lemma {:induction false} UpdateRunUntouched(subdirs: seq<Dir>, history: History, archive: Archiver, k: string)
    requires TimesInRange(history) && k in history && k !in DirNames(subdirs)
    ensures k in UpdateRun(subdirs, history, archive).history
    ensures UpdateRun(subdirs, history, archive).history[k] == history[k]
    decreases |subdirs|
  {
    if subdirs != [] {
      var step := ArchiveStep(subdirs[0], history, archive);
      assert subdirs[0] in subdirs;
      if !step.stopped {
        assert DirNames(subdirs[1..]) <= DirNames(subdirs);
        UpdateRunUntouched(subdirs[1..], step.history, archive, k);
      }
    }
  }

  /** Every entry that is new or changed holds the time at which an archive of that subdirectory was closed. */
  lemma {:induction false} UpdateRunStamps(subdirs: seq<Dir>, history: History, archive: Archiver, k: string)
    requires TimesInRange(history)
    requires k in UpdateRun(subdirs, history, archive).history
    requires k !in history || UpdateRun(subdirs, history, archive).history[k] != history[k]
    ensures exists i | 0 <= i < |subdirs| ::
      && subdirs[i].name == k
      && archive(subdirs[i], GetArchiveName(k)) == Archived(UpdateRun(subdirs, history, archive).history[k])
    decreases |subdirs|
  {
    if subdirs == [] {
      assert false;
    }
    var d, rest := subdirs[0], subdirs[1..];
    var step := ArchiveStep(d, history, archive);
    if step.stopped {
      assert false;
    }
    var r := UpdateRun(rest, step.history, archive).history;
    assert r == UpdateRun(subdirs, history, archive).history;
    if k in step.history && r[k] == step.history[k] {
      assert d.name == k && archive(d, GetArchiveName(k)) == Archived(r[k]);
    } else {
      UpdateRunStamps(rest, step.history, archive, k);
      var j :| 0 <= j < |rest| && rest[j].name == k && archive(rest[j], GetArchiveName(k)) == Archived(r[k]);
      assert subdirs[j + 1] == rest[j];
      assert subdirs[j + 1].name == k && archive(subdirs[j + 1], GetArchiveName(k)) == Archived(r[k]);
    }
  }

  /**
   * The run over a listing in two parts: the second part is only looked at when the
   * first finished without a failure, and starts from the history the first left.
   */
  lemma {:induction false} UpdateRunAppend(a: seq<Dir>, b: seq<Dir>, history: History, archive: Archiver)
    requires TimesInRange(history)
    ensures UpdateRun(a + b, history, archive) ==
      if UpdateRun(a, history, archive).stopped then UpdateRun(a, history, archive)
      else UpdateRun(b, UpdateRun(a, history, archive).history, archive)
    decreases |a|
  {
    if a == [] {
      assert a + b == b;
    } else {
      assert (a + b)[0] == a[0];
      assert (a + b)[1..] == a[1..] + b;
      var step := ArchiveStep(a[0], history, archive);
      if !step.stopped {
        UpdateRunAppend(a[1..], b, step.history, archive);
      }
    }
  }

  /** A subdirectory with nothing newer than its entry keeps its watermark through the run. */
  lemma {:induction false} UpdateRunUnmodified(subdirs: seq<Dir>, history: History, archive: Archiver, k: string)
    requires TimesInRange(history) && k in history
    requires forall i, x | 0 <= i < |subdirs| && subdirs[i].name == k && x in Preorder(subdirs[i]) :: x <= history[k]
    ensures k in UpdateRun(subdirs, history, archive).history
    ensures UpdateRun(subdirs, history, archive).history[k] == history[k]
    decreases |subdirs|
  {
    if subdirs != [] {
      var d := subdirs[0];
      if d.name == k {
        StepUnmodified(d, history, archive);
      }
      var step := ArchiveStep(d, history, archive);
      if !step.stopped {
        var rest := subdirs[1..];
        forall i, x | 0 <= i < |rest| && rest[i].name == k && x in Preorder(rest[i])
          ensures x <= step.history[k]
        {
          assert rest[i] == subdirs[i + 1];
        }
        UpdateRunUnmodified(rest, step.history, archive, k);
      }
    }
  }

  /**
   * A subdirectory with an entry at or after the epoch and something newer in it gets
   * the closing time of its archive, when names are distinct and every archive up to and
   * including its own succeeds.
   */
  lemma {:induction false} UpdateRunModified(subdirs: seq<Dir>, history: History, archive: Archiver, i: int, t: ClockTime)
    requires TimesInRange(history) && DistinctDirNames(subdirs) && 0 <= i < |subdirs|
    requires subdirs[i].name in history && history[subdirs[i].name] >= 0
    requires exists x | x in Preorder(subdirs[i]) :: x > history[subdirs[i].name]
    requires forall j | 0 <= j < i :: archive(subdirs[j], GetArchiveName(subdirs[j].name)).Archived?
    requires archive(subdirs[i], GetArchiveName(subdirs[i].name)) == Archived(t)
    ensures subdirs[i].name in UpdateRun(subdirs, history, archive).history
    ensures UpdateRun(subdirs, history, archive).history[subdirs[i].name] == t
    decreases i
  {
    DistinctDirNamesTail(subdirs);
    var rest := subdirs[1..];
    if i == 0 {
      ModifiedFirst(subdirs, history, archive, t);
    } else {
      var step := ArchiveStep(subdirs[0], history, archive);
      PassFirst(subdirs, history, archive, i);
      assert rest[i - 1] == subdirs[i];
      forall j | 0 <= j < i - 1
        ensures archive(rest[j], GetArchiveName(rest[j].name)).Archived?
      {
        assert rest[j] == subdirs[j + 1];
      }
      UpdateRunModified(rest, step.history, archive, i - 1, t);
    }
  }

  /** The names after the first of a list with distinct names are distinct, and differ from the first. */
  lemma DistinctDirNamesTail(ds: seq<Dir>)
    requires DistinctDirNames(ds) && ds != []
    ensures DistinctDirNames(ds[1..]) && ds[0].name !in DirNames(ds[1..])
  {
    var rest := ds[1..];
    forall a, b | 0 <= a < b < |rest|
      ensures rest[a].name != rest[b].name
    {
      assert rest[a] == ds[a + 1] && rest[b] == ds[b + 1];
    }
    forall e | e in rest
      ensures e.name != ds[0].name
    {
      var j :| 0 <= j < |rest| && rest[j] == e;
      assert ds[j + 1] == e;
    }
  }

  /** The first subdirectory, modified and archived, keeps its new stamp through the rest of a run with distinct names. */
  lemma ModifiedFirst(subdirs: seq<Dir>, history: History, archive: Archiver, t: ClockTime)
    requires TimesInRange(history) && subdirs != []
    requires subdirs[0].name !in DirNames(subdirs[1..])
    requires subdirs[0].name in history && history[subdirs[0].name] >= 0
    requires exists x | x in Preorder(subdirs[0]) :: x > history[subdirs[0].name]
    requires archive(subdirs[0], GetArchiveName(subdirs[0].name)) == Archived(t)
    ensures subdirs[0].name in UpdateRun(subdirs, history, archive).history
    ensures UpdateRun(subdirs, history, archive).history[subdirs[0].name] == t
  {
    var d := subdirs[0];
    StepModified(d, history, archive);
    var h := history[d.name := t];
    assert UpdateRun(subdirs, history, archive) == UpdateRun(subdirs[1..], h, archive);
    UpdateRunUntouched(subdirs[1..], h, archive, d.name);
  }

  /** A first subdirectory of another name whose archive, if made, succeeds leaves a name's entry as it was. */
  lemma PassFirst(subdirs: seq<Dir>, history: History, archive: Archiver, i: int)
    requires TimesInRange(history) && 0 < i < |subdirs|
    requires subdirs[0].name != subdirs[i].name && subdirs[i].name in history
    requires archive(subdirs[0], GetArchiveName(subdirs[0].name)).Archived?
    ensures var step := ArchiveStep(subdirs[0], history, archive);
      && !step.stopped
      && subdirs[i].name in step.history && step.history[subdirs[i].name] == history[subdirs[i].name]
      && UpdateRun(subdirs, history, archive) == UpdateRun(subdirs[1..], step.history, archive)
  {
  }

  /** With no archive ever written, the history comes out as it went in. */
  lemma UpdateRunNothingArchived(subdirs: seq<Dir>, history: History, archive: Archiver)
    requires TimesInRange(history)
    requires forall i | 0 <= i < |subdirs| :: !archive(subdirs[i], GetArchiveName(subdirs[i].name)).Archived?
    ensures UpdateRun(subdirs, history, archive).history == history
  {
    var r := UpdateRun(subdirs, history, archive).history;
    UpdateRunKeys(subdirs, history, archive);
    forall k | k in r
      ensures k in history && r[k] == history[k]
    {
      if k !in history || r[k] != history[k] {
        UpdateRunStamps(subdirs, history, archive, k);
        assert false;
      }
    }
    assert r == history;
  }

  // ---- The whole run ------------------------------------------------------------------

  /** main, as a function: the history to save, or the format error that ends the run. */
  function NextHistory(file: MetadataFile, listing: seq<Entry>, archive: Archiver): (r: Result<History, FormatError>)
    ensures r.Err? <==> Load(file).Err?
    ensures r.Err? ==> r.error == Load(file).error
    ensures r.Ok? ==> TimesInRange(r.value) && Load(file).value.Keys <= r.value.Keys
  {
    match Load(file)
    case Err(e) => Err(e)
    case Ok(h) =>
      LoadedValid(file);
      UpdateRunKeys(GetSubDirs(listing), h, archive);
      Ok(UpdateRun(GetSubDirs(listing), h, archive).history)
  }

  /**
   * main: load the history, update the archives, and build the document to save. A
   * format error in the history ends the run before any archive is made or anything is
   * saved.
   */
  method Run(file: MetadataFile, listing: seq<Entry>, archive: Archiver) returns (r: Result<seq<Node>, FormatError>)
    ensures r.Err? <==> Load(file).Err?
    ensures r.Err? ==> r.error == Load(file).error
    ensures r.Ok? ==> NextHistory(file, listing, archive).Ok? && SavedDocument(r.value, NextHistory(file, listing, archive).value)
  {
    var loaded := ParseArchiveHistory(file);
    if loaded.Err? {
      return Err(loaded.error);
    }
    LoadedValid(file);
    var history := UpdateArchives(listing, loaded.value, archive);
    var roots := SaveHistory(history);
    return Ok(roots);
  }

  /**
   * What one run saves, the next run loads: when no subdirectory has an empty name, the
   * document saved at the end of a run reads back as exactly the history it was made from.
   */
  lemma RunRoundTrip(file: MetadataFile, listing: seq<Entry>, archive: Archiver, saved: seq<Node>, reread: seq<Node>)
    requires NextHistory(file, listing, archive).Ok?
    requires forall d | d in GetSubDirs(listing) :: d.name != ""
    requires SavedDocument(saved, NextHistory(file, listing, archive).value)
    requires |reread| == 1 && GetAttribute(reread[0], "version") == "1"
    requires DirectoryNodes(reread[0].childNodes) == DirectoryNodes(saved[0].childNodes)
    ensures Load(Parsed(reread)) == NextHistory(file, listing, archive)
  {
    var h := Load(file).value;
    var subdirs := GetSubDirs(listing);
    LoadedValid(file);
    UpdateRunKeys(subdirs, h, archive);
    var next := NextHistory(file, listing, archive).value;
    assert "" !in DirNames(subdirs);
    SaveLoadRoundTrip(next, saved, reread);
  }
}
