# incremental_archive, modelled in Dafny

`incremental_archive.py` archives each immediate subdirectory of the working directory
as `z-backup-<name>.tar.gz` when something in it has changed since its last archive.
It keeps the time of each directory's last archive in `archive-history.xml`.
A run does three things:

1. It loads that history. An absent file is an empty history. A malformed document is an
   `ExcInvalidFormat`.
2. It walks each subdirectory in listing order, looking for a modification time after the
   stored watermark. `CVS` and `.svn` are not descended into. When it finds one, it writes
   the archive and stamps the clock time as the new watermark. It stops at the first
   failure or interrupt.
3. It saves the history again.

The model has five modules:

- `Wrappers` holds `Option` and `Result`.
- `TimeFormat` turns seconds since the epoch into `YYYY-MM-DD HH:MM:SS GMT` text and back.
  This is what `time.gmtime`/`time.strftime` and `time.strptime`/`calendar.timegm` do.
  Here it is written out as proleptic Gregorian day and second arithmetic, valid for
  years 1 to 9999.
- `HistoryStore` loads the history from the document tree that `xml.dom.minidom` hands
  over, as a function and as the loop of `parse_archive_history`. It also builds the
  document that `save_history` writes, as a loop over the history's entries.
- `ChangeDetector` models `is_modified_after` as a work-list loop over the directory tree,
  with `dirs.remove` pruning as written. It gives a pre-order reference definition of what
  the walk inspects.
- `Orchestrator` models `get_sub_dirs`, `get_archive_name`, `get_last_archivized_time`,
  `try_archive`, the fail-fast loop of `update_archives`, and `main`.

The history is a `map` from directory name to seconds. The methods that change it take
the old map and return the new one.

Main results:

- Saving and then loading gives the same history back: `HistoryStore.SaveLoadRoundTrip`.
  Across a whole run, what a run saves is what the next run loads:
  `Orchestrator.RunRoundTrip`. Both hold for the model's formatter, which writes every
  year from 1 to 9999 as four digits. Python 2's `strftime` does not: with its default
  `accept2dyear` it raises for years 100 to 1899 and prints years 1 to 99 as other
  years. So for a stored time before 1900, which loading accepts, the program's save
  raises or writes a different year (see "## Left out").
- A directory with an entry at or after the epoch and something newer in it is archived
  again (`Orchestrator.StepModified`, `Orchestrator.UpdateRunModified`), and one with
  nothing newer is left alone (`Orchestrator.StepUnmodified`).
- The text form of a time is canonical. Every text the parser accepts is the formatter's
  output for the time it denotes.
- The walk returns the first time in pre-order that is after the watermark, or `None`
  exactly when there is none. Nothing inside a nested `CVS` or `.svn` directory affects
  the answer.
- The update loop never drops an entry. It changes only the entries of subdirectories,
  and only to the closing time of an archive that succeeded. It stops at the first
  failure, and after that point the later subdirectories are never looked at.

Where the code and its documentation disagree, the model follows the code:

- **Root tag name.** The root element's tag name is never checked on load, so a single
  root with a `version` attribute is accepted whatever its tag is.
- **First-time directories.** A directory with no stored watermark is archived when the
  first time after -1 in walk order is not 0. The walk returns its first hit, and the
  code's `if isModified:` test reads a returned 0 as "no change", whatever later times
  the tree holds. A tree whose times are all negative is not modified either.
  `Orchestrator.FoundAtEpochNotArchived` states the general case, and
  `Orchestrator.EpochTimeNotArchived` shows a directory at time 0 holding a file at time
  100 that is not archived.
- **Clock stamp.** The new watermark is whatever clock reading the archive step reports.
  Nothing relates it to the start time of the run.

## Model

| member | source | states |
|---|---|---|
| TimeFormat.GmTime | incremental_archive.py:169 | time.gmtime as day arithmetic, with division rounding down for times before 1970; its contract is stated by GmTimeInverse and TimeGmInverse |
| TimeFormat.TimeGm | incremental_archive.py:75 | calendar.timegm as day arithmetic; its contract is stated by TimeGmInverse and GmTimeInverse |
| TimeFormat.FormatDateTime | incremental_archive.py:169 | time.strftime with `%Y-%m-%d %H:%M:%S GMT`, zero-padded fields; its contract is stated by FormatDateTimeShape |
| TimeFormat.ParseDateTime | incremental_archive.py:75 | time.strptime with that format, None for another shape or a date that does not exist; its contract is stated by ParseFormatted and FormatParsed |
| TimeFormat.SecToStrTime | incremental_archive.py:168-169 | sec_to_str_time as strftime of gmtime; its contract is stated by StrTimeRoundTrip and SecToStrTimeNotNever |
| TimeFormat.CalendarConstants | incremental_archive.py:169 | 0001-01-01 is day 0, 1970-01-01 is day 719162, and 10000-01-01 ends the four-digit years |
| TimeFormat.YearFrom | incremental_archive.py:169 | the year found for a day number is the one whose days contain it |
| TimeFormat.MonthOfDay | incremental_archive.py:169 | the month found for a day of the year is the one whose days contain it |
| TimeFormat.GmTimeInverse | incremental_archive.py:169 | gmtime of a time in range is a real calendar date and time, and timegm of it gives the time back |
| TimeFormat.TimeGmInverse | incremental_archive.py:75 | timegm of a real date and time in years 1..9999 is in range, and gmtime of it gives that date back |
| TimeFormat.FormatDateTimeShape | incremental_archive.py:169 | strftime output has the `DDDD-DD-DD DD:DD:DD GMT` shape, and its digit fields read back as the fields formatted |
| TimeFormat.ParseFormatted | incremental_archive.py:75 | strptime of the formatted text of a real date gives that date |
| TimeFormat.FormatParsed | incremental_archive.py:75 | every text strptime accepts is a real date, and formatting it gives the same text |
| TimeFormat.StrTimeToSec | incremental_archive.py:75 | a text that parses denotes a time within years 1..9999 |
| TimeFormat.StrTimeRoundTrip | incremental_archive.py:168-169 | parsing the stored text of any time in range gives that time back |
| TimeFormat.StrTimeCanonical | incremental_archive.py:75 | every parsable text is the stored text of the time it denotes |
| TimeFormat.SecToStrTimeNotNever | incremental_archive.py:121-124 | the stored text of a time is never the word `never` |
| HistoryStore.GetAttribute | incremental_archive.py:49 | getAttribute: the attribute's value, or the empty string when it is absent; used by every check below |
| HistoryStore.DirectoryNodesAppend | incremental_archive.py:51 | the filter keeps document order: the kept nodes of two parts are those of the first, then those of the second |
| HistoryStore.DirectoryNodesSingle | incremental_archive.py:51 | a single node is kept iff it is named `directory` |
| HistoryStore.DirectoryNodes | incremental_archive.py:51 | exactly the children named `directory` are kept, and no others; their order is stated by DirectoryNodesAppend and DirectoryNodesSingle |
| HistoryStore.GetDirNodes | incremental_archive.py:44-60 | fewer or more than one top-level node is InvalidRootElements; an empty or absent version is MissingVersion; otherwise the `directory` children of the root |
| HistoryStore.GetLastArchivized | incremental_archive.py:66-78 | succeeds iff the text parses; an empty text is MissingLastArchivized and any other failure InvalidLastArchivized; the time read is in range and its stored text is the attribute |
| HistoryStore.ParseDirNode | incremental_archive.py:80-84 | succeeds iff the name is non-empty and the time parses; the error says which check failed; success sets that name to the parsed time |
| HistoryStore.LoadDirNodes | incremental_archive.py:36-37 | the loop of parse_archive_history as a fold stopping at the first error; its contract is stated by LoadDirNodesSucceeds, LoadDirNodesFirstError, LoadDirNodesKeys and LoadDirNodesLastWins |
| HistoryStore.Load | incremental_archive.py:32-42 | parse_archive_history as a function of what reading the file gave; its contract is stated by LoadSucceedsIff, LoadedContents and LoadedValid |
| HistoryStore.LoadDirNodesStep | incremental_archive.py:36-37 | one turn of the loop: a bad entry ends it with its error, a good one is recorded and the loop goes on |
| HistoryStore.ParseArchiveHistory | incremental_archive.py:32-42 | the loop gives what the load function gives; an unreadable file is the empty history; malformed XML is InvalidXml |
| HistoryStore.LoadDirNodesSucceeds | incremental_archive.py:36-37 | reading the entries succeeds iff every entry is well formed |
| HistoryStore.LoadDirNodesFirstError | incremental_archive.py:36-37 | the error reported is the one of the first ill-formed entry |
| HistoryStore.LoadDirNodesKeys | incremental_archive.py:80-84 | the names loaded are the old names plus the entry names, other entries stay, and validity is kept |
| HistoryStore.LoadDirNodesLastWins | incremental_archive.py:84 | the time kept for a name is the one of its last entry |
| HistoryStore.LoadSucceedsIff | incremental_archive.py:32-60 | loading a parsed document succeeds iff it has one root with a version and all `directory` children are well formed |
| HistoryStore.LoadFailsAtFirstBadEntry | incremental_archive.py:32-42 | loading fails with the error of the first ill-formed `directory` child |
| HistoryStore.LoadedContents | incremental_archive.py:32-42 | a loaded history has exactly the names of the `directory` children, each with the time of its last entry, all valid |
| HistoryStore.LoadedValid | incremental_archive.py:32-42 | every loaded history has no empty name and only times in range |
| HistoryStore.CreateDirTag | incremental_archive.py:160-166 | the tag is a `directory` element carrying the name, and its time text reads back as the stored time |
| HistoryStore.WriteEntryTag | incremental_archive.py:153-155 | appending the tag of an entry not yet written keeps one distinct tag per written entry |
| HistoryStore.SaveHistory | incremental_archive.py:148-158 | the document has one `archive` root with version 1 and exactly one tag per entry, names distinct |
| HistoryStore.DirectoryNodesOfTags | incremental_archive.py:51 | no tag of a saved document is skipped on reading |
| HistoryStore.DirTagsWellFormed | incremental_archive.py:160-166 | every saved tag passes the load checks when names are non-empty |
| HistoryStore.LoadDirTags | incremental_archive.py:36-37 | reading the tags of a saved history gives that history |
| HistoryStore.SaveLoadRoundTrip | incremental_archive.py:148-166 | a saved valid history, read back with any extra non-directory children, loads as the same history |
| ChangeDetector.RemoveFirstNamed | incremental_archive.py:138-139 | list.remove drops the first directory of that name, and nothing when there is none |
| ChangeDetector.Pruned | incremental_archive.py:138-139 | the two removals, `CVS` first then `.svn`; its contract is stated by RemoveFirstNamed and PrunedIsKeep |
| ChangeDetector.WalkTimes | incremental_archive.py:128-139 | the times os.walk shows top-down, each directory before its files and then its pruned subdirectories; its contract is stated by WalkTimesIsPreorder |
| ChangeDetector.ModifiedAfter | incremental_archive.py:127-140 | is_modified_after as a function; its contract is stated by ModifiedAfterSpec and PrunedContentIgnored |
| ChangeDetector.FirstAfter | incremental_archive.py:130-137 | a result is after the watermark and among the times; no result iff no time is after it |
| ChangeDetector.IsModifiedAfter | incremental_archive.py:127-140 | the walk loop returns the first time after the watermark in walk order, or None |
| ChangeDetector.FirstModifiedFile | incremental_archive.py:133-137 | the loop over one directory's files returns the first file time after the watermark |
| ChangeDetector.FirstAfterAt | incremental_archive.py:133-137 | a time after the watermark with none before it is the one returned |
| ChangeDetector.WalkStep | incremental_archive.py:128-139 | one step: the directory's own time, then its files, then the rest with its pruned subdirectories first |
| ChangeDetector.WalkTimesIsPreorder | incremental_archive.py:128 | the work-list walk visits the trees in pre-order |
| ChangeDetector.ModifiedAfterSpec | incremental_archive.py:127-140 | a result is a time of the pre-order after the watermark; None iff none is after it; the root's own time is looked at first |
| ChangeDetector.PrunedIsKeep | incremental_archive.py:138-139 | with distinct names, the two removals take out every `CVS` and `.svn` subdirectory |
| ChangeDetector.PreorderStrip | incremental_archive.py:138-139 | the walk sees the same times in a tree and in that tree with all nested VCS directories cut away |
| ChangeDetector.PrunedContentIgnored | incremental_archive.py:138-139 | two trees that differ only inside nested `CVS` or `.svn` directories give the same answer for every watermark |
| Orchestrator.GetSubDirs | incremental_archive.py:100-102 | every directory entry of the listing, and nothing else, is a subdirectory |
| Orchestrator.GetSubDirsAppend | incremental_archive.py:100-102 | the listing order is kept |
| Orchestrator.GetArchiveName | incremental_archive.py:104-106 | the archive name is `z-backup-<name>.tar.gz`, from which the name reads back |
| Orchestrator.ArchiveSubjectInverse | incremental_archive.py:104-106 | every name of that form is the archive name of the name it reads back as |
| Orchestrator.ArchiveNameInjective | incremental_archive.py:104-106 | distinct subdirectories get distinct archive names |
| Orchestrator.GetLastArchivizedTime | incremental_archive.py:116-125 | the watermark is the stored time, or -1 without an entry; the text is `never` iff the watermark is negative, and otherwise reads back as it |
| Orchestrator.Truthy | incremental_archive.py:112 | Python truth of the walk's result: None and 0 are false; used by ArchiveStep and TryArchive |
| Orchestrator.ArchiveStep | incremental_archive.py:108-114 | only the directory's own entry can change, only to the closing time of its archive; a stop changes nothing and comes from an archive that did not succeed |
| Orchestrator.TryArchive | incremental_archive.py:108-114 | walking, testing the result for truth and archiving give the archive step |
| Orchestrator.StepUnmodified | incremental_archive.py:111-112 | a directory with an entry and no time after it is left alone, and the run goes on |
| Orchestrator.StepNewDirectory | incremental_archive.py:116-120 | a directory without an entry and a positive own time is archived: stamped on success, stopping otherwise |
| Orchestrator.StepModified | incremental_archive.py:108-114 | a directory with an entry at or after the epoch and a time newer than it is archived: stamped with the closing time on success, stopping the run otherwise |
| Orchestrator.FoundAtEpochNotArchived | incremental_archive.py:111-112 | whenever the walk reports its change at time 0, the directory is not archived and the run goes on |
| Orchestrator.EpochTimeNotArchived | incremental_archive.py:130-137 | a directory at time 0 holding a file at time 100, without an entry, is found changed at 0 and not archived |
| Orchestrator.UpdateRun | incremental_archive.py:86-98 | every time in the history stays writable through the loop |
| Orchestrator.UpdateArchives | incremental_archive.py:86-98 | the loop with its break gives the fail-fast run over the subdirectories in listing order |
| Orchestrator.UpdateRunKeys | incremental_archive.py:86-98 | no entry is removed, and new entries are subdirectory names |
| Orchestrator.UpdateRunUntouched | incremental_archive.py:86-98 | an entry whose name is not a subdirectory keeps its time |
| Orchestrator.UpdateRunStamps | incremental_archive.py:142-146 | every new or changed entry holds the closing time of a successful archive of that subdirectory |
| Orchestrator.UpdateRunAppend | incremental_archive.py:88-97 | after a failure nothing later is looked at; otherwise the rest starts from the history so far |
| Orchestrator.UpdateRunUnmodified | incremental_archive.py:108-114 | a subdirectory with nothing newer than its entry keeps its watermark through the run |
| Orchestrator.UpdateRunModified | incremental_archive.py:86-98 | with distinct names, a modified subdirectory with an entry at or after the epoch ends the run with its archive's closing time when every archive up to its own succeeds |
| Orchestrator.UpdateRunNothingArchived | incremental_archive.py:142-146 | when no archive succeeds the history is unchanged |
| Orchestrator.NextHistory | incremental_archive.py:174-177 | the run fails iff loading fails, with the load's error; otherwise the history keeps every loaded name and only times in range |
| Orchestrator.Run | incremental_archive.py:174-177 | a format error ends the run with that error; otherwise the saved document is that of the updated history |
| Orchestrator.RunRoundTrip | incremental_archive.py:174-177 | what one run saves, the next run loads, when subdirectory names are non-empty |

## Left out

- Writing the tar.gz file: `tarfile` is an outside library. Its result is an outcome value: archived at a clock time, failed, or interrupted.
- XML text: `xml.dom.minidom.parse` and `toprettyxml` are outside libraries. Loading starts from the parsed node tree, and saving ends with the tree to write. Malformed XML is an input case carrying the parser's message.
- The filesystem: `os.listdir`, `os.path.isdir`, `os.walk` and `os.path.getmtime` are replaced by a listing and a directory tree given as inputs. Errors these calls may raise during the walk are not modelled. Symbolic links are not modelled either.
- Modification times are whole seconds rather than floats.
- `time.time()` is part of the archive outcome. It is a clock time within years 1..9999.
- `KeyboardInterrupt` is only an outcome of writing an archive, not a signal that can arrive anywhere.
- All `print` output. The one exception is the `never` text of a missing watermark, which is modelled.
- Opening and writing `archive-history.xml`: the saved document is the result of the run.
- TimeFormat.StrTimeToSec: accepts only the zero-padded text that `strftime` writes. It rejects texts `strptime` would accept: unpadded fields, `%d` with a leading space, seconds 60 and 61, `GMT` in any letter case, and a run of whitespace for each space.
- TimeFormat.SecToStrTime: requires a time within years 1..9999 and writes every such year as four digits. Python 2 `strftime`, with its default `accept2dyear`, raises for years 100 to 1899, prints years 0 to 68 as 2000 to 2068 and years 69 to 99 as 1969 to 1999. Loading accepts such times, so for them `save_history` raises at `create_dir_tag` or writes another year. Times outside years 1..9999 are platform-dependent.
- HistoryStore.SaveLoadRoundTrip and Orchestrator.RunRoundTrip: names are plain strings, and the document read back is assumed to carry the same `directory` elements as the one saved. In Python 2, `os.listdir` gives byte strings while minidom gives unicode, so a non-ASCII name never matches its entry and shows `never` on every run. Saving such a name makes `toprettyxml(encoding="UTF-8")` raise after `open(..., 'w')` has emptied the file, so every later run fails with ExcInvalidFormat. minidom also writes a tab or newline inside an attribute as is, and the parser reads it back as a space, so such a name comes back changed. None of this is modelled.
- ChangeDetector.PrunedContentIgnored: assumes the subdirectories of each directory have distinct names, as in a filesystem. With repeated names `list.remove` removes only the first one, and the model of the walk does the same.
- ChangeDetector.FirstModifiedFile: the loop over a directory's files is a method of its own rather than inline in the walk loop.
