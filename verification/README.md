# mass_update: version-ordered prefetching of Foundry archives

`mass_update.py` runs an update script on every `FoundryVTT*.zip` archive
of a directory. It works in ascending version order, and it copies the
next archive to a temporary directory while the script is busy with the
current one. This project models the three parts of that pipeline that
hold its logic, and proves what they promise:

- **Archive names** (`archive_name.dfy`, `versions.dfy`).
  - `ArchiveName.Match` is the pattern `[^-]*(?:-Linux)?-(\d+\.\d+)\.zip`, applied with `re.match`.
  - It is proved equivalent to the declarative shape `ArchiveName.Shaped`: a dash-free prefix, an optional `-Linux`, `-major.minor.zip`, then anything.
  - The match is anchored at the start of the name only.
  - `Versions.PackagingLt` models the comparison of packaging `Version` keys. On these releases it is proved equal to the numeric pair order `Versions.Lt`.
- **Discovery** (`locator.dfy`).
  - `Locator.Locate` models `get_foundry_versions` up to its loop: the glob, the key of every selected name, and Python's stable `sorted`.
  - A selected name without a key fails the whole run.
  - The result is proved to be ascending, a permutation of the selected entries, and stable.
  - Every stable sort by version is proved to give the same result.
- **Staging schedule** (`pipeline.dfy`).
  - The generator's look-ahead loop, its tail flush and the consumer's `with` block become a trace of events: `Submit`, `Await`, `Yield`, `Update`, `Release`, and `CopyFailed` for a copy that raises.
  - A closed form gives the position of every event in a fault-free run. The ordering, uniqueness, hand-out and at-most-two-staged properties follow from it.
  - A run with a failing copy is proved to be a truncation of the fault-free run.

`wrappers.dfy` holds `Option` and `Result`. `scenarios.dfy` works through concrete directory listings.

Two consequences of the code are worth stating:

- A failed copy can leave two staging directories. The code submits the copy of archive K+1 (line 33) before it awaits archive K (line 36). So when the copy of K fails and K is not the last archive, the directories of K and K+1 both exist. When K is the last archive, its copy is awaited in the tail flush (line 41), and only K's directory remains (`Pipeline.FaultLeavesTwoStaged`, `Pipeline.LastFaultLeavesOne`).
- Archives with equal versions keep their enumeration order. Python's `sorted` (line 29) is stable, and the model proves that stability (`Locator.LocateIsStable`).

## Model

| member | source | states |
|---|---|---|
| ArchiveName.NonDashRun | mass_update.py:15 | `[^-]*` consumes a dash-free prefix of the name and stops exactly at the first dash, or at the end of the name |
| ArchiveName.DigitRun | mass_update.py:15 | `\d+` consumes a run of digits that cannot be extended; zero characters means the group fails |
| ArchiveName.MatchReleaseOf | mass_update.py:15 | every text `-major.minor.zip…` with non-empty digit runs matches the tail of the pattern, capturing exactly those numerals |
| ArchiveName.MatchQualifiedOf | mass_update.py:15 | the optional `-Linux` qualifier may be present or absent; either way the captured version is the same |
| ArchiveName.UnqualifiedTail | mass_update.py:15 | when a digit follows the dash, the `-Linux` alternative cannot apply and the plain tail decides |
| ArchiveName.MatchComplete | mass_update.py:15 | completeness: every name of the shape prefix, optional `-Linux`, `-major.minor.zip`, anything, matches and yields `(major, minor)`; the pattern is not anchored at the end |
| ArchiveName.MatchReleaseSound | mass_update.py:15 | a tail the pattern accepts splits into digit runs, `.`, `.zip` and a rest, and the captured version is read from those runs |
| ArchiveName.MatchQualifiedSound | mass_update.py:15 | a text accepted after the prefix is a release tail, with or without the `-Linux` qualifier |
| ArchiveName.MatchDecomposes | mass_update.py:15 | soundness, constructively: a matching name is returned with its prefix, qualifier, numerals and rest, and it has the documented shape |
| ArchiveName.MatchSound | mass_update.py:15 | soundness: only names of the documented shape match, and the version is read from their digit runs |
| ArchiveName.MatchAfterPrefix | mass_update.py:15 | the pattern resumes, after any dash-free prefix, at the first dash |
| ArchiveName.MatchesPlainName | mass_update.py:15 | `FoundryVTT-9.280.zip` yields version 9.280 |
| ArchiveName.MatchesLinuxName | mass_update.py:15 | `FoundryVTT-Linux-11.300.zip` yields version 11.300; the qualifier is not part of the version |
| ArchiveName.PatchTailRejected | mass_update.py:15 | `-1.2.3.zip` is not a release tail: `.zip` must follow the minor component |
| ArchiveName.RejectsPatchComponent | mass_update.py:15 | `FoundryVTT-1.2.3.zip` does not match, so `.group(1)` would be called on `None` |
| ArchiveName.UnknownQualifierRejected | mass_update.py:15 | a dash followed by a non-digit cannot start a match unless the text starts with `-Linux-` |
| ArchiveName.RejectsUnknownQualifier | mass_update.py:15 | any qualifier other than `Linux`, after any dash-free prefix, makes the name unmatched; this includes qualifiers that start with `L` or extend `Linux` |
| ArchiveName.RejectsOtherQualifier | mass_update.py:15 | `FoundryVTT-Beta-1.2.zip` does not match |
| ArchiveName.RejectsLiteQualifier | mass_update.py:15 | `FoundryVTT-Lite-1.2.zip` does not match |
| ArchiveName.RejectsLinuxyQualifier | mass_update.py:15 | `FoundryVTT-Linuxy-1.2.zip` does not match: `-Linux` must be followed by a dash |
| Versions.ReleaseKey | mass_update.py:30 | the release part of a packaging `Version` key has at most two components, pads back with zeros to the release, and never ends in zero |
| Versions.PackagingOrderIsNumeric | mass_update.py:30 | for two-component releases, packaging's `Version` order is exactly the numeric order, major component first |
| Locator.FilterMembers | mass_update.py:27 | the kept entries all pass the test, and an entry is kept if and only if it is present and passes it |
| Locator.FilterAppend | mass_update.py:27 | filtering keeps the enumeration order: filtering a listing is filtering its two parts and joining the results |
| Locator.FilterKeepsOccurrences | mass_update.py:27 | filtering keeps every occurrence of an accepted entry and no occurrence of the others |
| Locator.Candidates | mass_update.py:27 | the glob selects exactly the entries of the form `FoundryVTT*.zip` |
| Locator.CandidatesAppend | mass_update.py:27 | the glob keeps the directory's enumeration order |
| Locator.Keyed | mass_update.py:29-30 | keys are computed in enumeration order. On success: every name had a key, names and order are unchanged, and each archive carries its own name's key. On failure: the error names the first name without a key |
| Locator.Insert | mass_update.py:29-31 | insertion adds exactly one archive and keeps all the others |
| Locator.InsertKeepsSorted | mass_update.py:29-31 | inserting into an ascending sequence keeps it ascending |
| Locator.SortByVersion | mass_update.py:29-31 | the sorted sequence is ascending by version and a permutation of its input |
| Locator.InsertNames | mass_update.py:29-31 | insertion adds one name and keeps every other name |
| Locator.InsertStable | mass_update.py:29-31 | an inserted archive goes ahead of the archives of its own version, which keep their order |
| Locator.SortKeepsNames | mass_update.py:29-31 | sorting neither loses nor duplicates an archive name |
| Locator.SortIsStable | mass_update.py:29-31 | archives of one version keep their input order through the sort |
| Locator.StableSortIsUnique | mass_update.py:29-31 | two ascending sequences that agree on the order within each version are equal |
| Locator.StableSortIsSortByVersion | mass_update.py:29-31 | any stable sort by version, Python's `sorted` among them, returns exactly the model's sort |
| Locator.PackagingSortedIsSorted | mass_update.py:29-31 | a result ordered by packaging's `<`, as `sorted` orders it, is ascending in the numeric order the model sorts by |
| Locator.KeyedOfVersion | mass_update.py:29-30 | the keyed archives of one version are the names with that key, in enumeration order |
| Locator.Locate | mass_update.py:27-31 | the run fails if and only if some selected entry lacks a version, and the error names such an entry. Otherwise the archives are ascending and each carries its name's version |
| Locator.LocateIsPermutation | mass_update.py:27-31 | each selected entry is processed once per occurrence, and nothing else is processed |
| Locator.LocateIsStable | mass_update.py:27-31 | archives of equal version are processed in enumeration order |
| Pipeline.GenerateAt | mass_update.py:28-42 | from iteration i on, the loop performs five events per remaining archive, each at its closed-form position |
| Pipeline.RunAt | mass_update.py:28-42 | a fault-free run over n archives has 5n events; position p holds e if and only if e is scheduled and p is its position |
| Pipeline.InRunPrefix | mass_update.py:28-42 | an event has happened by step m if and only if it is scheduled before m |
| Pipeline.EachEventOnce | mass_update.py:28-42 | every action on every archive happens exactly once, nothing happens to archives that do not exist, and no archives means no actions |
| Pipeline.SubmitsNextBeforeYield | mass_update.py:32-37 | the copy of archive i+1 is submitted before the directory of archive i is handed out |
| Pipeline.AwaitsBeforeYield | mass_update.py:36-37 | every hand-out comes directly after the completed copy of the same archive |
| Pipeline.LifecycleInOrder | mass_update.py:32-42 | each directory is created, copied into, handed out, used by the update script and deleted, in that order |
| Pipeline.HandoutHandsOne | mass_update.py:36-37 | one hand-out yields exactly its own archive |
| Pipeline.GenerateHands | mass_update.py:29-42 | from iteration i on, the loop hands out archives i-1 to n-1, in order |
| Pipeline.HandsOutEachArchiveInOrder | mass_update.py:29-42 | the generator yields exactly one directory per archive, in sorted order, and nothing when there are no archives |
| Pipeline.AtMostTwoStaged | mass_update.py:32-38 | at no point of a fault-free run do more than two created directories remain undeleted |
| Pipeline.TwoStagedAtOnce | mass_update.py:32-38 | the bound of two is reached whenever there are at least two archives |
| Pipeline.AllReleased | mass_update.py:53-57 | after a fault-free run, a directory was created for every archive and every created directory was deleted |
| Pipeline.EarlyStopStagesOneAhead | mass_update.py:32-38 | when archive j's directory is deleted, directories exist only up to archive j+1, and only archive j+1's remains |
| Pipeline.GenerateWithFault | mass_update.py:34-42 | from iteration i on, a failing copy cuts the loop off where that archive would be awaited |
| Pipeline.GenerateWithoutFault | mass_update.py:28-42 | a fault on an archive that is never awaited changes nothing |
| Pipeline.FaultTruncatesRun | mass_update.py:36-41 | a run whose copy of archive k fails is the fault-free run cut off at the await of archive k, followed by the failure |
| Pipeline.FaultStopsHandouts | mass_update.py:32-42 | when copy k fails: exactly the archives before k were handed out and deleted, archives up to k+1 were submitted, and the failure is the last event |
| Pipeline.FaultLeavesTwoStaged | mass_update.py:32-42 | when copy k fails, exactly the directories of archives k and k+1 (if it exists) remain undeleted |
| Pipeline.LastFaultLeavesOne | mass_update.py:39-42 | when the last archive's copy fails in the tail flush, only its own directory remains |
| Scenarios.MatchesTenName | mass_update.py:15 | `FoundryVTT-10.290.zip` yields version 10.290 |
| Scenarios.SelectedThree | mass_update.py:27 | three entries that all match the glob are kept, in enumeration order |
| Scenarios.ThreeReleasesAreSelected | mass_update.py:27 | the glob keeps three release archives in enumeration order |
| Scenarios.ThreeReleasesAreKeyed | mass_update.py:29-30 | those three archives key to 10.290, 11.300 and 9.280 |
| Scenarios.SortThree | mass_update.py:29-31 | three archives arriving as middle, top, bottom come out bottom, middle, top |
| Scenarios.ThreeReleasesInNumericOrder | mass_update.py:27-31 | 10.290, Linux-11.300 and 9.280 are processed as 9.280, 10.290, 11.300; the order is numeric, not textual |
| Scenarios.DroppedThree | mass_update.py:27 | three rejected entries before one accepted entry leave only the accepted one |
| Scenarios.OnlyGlobMatchesAreSelected | mass_update.py:27 | another file, a stem in other case, and a `.tar.gz` archive are not selected |
| Scenarios.KeyedStopsAtUnmatched | mass_update.py:29-30 | keying stops at the first name without a key |
| Scenarios.PatchReleaseFailsTheRun | mass_update.py:27-31 | one archive named with a patch component fails the whole run, although an earlier archive has a version |

## Left out

- The copy itself (`shutil.copy`, line 33) and the temporary directories (line 32) are not modelled. Their creation, the copy's completion or failure, and their deletion are events of the trace.
- The copy raising is the only fault the trace models. `TemporaryDirectory()` can raise at line 32, and `subprocess.run` can raise `OSError` at line 57. Neither is modelled. Such a run ends as a prefix of the fault-free run `Pipeline.Run`. When line 32 raises, the prefix ends just before `Submit(i)`. When line 57 raises for archive j, `Update(j)` stands for the call that raised. The `with` block still deletes the directory, so the prefix ends with `Release(j)`. `Pipeline.EarlyStopStagesOneAhead` gives the directories left in that case.
- The worker thread (`ThreadPoolExecutor(max_workers=1)`, line 17) and `asyncio.wrap_future` (lines 36 and 41) are not modelled. The trace records the order in which the generator observes the copies, which the single worker makes first-in, first-out.
- The copy job of line 33 is a closure, and it reads `version` and `next_tmpdir` when it runs, not when it is submitted. If it ran after the loop had moved on, it would copy the wrong archive. The model assumes each job copies the archive it was submitted for.
- The payload lookup `next(Path(version_path.name).iterdir())` (line 55) is not modelled. That includes the `StopIteration` on an empty directory and the arbitrary pick among several entries.
- `subprocess.run` (line 57) is the `Update` event. Its exit status is ignored by the code and is not modelled.
- Command-line handling, `Path.absolute`, `print` and the event loop (lines 45-51, 59-67) are not modelled.
- Directories left behind after a failing copy (archive k, and archive k+1 if k is not the last) are deleted by the `TemporaryDirectory` finalizers when the generator is discarded. The model proves which directories remain but does not model that finalizer cleanup.
- Versions.PackagingOrderIsNumeric: covers only two-component releases with non-negative integers. Epochs, pre-, post-, dev- and local segments cannot occur in a name the pattern accepts.
- ArchiveName.IsDigit: accepts only ASCII digits, while Python's `\d` on `str` accepts every Unicode decimal digit. Names with non-ASCII digits are outside the model.
- Locator.IsCandidate: the glob is modelled as case-sensitive over entry names. Whether an entry is a file or a directory is not modelled. The directory's enumeration order is the order of the input sequence.
- Locator.Locate: its error names the first selected entry without a version. The real `AttributeError` from `.group(1)` on `None` does not carry the name.
