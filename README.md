# Squad mod downloader, modelled in Dafny

`mod_downloader.py` keeps the mods of a Squad dedicated server up to date.

- **Installing.** For each requested workshop id, in list order, it:
  1. removes the mod's download directory, `<game>/steamapps/workshop/content/393380/<id>`;
  2. runs steamcmd `number_of_downloads` times to download and validate the item, because the tool sometimes reports success on a partial download;
  3. removes the mod's install directory, `<game>/SquadGame/Plugins/Mods/<id>`;
  4. copies the download into the install directory.
- **Cleaning.** It can first clear the install directory. Every entry of `SquadGame/Plugins/Mods/` is deleted when it:
  - is a directory;
  - has an absolute path;
  - has an all-digit name;
  - is neither a symbolic link nor a mount point.
- **Dry run.** Every step announces itself on the log. A dry run announces everything and changes nothing.

The model has five modules, one per file:

- `Paths` (`paths.dfy`): paths as sequences of segments, plus the decimal names `str(mod)` produces.
- `FileSystem` (`filesystem.dfy`): the filesystem as a finite map from paths to entries. Each entry says whether it is a directory or a file, a symbolic link, or a mount point. The module also holds three operations, each a function from the old map to the new:
  - `shutil.rmtree(p, ignore_errors=True)`;
  - `shutil.copytree(src, dst)`;
  - one run of steamcmd on a download directory.
- `Layout` (`layout.dfy`): the server's directory layout, the cleaner's filter, and the filesystem that cleaning leaves behind.
- `Workflow` (`workflow.dfy`): each step of the script as a function on a `Run`. A `Run` holds the filesystem, the announced log events and the steamcmd command lines spawned. The module also states what one mod's install and a whole install promise.
- `ModDownloader` (`downloader.dfy`): the `Host` class. Its fields `fs`, `log` and `spawned` change in place. Its methods are `RemoveTree`, `CopyTree`, `RunDownloading`, `ClearMods` and `InstallMods`, with the loops of the source. `RemoveTree`, `CopyTree`, `RunDownloading` and `InstallMods` are each proved to produce exactly the state that the matching `Workflow` function describes. `ClearMods` is specified instead by `Layout.Cleaned`, by `ListingOutcome` and by `Removals`, the log lines it appends.

steamcmd is not modelled as a program. It is a parameter `steam: nat -> Option<Tree>`:

- the i-th process spawned in a run either leaves the mod's download directory alone (`None`) or leaves the tree `t` there (`Some(t)`);
- every lemma holds for every such function, so it covers every effect of the tool that leaves plain directories and files inside its download directory. A symbolic link or a mount point left there by steamcmd cannot be expressed: the tree it leaves is written without either.

A raised Python exception is the outcome `Fail(error)`. It ends the run, just as the uncaught exception ends the script.

Five behaviours of the script are easy to misread; the model follows the code:

- **`rmtree` only deletes a real directory.** On a path that is a plain file or a symbolic link, `rmtree` raises before deleting anything, and `ignore_errors=True` swallows the error. So nothing is removed there, and the copy then fails with `DestinationExists`.
- **A mount point is emptied but kept.** On a directory that is a mount point, `rmtree` deletes everything below it, then fails to remove the directory itself (the device is busy), and the error is swallowed. The empty directory stays, so the copy into it fails with `DestinationExists`.
- **The copy checks the source first.** `copytree` lists the source before it creates the destination. A missing source is therefore reported even when the destination also exists.
- **A failed copy ends the whole run.** Nothing catches the exception, so a failure aborts all the remaining mods, not just the one that failed.
- **The retry count is not checked.** It is any integer: zero or a negative count means no download at all. When the first removal worked, the copy then fails for want of a source.

## Model

| member | source | states |
|---|---|---|
| `ModDownloader.ListingOutcome` | mod_downloader.py:101 | listing the mods directory succeeds iff it exists and is a directory |
| `ModDownloader.Host.RemoveTree` | mod_downloader.py:51-55 | announces the path; unless dry, deletes it as `rmtree` with errors ignored does; nothing is spawned |
| `ModDownloader.Host.CopyTree` | mod_downloader.py:58-62 | announces the copy; unless dry, copies the tree or fails with the error `copytree` raises, changing no file on failure |
| `ModDownloader.Host.RunDownloading` | mod_downloader.py:65-93 | announces the download; unless dry, spawns exactly the ten-word steamcmd command line (app id 393380) once, and only the mod's download directory changes |
| `ModDownloader.Host.ClearMods` | mod_downloader.py:96-109 | fails iff the mods directory is missing or not a directory; otherwise, unless dry, leaves exactly the cleaned filesystem; logs one removal per entry that passes the filter, each once, in listing order, and nothing else |
| `ModDownloader.Host.InstallMods` | mod_downloader.py:112-142 | with its nested loops, produces exactly the state and outcome of installing the mods one after the other, stopping at the first failure |
| `FileSystem.CopiedTree` | mod_downloader.py:62 | the copy fails iff the source is missing, is not a directory, or the destination exists, and reports them in that order |
| `FileSystem.RemovedTree` | mod_downloader.py:55 | the removal only deletes entries; every entry left is as it was |
| `FileSystem.RemovedTreeSpec` | mod_downloader.py:55 | after the removal nothing is left at or below the path iff it was a real directory that is not a mount point, or already vacant; a mount point keeps its own entry and loses everything below it; nothing outside the path changes |
| `FileSystem.CopiedTreeSpec` | mod_downloader.py:62 | copying a directory into a vacant place succeeds, reproduces the source tree there exactly, and changes nothing outside the destination |
| `FileSystem.ReplaceTree` | mod_downloader.py:140-142 | removing the destination and then copying into it fails exactly on a missing source, a non-directory source, or a destination that is a file, a symbolic link or a mount point, in that order |
| `FileSystem.Staged` | mod_downloader.py:80-93 | a run that leaves nothing changes nothing; a run that leaves a tree has every path of that tree present in the download directory |
| `FileSystem.StagedFrame` | mod_downloader.py:80-93 | a steamcmd run changes nothing outside its download directory |
| `FileSystem.SubtreeOfStaged` | mod_downloader.py:80-93 | a run that leaves a tree in the download directory leaves exactly that tree there |
| `FileSystem.StagedTwice` | mod_downloader.py:136-138 | two runs in a row have the effect of whichever later run left something |
| `Paths.DecimalString` | mod_downloader.py:129-130 | `str(mod)` is all digits iff the mod id is not negative |
| `Paths.DecimalStringInjective` | mod_downloader.py:129-130 | different mod ids get different directory names |
| `Layout.ModsDir` | mod_downloader.py:97 | the mods directory lies strictly below the game directory |
| `Layout.StagingPath` | mod_downloader.py:129 | a download directory is absolute iff the game directory is, and has five more segments than it (`StagingTargetApart` places it below the game directory) |
| `Layout.TargetPath` | mod_downloader.py:130 | an install directory is absolute iff the game directory is, and has four more segments than it (`StagingTargetApart` makes it an entry of the mods directory) |
| `Layout.StagingTargetApart` | mod_downloader.py:129-130 | a download directory lies below the game directory; an install directory is an entry of the mods directory; both are named after the mod; no mod's download directory lies inside any mod's install directory, nor the other way round |
| `Layout.PathsDistinct` | mod_downloader.py:129-130 | different mod names give non-nested download directories and non-nested install directories |
| `Layout.IsModDir` | mod_downloader.py:102-108 | the five-part filter of lines 102-108: a directory, an absolute path, an all-digit name, not a symbolic link, not a mount point; only an existing entry with a non-empty path passes it, and `EntrySelected` states what it selects |
| `Layout.FilterCases` | mod_downloader.py:102-108 | a plain directory named "42" or "007" is selected; a link, a mount, a file, "abc", an empty name and a relative path are not |
| `Layout.Cleaned` | mod_downloader.py:101-109 | cleaning only deletes entries; every entry left is as it was |
| `Layout.CleanedSpec` | mod_downloader.py:101-109 | a path survives cleaning iff it lies below no entry that passes the filter; survivors are unchanged |
| `Layout.EntrySelected` | mod_downloader.py:102-109 | an entry of the mods directory is deleted iff it passes the filter |
| `Layout.CleanedOutside` | mod_downloader.py:101-109 | cleaning touches nothing outside the mods directory, nor the directory itself |
| `Layout.RelativeDirKeepsAll` | mod_downloader.py:104 | under a relative game path no entry passes the filter and cleaning changes nothing |
| `Layout.CleanedIdempotent` | mod_downloader.py:96-109 | after cleaning no entry passes the filter, so cleaning twice is cleaning once |
| `Layout.ClearNext` | mod_downloader.py:101-109 | in any listing order, an entry not yet visited is still as it was, the filter sees it as before, and removing it extends the cleaning by that entry |
| `Workflow.RemoveStep` | mod_downloader.py:51-55 | announcing a removal adds one log line and spawns nothing; a dry removal changes no file |
| `Workflow.CopyStep` | mod_downloader.py:58-62 | a copy spawns nothing; a failed copy changes no file; a dry copy succeeds and changes no file |
| `Workflow.DownloadStep` | mod_downloader.py:65-93 | a download spawns one process, or none when dry; a dry download changes no file |
| `Workflow.Attempts` | mod_downloader.py:136-138 | the attempt loop from pass k spawns one process per remaining pass, none when dry, and a dry loop changes no file |
| `Workflow.AttemptsSpec` | mod_downloader.py:136-138 | the attempt loop spawns steamcmd once per pass whatever each run did (never when dry), logs two lines per pass, and leaves the download directory as the last run that left anything left it |
| `Workflow.AttemptLogShape` | mod_downloader.py:136-138 | the attempt log has two lines per pass: "attempt i" for i = 1, 2, … and then the download banner |
| `Workflow.LastLeftSpec` | mod_downloader.py:136-138 | the combined effect of the runs is nothing iff no run left anything; otherwise it is what some run left, after which no run left anything |
| `Workflow.InstallOne` | mod_downloader.py:128-142 | a dry install of one mod succeeds and changes no file |
| `Workflow.InstallOneTrace` | mod_downloader.py:128-142 | one mod logs its four steps in order, spawns steamcmd exactly `downloads` times unless dry, and changes no file when dry |
| `Workflow.InstallOneOutcome` | mod_downloader.py:128-142 | outside a dry run, one mod fails exactly when the download directory at copy time is missing or not a directory, or the old install is a file, a symbolic link or a mount point, in that order |
| `Workflow.StagingUntouchedAtTarget` | mod_downloader.py:132-138 | the first removal and the downloads leave the install directory's entry as it was |
| `Workflow.StagingAtCopySpec` | mod_downloader.py:132-138 | what gets copied is what the last run that left anything left; if no run left anything and the first removal worked, it is nothing |
| `Workflow.MountedTargetCollides` | mod_downloader.py:140-142 | outside a dry run, an old install that is a mount point makes the install fail, with `DestinationExists` when the download is a directory |
| `Workflow.InstallOneInstalls` | mod_downloader.py:140-142 | outside a dry run, a successful install whose old install was removable leaves the install directory holding exactly the download, and leaves the download in place |
| `Workflow.TargetVacantAfterRemoval` | mod_downloader.py:140 | outside a dry run, a removable old install is completely gone before the copy |
| `Workflow.InstallOneFailsCleanly` | mod_downloader.py:140-142 | a failed install whose old install was removable leaves nothing in the install directory, and fails only for want of a usable source |
| `Workflow.NothingDownloadedFails` | mod_downloader.py:132-142 | outside a dry run, if the download directory was removable and no steamcmd run for the mod leaves anything, its install fails with a missing source |
| `Workflow.InstallOneTargetEntry` | mod_downloader.py:142 | outside a dry run, a successful install leaves a plain directory, not a link or mount, at the install path |
| `Workflow.InstalledIsCleanable` | mod_downloader.py:102-108 | an installed mod directory passes the cleaner's filter iff the mod id is not negative and the game path is absolute |
| `Workflow.InstallOneFrame` | mod_downloader.py:128-142 | installing one mod changes nothing outside its download and install directories |
| `Workflow.InstallAll` | mod_downloader.py:128 | a dry install of a list of mods succeeds and changes no file |
| `Workflow.InstallAllTrace` | mod_downloader.py:128-142 | a successful run logs every step of every mod in list order and spawns the planned commands; a failed run did exactly the plan for the first k mods, for some k > 0, and nothing for later mods |
| `Workflow.InstallAllDry` | mod_downloader.py:112-142 | a dry run changes no file, spawns nothing, succeeds, and logs every step of every mod |
| `Workflow.PlanSpawnsCount` | mod_downloader.py:136-138 | steamcmd is spawned `downloads` times per mod, never when that is 0 or less, and never when dry |

## Left out

- Symbolic links are not followed. A path below a link is stored as an entry of its own, so the model does not update it when the link's target changes, and a dangling link cannot be represented. `FileSystem.StagedFrame`, the last ensures of `FileSystem.RemovedTreeSpec`, `Layout.CleanedOutside` and `Workflow.InstallOneFrame` hold only for this reason. In the script, reinstalling mod 7 also changes what `Mods/link/x` shows through a link `Mods/link -> Mods/7`, and clearing `Mods/42` leaves a link to it dangling.
- Argument parsing and the entry point (`_parse_args` and `_main`, mod_downloader.py:12-48 and 145-156) are not modelled. Their checks on the game path and the steamcmd path are not assumed anywhere.
- A steamcmd path that cannot be executed is not modelled. `subprocess.run` then raises `OSError`, which ends the run after the download directory was removed; `_parse_args` only checks that the path exists and is a file. The model always spawns the process.
- Links and mount points made by steamcmd are not modelled. The tree a run leaves holds only plain directories and files.
- The steamcmd process is not modelled as a program. What it does to the filesystem is the `steam` parameter, limited to the mod's download directory. Its output and exit status are ignored by the source and absent from the model, and so is a hang.
- The log keeps only which event was announced. Line formatting, blank lines and flushing are left out.
- Deletion is all-or-nothing below the root. A real `rmtree` can stop part way because of a locked file, or a mount point further down, and leave part of the tree. The model deletes every entry below a real directory. It keeps only a mount point at the root itself.
- Copying is all-or-nothing, and copied entries are plain directories and files. A read error part way through a real `copytree` is not modelled. Neither are ancestor directories it creates for a missing parent, nor metadata.
- The filesystem is a map with no well-formedness invariant: a path may exist without its parent. Lemmas that need it state it as a requirement.
- `str.isdigit()` is modelled for ASCII digits only. Other Unicode digit characters in an entry name are not.
- The order in which `iterdir()` lists entries is left open. `ClearMods` holds for every order. Entries created or deleted by others during the loop are not modelled.
