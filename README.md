# A model of the repository state machine of a small version control system

The modelled program is a Git-like version control system.
Its repository object (`VersionControlSystem`) keeps these parts:

- the working directory;
- a content-addressed blob store (`.vcs/Objects`);
- commits;
- branch files and a `HEAD` pointer;
- a staging index (`.vcs/Index`, plus a cached in-memory copy);
- an append-only list of commit ids (`AllCommits`).

This project models the commands that read and rewrite that state:

- `add` and `remove`, which rewrite one index entry after comparing a working file with the last commit's tree;
- `readIndex`, with its fixed 43-character tail split, and the index writer;
- `commit`: its guards and its post-state;
- `status`: the three-way classification of the working directory (W), the index (I) and the last commit's tree (C), and the layout of the report;
- `checkout`: the branch switch with its "untracked files in the way" safeguard, and the two single-file restores.

Modules, one file each:

- `Base` (`base.dfy`): shared vocabulary (optional values, paths, bytes, trees, index maps) and `Enumerates`, which stands for the unspecified iteration order of a Java `HashMap` or `HashSet`.
- `IndexFormat` (`index_format.dfy`): index entries, the writer loop, the reader as written, the corrected reader, and their round trips.
- `StatusReport` (`status_report.dfy`): `CategoryOf` (the decision `status` takes for one path), the three classification loops proved equal to the expected listing, and the report text with its section loops.
- `Staging` (`staging.dfy`): the decision tables of `add` and `remove` as functions, and what `status` then reports.
- `Workspace` (`workspace.dfy`): the scan for files in the way, the deleting and copying loops of a branch switch, and what a switch leaves behind.
- `Vcs` (`vcs.dfy`): the class `VersionControlSystem`, whose fields are the repository parts above, and the invariant `Consistent`. It covers:
  - blobs are filed under their address;
  - commit trees are stored;
  - branch tips are commits;
  - HEAD names a branch;
  - the cached current commit, when there is one, is a commit.

The class follows the code as written, including its two defects (see "## Findings"): `readIndex` keeps a 43-character tail, and a branch switch keeps the cached current commit. The corrected behaviour is defined and proved beside it, in separate members.

The hasher of `VCSUtils` is an uninterpreted function `hash: Bytes -> string`, fixed when the object is built. It is assumed to return 40-character addresses.
`Commit.writeCommit` is not part of this model. `Commit` receives the id and tree it would return as parameters.
Printed messages are modelled as `Outcome` values. Before the first commit there is no current commit: `checkout` dereferences it, and the caught `NullPointerException` is the outcome `Crashed`; `status` dereferences it after loading the index, and the catch returns only the Branches section.
Wherever the program iterates a hash set or hash map, the model picks elements with `:|`. Where that order shows up in output (the lines of the Index file written by `SerializeIndex`, and the status report printed by `EmitSection` and `EmitBranches`), the loop also returns the order it picked, as a ghost value. The other loops (the three classification loops of `status` and the three loops of a branch switch) return only their result, which no order changes.

An index line is written as path, space, 40-character address, space and state digit. The 43-character tail that the reader keeps therefore includes the space that separates the path from the address.

## Model

| member | source | states |
|---|---|---|
| IndexFormat.SerializeIndex | App/src/VersionControlSystem.java:159-162 | the index text has as many lines as the map has entries, one "key value" line per entry, each key once, in some order |
| IndexFormat.IndexLinesAt | App/src/VersionControlSystem.java:159-162 | line i of the written index is "key value" for the i-th key the writer visits |
| IndexFormat.SplitLine | App/src/VersionControlSystem.java:522-523 | the reader's key and value put back together give the line; the value is the last 43 characters |
| IndexFormat.ParsedLength | App/src/VersionControlSystem.java:521-527 | the reader consumes the lines up to the first one shorter than 43 characters, where `substring` throws and the caught exception ends the loop |
| IndexFormat.PutsKeys | App/src/VersionControlSystem.java:521-524 | the map built from splittable lines holds the key of every line and no other key |
| IndexFormat.PutsLastWins | App/src/VersionControlSystem.java:521-524 | a key holds the value of the last line that carries it |
| IndexFormat.LoadIndexLastWins | App/src/VersionControlSystem.java:513-528 | `readIndex` as written: the loaded keys are the keys of the lines before the first short one, each holding the 43-character tail of its last such line |
| IndexFormat.SplitWrittenLine | App/src/VersionControlSystem.java:522-523 | a line written as key, space and a 42-character value splits back into the key and the value with a space in front |
| IndexFormat.WrittenLineKey | App/src/VersionControlSystem.java:522-523 | a line "name field digit" with a 40-character field yields exactly `name` as its key |
| IndexFormat.ReloadPrefixesSpace | App/src/VersionControlSystem.java:513-524 | reading back a written index of in-memory entries keeps every key and puts a space in front of every value |
| IndexFormat.ReloadOfReloadedShiftsKeys | App/src/VersionControlSystem.java:513-524 | reading back a written index of values that were read from disk keeps every value but appends a space to every key, and no other key appears |
| IndexFormat.ReloadOfMixed | App/src/VersionControlSystem.java:513-524 | reading back a written index that mixes full in-memory entries with values read from disk: each full entry keeps its key and gains a leading space, each value from disk keeps its text while its key gains a trailing space, and no other key appears |
| IndexFormat.MixedReloadCorruptsKey | App/src/VersionControlSystem.java:513-524 | one staged file read back from disk, then a second file added and the index written (first file first) and read again: the first file is held under its name with a space appended, and not under its name |
| IndexFormat.SecondReloadCorruptsKey | App/src/VersionControlSystem.java:522-523 | one staged file written, read, written and read again ends up under its name with a space appended |
| IndexFormat.ReadBack | App/src/VersionControlSystem.java:513-524 | read back by the reader as written, a written index of full entries gains a space in front of every value, and one of 43-character values a space after every key; the corrected reader gives the map back |
| IndexFormat.LoadLines | App/src/VersionControlSystem.java:518-524 | the reading loop as written, which stops at the first line too short to split, builds exactly the map `LoadIndex` defines |
| IndexFormat.IntendedReloadIsIdentity | App/src/VersionControlSystem.java:159-165 | with the corrected reader (not the code as written), writing an index of 42-character entries and reading it back gives the same map |
| IndexFormat.LoadedWidth | App/src/VersionControlSystem.java:522-523 | every value the corrected reader keeps is a full 42-character entry |
| StatusReport.VisitWorkingFile | App/src/VersionControlSystem.java:329-345 | the branches of the working-directory loop put the file in the section its category names, and nowhere else |
| StatusReport.ClassifyWorking | App/src/VersionControlSystem.java:328-346 | after the loop over W the sets are the listing of W by category, and the index and tree sets lose exactly the paths of W |
| StatusReport.ClassifyStagedOnly | App/src/VersionControlSystem.java:347-354 | the loop over I \ W adds each entry as removed or as "(deleted)" by its state digit, and strikes it from the tree set |
| StatusReport.ClassifyCommittedOnly | App/src/VersionControlSystem.java:355-357 | the loop over C \ W \ I adds each path as "(deleted)" |
| StatusReport.Classify | App/src/VersionControlSystem.java:321-357 | the four sets `status` fills are exactly the listing of W ∪ I ∪ C by category |
| StatusReport.ExpectedMembership | App/src/VersionControlSystem.java:328-357 | a path is in a section of the expected listing if and only if its category names that section |
| StatusReport.CategoryOf | App/src/VersionControlSystem.java:328-357 | what each category says about W, I and C: staged means the file exists and its entry starts with its hash; removed means no file and a REMOVED entry; "(deleted)" means no file and an entry or a committed blob; a path is listed nowhere exactly when it has no entry and its file matches the committed blob, or neither exists |
| StatusReport.ListedAtMostOnce | App/src/VersionControlSystem.java:328-357 | every path is listed at most once, and it is listed nowhere exactly when it is outside W ∪ I ∪ C or is an unstaged working file equal to its committed blob |
| StatusReport.RemovalEntryCategory | App/src/VersionControlSystem.java:330-349 | an index entry ending in "2" is reported untracked when its file exists and removed otherwise |
| StatusReport.FreshEntryIsStaged | App/src/VersionControlSystem.java:334-335 | an entry as `add` keeps it in memory is reported staged while the file's contents are unchanged |
| StatusReport.ReloadedEntryIsModified | App/src/VersionControlSystem.java:334-337 | the same entry after a round trip through the index file starts with a space, so an unchanged staged file is reported modified |
| StatusReport.Section | App/src/VersionControlSystem.java:358-363 | a section is empty exactly when it has no items; otherwise it opens with its header and ends with a newline |
| StatusReport.BranchesText | App/src/VersionControlSystem.java:311-318 | the Branches header is always written first |
| StatusReport.StatusText | App/src/VersionControlSystem.java:358-381 | whatever sections follow, the full report always opens with the Branches header |
| StatusReport.EmitSection | App/src/VersionControlSystem.java:358-363 | the section loop prints every item of the set exactly once, in some order, after the header, and prints nothing for an empty set |
| StatusReport.EmitBranches | App/src/VersionControlSystem.java:311-318 | the Branches loop prints every branch exactly once, in some order, with `*` in front of the current one |
| Staging.AddToIndex | App/src/VersionControlSystem.java:142-158 | for a missing file: the REMOVED sentinel if the name is tracked, else "does not exist" with no rewrite; for an existing file: entry `hash 1` if untracked, removal of the entry if the hash is unchanged, entry `hash 0` otherwise; no other key changes |
| Staging.RemoveFromIndex | App/src/VersionControlSystem.java:218-229 | a tracked name gets the REMOVED sentinel; an untracked name is dropped; with no reason to remove, the index is unchanged; no other key changes |
| Staging.AddThenStatus | App/src/VersionControlSystem.java:149-158 | after `add` of an existing file, `status` in the same process (on the entry held in memory) lists it as staged, or nowhere when its contents equal the committed blob |
| Staging.AddMissingThenStatus | App/src/VersionControlSystem.java:142-144 | after `add` of a tracked file that is gone, `status` lists it as removed |
| Staging.AddIdempotent | App/src/VersionControlSystem.java:142-158 | adding the same contents a second time changes nothing |
| Staging.RemoveTrackedThenStatus | App/src/VersionControlSystem.java:224-228 | after `remove` of a tracked name, whose file is deleted, `status` lists it as removed |
| Staging.RemoveUntrackedThenStatus | App/src/VersionControlSystem.java:218-223 | after `remove` of an untracked name, `status` lists it as untracked if its file exists and nowhere otherwise |
| Staging.RemoveUndoesAdd | App/src/VersionControlSystem.java:218-220 | `remove` of a newly added, previously unstaged name restores the index |
| Workspace.Switch | App/src/VersionControlSystem.java:443-456 | after a switch, files only the current tree tracks are gone, every target path holds its blob, and every other working file is unchanged |
| Workspace.InTheWay | App/src/VersionControlSystem.java:429-435 | the files in the way, which `checkout` prints, are working files that the target tracks and the current tree does not, and there are none exactly when every working file the target tracks is also tracked by the current tree |
| Workspace.FindInTheWay | App/src/VersionControlSystem.java:428-434 | the scan collects exactly the working files the target tracks and the current tree does not |
| Workspace.DeleteUntargeted | App/src/VersionControlSystem.java:443-447 | the deleting loop removes exactly the working files the current tree tracks and the target does not |
| Workspace.CopyTarget | App/src/VersionControlSystem.java:449-456 | the copying loop overwrites or creates every target file with its blob and leaves the rest alone |
| Workspace.SwitchFiles | App/src/VersionControlSystem.java:443-456 | the two loops together compute the switch |
| Workspace.SwitchKeepsUntracked | App/src/VersionControlSystem.java:429-456 | with nothing in the way, every untracked working file survives a switch unchanged |
| Workspace.SwitchedFilesAreClean | App/src/VersionControlSystem.java:449-456 | after a switch, every unstaged file of the target tree is listed nowhere by `status` against that tree |
| Workspace.SwitchBackLeavesFiles | App/src/VersionControlSystem.java:457-460 | as written (current commit kept), switching A to B and back leaves every file only B tracks, holding B's blob |
| Workspace.SwitchBackShowsUntracked | App/src/VersionControlSystem.java:457-460 | ... and `status` on A then lists such a file as untracked |
| Workspace.SwitchBackRestores | App/src/VersionControlSystem.java:443-460 | against the tree actually checked out, switching A to B and back gives the same working directory as a checkout of A would |
| Workspace.SwitchToSameTreeWhenClean | App/src/VersionControlSystem.java:443-456 | checking out the tree that a clean working directory already matches changes nothing |
| Vcs.StoreKeepsConsistent | App/src/VersionControlSystem.java:157 | storing a blob under its address keeps the repository invariant |
| Vcs.StageKeepsConsistent | App/src/VersionControlSystem.java:159-165 | a frame step: the invariant says nothing about the index, so replacing the cached index and the Index file, whatever either holds, keeps it |
| Vcs.CommitKeepsConsistent | App/src/VersionControlSystem.java:190-202 | recording a fresh commit with a stored tree on HEAD's branch keeps the invariant, and makes the cached commit HEAD's tip again |
| Vcs.SwitchKeepsConsistent | App/src/VersionControlSystem.java:457-460 | the switch as written, which moves HEAD and the branch name and keeps the cached commit, keeps the invariant |
| Vcs.StaleSwitchBreaksHeadCache | App/src/VersionControlSystem.java:457-460 | as written, after a switch to a branch whose tip differs from the cached commit, the cached commit is no longer HEAD's tip |
| Vcs.CorrectedSwitchKeepsHeadCache | App/src/VersionControlSystem.java:457-460 | a switch that also caches the target's tip keeps the invariant and keeps the cached commit HEAD's tip |
| Vcs.FreshProcessListsStagedAsModified | App/src/VersionControlSystem.java:330-337 | an entry staged by `add`, written, and read by `status` in a fresh process starts with a space, so the unchanged staged file is listed as modified |
| Vcs.VersionControlSystem.constructor | App/src/VersionControlSystem.java:24-40 | the current commit is the tip HEAD names; the branch is that commit's branch, or HEAD's own name before the first commit; the index is not yet cached |
| Vcs.VersionControlSystem.ReadIndex | App/src/VersionControlSystem.java:513-528 | a no-op while the index is cached; otherwise it caches `LoadIndex` of the Index file, the reader as written; nothing else changes |
| Vcs.VersionControlSystem.WriteIndex | App/src/VersionControlSystem.java:159-165 | the Index file becomes the written form of the map, one line per entry; read back as written, full entries gain a leading space and 43-character values make every key gain a trailing space; only the corrected reader would give the map back; the repository invariant is kept and nothing else changes |
| Vcs.VersionControlSystem.Add | App/src/VersionControlSystem.java:132-169 | loads the index as written, applies `AddToIndex`, stores the blob of an existing file, rewrites the Index file unless the file neither exists nor is tracked, and changes nothing else; a rewritten file of full entries reads back with a space in front of every value |
| Vcs.VersionControlSystem.Remove | App/src/VersionControlSystem.java:213-240 | loads the index as written, applies `RemoveFromIndex`, deletes the working file of a tracked name, always rewrites the Index file, reports "no reason" exactly when there is none, and changes nothing else; a file of full entries reads back with a space in front of every value |
| Vcs.VersionControlSystem.Commit | App/src/VersionControlSystem.java:181-206 | with no cached or an empty cached index, or an empty message, nothing changes; otherwise the new commit, with the old current commit as parent, becomes HEAD's tip and the current commit, the index is cleared in memory and on disk, and AllCommits gains exactly the new id |
| Vcs.VersionControlSystem.Record | App/src/VersionControlSystem.java:190-202 | the state after a successful commit, as in `Commit` |
| Vcs.VersionControlSystem.Status | App/src/VersionControlSystem.java:308-386 | loads the index as written; the report is the Branches section followed by the sections of exactly the expected listing of W, that loaded index and C, each set in some order; before the first commit only the Branches section; nothing else changes |
| Vcs.VersionControlSystem.Restore | App/src/VersionControlSystem.java:481-489 | a path the tree lacks changes nothing; otherwise that one working file gets its blob and nothing else changes |
| Vcs.VersionControlSystem.CheckoutFile | App/src/VersionControlSystem.java:401-414 | restores one file from the current commit; a crash and no change before the first commit |
| Vcs.VersionControlSystem.CheckoutCommitFile | App/src/VersionControlSystem.java:472-493 | an unknown commit id changes nothing; otherwise it restores one file from that commit's tree |
| Vcs.VersionControlSystem.CheckoutBranch | App/src/VersionControlSystem.java:415-461 | checks, in the source's order: crash before the first commit, then current branch, unknown branch, files in the way, each changing nothing; otherwise the working directory is switched, branch and HEAD name the target, and the cached current commit is left as it was |

## Left out

- `init` (App/src/VersionControlSystem.java:64-126) and the second constructor: directory and file creation, the `dos:hidden` attribute and best-effort cleanup are file-system plumbing. The model starts from an opened repository.
- `log` and `globalLog`: their text comes from `Commit.toString`, and the ancestor walk from `Commit.parentCommit`; neither is part of this model.
- `getWorkingDir`, `getBranches` and `getHeadPath`: the working directory, the branch files and HEAD are fields holding maps and a branch name. A branch file that is empty (a branch without commits) is a branch mapped to `None`.
- `Commit` is not part of this model: `writeCommit`, `findCommit`, `getHeadCommit`, `getTree`, the commit serialisation, its timestamp and `commitCache`. Commits are a map from id to `CommitRecord`, and `findCommit` is an exact lookup (no short ids).
- `VCSUtils` is not part of this model. `hash` is uninterpreted, with a 40-character result; SHA-1 is not modelled. `createFile` is a map update of the blob store. `findHash` is a map lookup. The hash of a file that does not exist (computed by `add` before its existence check) is not modelled.
- Path relativisation, `mkdirs` and the mechanics of `Files.copy` and `File.delete`: commands take the relative name, and every file operation is a map update.
- I/O failures and every other exception path, with two exceptions. The null current commit: `checkout` dereferences it and is modelled as ending in `Crashed`, and `status` dereferences it after `readIndex` (line 326, caught at line 382) and is modelled as returning only the Branches section, with the index loaded. The `substring` exception that a line shorter than 43 characters throws in `readIndex` (line 522, caught at line 525) ends the reading loop, and `ParsedLength` and `LoadLines` model that. The order of the real output stream is not modelled beyond the report string `status` returns.
- HashMap and HashSet iteration order: the model makes its choice nondeterministically and proves its results for every order.
- `Application/src/render.js`: user interface code, outside the repository core.
- Vcs.VersionControlSystem.Commit: the new commit's id and tree come from `writeCommit`, so they are parameters. The method requires the id to be fresh and the tree's blobs to be stored.
- Vcs.VersionControlSystem.Add: does not promise that the Index file reads back as the cached index, because as written it does not (finding 1). It promises instead what `LoadIndex` makes of the file.
- Vcs.VersionControlSystem.Remove: does not promise that the Index file reads back as the cached index, for the same reason.
- Vcs.VersionControlSystem.WriteIndex: promises the identity round trip only for the corrected reader `IndexFormat.LoadIndexIntended`, which the code does not use.
- The Index file is modelled as a sequence of lines, while `readLine` splits on both `\n` and `\r`. A path containing either character would read back as two lines; the model does not represent such paths, and its read-back lemmas hold only for paths without them.
- IndexFormat.ReloadOfMixed: requires that no shifted key `k + " "` equals another key of the index. Where one does, the later of the two lines wins, which only the general `IndexFormat.PutsLastWins` describes.
- Java's `line.length()` in `readIndex` (line 522) counts UTF-16 code units, while the model's `|line|` counts characters. The two cuts agree on every line the writer produces, since its 43-character tail is ASCII. They differ only on a hand-edited line with characters outside the Basic Multilingual Plane, which the model does not represent.
- Vcs.VersionControlSystem.Status: the order in which each section is printed is a ghost result, stated only as "each element once".

## Findings

| source | as written | input that shows it | evidently intended | confidence | as-written member | corrected member |
|---|---|---|---|---|---|---|
| App/src/VersionControlSystem.java:522-523 | the reader keeps the last 43 characters of a line as the value, but the writer emits key, space and a 42-character value, so a loaded value starts with a space | `add a.txt` in one process, then `status` in a fresh one: the entry reads back as " <hash> 1", `startsWith(hash)` fails, and the staged, unchanged file is listed as modified; a further `add` of another file rewrites the line as "a.txt  <hash> 1", and the next read gives the key "a.txt " | the value is the 42 characters after the separating space, so that writing and reading the index is the identity | not executed | IndexFormat.MixedReloadCorruptsKey | IndexFormat.IntendedReloadIsIdentity |
| App/src/VersionControlSystem.java:457-460 | a branch switch updates `branch` and HEAD but keeps `lastCommit`, so later commands compare against the old branch's tree | on master, whose tip tracks only `a.txt`, with a branch `feature` whose tip tracks `a.txt` and `b.txt`: `checkout feature` then `checkout master` compares against master's tree both times, so `b.txt` is not deleted and `status` lists it as untracked | the cached current commit becomes the target branch's tip, so switching A to B and back restores A | not executed | Workspace.SwitchBackLeavesFiles | Workspace.SwitchBackRestores |

The class models both defects as written. The corrected behaviour is proved in separate members:

- for the first finding, the corrected reader `IndexFormat.LoadIndexIntended`, with `IndexFormat.IntendedReloadIsIdentity` and `IndexFormat.LoadedWidth`;
- for the second, `Workspace.SwitchBackRestores` and `Vcs.CorrectedSwitchKeepsHeadCache`.

The as-written halves are also stated as:

- `IndexFormat.ReloadPrefixesSpace`, `IndexFormat.ReloadOfReloadedShiftsKeys`, `IndexFormat.SecondReloadCorruptsKey`, `StatusReport.ReloadedEntryIsModified` and `Vcs.FreshProcessListsStagedAsModified`, for the first finding;
- `Vcs.StaleSwitchBreaksHeadCache`, for the second.
