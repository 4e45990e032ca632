/** The repository object: its fields stand for the working directory, the
    `.vcs` directory (blob store, commits, branch files, HEAD, Index, AllCommits)
    and the two cached values `lastCommit` and `indexMap`. Each command either
    reports why it does nothing or changes exactly the parts it names. */
module Vcs {
  import opened Base
  import opened IndexFormat
  import opened StatusReport
  import opened Staging
  import opened Workspace

  /** What `Commit.writeCommit` is handed: the tree it records, the parent
      commit, the branch, the author and the message. */
  datatype CommitRecord = CommitRecord(tree: Tree, parent: Option<string>, branch: string,
                                       author: string, message: string)

  /** How a command ends; every case but `Done` is a line the command prints. */
  datatype Outcome =
    | Done
    | DoesNotExist(name: Path)              // "<name> does not exist"
    | NoReason                              // "No reason to remove the file"
    | NoChangesAdded                        // "No changes added to the commit"
    | EmptyMessage                          // "Please enter a commit message."
    | FileNotInCommit                       // "File does not exist in that commit."
    | NoSuchCommit                          // "No commit with that id exists."
    | AlreadyOnBranch                       // "No need to checkout the current branch."
    | NoSuchBranch                          // "No such branch exists."
    | UntrackedInTheWay(names: set<Path>)   // "There are untracked files in the way; ..."
    | Crashed                               // a NullPointerException, caught: no commit yet

  /** Every field of the repository, for stating what a command leaves alone. */
  datatype State = State(work: map<Path, Bytes>, objects: Blobs, commits: map<string, CommitRecord>,
                         branches: map<string, Option<string>>, head: string, branch: string,
                         lastCommit: Option<string>, indexMap: Option<Index>, indexFile: seq<string>,
                         allCommits: seq<string>)

  /** The index `readIndex` leaves in memory: the cached map if there is one,
      otherwise what the reader makes of the Index file. */
  function Loaded(cached: Option<Index>, file: seq<string>): Index
  {
    if cached.Some? then cached.value else LoadIndex(file)
  }

  /** The invariant of the repository: blobs are filed under their address,
      every commit's tree is stored, every branch tip is a commit, HEAD names a
      branch, and the cached current commit is a commit. */
  ghost predicate Consistent(s: State, hash: Bytes -> string)
  {
    && ContentAddressed(s.objects, hash)
    && (forall id :: id in s.commits ==> Stored(s.commits[id].tree, s.objects))
    && (forall b :: b in s.branches && s.branches[b].Some? ==> s.branches[b].value in s.commits)
    && s.head in s.branches
    && (s.lastCommit.Some? ==> s.lastCommit.value in s.commits)
  }

  /** The cached current commit is the tip of the branch HEAD names, as it is
      when a repository is opened and after every commit. */
  predicate HeadCached(s: State)
  {
    s.head in s.branches && s.lastCommit == s.branches[s.head]
  }

  /** Storing a blob under its address keeps the invariant. */
  lemma StoreKeepsConsistent(s: State, hash: Bytes -> string, b: Bytes)
    requires Consistent(s, hash)
    ensures Consistent(s.(objects := s.objects[hash(b) := b]), hash)
  {
    var t := s.(objects := s.objects[hash(b) := b]);
    forall id | id in t.commits
      ensures Stored(t.commits[id].tree, t.objects)
    {
      assert Stored(s.commits[id].tree, s.objects);
    }
  }

  /** Caching an index, whatever the file then holds, keeps the invariant. */
  lemma StageKeepsConsistent(s: State, hash: Bytes -> string, m: Index, file: seq<string>)
    requires Consistent(s, hash)
    ensures Consistent(s.(indexMap := Some(m), indexFile := file), hash)
  {
  }

  /** Recording a new commit on the HEAD branch keeps the invariant. */
  lemma CommitKeepsConsistent(s: State, hash: Bytes -> string, newId: string, rec: CommitRecord)
    requires Consistent(s, hash)
    requires newId !in s.commits && Stored(rec.tree, s.objects)
    ensures Consistent(s.(commits := s.commits[newId := rec], branches := s.branches[s.head := Some(newId)],
                          lastCommit := Some(newId), indexMap := None, indexFile := [],
                          allCommits := s.allCommits + [newId]), hash)
    ensures HeadCached(s.(commits := s.commits[newId := rec], branches := s.branches[s.head := Some(newId)],
                          lastCommit := Some(newId), indexMap := None, indexFile := [],
                          allCommits := s.allCommits + [newId]))
  {
    var t := s.(commits := s.commits[newId := rec], branches := s.branches[s.head := Some(newId)],
                lastCommit := Some(newId), indexMap := None, indexFile := [],
                allCommits := s.allCommits + [newId]);
    forall b | b in t.branches && t.branches[b].Some?
      ensures t.branches[b].value in t.commits
    {
      if b != s.head {
        assert s.branches[b] == t.branches[b];
      }
    }
  }

  /** A branch switch to a branch with a commit keeps the invariant; it moves HEAD
      and the branch name and leaves the cached commit alone. */
  lemma SwitchKeepsConsistent(s: State, hash: Bytes -> string, input: string, w: map<Path, Bytes>)
    requires Consistent(s, hash)
    requires input in s.branches && s.branches[input].Some?
    ensures Consistent(s.(work := w, branch := input, head := input), hash)
  {
  }

  /** As written, a branch switch keeps the cached commit: once the target's tip
      differs from it, the cached commit is no longer HEAD's tip. */
  lemma StaleSwitchBreaksHeadCache(s: State, input: string, w: map<Path, Bytes>)
    requires HeadCached(s)
    requires input in s.branches && s.branches[input] != s.lastCommit
    ensures !HeadCached(s.(work := w, branch := input, head := input))
  {
  }

  /** The switch that also caches the target's tip keeps HEAD and the cached commit
      together, and keeps the invariant. */
  lemma CorrectedSwitchKeepsHeadCache(s: State, hash: Bytes -> string, input: string, w: map<Path, Bytes>)
    requires Consistent(s, hash) && HeadCached(s)
    requires input in s.branches && s.branches[input].Some?
    ensures var t := s.(work := w, branch := input, head := input, lastCommit := s.branches[input]);
      Consistent(t, hash) && HeadCached(t)
  {
  }

  /** One entry staged by `add` and written out, then read by `status` in a fresh
      process: the reader gives the value with a leading space, `startsWith`
      fails, and the staged, unchanged file is listed as modified. */
  lemma FreshProcessListsStagedAsModified(name: Path, work: map<Path, Bytes>, hash: Bytes -> string,
                                          tree: Tree, digit: char)
    requires name in work && IsDigest(hash(work[name])) && digit != RemovedDigit
    ensures var lines := IndexLines(map[name := Entry(hash(work[name]), digit)], [name]);
      CategoryOf(name, work, hash, Loaded(None, lines), tree) == ModifiedChanged
  {
    var e := Entry(hash(work[name]), digit);
    EntryWidth(hash(work[name]), digit);
    FirstReload(name, e);
    var loaded := Loaded(None, IndexLines(map[name := e], [name]));
    assert loaded == map[name := " " + e];
    ReloadedEntryIsModified(name, work, hash, loaded, tree, digit);
  }

  class VersionControlSystem {
    /** The content hasher of `VCSUtils`: a 40-digit hexadecimal address. */
    const hash: Bytes -> string

    var work: map<Path, Bytes>                    // the working directory
    var objects: Blobs                            // .vcs/Objects
    var commits: map<string, CommitRecord>        // every commit, by id
    var branches: map<string, Option<string>>     // .vcs/Branches: tip of each branch, if any
    var head: string                              // .vcs/HEAD: the branch file it names
    var branch: string                            // the branch the object believes it is on
    var lastCommit: Option<string>                // the cached current commit (null before the first)
    var indexMap: Option<Index>                   // the cached index (null until read)
    var indexFile: seq<string>                    // the lines of .vcs/Index
    var allCommits: seq<string>                   // the lines of .vcs/AllCommits

    function Snapshot(): State
      reads this
    {
      State(work, objects, commits, branches, head, branch, lastCommit, indexMap, indexFile, allCommits)
    }

    ghost predicate Valid()
      reads this
    {
      && (forall b :: |hash(b)| == 40)
      && Consistent(Snapshot(), hash)
    }

    /** The tree of the cached current commit. */
    function CurrentTree(): Option<Tree>
      reads this
      requires Valid()
    {
      if lastCommit.Some? then Some(commits[lastCommit.value].tree) else None
    }

    /** Opening a repository: the current commit is the tip HEAD names, and the
        branch is the one recorded in that commit, or HEAD's own name before the
        first commit. */
    constructor (hash: Bytes -> string, work: map<Path, Bytes>, objects: Blobs,
                 commits: map<string, CommitRecord>, branches: map<string, Option<string>>,
                 head: string, indexFile: seq<string>, allCommits: seq<string>)
      requires forall b :: |hash(b)| == 40
      requires ContentAddressed(objects, hash)
      requires forall id :: id in commits ==> Stored(commits[id].tree, objects)
      requires forall b :: b in branches && branches[b].Some? ==> branches[b].value in commits
      requires head in branches
      ensures Valid()
      ensures this.hash == hash
      ensures Snapshot() == State(work, objects, commits, branches, head,
                                  if branches[head].Some? then commits[branches[head].value].branch else head,
                                  branches[head], None, indexFile, allCommits)
    {
      this.hash := hash;
      this.work := work;
      this.objects := objects;
      this.commits := commits;
      this.branches := branches;
      this.head := head;
      this.indexFile := indexFile;
      this.allCommits := allCommits;
      lastCommit := branches[head];
      branch := if branches[head].Some? then commits[branches[head].value].branch else head;
      indexMap := None;
    }

    /** `readIndex`: a no-op while the index is cached, otherwise it loads the file. */
    method ReadIndex()
      requires Valid()
      modifies this
      ensures Valid()
      ensures indexMap == Some(Loaded(old(indexMap), indexFile))
      ensures Snapshot() == old(Snapshot()).(indexMap := indexMap)
    {
      if indexMap.None? {
        var m := LoadLines(indexFile);
        indexMap := Some(m);
      }
    }

    /** Rewrites the Index file from `m`, entries in HashMap order. Read back, an
        index of full entries gains a space in front of every value, and an index of
        values read from disk a space after every key; only the corrected reader
        would give `m` back. */
    method WriteIndex(m: Index)
      requires Valid()
      modifies this
      ensures Valid()
      ensures IsWrittenIndex(indexFile, m)
      ensures |indexFile| == |m|
      ensures WellFormedEntries(m) ==> LoadIndex(indexFile) == map k | k in m :: " " + m[k]
      ensures (forall k :: k in m ==> |m[k]| == TailWidth) ==>
        forall k :: k in m ==> k + " " in LoadIndex(indexFile) && LoadIndex(indexFile)[k + " "] == m[k]
      ensures WellFormedEntries(m) ==> LoadIndexIntended(indexFile) == m
      ensures Snapshot() == old(Snapshot()).(indexFile := indexFile)
    {
      var lines, keys := SerializeIndex(m);
      assert Enumerates(keys, m.Keys) && lines == IndexLines(m, keys);
      ReadBack(lines, m);
      indexFile := lines;
    }

    /** `add`: rewrites the name's index entry as `AddToIndex` decides, stores the
        blob of an existing file, and rewrites the Index file unless the file
        neither exists nor is tracked. */
    method Add(name: Path) returns (outcome: Outcome)
      requires Valid()
      modifies this
      ensures Valid()
      ensures var staged := Loaded(old(indexMap), old(indexFile));
        var content := if name in old(work) then Some(old(work)[name]) else None;
        var r := AddToIndex(staged, name, content, LastHash(old(CurrentTree()), name), hash);
        && (r.None? ==> outcome == DoesNotExist(name) && indexMap == Some(staged) && indexFile == old(indexFile))
        && (r.Some? ==> outcome == Done && indexMap == r && IsWrittenIndex(indexFile, r.value))
        && objects == if content.Some? then old(objects)[hash(content.value) := content.value] else old(objects)
      ensures outcome == Done && WellFormedEntries(indexMap.value) ==>
        LoadIndex(indexFile) == map k | k in indexMap.value :: " " + indexMap.value[k]
      ensures Snapshot() == old(Snapshot()).(indexMap := indexMap, indexFile := indexFile, objects := objects)
    {
      ReadIndex();
      var staged := indexMap.value;
      var content := if name in work then Some(work[name]) else None;
      var r := AddToIndex(staged, name, content, LastHash(CurrentTree(), name), hash);
      if content.Some? {
        StoreKeepsConsistent(Snapshot(), hash, content.value);
        objects := objects[hash(content.value) := content.value];
      }
      if r.None? {
        outcome := DoesNotExist(name);
        return;
      }
      StageKeepsConsistent(Snapshot(), hash, r.value, indexFile);
      indexMap := r;
      WriteIndex(r.value);
      outcome := Done;
    }

    /** `remove`: unstages an untracked name, or stages the removal of a tracked
        one and deletes its file; the Index file is rewritten in every case. */
    method Remove(name: Path) returns (outcome: Outcome)
      requires Valid()
      modifies this
      ensures Valid()
      ensures var staged := Loaded(old(indexMap), old(indexFile));
        var tracked := LastHash(old(CurrentTree()), name).Some?;
        && indexMap == Some(RemoveFromIndex(staged, name, tracked))
        && IsWrittenIndex(indexFile, indexMap.value)
        && outcome == (if NoReasonToRemove(staged, name, tracked) then NoReason else Done)
        && work == if tracked then old(work) - {name} else old(work)
      ensures WellFormedEntries(indexMap.value) ==>
        LoadIndex(indexFile) == map k | k in indexMap.value :: " " + indexMap.value[k]
      ensures Snapshot() == old(Snapshot()).(indexMap := indexMap, indexFile := indexFile, work := work)
    {
      ReadIndex();
      var staged := indexMap.value;
      var tracked := LastHash(CurrentTree(), name).Some?;
      outcome := if NoReasonToRemove(staged, name, tracked) then NoReason else Done;
      if tracked {
        work := work - {name};
      }
      StageKeepsConsistent(Snapshot(), hash, RemoveFromIndex(staged, name, tracked), indexFile);
      indexMap := Some(RemoveFromIndex(staged, name, tracked));
      WriteIndex(indexMap.value);
    }

    /** `commit`. The guard looks at the cached index only: an index that was never
        read counts as empty. `newId` and `newTree` are what `writeCommit`
        returns: a fresh commit id and the tree it built from the stored blobs. */
    method Commit(message: string, user: string, newId: string, newTree: Tree) returns (outcome: Outcome)
      requires Valid()
      requires newId !in commits && Stored(newTree, objects)
      modifies this
      ensures Valid()
      ensures old(indexMap).None? || old(indexMap).value == map[] ==>
        outcome == NoChangesAdded && Snapshot() == old(Snapshot())
      ensures old(indexMap).Some? && old(indexMap).value != map[] && message == "" ==>
        outcome == EmptyMessage && Snapshot() == old(Snapshot())
      ensures old(indexMap).Some? && old(indexMap).value != map[] && message != "" ==>
        && outcome == Done
        && Snapshot() == old(Snapshot()).(
             commits := old(commits)[newId := CommitRecord(newTree, old(lastCommit), old(branch), user, message)],
             branches := old(branches)[old(head) := Some(newId)],
             lastCommit := Some(newId),
             indexMap := None,
             indexFile := [],
             allCommits := old(allCommits) + [newId])
    {
      if indexMap.None? || indexMap.value == map[] {
        return NoChangesAdded;
      } else if message == "" {
        return EmptyMessage;
      }
      ReadIndex();
      Record(CommitRecord(newTree, lastCommit, branch, user, message), newId);
      outcome := Done;
    }

    /** The part of `commit` after its guard: the commit made by `writeCommit` becomes
        the current commit and the tip of HEAD's branch, the index is emptied,
        and AllCommits gains the new id. */
    method Record(rec: CommitRecord, newId: string)
      requires Valid()
      requires newId !in commits && Stored(rec.tree, objects)
      modifies this
      ensures Valid()
      ensures Snapshot() == old(Snapshot()).(
                commits := old(commits)[newId := rec],
                branches := old(branches)[old(head) := Some(newId)],
                lastCommit := Some(newId),
                indexMap := None,
                indexFile := [],
                allCommits := old(allCommits) + [newId])
    {
      CommitKeepsConsistent(Snapshot(), hash, newId, rec);
      commits, branches, lastCommit := commits[newId := rec], branches[head := Some(newId)], Some(newId);
      indexMap, indexFile, allCommits := None, [], allCommits + [newId];
    }

    /** `status`: the Branches section, then (once there is a commit) the sections
        of the classification of W, I and C; before the first commit the
        classification dereferences the missing commit, and only the Branches
        section is returned. `shown` records the orders the hash sets were printed in. */
    method Status() returns (report: string, ghost shown: Shown)
      requires Valid()
      modifies this
      ensures Valid()
      ensures indexMap == Some(Loaded(old(indexMap), old(indexFile)))
      ensures Snapshot() == old(Snapshot()).(indexMap := indexMap)
      ensures Enumerates(shown.branches, branches.Keys)
      ensures lastCommit.None? ==> report == BranchesText(shown.branches, branch)
      ensures lastCommit.Some? ==>
        && report == StatusText(shown, branch)
        && var l := Expected(work, hash, indexMap.value, CurrentTree().value);
           && Enumerates(shown.staged, l.staged) && Enumerates(shown.removed, l.removed)
           && Enumerates(shown.modified, l.modified) && Enumerates(shown.untracked, l.untracked)
    {
      var text, names := EmitBranches(branches.Keys, branch);
      ReadIndex();
      if lastCommit.None? {
        shown := Shown(names, [], [], [], []);
        return text, shown;
      }
      var l := Classify(work, hash, indexMap.value, commits[lastCommit.value].tree);
      var staged, stagedOrder := EmitSection(StagedHeader, l.staged);
      var removed, removedOrder := EmitSection(RemovedHeader, l.removed);
      var modified, modifiedOrder := EmitSection(ModifiedHeader, l.modified);
      var untracked, untrackedOrder := EmitSection(UntrackedHeader, l.untracked);
      shown := Shown(names, stagedOrder, removedOrder, modifiedOrder, untrackedOrder);
      report := text + (staged + removed + modified + untracked);
    }

    /** Copies the blob `tree` records for `name` over the working file. */
    method Restore(tree: Tree, name: Path) returns (outcome: Outcome)
      requires Valid() && Stored(tree, objects)
      modifies this
      ensures Valid()
      ensures name !in tree ==> outcome == FileNotInCommit && Snapshot() == old(Snapshot())
      ensures name in tree ==>
        outcome == Done && Snapshot() == old(Snapshot()).(work := old(work)[name := old(objects)[tree[name]]])
    {
      if name !in tree {
        return FileNotInCommit;
      }
      work := work[name := objects[tree[name]]];
      outcome := Done;
    }

    /** `checkout -- <file>`: restores a file from the current commit. */
    method CheckoutFile(name: Path) returns (outcome: Outcome)
      requires Valid()
      modifies this
      ensures Valid()
      ensures old(lastCommit).None? ==> outcome == Crashed && Snapshot() == old(Snapshot())
      ensures old(lastCommit).Some? ==> var tree := old(CurrentTree()).value;
        && (name !in tree ==> outcome == FileNotInCommit && Snapshot() == old(Snapshot()))
        && (name in tree ==>
              outcome == Done && Snapshot() == old(Snapshot()).(work := old(work)[name := old(objects)[tree[name]]]))
    {
      if lastCommit.None? {
        return Crashed;
      }
      outcome := Restore(commits[lastCommit.value].tree, name);
    }

    /** `checkout <commit id> -- <file>`: restores a file from any commit. */
    method CheckoutCommitFile(commitId: string, name: Path) returns (outcome: Outcome)
      requires Valid()
      modifies this
      ensures Valid()
      ensures commitId !in old(commits) ==> outcome == NoSuchCommit && Snapshot() == old(Snapshot())
      ensures commitId in old(commits) ==> var tree := old(commits)[commitId].tree;
        && (name !in tree ==> outcome == FileNotInCommit && Snapshot() == old(Snapshot()))
        && (name in tree ==>
              outcome == Done && Snapshot() == old(Snapshot()).(work := old(work)[name := old(objects)[tree[name]]]))
    {
      if commitId !in commits {
        return NoSuchCommit;
      }
      outcome := Restore(commits[commitId].tree, name);
    }

    /** `checkout <branch>`: refuses the current branch, an unknown branch and a
        working directory with untracked files the target would overwrite;
        otherwise switches the files from the current tree to the target's and
        points HEAD at the branch. The cached current commit is left as it was, so
        later commands of the same process still compare against the old tree (see
        SwitchBackLeavesFiles and StaleSwitchBreaksHeadCache). */
    method CheckoutBranch(input: string) returns (outcome: Outcome)
      requires Valid()
      modifies this
      ensures Valid()
      ensures old(lastCommit).None? ==> outcome == Crashed && Snapshot() == old(Snapshot())
      ensures old(lastCommit).Some? && input == old(branch) ==>
        outcome == AlreadyOnBranch && Snapshot() == old(Snapshot())
      ensures old(lastCommit).Some? && input != old(branch) && !(input in old(branches) && old(branches)[input].Some?) ==>
        outcome == NoSuchBranch && Snapshot() == old(Snapshot())
      ensures old(lastCommit).Some? && input != old(branch) && input in old(branches) && old(branches)[input].Some? ==>
        var cur := old(CurrentTree()).value;
        var target := old(commits)[old(branches)[input].value].tree;
        var blocked := InTheWay(old(work), cur, target);
        && (blocked != {} ==> outcome == UntrackedInTheWay(blocked) && Snapshot() == old(Snapshot()))
        && (blocked == {} ==>
              outcome == Done
              && Snapshot() == old(Snapshot()).(work := Switch(old(work), cur, target, old(objects)), branch := input,
                                                  head := input))
    {
      if lastCommit.None? {
        return Crashed;
      }
      var cur := commits[lastCommit.value].tree;
      if input == branch {
        return AlreadyOnBranch;
      } else if !(input in branches && branches[input].Some?) {
        return NoSuchBranch;
      }
      var target := commits[branches[input].value].tree;
      var blocked := FindInTheWay(work, cur, target);
      if blocked != {} {
        return UntrackedInTheWay(blocked);
      }
      SwitchKeepsConsistent(Snapshot(), hash, input, Switch(work, cur, target, objects));
      work := SwitchFiles(work, cur, target, objects);
      branch := input;
      head := input;
      outcome := Done;
    }
  }
}
