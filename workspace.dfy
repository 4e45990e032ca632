/** The working-directory side of `checkout`: the "untracked files in the way"
    safeguard, the delete-then-copy engine of a branch switch, and what a switch
    leaves behind. */
module Workspace {
  import opened Base
  import opened StatusReport

  /** The blob store: content address to contents. */
  type Blobs = map<string, Bytes>

  /** Every address of `tree` has its blob in `objects`. */
  predicate Stored(tree: Tree, objects: Blobs)
  {
    forall p :: p in tree ==> tree[p] in objects
  }

  /** Every blob is filed under the address the hasher gives its contents. */
  predicate ContentAddressed(objects: Blobs, hash: Bytes -> string)
  {
    forall a :: a in objects ==> hash(objects[a]) == a
  }

  /** Working files the target tree tracks but the current tree does not: a
      branch switch would overwrite them, so `checkout` refuses when any exist. */
  function InTheWay(work: map<Path, Bytes>, cur: Tree, target: Tree): (r: set<Path>)
    ensures r <= work.Keys
    ensures forall p :: p in r ==> p in target && p !in cur
    ensures r == {} <==> forall p :: p in work && p in target ==> p in cur
  {
    var r := set p | p in work && p in target && p !in cur;
    assert r == {} <== forall p :: p in work && p in target ==> p in cur by {
      if forall p :: p in work && p in target ==> p in cur {
        assert forall p :: p !in r;
      }
    }
    assert r == {} ==> forall p :: p in work && p in target ==> p in cur by {
      if r == {} {
        forall p | p in work && p in target ensures p in cur {
          assert p !in r;
        }
      }
    }
    r
  }

  /** The files of `target`, each holding its blob. */
  function Materialize(target: Tree, objects: Blobs): (files: map<Path, Bytes>)
    requires Stored(target, objects)
    ensures files.Keys == target.Keys
    ensures forall p :: p in target ==> files[p] == objects[target[p]]
  {
    map p | p in target :: objects[target[p]]
  }

  /** The working directory without the files `cur` tracks and `target` does not. */
  function Pruned(work: map<Path, Bytes>, cur: Tree, target: Tree): map<Path, Bytes>
  {
    map p | p in work && (p !in cur || p in target) :: work[p]
  }

  /** The working directory after switching from tree `cur` to tree `target`. */
  function Switch(work: map<Path, Bytes>, cur: Tree, target: Tree, objects: Blobs): (w: map<Path, Bytes>)
    requires Stored(target, objects)
    ensures forall p :: p in cur && p !in target ==> p !in w
    ensures forall p :: p in target ==> p in w && w[p] == objects[target[p]]
    ensures forall p :: p !in cur && p !in target ==> (p in w <==> p in work)
    ensures forall p :: p !in cur && p !in target && p in work ==> w[p] == work[p]
  {
    Pruned(work, cur, target) + Materialize(target, objects)
  }

  /** The scan of the working directory for files in the way. */
  method FindInTheWay(work: map<Path, Bytes>, cur: Tree, target: Tree) returns (names: set<Path>)
    ensures names == InTheWay(work, cur, target)
  {
    names := {};
    var rest := work.Keys;
    ghost var seen: set<Path> := {};
    while rest != {}
      invariant rest !! seen && rest + seen == work.Keys
      invariant names == InTheWay(work - rest, cur, target)
      decreases rest
    {
      var name :| name in rest;
      if name in target && name !in cur {
        names := names + {name};
      }
      rest := rest - {name};
      seen := seen + {name};
    }
    assert work - rest == work;
  }

  /** The two loops of a branch switch: delete what only `cur` tracks, then copy
      every file of `target` out of the blob store. */
  method SwitchFiles(work: map<Path, Bytes>, cur: Tree, target: Tree, objects: Blobs) returns (w: map<Path, Bytes>)
    requires Stored(target, objects)
    ensures w == Switch(work, cur, target, objects)
  {
    w := DeleteUntargeted(work, cur, target);
    w := CopyTarget(w, target, objects);
  }

  /** The deleting loop: each file of `cur` that `target` lacks is deleted (a
      deletion of a file that is already gone does nothing). */
  method DeleteUntargeted(work: map<Path, Bytes>, cur: Tree, target: Tree) returns (w: map<Path, Bytes>)
    ensures w == Pruned(work, cur, target)
  {
    w := work;
    var doomed := cur.Keys;
    ghost var seen: set<Path> := {};
    while doomed != {}
      invariant doomed !! seen && doomed + seen == cur.Keys
      invariant w == map p | p in work && (p !in seen || p in target) :: work[p]
      decreases doomed
    {
      var name :| name in doomed;
      if name !in target {
        w := w - {name};
      }
      doomed := doomed - {name};
      seen := seen + {name};
    }
    assert seen == cur.Keys;
  }

  /** The copying loop: each file of `target` gets its blob. */
  method CopyTarget(work: map<Path, Bytes>, target: Tree, objects: Blobs) returns (w: map<Path, Bytes>)
    requires Stored(target, objects)
    ensures w == work + Materialize(target, objects)
  {
    w := work;
    var pending := target.Keys;
    ghost var seen: set<Path> := {};
    while pending != {}
      invariant pending !! seen && pending + seen == target.Keys
      invariant w == work + map p | p in seen :: objects[target[p]]
      decreases pending
    {
      var name :| name in pending;
      w := w[name := objects[target[name]]];
      pending := pending - {name};
      seen := seen + {name};
    }
    assert seen == target.Keys;
  }

  // ---------------------------------------------------------------- properties

  /** With nothing in the way, a switch keeps every untracked working file as it is:
      no contents that are not stored somewhere are lost. */
  lemma SwitchKeepsUntracked(work: map<Path, Bytes>, cur: Tree, target: Tree, objects: Blobs, p: Path)
    requires Stored(target, objects)
    requires InTheWay(work, cur, target) == {}
    requires p in work && p !in cur
    ensures p in Switch(work, cur, target, objects) && Switch(work, cur, target, objects)[p] == work[p]
  {
    assert p !in InTheWay(work, cur, target);
  }

  /** After a switch, every file of the target tree is clean: unless it is staged,
      `status` against that tree lists it nowhere. */
  lemma SwitchedFilesAreClean(work: map<Path, Bytes>, cur: Tree, target: Tree, objects: Blobs,
                              hash: Bytes -> string, index: Index, p: Path)
    requires Stored(target, objects) && ContentAddressed(objects, hash)
    requires p in target && p !in index
    ensures CategoryOf(p, Switch(work, cur, target, objects), hash, index, target) == Unlisted
  {
  }

  /** As written, `checkout` of a branch keeps the old `lastCommit`, so switching
      from A to B and back to A compares against A's tree both times: a file only B
      tracks survives the switch back, holding B's blob. */
  lemma SwitchBackLeavesFiles(work: map<Path, Bytes>, a: Tree, b: Tree, objects: Blobs, p: Path)
    requires Stored(a, objects) && Stored(b, objects)
    requires p in b && p !in a
    ensures var back := Switch(Switch(work, a, b, objects), a, a, objects);
      p in back && back[p] == objects[b[p]]
  {
  }

  /** ... and `status` on A then lists that file as untracked (when it is not staged). */
  lemma SwitchBackShowsUntracked(work: map<Path, Bytes>, a: Tree, b: Tree, objects: Blobs,
                                 hash: Bytes -> string, index: Index, p: Path)
    requires Stored(a, objects) && Stored(b, objects)
    requires p in b && p !in a && p !in index
    ensures CategoryOf(p, Switch(Switch(work, a, b, objects), a, a, objects), hash, index, a) == Untracked
  {
    SwitchBackLeavesFiles(work, a, b, objects, p);
  }

  /** Comparing against the tree actually checked out, switching from A to B and
      back to A leaves the working directory as a fresh checkout of A would. */
  lemma SwitchBackRestores(work: map<Path, Bytes>, a: Tree, b: Tree, objects: Blobs)
    requires Stored(a, objects) && Stored(b, objects)
    requires InTheWay(work, a, b) == {}
    ensures Switch(Switch(work, a, b, objects), b, a, objects) == Switch(work, a, a, objects)
  {
    var there := Switch(work, a, b, objects);
    var back := Switch(there, b, a, objects);
    var anew := Switch(work, a, a, objects);
    forall p | p in b && p !in a
      ensures p !in work
    {
      assert p !in InTheWay(work, a, b);
    }
    assert back.Keys == anew.Keys;
  }

  /** Checking out the tree a clean working directory already matches changes nothing. */
  lemma SwitchToSameTreeWhenClean(work: map<Path, Bytes>, a: Tree, objects: Blobs)
    requires Stored(a, objects)
    requires forall p :: p in a ==> p in work && work[p] == objects[a[p]]
    ensures Switch(work, a, a, objects) == work
  {
    var w := Switch(work, a, a, objects);
    assert w.Keys == work.Keys;
  }
}
