/** The decision tables of `add` and `remove`: how one index entry is rewritten
    after comparing a working file with the last commit's tree. */
module Staging {
  import opened Base
  import opened IndexFormat
  import opened StatusReport

  /** The last commit's address for `name`; None when there is no commit yet or
      its tree does not track `name`. */
  function LastHash(tree: Option<Tree>, name: Path): (r: Option<string>)
    ensures r.Some? <==> tree.Some? && name in tree.value
    ensures r.Some? ==> r.value == tree.value[name]
  {
    if tree.Some? && name in tree.value then Some(tree.value[name]) else None
  }

  /** What `add` does to the in-memory index. `content` is None when the file does
      not exist. The result is None when `add` reports "does not exist" and
      returns before rewriting the index file. */
  function AddToIndex(index: Index, name: Path, content: Option<Bytes>, lastHash: Option<string>,
                      hash: Bytes -> string): (r: Option<Index>)
    ensures r.None? <==> content.None? && lastHash.None?
    ensures r.Some? ==> forall k :: k != name ==> (k in r.value <==> k in index)
    ensures r.Some? ==> forall k :: k != name && k in index ==> r.value[k] == index[k]
    ensures r.Some? && content.None? ==> name in r.value && r.value[name] == RemovedEntry
    ensures content.Some? && lastHash == Some(hash(content.value)) ==> r.Some? && name !in r.value
    ensures content.Some? && lastHash.None? ==>
      r.Some? && name in r.value && r.value[name] == Entry(hash(content.value), AddedDigit)
    ensures content.Some? && lastHash.Some? && lastHash != Some(hash(content.value)) ==>
      r.Some? && name in r.value && r.value[name] == Entry(hash(content.value), ModifiedDigit)
  {
    match content
    case None =>
      if lastHash.Some? then Some(index[name := RemovedEntry]) else None
    case Some(b) =>
      var h := hash(b);
      if lastHash.None? then Some(index[name := Entry(h, AddedDigit)])
      else if lastHash.value == h then Some(index - {name})
      else Some(index[name := Entry(h, ModifiedDigit)])
  }

  /** `remove` on a name that is neither tracked nor staged: it prints "No reason
      to remove the file" and keeps the index. */
  predicate NoReasonToRemove(index: Index, name: Path, tracked: bool)
  {
    !tracked && name !in index
  }

  /** What `remove` does to the in-memory index; `tracked` says whether the last
      commit's tree holds `name`. */
  function RemoveFromIndex(index: Index, name: Path, tracked: bool): (r: Index)
    ensures forall k :: k != name ==> (k in r <==> k in index)
    ensures forall k :: k != name && k in index ==> r[k] == index[k]
    ensures tracked ==> name in r && r[name] == RemovedEntry
    ensures !tracked ==> name !in r
    ensures NoReasonToRemove(index, name, tracked) ==> r == index
  {
    if tracked then index[name := RemovedEntry]
    else if name in index then index - {name}
    else index
  }

  // ---------------------------------------------------------------- what status then says

  /** An entry written by `add` for an existing file never marks a removal and
      starts with the file's address. */
  lemma WrittenEntryShape(h: string, digit: char)
    requires digit != RemovedDigit
    ensures !MarksRemoval(Entry(h, digit))
    ensures StartsWith(Entry(h, digit), h)
  {
    var e := Entry(h, digit);
    assert e[|e| - 1] == digit;
    assert e[..|h|] == h;
  }

  /** After `add` of an existing file, `status` (in the same process) lists it as
      staged, unless its contents equal the committed blob, when it is listed nowhere. */
  lemma AddThenStatus(index: Index, name: Path, work: map<Path, Bytes>, hash: Bytes -> string, tree: Tree)
    requires name in work
    ensures var r := AddToIndex(index, name, Some(work[name]), LastHash(Some(tree), name), hash);
      r.Some? &&
      CategoryOf(name, work, hash, r.value, tree)
        == if name in tree && tree[name] == hash(work[name]) then Unlisted else Staged
  {
    var h := hash(work[name]);
    WrittenEntryShape(h, AddedDigit);
    WrittenEntryShape(h, ModifiedDigit);
  }

  /** After `add` of a tracked file that no longer exists, `status` lists it as removed. */
  lemma AddMissingThenStatus(index: Index, name: Path, work: map<Path, Bytes>, hash: Bytes -> string, tree: Tree)
    requires name !in work && name in tree
    ensures var r := AddToIndex(index, name, None, LastHash(Some(tree), name), hash);
      r.Some? && CategoryOf(name, work, hash, r.value, tree) == Removed
  {
    var r := AddToIndex(index, name, None, LastHash(Some(tree), name), hash);
    RemovalEntryCategory(name, work, hash, r.value, tree);
  }

  /** Adding the same contents twice stages exactly what adding once does. */
  lemma AddIdempotent(index: Index, name: Path, content: Option<Bytes>, lastHash: Option<string>, hash: Bytes -> string)
    requires AddToIndex(index, name, content, lastHash, hash).Some?
    ensures var once := AddToIndex(index, name, content, lastHash, hash).value;
      AddToIndex(once, name, content, lastHash, hash) == Some(once)
  {
    var once := AddToIndex(index, name, content, lastHash, hash).value;
    match content
    case None =>
      assert once[name := RemovedEntry] == once;
    case Some(b) =>
      if lastHash == Some(hash(b)) {
        assert once - {name} == once;
      } else if lastHash.None? {
        assert once[name := Entry(hash(b), AddedDigit)] == once;
      } else {
        assert once[name := Entry(hash(b), ModifiedDigit)] == once;
      }
  }

  /** After `remove` of a tracked name (its file deleted), `status` lists it as removed. */
  lemma RemoveTrackedThenStatus(index: Index, name: Path, work: map<Path, Bytes>, hash: Bytes -> string, tree: Tree)
    requires name in tree
    ensures CategoryOf(name, work - {name}, hash, RemoveFromIndex(index, name, true), tree) == Removed
  {
    RemovalEntryCategory(name, work - {name}, hash, RemoveFromIndex(index, name, true), tree);
  }

  /** After `remove` of an untracked name, `status` lists it as untracked when its
      file exists and nowhere otherwise. */
  lemma RemoveUntrackedThenStatus(index: Index, name: Path, work: map<Path, Bytes>, hash: Bytes -> string, tree: Tree)
    requires name !in tree
    ensures CategoryOf(name, work, hash, RemoveFromIndex(index, name, false), tree)
         == if name in work then Untracked else Unlisted
  {
  }

  /** `remove` of a name that was never staged undoes `add` of a new file. */
  lemma RemoveUndoesAdd(index: Index, name: Path, b: Bytes, hash: Bytes -> string)
    requires name !in index
    ensures RemoveFromIndex(AddToIndex(index, name, Some(b), None, hash).value, name, false) == index
  {
    var r := RemoveFromIndex(AddToIndex(index, name, Some(b), None, hash).value, name, false);
    assert r.Keys == index.Keys;
  }
}
