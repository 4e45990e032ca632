/** `status`: the three-way comparison of the working directory (W), the staging
    index (I) and the last commit's tree (C), and the layout of its report. */
module StatusReport {
  import opened Base
  import IndexFormat

  /** Where `status` lists a path. `Unlisted` paths are in no section. */
  datatype Category =
    | Staged
    | Removed
    | ModifiedChanged   // listed as "<path> (modified)"
    | ModifiedDeleted   // listed as "<path> (deleted)"
    | Untracked
    | Unlisted

  /** `value.endsWith("2")`: the entry stages a removal. */
  predicate MarksRemoval(value: string)
  {
    |value| > 0 && value[|value| - 1] == IndexFormat.RemovedDigit
  }

  /** `value.startsWith(address)`. */
  predicate StartsWith(value: string, address: string)
  {
    address <= value
  }

  /** The decision `status` takes for one path, read off its three loops. */
  function CategoryOf(p: Path, work: map<Path, Bytes>, hash: Bytes -> string, index: Index, tree: Tree): (c: Category)
    ensures c == Staged ==> p in work && p in index && StartsWith(index[p], hash(work[p]))
    ensures c == Removed ==> p !in work && p in index && MarksRemoval(index[p])
    ensures c == ModifiedDeleted ==> p !in work && (p in index || p in tree)
    ensures c == Unlisted <==>
      p !in index && (p in work ==> p in tree && tree[p] == hash(work[p])) && (p !in work ==> p !in tree)
  {
    if p in work then
      if p in index then
        if MarksRemoval(index[p]) then Untracked
        else if StartsWith(index[p], hash(work[p])) then Staged
        else ModifiedChanged
      else if p in tree && tree[p] != hash(work[p]) then ModifiedChanged
      else if p !in tree then Untracked
      else Unlisted
    else if p in index then
      if MarksRemoval(index[p]) then Removed else ModifiedDeleted
    else if p in tree then ModifiedDeleted
    else Unlisted
  }

  function ModifiedLine(p: Path): string { p + " (modified)" }
  function DeletedLine(p: Path): string { p + " (deleted)" }

  /** The four sets `status` fills; `modified` holds the labelled lines. */
  datatype Listing = Listing(staged: set<Path>, removed: set<Path>, modified: set<string>, untracked: set<Path>)

  function ModifiedLines(paths: set<Path>): set<string> { set p | p in paths :: ModifiedLine(p) }
  function DeletedLines(paths: set<Path>): set<string> { set p | p in paths :: DeletedLine(p) }

  /** `CategoryOf` for one fixed W, I and C (and hasher). */
  function Categories(work: map<Path, Bytes>, hash: Bytes -> string, index: Index, tree: Tree): Path -> Category
  {
    p => CategoryOf(p, work, hash, index, tree)
  }

  /** The listing of the paths in `paths`, each placed by `cat`. */
  function ListingOf(paths: set<Path>, cat: Path -> Category): Listing
  {
    Listing(
      InCategory(paths, Staged, cat),
      InCategory(paths, Removed, cat),
      ModifiedLines(InCategory(paths, ModifiedChanged, cat)) + DeletedLines(InCategory(paths, ModifiedDeleted, cat)),
      InCategory(paths, Untracked, cat))
  }

  /** Every path of W, I and C considered once. */
  function Universe(work: map<Path, Bytes>, index: Index, tree: Tree): set<Path>
  {
    work.Keys + index.Keys + tree.Keys
  }

  /** The listing `status` must produce. */
  function Expected(work: map<Path, Bytes>, hash: Bytes -> string, index: Index, tree: Tree): Listing
  {
    ListingOf(Universe(work, index, tree), Categories(work, hash, index, tree))
  }

  /** `l` with `p` added to the set its category names. */
  function Place(l: Listing, p: Path, c: Category): Listing
  {
    match c
    case Staged => l.(staged := l.staged + {p})
    case Removed => l.(removed := l.removed + {p})
    case ModifiedChanged => l.(modified := l.modified + {ModifiedLine(p)})
    case ModifiedDeleted => l.(modified := l.modified + {DeletedLine(p)})
    case Untracked => l.(untracked := l.untracked + {p})
    case Unlisted => l
  }

  /** The paths of `paths` that fall in category `c`. */
  function InCategory(paths: set<Path>, c: Category, cat: Path -> Category): set<Path>
  {
    set p | p in paths && cat(p) == c
  }

  lemma InCategoryAdd(paths: set<Path>, p: Path, c: Category, cat: Path -> Category)
    ensures cat(p) == c ==> InCategory(paths + {p}, c, cat) == InCategory(paths, c, cat) + {p}
    ensures cat(p) != c ==> InCategory(paths + {p}, c, cat) == InCategory(paths, c, cat)
  {
  }

  lemma LinesAdd(paths: set<Path>, p: Path)
    ensures ModifiedLines(paths + {p}) == ModifiedLines(paths) + {ModifiedLine(p)}
    ensures DeletedLines(paths + {p}) == DeletedLines(paths) + {DeletedLine(p)}
  {
  }

  /** Adding one path to the listing places it by its category. */
  lemma ListingOfPlace(paths: set<Path>, p: Path, cat: Path -> Category)
    ensures ListingOf(paths + {p}, cat) == Place(ListingOf(paths, cat), p, cat(p))
  {
    InCategoryAdd(paths, p, Staged, cat);
    InCategoryAdd(paths, p, Removed, cat);
    InCategoryAdd(paths, p, Untracked, cat);
    InCategoryAdd(paths, p, ModifiedChanged, cat);
    InCategoryAdd(paths, p, ModifiedDeleted, cat);
    LinesAdd(InCategory(paths, ModifiedChanged, cat), p);
    LinesAdd(InCategory(paths, ModifiedDeleted, cat), p);
  }

  /** The three loops of `status` over W, then I \ W, then C \ W \ I. */
  method Classify(work: map<Path, Bytes>, hash: Bytes -> string, index: Index, tree: Tree) returns (r: Listing)
    ensures r == Expected(work, hash, index, tree)
  {
    var indexFiles, commitFiles;
    r, indexFiles, commitFiles := ClassifyWorking(work, hash, index, tree);
    r, commitFiles := ClassifyStagedOnly(work, hash, index, tree, r, work.Keys, indexFiles, commitFiles);
    r := ClassifyCommittedOnly(work, hash, index, tree, r, work.Keys + indexFiles, commitFiles);
    assert work.Keys + indexFiles + commitFiles == Universe(work, index, tree);
  }

  /** The body of the loop over the working directory for one file `p`: the
      branches of `status` put `p` where `CategoryOf` says. `inIndex` and
      `inCommit` are the loop's shrinking copies of the key sets, which still
      hold every path not yet visited. */
  method VisitWorkingFile(p: Path, work: map<Path, Bytes>, hash: Bytes -> string, index: Index, tree: Tree,
                          inIndex: bool, inCommit: bool, l: Listing) returns (r: Listing)
    requires p in work && inIndex == (p in index) && inCommit == (p in tree)
    ensures r == Place(l, p, CategoryOf(p, work, hash, index, tree))
  {
    r := l;
    if inIndex {
      var line := index[p];
      if MarksRemoval(line) {
        r := r.(untracked := r.untracked + {p});
      } else if StartsWith(line, hash(work[p])) {
        r := r.(staged := r.staged + {p});
      } else {
        r := r.(modified := r.modified + {ModifiedLine(p)});
      }
    } else if inCommit && tree[p] != hash(work[p]) {
      r := r.(modified := r.modified + {ModifiedLine(p)});
    } else if !inCommit {
      r := r.(untracked := r.untracked + {p});
    }
  }

  /** The loop over the working directory; it also strikes each visited path out
      of the index's and the tree's key sets. */
  method ClassifyWorking(work: map<Path, Bytes>, hash: Bytes -> string, index: Index, tree: Tree)
    returns (r: Listing, indexFiles: set<Path>, commitFiles: set<Path>)
    ensures r == ListingOf(work.Keys, Categories(work, hash, index, tree))
    ensures indexFiles == index.Keys - work.Keys && commitFiles == tree.Keys - work.Keys
  {
    r := Listing({}, {}, {}, {});
    indexFiles := index.Keys;
    commitFiles := tree.Keys;
    var rest := work.Keys;
    ghost var done: set<Path> := {};
    while rest != {}
      invariant rest !! done && rest + done == work.Keys
      invariant indexFiles == index.Keys - done && commitFiles == tree.Keys - done
      invariant r == ListingOf(done, Categories(work, hash, index, tree))
      decreases rest
    {
      var p :| p in rest;
      ListingOfPlace(done, p, Categories(work, hash, index, tree));
      r := VisitWorkingFile(p, work, hash, index, tree, p in indexFiles, p in commitFiles, r);
      indexFiles := indexFiles - {p};
      commitFiles := commitFiles - {p};
      rest := rest - {p};
      done := done + {p};
    }
  }

  /** The body of the loop over index entries whose file is gone. */
  method VisitStagedOnly(i: Path, work: map<Path, Bytes>, hash: Bytes -> string, index: Index, tree: Tree,
                         l: Listing, ghost seen: set<Path>)
    returns (r: Listing)
    requires i !in work && i in index
    requires l == ListingOf(seen, Categories(work, hash, index, tree))
    ensures r == ListingOf(seen + {i}, Categories(work, hash, index, tree))
  {
    ListingOfPlace(seen, i, Categories(work, hash, index, tree));
    if MarksRemoval(index[i]) {
      r := l.(removed := l.removed + {i});
    } else {
      r := l.(modified := l.modified + {DeletedLine(i)});
    }
  }

  /** The loop over index entries whose file is gone. */
  method ClassifyStagedOnly(work: map<Path, Bytes>, hash: Bytes -> string, index: Index, tree: Tree,
                            r0: Listing, ghost done: set<Path>, indexFiles: set<Path>, commitFiles0: set<Path>)
    returns (r: Listing, commitFiles: set<Path>)
    requires forall i :: i in indexFiles ==> i !in work && i in index
    requires indexFiles !! done
    requires r0 == ListingOf(done, Categories(work, hash, index, tree))
    ensures r == ListingOf(done + indexFiles, Categories(work, hash, index, tree))
    ensures commitFiles == commitFiles0 - indexFiles
  {
    r, commitFiles := r0, commitFiles0;
    var pending := indexFiles;
    ghost var seen := done;
    while pending != {}
      invariant pending <= indexFiles && pending !! seen && pending + seen == done + indexFiles
      invariant commitFiles == commitFiles0 - (indexFiles - pending)
      invariant r == ListingOf(seen, Categories(work, hash, index, tree))
      decreases pending
    {
      var i :| i in pending;
      r := VisitStagedOnly(i, work, hash, index, tree, r, seen);
      commitFiles := commitFiles - {i};
      pending := pending - {i};
      seen := seen + {i};
    }
    assert seen == done + indexFiles;
  }

  /** The loop over committed paths that are neither in W nor in I. */
  method ClassifyCommittedOnly(work: map<Path, Bytes>, hash: Bytes -> string, index: Index, tree: Tree,
                               r0: Listing, ghost done: set<Path>, commitFiles: set<Path>)
    returns (r: Listing)
    requires forall i :: i in commitFiles ==> i !in work && i !in index && i in tree
    requires commitFiles !! done
    requires r0 == ListingOf(done, Categories(work, hash, index, tree))
    ensures r == ListingOf(done + commitFiles, Categories(work, hash, index, tree))
  {
    r := r0;
    var pending := commitFiles;
    ghost var seen := done;
    while pending != {}
      invariant pending <= commitFiles && pending !! seen && pending + seen == done + commitFiles
      invariant r == ListingOf(seen, Categories(work, hash, index, tree))
      decreases pending
    {
      var i :| i in pending;
      ListingOfPlace(seen, i, Categories(work, hash, index, tree));
      assert CategoryOf(i, work, hash, index, tree) == ModifiedDeleted;
      r := r.(modified := r.modified + {DeletedLine(i)});
      pending := pending - {i};
      seen := seen + {i};
    }
    assert seen == done + commitFiles;
  }

  // ---------------------------------------------------------------- properties

  lemma ModifiedLineShape(p: Path, q: Path)
    ensures ModifiedLine(p) == ModifiedLine(q) ==> p == q
    ensures DeletedLine(p) == DeletedLine(q) ==> p == q
    ensures ModifiedLine(p) != DeletedLine(q)
  {
    if ModifiedLine(p) == ModifiedLine(q) {
      assert p == ModifiedLine(p)[..|p|];
    }
    if DeletedLine(p) == DeletedLine(q) {
      assert p == DeletedLine(p)[..|p|];
    }
    var m, d := ModifiedLine(p), DeletedLine(q);
    assert m[|m| - 4] == 'i' && d[|d| - 4] == 't';
  }

  /** Membership in a listing is exactly the path's category. */
  lemma ListingMembership(paths: set<Path>, cat: Path -> Category, p: Path)
    ensures var l := ListingOf(paths, cat);
      && (p in l.staged <==> p in paths && cat(p) == Staged)
      && (p in l.removed <==> p in paths && cat(p) == Removed)
      && (ModifiedLine(p) in l.modified <==> p in paths && cat(p) == ModifiedChanged)
      && (DeletedLine(p) in l.modified <==> p in paths && cat(p) == ModifiedDeleted)
      && (p in l.untracked <==> p in paths && cat(p) == Untracked)
  {
    var changed := InCategory(paths, ModifiedChanged, cat);
    var deleted := InCategory(paths, ModifiedDeleted, cat);
    if ModifiedLine(p) in ModifiedLines(changed) {
      var q :| q in changed && ModifiedLine(q) == ModifiedLine(p);
      ModifiedLineShape(q, p);
    }
    if ModifiedLine(p) in DeletedLines(deleted) {
      var q :| q in deleted && DeletedLine(q) == ModifiedLine(p);
      ModifiedLineShape(p, q);
    }
    if DeletedLine(p) in ModifiedLines(changed) {
      var q :| q in changed && ModifiedLine(q) == DeletedLine(p);
      ModifiedLineShape(q, p);
    }
    if DeletedLine(p) in DeletedLines(deleted) {
      var q :| q in deleted && DeletedLine(q) == DeletedLine(p);
      ModifiedLineShape(q, p);
    }
  }

  /** Membership in the expected listing is exactly the path's category. */
  lemma ExpectedMembership(p: Path, work: map<Path, Bytes>, hash: Bytes -> string, index: Index, tree: Tree)
    ensures var l := Expected(work, hash, index, tree);
      var c := CategoryOf(p, work, hash, index, tree);
      && (p in l.staged <==> c == Staged)
      && (p in l.removed <==> c == Removed)
      && (ModifiedLine(p) in l.modified <==> c == ModifiedChanged)
      && (DeletedLine(p) in l.modified <==> c == ModifiedDeleted)
      && (p in l.untracked <==> c == Untracked)
  {
    ListingMembership(Universe(work, index, tree), Categories(work, hash, index, tree), p);
  }

  /** Number of sections in which `status` lists `p`. */
  function Listings(l: Listing, p: Path): nat
  {
    (if p in l.staged then 1 else 0) + (if p in l.removed then 1 else 0) +
    (if ModifiedLine(p) in l.modified || DeletedLine(p) in l.modified then 1 else 0) +
    (if p in l.untracked then 1 else 0)
  }

  /** Every path is listed at most once; it is listed exactly when it is in W, I or C
      and is not a working file that is unstaged and equal to its committed blob. */
  lemma ListedAtMostOnce(p: Path, work: map<Path, Bytes>, hash: Bytes -> string, index: Index, tree: Tree)
    ensures Listings(Expected(work, hash, index, tree), p) <= 1
    ensures Listings(Expected(work, hash, index, tree), p) == 0 <==>
      p !in Universe(work, index, tree) || (p in work && p !in index && p in tree && tree[p] == hash(work[p]))
  {
    ExpectedMembership(p, work, hash, index, tree);
  }

  /** A REMOVED entry is reported untracked when its file is back, removed otherwise. */
  lemma RemovalEntryCategory(p: Path, work: map<Path, Bytes>, hash: Bytes -> string, index: Index, tree: Tree)
    requires p in index && MarksRemoval(index[p])
    ensures CategoryOf(p, work, hash, index, tree) == if p in work then Untracked else Removed
  {
  }

  /** An entry as `add` stores it in memory is reported staged while the file is unchanged. */
  lemma FreshEntryIsStaged(p: Path, work: map<Path, Bytes>, hash: Bytes -> string, index: Index, tree: Tree, digit: char)
    requires p in work && p in index && digit != IndexFormat.RemovedDigit
    requires index[p] == IndexFormat.Entry(hash(work[p]), digit)
    ensures CategoryOf(p, work, hash, index, tree) == Staged
  {
  }

  /** The same entry after a round trip through the index file has a leading space,
      so `startsWith` fails and the unchanged, staged file is reported modified. */
  lemma ReloadedEntryIsModified(p: Path, work: map<Path, Bytes>, hash: Bytes -> string, index: Index, tree: Tree, digit: char)
    requires p in work && p in index && digit != IndexFormat.RemovedDigit
    requires IsDigest(hash(work[p]))
    requires index[p] == " " + IndexFormat.Entry(hash(work[p]), digit)
    ensures CategoryOf(p, work, hash, index, tree) == ModifiedChanged
  {
    var h := hash(work[p]);
    assert index[p][0] == ' ';
    assert h[0] in HexDigits;
  }

  // ---------------------------------------------------------------- report text

  const BranchesHeader: string := "=== Branches ===\n"
  const StagedHeader: string := "=== Staged Files ===\n"
  const RemovedHeader: string := "=== Removed Files ===\n"
  const ModifiedHeader: string := "=== Modified Files ===\n"
  const UntrackedHeader: string := "=== Untracked Files ===\n"

  /** Each item on a line of its own. */
  function Lines(items: seq<string>): (text: string)
    ensures items != [] ==> |text| > 0 && text[|text| - 1] == '\n'
  {
    if items == [] then "" else Lines(items[..|items| - 1]) + items[|items| - 1] + "\n"
  }

  /** A section is written only when it has items, and then opens with its header. */
  function Section(header: string, items: seq<string>): (text: string)
    ensures text == "" <==> items == []
    ensures items != [] ==> header <= text && text[|text| - 1] == '\n'
  {
    if items == [] then "" else header + Lines(items)
  }

  /** The line for one branch: its name, with a `*` in front for the current one. */
  function BranchLine(name: string, current: string): string
  {
    (if name == current then "*" + name else name) + "\n"
  }

  function BranchLines(names: seq<string>, current: string): string
  {
    if names == [] then "" else BranchLines(names[..|names| - 1], current) + BranchLine(names[|names| - 1], current)
  }

  lemma LinesAppend(items: seq<string>, f: string)
    ensures Lines(items + [f]) == Lines(items) + f + "\n"
  {
    assert (items + [f])[..|items|] == items;
  }

  lemma BranchLinesAppend(names: seq<string>, b: string, current: string)
    ensures BranchLines(names + [b], current) == BranchLines(names, current) + BranchLine(b, current)
  {
    assert (names + [b])[..|names|] == names;
  }

  /** The orders in which one `status` call visited its hash sets. */
  datatype Shown = Shown(branches: seq<string>, staged: seq<string>, removed: seq<string>,
                         modified: seq<string>, untracked: seq<string>)

  /** The Branches section, which is always written. */
  function BranchesText(branches: seq<string>, current: string): (text: string)
    ensures BranchesHeader <= text
  {
    BranchesHeader + BranchLines(branches, current)
  }

  /** The full report: Branches, then each non-empty section in the fixed order. */
  function StatusText(shown: Shown, current: string): (text: string)
    ensures BranchesHeader <= text
  {
    var sections := Section(StagedHeader, shown.staged)
      + Section(RemovedHeader, shown.removed)
      + Section(ModifiedHeader, shown.modified)
      + Section(UntrackedHeader, shown.untracked);
    PrefixOfConcat(BranchesHeader, BranchesText(shown.branches, current), sections);
    BranchesText(shown.branches, current) + sections
  }

  lemma PrefixOfConcat(a: string, b: string, c: string)
    requires a <= b
    ensures a <= b + c
  {
    assert (b + c)[..|a|] == b[..|a|];
  }

  /** One section loop: the header when the set is non-empty, then each item. */
  method EmitSection(header: string, items: set<string>) returns (text: string, ghost order: seq<string>)
    ensures Enumerates(order, items)
    ensures text == Section(header, order)
    ensures text == "" <==> items == {}
    ensures items != {} ==> header <= text
  {
    text, order := "", [];
    if items != {} {
      text := header;
      var rest := items;
      ghost var seen: set<string> := {};
      while rest != {}
        invariant rest !! seen && rest + seen == items
        invariant Enumerates(order, seen)
        invariant text == header + Lines(order)
        decreases rest
      {
        var f :| f in rest;
        EnumeratesAppend(order, seen, f);
        LinesAppend(order, f);
        text := text + f + "\n";
        order := order + [f];
        rest := rest - {f};
        seen := seen + {f};
      }
      assert seen == items;
      var f :| f in items;
      assert f in order;
    }
  }

  /** The Branches loop over the branch files. */
  method EmitBranches(names: set<string>, current: string) returns (text: string, ghost order: seq<string>)
    ensures Enumerates(order, names)
    ensures text == BranchesText(order, current)
    ensures BranchesHeader <= text
  {
    text, order := BranchesHeader, [];
    var rest := names;
    ghost var seen: set<string> := {};
    while rest != {}
      invariant rest !! seen && rest + seen == names
      invariant Enumerates(order, seen)
      invariant text == BranchesHeader + BranchLines(order, current)
      decreases rest
    {
      var b :| b in rest;
      EnumeratesAppend(order, seen, b);
      BranchLinesAppend(order, b, current);
      if b == current {
        text := text + "*" + b + "\n";
      } else {
        text := text + b + "\n";
      }
      order := order + [b];
      rest := rest - {b};
      seen := seen + {b};
    }
    assert seen == names;
  }
}
