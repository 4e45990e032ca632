/** The on-disk staging index: one line per entry, "<path> <value>", where a
    value is a 40-character address field, a space and a state digit. The
    reader splits every line at a fixed 43-character tail. */
module IndexFormat {
  import opened Base

  /** Width of the tail that the reader cuts off each line (LENGTHOFHASHANDSTATUS). */
  const TailWidth: nat := 43

  /** Address field of a staged removal: 40 underscores. */
  const Sentinel: string := "________________________________________"

  /** State digits: 0 MODIFIED, 1 ADDED, 2 REMOVED. */
  const ModifiedDigit: char := '0'
  const AddedDigit: char := '1'
  const RemovedDigit: char := '2'

  /** The value `add` and `rm` store for a path: address field, space, state digit. */
  function Entry(address: string, digit: char): string
  {
    address + " " + [digit]
  }

  /** The value stored for a staged removal. */
  const RemovedEntry: string := Entry(Sentinel, RemovedDigit)

  lemma EntryWidth(address: string, digit: char)
    requires |address| == 40
    ensures |Entry(address, digit)| == 42
  {
  }

  // ---------------------------------------------------------------- writing

  /** One line of the index file as the writer formats it: key, space, value. */
  function IndexLine(key: string, value: string): string
  {
    key + " " + value
  }

  /** The lines written for `m` when its keys are visited in the order `keys`. */
  function IndexLines(m: map<string, string>, keys: seq<string>): (lines: seq<string>)
    requires forall k :: k in keys ==> k in m
    ensures |lines| == |keys|
  {
    if keys == [] then []
    else
      var k := keys[|keys| - 1];
      IndexLines(m, keys[..|keys| - 1]) + [IndexLine(k, m[k])]
  }

  /** `lines` is what the writer produces for `m` in some HashMap order. */
  ghost predicate IsWrittenIndex(lines: seq<string>, m: map<string, string>)
  {
    exists keys :: Enumerates(keys, m.Keys) && lines == IndexLines(m, keys)
  }

  /** The writer loop: every entry of `m` once, in an unspecified order. */
  method SerializeIndex(m: map<string, string>) returns (lines: seq<string>, ghost keys: seq<string>)
    ensures Enumerates(keys, m.Keys)
    ensures lines == IndexLines(m, keys)
    ensures |lines| == |m|
    ensures forall k :: k in m ==> IndexLine(k, m[k]) in lines
  {
    lines, keys := [], [];
    var rest := m.Keys;
    while rest != {}
      invariant rest <= m.Keys
      invariant Enumerates(keys, m.Keys - rest)
      invariant lines == IndexLines(m, keys)
      decreases rest
    {
      var k :| k in rest;
      lines := lines + [IndexLine(k, m[k])];
      keys := keys + [k];
      rest := rest - {k};
    }
    assert m.Keys - rest == m.Keys;
    EnumerationSize(keys, m.Keys);
    IndexLinesAt(m, keys);
    forall k | k in m ensures IndexLine(k, m[k]) in lines {
      var i :| 0 <= i < |keys| && keys[i] == k;
      assert lines[i] == IndexLine(k, m[k]);
    }
  }

  /** Line `i` of the written index is the line of the `i`-th key visited. */
  lemma {:induction false} IndexLinesAt(m: map<string, string>, keys: seq<string>)
    requires forall k :: k in keys ==> k in m
    ensures forall i :: 0 <= i < |keys| ==> IndexLines(m, keys)[i] == IndexLine(keys[i], m[keys[i]])
  {
    if keys != [] {
      var init := keys[..|keys| - 1];
      IndexLinesSnoc(m, keys);
      IndexLinesAt(m, init);
    }
  }

  // ---------------------------------------------------------------- reading

  /** Every line is long enough to be split without an exception. */
  predicate AllSplittable(lines: seq<string>)
  {
    forall i :: 0 <= i < |lines| ==> |lines[i]| >= TailWidth
  }

  /** Key of a line: everything but the last 43 characters. */
  function KeyOf(line: string): string
    requires |line| >= TailWidth
  {
    line[..|line| - TailWidth]
  }

  /** Value of a line: the last 43 characters. */
  function ValueOf(line: string): string
    requires |line| >= TailWidth
  {
    line[|line| - TailWidth..]
  }

  /** The split the reader makes: the two parts put back together give the line. */
  function SplitLine(line: string): (parts: (string, string))
    requires |line| >= TailWidth
    ensures parts.0 + parts.1 == line
    ensures |parts.1| == TailWidth
    ensures |parts.0| == |line| - TailWidth
  {
    (KeyOf(line), ValueOf(line))
  }

  /** The map the reader builds from lines it can split: later lines win. */
  function Puts(lines: seq<string>): map<string, string>
    requires AllSplittable(lines)
  {
    if lines == [] then map[]
    else
      var last := lines[|lines| - 1];
      Puts(lines[..|lines| - 1])[KeyOf(last) := ValueOf(last)]
  }

  /** How many leading lines the reader consumes: up to the first line shorter
      than the tail, where `substring` throws and the loop is abandoned. */
  function ParsedLength(lines: seq<string>): (n: nat)
    ensures n <= |lines|
    ensures forall i :: 0 <= i < n ==> |lines[i]| >= TailWidth
    ensures n < |lines| ==> |lines[n]| < TailWidth
  {
    if lines == [] || |lines[0]| < TailWidth then 0
    else 1 + ParsedLength(lines[1..])
  }

  /** The in-memory index that `readIndex` builds from the lines of the file. */
  function LoadIndex(lines: seq<string>): map<string, string>
  {
    var n := ParsedLength(lines);
    assert AllSplittable(lines[..n]);
    Puts(lines[..n])
  }

  /** The reading loop of `readIndex`: each line it can split is put into the
      map, key first and the 43-character tail as value. */
  method LoadLines(lines: seq<string>) returns (m: map<string, string>)
    ensures m == LoadIndex(lines)
  {
    m := map[];
    var i := 0;
    // the second conjunct stands for the exception thrown by a short line
    while i < |lines| && |lines[i]| >= TailWidth
      invariant 0 <= i <= |lines|
      invariant AllSplittable(lines[..i])
      invariant m == Puts(lines[..i])
    {
      assert lines[..i + 1][..i] == lines[..i];
      m := m[KeyOf(lines[i]) := ValueOf(lines[i])];
      i := i + 1;
    }
    assert forall j :: 0 <= j < i ==> |lines[j]| >= TailWidth by {
      forall j | 0 <= j < i ensures |lines[j]| >= TailWidth {
        assert lines[..i][j] == lines[j];
      }
    }
    assert i == ParsedLength(lines);
  }

  /** Line `i` can be split, and no line after it (and before line `n`) has its key. */
  predicate LastOfKey(lines: seq<string>, i: int, n: int)
  {
    && 0 <= i < n <= |lines| && |lines[i]| >= TailWidth
    && forall j :: i < j < n && |lines[j]| >= TailWidth ==> KeyOf(lines[j]) != KeyOf(lines[i])
  }

  /** The first lines of a splittable file are splittable. */
  lemma InitSplittable(lines: seq<string>, n: nat)
    requires AllSplittable(lines) && n <= |lines|
    ensures AllSplittable(lines[..n])
  {
    forall i | 0 <= i < n ensures |lines[..n][i]| >= TailWidth {
      assert lines[..n][i] == lines[i];
    }
  }

  /** The reader keeps the key of every line and no other key. */
  lemma {:induction false} PutsKeys(lines: seq<string>)
    requires AllSplittable(lines)
    ensures forall i :: 0 <= i < |lines| ==> KeyOf(lines[i]) in Puts(lines)
    ensures forall k :: k in Puts(lines) ==> exists i :: 0 <= i < |lines| && KeyOf(lines[i]) == k
  {
    if lines != [] {
      var n := |lines| - 1;
      var init := lines[..n];
      InitSplittable(lines, n);
      PutsKeys(init);
      forall i | 0 <= i < n ensures KeyOf(lines[i]) in Puts(lines) {
        assert init[i] == lines[i];
      }
      forall k | k in Puts(lines) && k != KeyOf(lines[n])
        ensures exists i :: 0 <= i < |lines| && KeyOf(lines[i]) == k
      {
        var i :| 0 <= i < |init| && KeyOf(init[i]) == k;
        assert lines[i] == init[i];
      }
    }
  }

  /** A key holds the value of the last line that carries it. */
  lemma {:induction false} PutsLastWins(lines: seq<string>)
    requires AllSplittable(lines)
    ensures forall i :: LastOfKey(lines, i, |lines|) ==>
      KeyOf(lines[i]) in Puts(lines) && Puts(lines)[KeyOf(lines[i])] == ValueOf(lines[i])
  {
    if lines != [] {
      var n := |lines| - 1;
      var init, last := lines[..n], lines[n];
      InitSplittable(lines, n);
      PutsLastWins(init);
      var before := Puts(init);
      assert Puts(lines) == before[KeyOf(last) := ValueOf(last)];
      forall i | LastOfKey(lines, i, |lines|) && i < n
        ensures KeyOf(lines[i]) in before && before[KeyOf(lines[i])] == ValueOf(lines[i])
        ensures KeyOf(lines[i]) != KeyOf(last)
      {
        assert init[i] == lines[i];
        assert LastOfKey(init, i, n) by {
          forall j | i < j < n && |init[j]| >= TailWidth ensures KeyOf(init[j]) != KeyOf(init[i]) {
            assert init[j] == lines[j];
          }
        }
      }
    }
  }

  /** `readIndex` as written: the loaded keys are the keys of the lines before the
      first short one, each holding the 43-character tail of its last such line. */
  lemma LoadIndexLastWins(lines: seq<string>)
    ensures var n := ParsedLength(lines);
      && (forall i :: 0 <= i < n ==> KeyOf(lines[i]) in LoadIndex(lines))
      && (forall k :: k in LoadIndex(lines) ==> exists i :: 0 <= i < n && KeyOf(lines[i]) == k)
      && (forall i :: LastOfKey(lines, i, n) ==>
            KeyOf(lines[i]) in LoadIndex(lines) && LoadIndex(lines)[KeyOf(lines[i])] == ValueOf(lines[i]))
  {
    var n := ParsedLength(lines);
    var parsed := lines[..n];
    assert AllSplittable(parsed);
    PutsKeys(parsed);
    PutsLastWins(parsed);
    forall i | 0 <= i < n ensures KeyOf(lines[i]) in LoadIndex(lines) {
      assert parsed[i] == lines[i];
    }
    forall i | LastOfKey(lines, i, n)
      ensures KeyOf(lines[i]) in LoadIndex(lines) && LoadIndex(lines)[KeyOf(lines[i])] == ValueOf(lines[i])
    {
      assert parsed[i] == lines[i];
      assert LastOfKey(parsed, i, n) by {
        forall j | i < j < n && |parsed[j]| >= TailWidth ensures KeyOf(parsed[j]) != KeyOf(parsed[i]) {
          assert parsed[j] == lines[j];
        }
      }
    }
    forall k | k in LoadIndex(lines) ensures exists i :: 0 <= i < n && KeyOf(lines[i]) == k {
      var i :| 0 <= i < n && KeyOf(parsed[i]) == k;
      assert parsed[i] == lines[i];
    }
  }

  // ---------------------------------------------------------------- round trips

  /** A line written as key, space, 42-character value splits back into the key
      and the value with a leading space. */
  lemma SplitWrittenLine(key: string, value: string)
    requires |value| == 42
    ensures |IndexLine(key, value)| >= TailWidth
    ensures SplitLine(IndexLine(key, value)) == (key, " " + value)
  {
    var line := IndexLine(key, value);
    assert line == key + (" " + value);
  }

  /** In particular a line "name field digit" yields exactly `name` as its key. */
  lemma WrittenLineKey(name: string, field: string, digit: char)
    requires |field| == 40
    ensures var line := name + " " + field + " " + [digit];
      |line| >= TailWidth && KeyOf(line) == name && ValueOf(line) == " " + Entry(field, digit)
  {
    SplitWrittenLine(name, Entry(field, digit));
    assert name + " " + field + " " + [digit] == IndexLine(name, Entry(field, digit));
  }

  /** A line written from a value that already has 43 characters loses nothing
      from the value, but its key gains a trailing space. */
  lemma SplitRewrittenLine(key: string, value: string)
    requires |value| == 43
    ensures |IndexLine(key, value)| >= TailWidth
    ensures SplitLine(IndexLine(key, value)) == (key + " ", value)
  {
    var line := IndexLine(key, value);
    assert line == (key + " ") + value;
  }

  /** Appending one line of at least the tail width keeps a splittable file splittable. */
  lemma AppendSplittable(prev: seq<string>, line: string)
    requires AllSplittable(prev) && |line| >= TailWidth
    ensures AllSplittable(prev + [line])
    ensures (prev + [line])[..|prev|] == prev
    ensures Puts(prev + [line]) == Puts(prev)[KeyOf(line) := ValueOf(line)]
    ensures IntendedPuts(prev + [line]) == IntendedPuts(prev)[KeyOf(line) := IntendedValueOf(line)]
  {
    var lines := prev + [line];
    forall i | 0 <= i < |lines| ensures |lines[i]| >= TailWidth {
      if i < |prev| { assert lines[i] == prev[i]; }
    }
    assert lines[..|lines| - 1] == prev;
  }

  /** The index lines of a sequence of keys extended by one key. */
  lemma IndexLinesSnoc(m: map<string, string>, keys: seq<string>)
    requires keys != [] && forall k :: k in keys ==> k in m
    ensures var init := keys[..|keys| - 1]; var k := keys[|keys| - 1];
      (forall j :: j in init ==> j in m) &&
      IndexLines(m, keys) == IndexLines(m, init) + [IndexLine(k, m[k])] &&
      (forall j :: j in keys <==> j in init || j == k)
  {
    var init := keys[..|keys| - 1];
    assert keys == init + [keys[|keys| - 1]];
  }

  lemma {:induction false} PutsOfWritten(m: map<string, string>, keys: seq<string>)
    requires forall k :: k in keys ==> k in m && |m[k]| == 42
    ensures AllSplittable(IndexLines(m, keys))
    ensures Puts(IndexLines(m, keys)) == map k | k in keys :: " " + m[k]
  {
    if keys != [] {
      var init := keys[..|keys| - 1];
      var k := keys[|keys| - 1];
      IndexLinesSnoc(m, keys);
      PutsOfWritten(m, init);
      SplitWrittenLine(k, m[k]);
      AppendSplittable(IndexLines(m, init), IndexLine(k, m[k]));
      var before := map j | j in init :: " " + m[j];
      assert Puts(IndexLines(m, keys)) == before[k := " " + m[k]];
      assert (map j | j in keys :: " " + m[j]) == before[k := " " + m[k]];
    }
  }

  /** Every key of `keys` reappears in `r` with a space appended, holding its value
      from `m`, and every key of `r` is one of those. */
  ghost predicate KeysShifted(r: map<string, string>, m: map<string, string>, keys: seq<string>)
  {
    && (forall k :: k in keys ==> k in m && k + " " in r && r[k + " "] == m[k])
    && (forall key :: key in r ==> |key| > 0 && key[|key| - 1] == ' ' && key[..|key| - 1] in keys)
  }

  lemma ShiftedStep(before: map<string, string>, m: map<string, string>, init: seq<string>, k: string, keys: seq<string>)
    requires KeysShifted(before, m, init) && k in m
    requires forall j :: j in keys <==> j in init || j == k
    ensures KeysShifted(before[k + " " := m[k]], m, keys)
  {
    var r := before[k + " " := m[k]];
    forall j | j in keys ensures j + " " in r && r[j + " "] == m[j] {
      if j != k {
        assert (j + " ")[..|j|] == j && (k + " ")[..|k|] == k;
      }
    }
    forall key | key in r ensures |key| > 0 && key[|key| - 1] == ' ' && key[..|key| - 1] in keys {
      if key == k + " " {
        assert key[..|key| - 1] == k;
      }
    }
  }

  lemma {:induction false} PutsOfRewritten(m: map<string, string>, keys: seq<string>)
    requires forall k :: k in keys ==> k in m && |m[k]| == 43
    ensures AllSplittable(IndexLines(m, keys))
    ensures KeysShifted(Puts(IndexLines(m, keys)), m, keys)
  {
    if keys != [] {
      var init := keys[..|keys| - 1];
      var k := keys[|keys| - 1];
      IndexLinesSnoc(m, keys);
      PutsOfRewritten(m, init);
      SplitRewrittenLine(k, m[k]);
      AppendSplittable(IndexLines(m, init), IndexLine(k, m[k]));
      ShiftedStep(Puts(IndexLines(m, init)), m, init, k, keys);
    }
  }

  /** The key under which the reader finds the line written for `k` and `v`: a
      full 42-character entry keeps the key, a 43-character value read earlier
      from disk shifts it by a space. */
  function ReadKey(k: string, v: string): string
  {
    if |v| == TailWidth - 1 then k else k + " "
  }

  /** The value the reader finds in the line written for a value `v`. */
  function ReadValue(v: string): string
  {
    if |v| == TailWidth - 1 then " " + v else v
  }

  /** A value is a full entry, or a value read from disk. */
  predicate MixedWidths(m: map<string, string>)
  {
    forall k :: k in m ==> |m[k]| == TailWidth - 1 || |m[k]| == TailWidth
  }

  /** No two keys of `m` are read back under the same key. */
  predicate NoShiftedCollision(m: map<string, string>)
  {
    forall j, k :: j in m && k in m && j != k ==> ReadKey(j, m[j]) != ReadKey(k, m[k])
  }

  /** Every key of `keys` is read back under `ReadKey` with `ReadValue`, and no
      other key appears in `r`. */
  ghost predicate ReadAs(r: map<string, string>, m: map<string, string>, keys: seq<string>)
  {
    && (forall k :: k in keys ==> k in m && ReadKey(k, m[k]) in r && r[ReadKey(k, m[k])] == ReadValue(m[k]))
    && (forall key :: key in r ==> exists k :: k in keys && k in m && ReadKey(k, m[k]) == key)
  }

  lemma SplitMixedLine(k: string, v: string)
    requires |v| == TailWidth - 1 || |v| == TailWidth
    ensures |IndexLine(k, v)| >= TailWidth
    ensures SplitLine(IndexLine(k, v)) == (ReadKey(k, v), ReadValue(v))
  {
    if |v| == TailWidth - 1 {
      SplitWrittenLine(k, v);
    } else {
      SplitRewrittenLine(k, v);
    }
  }

  lemma MixedStep(before: map<string, string>, m: map<string, string>, init: seq<string>, k: string, keys: seq<string>)
    requires ReadAs(before, m, init) && k in m && NoShiftedCollision(m)
    requires forall j :: j in keys <==> j in init || j == k
    ensures ReadAs(before[ReadKey(k, m[k]) := ReadValue(m[k])], m, keys)
  {
    var r := before[ReadKey(k, m[k]) := ReadValue(m[k])];
    forall j | j in keys ensures j in m && ReadKey(j, m[j]) in r && r[ReadKey(j, m[j])] == ReadValue(m[j]) {
      if j != k {
        assert j in init;
        assert ReadKey(j, m[j]) != ReadKey(k, m[k]);
      }
    }
    forall key | key in r ensures exists j :: j in keys && j in m && ReadKey(j, m[j]) == key {
      if key != ReadKey(k, m[k]) {
        var j :| j in init && j in m && ReadKey(j, m[j]) == key;
        assert j in keys;
      }
    }
  }

  lemma {:induction false} PutsOfMixed(m: map<string, string>, keys: seq<string>)
    requires forall k :: k in keys ==> k in m
    requires MixedWidths(m) && NoShiftedCollision(m)
    ensures AllSplittable(IndexLines(m, keys))
    ensures ReadAs(Puts(IndexLines(m, keys)), m, keys)
  {
    if keys != [] {
      var init := keys[..|keys| - 1];
      var k := keys[|keys| - 1];
      IndexLinesSnoc(m, keys);
      PutsOfMixed(m, init);
      SplitMixedLine(k, m[k]);
      AppendSplittable(IndexLines(m, init), IndexLine(k, m[k]));
      MixedStep(Puts(IndexLines(m, init)), m, init, k, keys);
    }
  }

  /** Reading back an index that mixes full entries (put there in this process)
      with values read earlier from disk: a full entry keeps its key and gains a
      leading space, a value from disk keeps its text and its key gains a trailing
      space, and no other key appears, as long as no shifted key meets another key. */
  lemma ReloadOfMixed(lines: seq<string>, m: map<string, string>)
    requires IsWrittenIndex(lines, m)
    requires MixedWidths(m) && NoShiftedCollision(m)
    ensures forall k :: k in m ==>
      ReadKey(k, m[k]) in LoadIndex(lines) && LoadIndex(lines)[ReadKey(k, m[k])] == ReadValue(m[k])
    ensures forall key :: key in LoadIndex(lines) ==> exists k :: k in m && ReadKey(k, m[k]) == key
  {
    var keys :| Enumerates(keys, m.Keys) && lines == IndexLines(m, keys);
    PutsOfMixed(m, keys);
    LoadOfSplittable(lines);
    assert ReadAs(LoadIndex(lines), m, keys);
  }

  lemma LoadOfSplittable(lines: seq<string>)
    requires AllSplittable(lines)
    ensures LoadIndex(lines) == Puts(lines)
    ensures LoadIndexIntended(lines) == IntendedPuts(lines)
  {
    assert ParsedLength(lines) == |lines|;
    assert lines[..|lines|] == lines;
  }

  /** Reading back what was written from in-memory values (42 characters each)
      keeps every key and puts a space in front of every value. */
  lemma ReloadPrefixesSpace(lines: seq<string>, m: map<string, string>)
    requires IsWrittenIndex(lines, m)
    requires forall k :: k in m ==> |m[k]| == 42
    ensures LoadIndex(lines) == map k | k in m :: " " + m[k]
  {
    var keys :| Enumerates(keys, m.Keys) && lines == IndexLines(m, keys);
    PutsOfWritten(m, keys);
    LoadOfSplittable(lines);
  }

  /** Reading back what was written from values that were themselves read from
      disk (43 characters each) keeps every value but appends a space to every key:
      no original key survives unless its path already ended with a space. */
  lemma ReloadOfReloadedShiftsKeys(lines: seq<string>, m: map<string, string>)
    requires IsWrittenIndex(lines, m)
    requires forall k :: k in m ==> |m[k]| == 43
    ensures forall k :: k in m ==> k + " " in LoadIndex(lines) && LoadIndex(lines)[k + " "] == m[k]
    ensures forall key :: key in LoadIndex(lines) ==>
      |key| > 0 && key[|key| - 1] == ' ' && key[..|key| - 1] in m
  {
    var keys :| Enumerates(keys, m.Keys) && lines == IndexLines(m, keys);
    PutsOfRewritten(m, keys);
    LoadOfSplittable(lines);
    assert KeysShifted(LoadIndex(lines), m, keys);
  }

  /** One staged file, written, read, written again and read: after the second
      read the index holds the file under its name with a space appended. */
  lemma SecondReloadCorruptsKey(name: string, h: string)
    requires IsDigest(h)
    ensures var first := map[name := Entry(h, AddedDigit)];
      var loaded := LoadIndex(IndexLines(first, [name]));
      loaded == map[name := " " + Entry(h, AddedDigit)] &&
      LoadIndex(IndexLines(loaded, [name])) == map[name + " " := " " + Entry(h, AddedDigit)]
  {
    FirstReload(name, Entry(h, AddedDigit));
    SecondReload(name, " " + Entry(h, AddedDigit));
  }

  /** One staged file read back from disk, then a second file added in memory and
      the index written again (first file first) and read: the first file is now
      held under its name with a space appended, and no longer under its name. */
  lemma MixedReloadCorruptsKey(name: string, other: string, h: string, h2: string)
    requires IsDigest(h) && IsDigest(h2)
    requires other != name && other != name + " "
    ensures var loaded := LoadIndex(IndexLines(map[name := Entry(h, AddedDigit)], [name]));
      loaded == map[name := " " + Entry(h, AddedDigit)] &&
      var next := loaded[other := Entry(h2, AddedDigit)];
      var reread := LoadIndex(IndexLines(next, [name, other]));
      && Enumerates([name, other], next.Keys)
      && reread == map[name + " " := " " + Entry(h, AddedDigit), other := " " + Entry(h2, AddedDigit)]
      && name !in reread
  {
    var e, e2 := Entry(h, AddedDigit), Entry(h2, AddedDigit);
    FirstReload(name, e);
    var next := map[name := " " + e, other := e2];
    var l1, l2 := IndexLine(name, " " + e), IndexLine(other, e2);
    TwoIndexLines(next, name, other);
    SplitRewrittenLine(name, " " + e);
    SplitWrittenLine(other, e2);
    TwoLineLoad(l1, l2);
  }

  /** The index lines of two keys, in that order. */
  lemma TwoIndexLines(m: map<string, string>, a: string, b: string)
    requires a in m && b in m
    ensures IndexLines(m, [a, b]) == [IndexLine(a, m[a]), IndexLine(b, m[b])]
  {
    assert [a, b][..1] == [a];
    assert [a][..0] == [];
  }

  /** Reading two splittable lines puts the first, then the second. */
  lemma TwoLineLoad(l1: string, l2: string)
    requires |l1| >= TailWidth && |l2| >= TailWidth
    ensures LoadIndex([l1, l2]) == map[KeyOf(l1) := ValueOf(l1)][KeyOf(l2) := ValueOf(l2)]
  {
    AppendSplittable([], l1);
    AppendSplittable([l1], l2);
    assert [l1] + [l2] == [l1, l2];
    LoadOfSplittable([l1, l2]);
  }

  lemma FirstReload(name: string, value: string)
    requires |value| == 42
    ensures LoadIndex(IndexLines(map[name := value], [name])) == map[name := " " + value]
  {
    var first := map[name := value];
    assert Enumerates([name], first.Keys);
    ReloadPrefixesSpace(IndexLines(first, [name]), first);
  }

  lemma SecondReload(name: string, value: string)
    requires |value| == 43
    ensures LoadIndex(IndexLines(map[name := value], [name])) == map[name + " " := value]
  {
    var loaded := map[name := value];
    assert Enumerates([name], loaded.Keys);
    ReloadOfReloadedShiftsKeys(IndexLines(loaded, [name]), loaded);
    var second := LoadIndex(IndexLines(loaded, [name]));
    forall key | key in second ensures key == name + " " {
      SpaceAppended(key, name);
    }
    SingletonMap(second, name + " ", value);
  }

  lemma SpaceAppended(key: string, name: string)
    requires |key| > 0 && key[|key| - 1] == ' ' && key[..|key| - 1] == name
    ensures key == name + " "
  {
  }

  lemma SingletonMap<K, V>(r: map<K, V>, k: K, v: V)
    requires k in r && r[k] == v
    requires forall key :: key in r ==> key == k
    ensures r == map[k := v]
  {
  }

  /** Every value is a full "<address> <digit>" entry of 42 characters. */
  predicate WellFormedEntries(m: Index)
  {
    forall k :: k in m ==> |m[k]| == TailWidth - 1
  }

  // ---------------------------------------------------------------- intended reading

  /** The reader the file format calls for: the value is the 42 characters after
      the separating space, the key everything before that space. */
  function IntendedValueOf(line: string): string
    requires |line| >= TailWidth
  {
    line[|line| - (TailWidth - 1)..]
  }

  function IntendedPuts(lines: seq<string>): map<string, string>
    requires AllSplittable(lines)
  {
    if lines == [] then map[]
    else
      var last := lines[|lines| - 1];
      IntendedPuts(lines[..|lines| - 1])[KeyOf(last) := IntendedValueOf(last)]
  }

  function LoadIndexIntended(lines: seq<string>): map<string, string>
  {
    var n := ParsedLength(lines);
    assert AllSplittable(lines[..n]);
    IntendedPuts(lines[..n])
  }

  lemma {:induction false} IntendedPutsOfWritten(m: map<string, string>, keys: seq<string>)
    requires forall k :: k in keys ==> k in m && |m[k]| == 42
    ensures AllSplittable(IndexLines(m, keys))
    ensures IntendedPuts(IndexLines(m, keys)) == map k | k in keys :: m[k]
  {
    if keys != [] {
      var init := keys[..|keys| - 1];
      var k := keys[|keys| - 1];
      IndexLinesSnoc(m, keys);
      IntendedPutsOfWritten(m, init);
      SplitWrittenLine(k, m[k]);
      var line := IndexLine(k, m[k]);
      assert IntendedValueOf(line) == ValueOf(line)[1..];
      AppendSplittable(IndexLines(m, init), line);
    }
  }

  /** With the intended reader, writing an index and reading it back is the identity. */
  lemma IntendedReloadIsIdentity(lines: seq<string>, m: map<string, string>)
    requires IsWrittenIndex(lines, m)
    requires forall k :: k in m ==> |m[k]| == 42
    ensures LoadIndexIntended(lines) == m
  {
    var keys :| Enumerates(keys, m.Keys) && lines == IndexLines(m, keys);
    IntendedPutsOfWritten(m, keys);
    LoadOfSplittable(lines);
  }

  /** Every value the corrected reader keeps is a full 42-character entry. */
  lemma {:induction false} IntendedPutsWidth(lines: seq<string>)
    requires AllSplittable(lines)
    ensures forall k :: k in IntendedPuts(lines) ==> |IntendedPuts(lines)[k]| == TailWidth - 1
  {
    if lines != [] {
      var init := lines[..|lines| - 1];
      assert AllSplittable(init) by {
        forall i | 0 <= i < |init| ensures |init[i]| >= TailWidth {
          assert init[i] == lines[i];
        }
      }
      IntendedPutsWidth(init);
    }
  }

  lemma LoadedWidth(lines: seq<string>)
    ensures forall k :: k in LoadIndexIntended(lines) ==> |LoadIndexIntended(lines)[k]| == TailWidth - 1
  {
    var n := ParsedLength(lines);
    assert AllSplittable(lines[..n]);
    IntendedPutsWidth(lines[..n]);
  }

  /** What each reader makes of a written index. */
  lemma ReadBack(lines: seq<string>, m: map<string, string>)
    requires IsWrittenIndex(lines, m)
    ensures WellFormedEntries(m) ==> LoadIndex(lines) == map k | k in m :: " " + m[k]
    ensures (forall k :: k in m ==> |m[k]| == TailWidth) ==>
      forall k :: k in m ==> k + " " in LoadIndex(lines) && LoadIndex(lines)[k + " "] == m[k]
    ensures WellFormedEntries(m) ==> LoadIndexIntended(lines) == m
  {
    ReadBackFull(lines, m);
    ReadBackReloaded(lines, m);
  }

  lemma ReadBackFull(lines: seq<string>, m: map<string, string>)
    requires IsWrittenIndex(lines, m)
    ensures WellFormedEntries(m) ==> LoadIndex(lines) == map k | k in m :: " " + m[k]
    ensures WellFormedEntries(m) ==> LoadIndexIntended(lines) == m
  {
    if WellFormedEntries(m) {
      ReloadPrefixesSpace(lines, m);
      IntendedReloadIsIdentity(lines, m);
    }
  }

  lemma ReadBackReloaded(lines: seq<string>, m: map<string, string>)
    requires IsWrittenIndex(lines, m)
    ensures (forall k :: k in m ==> |m[k]| == TailWidth) ==>
      forall k :: k in m ==> k + " " in LoadIndex(lines) && LoadIndex(lines)[k + " "] == m[k]
  {
    if forall k :: k in m ==> |m[k]| == TailWidth {
      ReloadOfReloadedShiftsKeys(lines, m);
    }
  }
}
