/** Vocabulary shared by every part of the model: optional values, paths,
    file contents, trees and the shape of an address. */
module Base {

  /** A value that may be absent; stands for a Java reference that may be null. */
  datatype Option<+T> = None | Some(value: T)

  /** A path relative to the repository root, as the repository prints it. */
  type Path = string

  /** The exact byte contents of a file or a blob. */
  type Bytes = seq<bv8>

  /** A snapshot: each tracked path mapped to the address of its blob. */
  type Tree = map<Path, string>

  /** The staging index: each path mapped to its "<address> <state digit>" value. */
  type Index = map<Path, string>

  /** The characters of a lower-case hexadecimal digest. */
  const HexDigits: string := "0123456789abcdef"

  /** The shape of every address the hasher returns: 40 lower-case hex characters. */
  predicate IsDigest(s: string)
  {
    |s| == 40 && forall i :: 0 <= i < |s| ==> s[i] in HexDigits
  }

  /** `xs` lists every element of `s` exactly once, in some order: the
      iteration order of a Java HashSet or HashMap, which is unspecified. */
  ghost predicate Enumerates<T(!new)>(xs: seq<T>, s: set<T>)
  {
    && (forall i, j :: 0 <= i < j < |xs| ==> xs[i] != xs[j])
    && (forall x :: x in xs <==> x in s)
  }

  /** Visiting one more, unvisited element extends an enumeration. */
  lemma EnumeratesAppend<T(!new)>(xs: seq<T>, s: set<T>, x: T)
    requires Enumerates(xs, s) && x !in s
    ensures Enumerates(xs + [x], s + {x})
  {
    forall i, j | 0 <= i < j < |xs + [x]|
      ensures (xs + [x])[i] != (xs + [x])[j]
    {
      if j == |xs| {
        assert xs[i] in xs;
      }
    }
  }

  /** An enumeration has exactly as many elements as the set it enumerates. */
  lemma {:induction false} EnumerationSize<T(!new)>(xs: seq<T>, s: set<T>)
    requires Enumerates(xs, s)
    ensures |xs| == |s|
    decreases |xs|
  {
    if xs != [] {
      var x := xs[|xs| - 1];
      var init := xs[..|xs| - 1];
      assert xs == init + [x];
      forall y ensures y in init <==> y in s - {x} {
        if y in init {
          var i :| 0 <= i < |init| && init[i] == y;
          assert xs[i] == y && xs[|xs| - 1] == x;
        }
        if y in s && y != x {
          assert y in xs;
        }
      }
      EnumerationSize(init, s - {x});
      assert s == (s - {x}) + {x};
    }
  }
}
