/**
 * Path logic of the Project Manager's project copy: the check that refuses to copy a
 * project into or out of its own sub-directory, and the bookkeeping that carries
 * the list of paths to skip (build and cache directories) down the directory walk.
 */
module ProjectUtils {

  // ---------------------------------------------------------------------------------
  // Directories as segment lists

  /** An absolute, normalised directory path as its list of names; the root is empty. */
  type DirPath = seq<string>

  predicate IsRoot(d: DirPath)
  {
    |d| == 0
  }

  /** Moves to the parent directory; the root has none and stays where it is. */
  function CdUp(d: DirPath): (r: DirPath)
    ensures IsRoot(d) ==> r == d
    ensures !IsRoot(d) ==> |r| == |d| - 1 && d == r + [d[|d| - 1]]
  {
    if IsRoot(d) then d else d[..|d| - 1]
  }

  /**
   * `ancestor` is `descendant` itself or one of its ancestors other than the root: the
   * upward walk compares against the starting directory first and stops as soon as it
   * reaches the root, so the root is an ancestor of itself only.
   */
  ghost predicate Descends(ancestor: DirPath, descendant: DirPath)
  {
    || ancestor == descendant
    || (0 < |ancestor| < |descendant| && descendant[..|ancestor|] == ancestor)
  }

  /** Walks up from `descendant`, comparing each directory before the root with `ancestor`. */
  method IsDirectoryDescendant(ancestor: DirPath, descendant: DirPath) returns (r: bool)
    ensures r <==> Descends(ancestor, descendant)
  {
    var d := descendant;
    while true
      invariant |d| <= |descendant| && d == descendant[..|d|]
      invariant d != descendant ==> ancestor != descendant && 0 < |d|
      invariant |d| < |ancestor| <= |descendant| ==> descendant[..|ancestor|] != ancestor
      decreases |d|
    {
      if ancestor == d {
        return true;
      }
      var up := CdUp(d);
      assert !IsRoot(d) ==> up == descendant[..|up|];
      d := up;
      if IsRoot(d) {
        return false;
      }
    }
  }

  /** The root contains every directory, but the walk never reports it as an ancestor. */
  lemma RootIsNoAncestor(descendant: DirPath)
    requires !IsRoot(descendant)
    ensures !Descends([], descendant)
  {
  }

  /**
   * The first step of a project copy: it goes ahead only when neither path lies inside
   * the other, and in particular never onto itself.
   */
  method CopyProjectMayProceed(origPath: DirPath, newPath: DirPath) returns (proceed: bool)
    ensures proceed <==> !Descends(origPath, newPath) && !Descends(newPath, origPath)
    ensures proceed ==> origPath != newPath
  {
    var into := IsDirectoryDescendant(origPath, newPath);
    var outOf := IsDirectoryDescendant(newPath, origPath);
    if into || outOf {
      return false;
    }
    return true;
  }

  /** Containment as the walk sees it is transitive: a directory inside a directory inside `a` is inside `a`. */
  lemma DescendsTransitive(a: DirPath, b: DirPath, c: DirPath)
    requires Descends(a, b) && Descends(b, c)
    ensures Descends(a, c)
  {
    if a != b && b != c {
      assert c[..|a|] == c[..|b|][..|a|];
    }
  }

  // ---------------------------------------------------------------------------------
  // Skipped paths

  /** The native directory separator of the host the model assumes. */
  const Separator: char := '/'

  /** Position of the first separator in `p`, or `|p|` when there is none. */
  function SeparatorIndex(p: string): (k: nat)
    ensures k <= |p|
    ensures forall j :: 0 <= j < k ==> p[j] != Separator
    ensures k < |p| ==> p[k] == Separator
  {
    if |p| == 0 || p[0] == Separator then 0 else 1 + SeparatorIndex(p[1..])
  }

  /** The text before the first separator: the whole path when it has no separator. */
  function FirstSection(p: string): string
  {
    p[..SeparatorIndex(p)]
  }

  /** The text after the first separator; empty when there is none. */
  function LaterSections(p: string): string
  {
    var k := SeparatorIndex(p);
    if k < |p| then p[k + 1..] else []
  }

  /** A path is its first section alone exactly when it holds no separator. */
  lemma SingleSection(p: string)
    ensures FirstSection(p) == p <==> Separator !in p
  {
    var k := SeparatorIndex(p);
    if k < |p| {
      assert p[k] == Separator;
      assert |FirstSection(p)| < |p|;
    } else {
      assert p[..k] == p;
    }
  }

  /** Splitting a path with a separator at its first separator loses nothing. */
  lemma SectionsRoundTrip(p: string)
    requires Separator in p
    ensures p == FirstSection(p) + [Separator] + LaterSections(p)
    ensures |LaterSections(p)| < |p|
  {
    var k := SeparatorIndex(p);
    if k == |p| {
      assert false;
    }
    assert p == p[..k] + [p[k]] + p[k + 1..];
  }

  /** The entry `p` names the directory entry `cur` itself: skip `cur`. */
  predicate EndsAt(cur: string, p: string)
  {
    cur == FirstSection(p) && p == FirstSection(p)
  }

  /** The entry `p` names something inside the directory entry `cur`. */
  predicate PassesThrough(cur: string, p: string)
  {
    cur == FirstSection(p) && p != FirstSection(p)
  }

  /** The skip list for inside `cur`: the remainder of every entry passing through it, in order. */
  function Deeper(cur: string, ps: seq<string>): (r: seq<string>)
    ensures |r| <= |ps|
  {
    if |ps| == 0 then []
    else
      var last := ps[|ps| - 1];
      Deeper(cur, ps[..|ps| - 1]) + if PassesThrough(cur, last) then [LaterSections(last)] else []
  }

  /** Index of the first entry that ends at `cur`, or `|ps|` when none does. */
  function FirstEnding(cur: string, ps: seq<string>): (r: nat)
    ensures r <= |ps|
    ensures forall k :: 0 <= k < r ==> !EndsAt(cur, ps[k])
    ensures r < |ps| ==> EndsAt(cur, ps[r])
  {
    if |ps| == 0 then 0
    else if EndsAt(cur, ps[0]) then 0
    else 1 + FirstEnding(cur, ps[1..])
  }

  /** `ps` without any entry equal to `x`, the others kept in order. */
  function RemoveAll(ps: seq<string>, x: string): (r: seq<string>)
    ensures forall y :: y in r <==> y in ps && y != x
    ensures |r| <= |ps|
  {
    if |ps| == 0 then []
    else (if ps[0] == x then [] else [ps[0]]) + RemoveAll(ps[1..], x)
  }

  /**
   * Decides whether the directory entry `cur` is skipped. Entries are scanned in order:
   * one that names `cur` itself is removed from the skip list, wherever it occurs, and
   * ends the scan; one that names something inside `cur` passes its remainder down to
   * `deeperSkippedPaths`; any other entry is left alone.
   */
  method SkipFilePaths(cur: string, skippedPaths: seq<string>, deeperSkippedPaths: seq<string>)
    returns (skip: bool, skippedOut: seq<string>, deeperOut: seq<string>)
    ensures skip <==> exists i :: 0 <= i < |skippedPaths| && EndsAt(cur, skippedPaths[i])
    ensures skip ==> skippedOut == RemoveAll(skippedPaths, cur)
    ensures !skip ==> skippedOut == skippedPaths
    ensures deeperOut == deeperSkippedPaths + Deeper(cur, skippedPaths[..FirstEnding(cur, skippedPaths)])
  {
    skip := false;
    skippedOut := skippedPaths;
    deeperOut := deeperSkippedPaths;
    var i := 0;
    while i < |skippedPaths|
      invariant 0 <= i <= |skippedPaths|
      invariant forall k :: 0 <= k < i ==> !EndsAt(cur, skippedPaths[k])
      invariant deeperOut == deeperSkippedPaths + Deeper(cur, skippedPaths[..i])
    {
      var p := skippedPaths[i];
      var first := FirstSection(p);
      assert skippedPaths[..i + 1][..i] == skippedPaths[..i];
      if cur == first {
        if p == first {
          skippedOut := RemoveAll(skippedPaths, p);
          skip := true;
          assert FirstEnding(cur, skippedPaths) == i by {
            FirstEndingIsFirst(cur, skippedPaths, i);
          }
          return;
        } else {
          deeperOut := deeperOut + [LaterSections(p)];
        }
      }
      i := i + 1;
    }
    assert skippedPaths[..i] == skippedPaths;
    assert FirstEnding(cur, skippedPaths) == |skippedPaths|;
  }

  lemma FirstEndingIsFirst(cur: string, ps: seq<string>, i: nat)
    requires i < |ps| && EndsAt(cur, ps[i])
    requires forall k :: 0 <= k < i ==> !EndsAt(cur, ps[k])
    ensures FirstEnding(cur, ps) == i
  {
  }

  /**
   * Every entry of the deeper skip list is the remainder of an entry passing through
   * `cur`: that entry is `cur`, a separator and the remainder, so the skip lists
   * shrink on the way down.
   */
  lemma {:induction false} DeeperComesFromEntries(cur: string, ps: seq<string>, j: nat)
    requires j < |Deeper(cur, ps)|
    ensures exists i :: (0 <= i < |ps| && PassesThrough(cur, ps[i])
                         && ps[i] == cur + [Separator] + Deeper(cur, ps)[j])
  {
    var init := ps[..|ps| - 1];
    var last := ps[|ps| - 1];
    if j < |Deeper(cur, init)| {
      DeeperComesFromEntries(cur, init, j);
      var i :| 0 <= i < |init| && PassesThrough(cur, init[i])
        && init[i] == cur + [Separator] + Deeper(cur, init)[j];
      assert ps[i] == init[i];
    } else {
      PassingEntryShrinks(cur, last);
      assert PassesThrough(cur, ps[|ps| - 1]);
    }
  }

  /** An entry passing through `cur` has a remainder strictly shorter than itself. */
  lemma PassingEntryShrinks(cur: string, p: string)
    requires PassesThrough(cur, p)
    ensures p == cur + [Separator] + LaterSections(p)
    ensures |LaterSections(p)| < |p|
  {
    SingleSection(p);
    SectionsRoundTrip(p);
  }
}
