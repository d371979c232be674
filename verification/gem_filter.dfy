/**
 * The Project Manager's gem catalogue filter: which rows of the gem list stay visible
 * for a given search string, status filter and origin, platform, type and feature
 * filters. The filters combine conjunctively; a filter that is empty or zero is off.
 *
 * Flag masks are 32-bit words. Case-insensitive matching is modelled as matching
 * after ASCII lower-casing.
 */
module GemFilter {
  import opened Wrappers

  /** Number of origin, platform and type flags a mask can hold. */
  const NumGemOrigins: nat := 2
  const NumPlatforms: nat := 5
  const NumTypes: nat := 3

  type Mask = bv32

  /** The single-bit flag `1 << i`. */
  function Flag(i: nat): Mask
    requires i < 32
  {
    1 << i
  }

  predicate HasFlag(m: Mask, i: nat)
    requires i < 32
  {
    m & Flag(i) != 0
  }

  /** The filter on whether a gem is added to the project; `NoFilter` switches it off. */
  datatype GemStatus = NoFilter | Unselected | Selected

  /** The status a gem's added flag converts to: not added is `Unselected`, added is `Selected`. */
  function StatusOf(added: bool): (s: GemStatus)
    ensures s != NoFilter
    ensures s == Selected <==> added
  {
    if added then Selected else Unselected
  }

  /** What the filter reads from one row of the gem model. */
  datatype Gem = Gem(name: string, added: bool, origin: Mask, platforms: Mask, types: Mask, features: seq<string>)

  datatype Filters = Filters(
    search: string,
    status: GemStatus,
    origins: Mask,
    platforms: Mask,
    types: Mask,
    features: set<string>)

  // ---------------------------------------------------------------------------------
  // Case-insensitive substring search

  function LowerChar(c: char): char
  {
    if 'A' <= c <= 'Z' then (c as int - 'A' as int + 'a' as int) as char else c
  }

  function Lower(s: string): (r: string)
    ensures |r| == |s|
    ensures forall i :: 0 <= i < |s| ==> r[i] == LowerChar(s[i])
  {
    seq(|s|, i requires 0 <= i < |s| => LowerChar(s[i]))
  }

  /** `needle` occurs in `hay` starting at position `i`. */
  predicate OccursAt(hay: string, needle: string, i: nat)
  {
    i + |needle| <= |hay| && hay[i..i + |needle|] == needle
  }

  /** `needle` occurs in `hay` at some position. */
  ghost predicate Contains(hay: string, needle: string)
  {
    exists i: nat :: OccursAt(hay, needle, i)
  }

  ghost predicate ContainsIgnoringCase(hay: string, needle: string)
  {
    Contains(Lower(hay), Lower(needle))
  }

  /** Every name contains the empty search string. */
  lemma EmptySearchMatchesAll(hay: string)
    ensures ContainsIgnoringCase(hay, [])
  {
    assert OccursAt(Lower(hay), Lower([]), 0);
  }

  /** Scans the lower-cased name for the lower-cased search string, position by position. */
  method FindIgnoringCase(hay: string, needle: string) returns (found: bool)
    ensures found <==> ContainsIgnoringCase(hay, needle)
  {
    var h := Lower(hay);
    var n := Lower(needle);
    if |n| > |h| {
      return false;
    }
    var i := 0;
    while i <= |h| - |n|
      invariant 0 <= i <= |h| - |n| + 1
      invariant forall k: nat :: k < i ==> !OccursAt(h, n, k)
    {
      if OccursAt(h, n, i) {
        return true;
      }
      i := i + 1;
    }
    return false;
  }

  // ---------------------------------------------------------------------------------
  // The acceptance rule, one filter at a time

  ghost predicate SearchMatches(g: Gem, f: Filters)
  {
    ContainsIgnoringCase(g.name, f.search)
  }

  predicate StatusMatches(g: Gem, f: Filters)
  {
    f.status == NoFilter || f.status == StatusOf(g.added)
  }

  /** The origin filter accepts a gem whose origin is exactly one of the flags it selects. */
  ghost predicate OriginMatches(g: Gem, f: Filters)
  {
    f.origins == 0 || exists i :: 0 <= i < NumGemOrigins && HasFlag(f.origins, i) && g.origin == Flag(i)
  }

  /** A non-zero `filter` accepts a `mask` sharing one of its first `n` flags. */
  ghost predicate SharesFlag(filter: Mask, mask: Mask, n: nat)
    requires n <= 32
  {
    filter == 0 || exists i :: 0 <= i < n && HasFlag(filter, i) && HasFlag(mask, i)
  }

  ghost predicate FeatureMatches(g: Gem, f: Filters)
  {
    |f.features| == 0 || exists j :: 0 <= j < |g.features| && g.features[j] in f.features
  }

  /** A gem passes the filters when it passes every one of them. */
  ghost predicate Accepts(g: Gem, f: Filters)
  {
    && SearchMatches(g, f)
    && StatusMatches(g, f)
    && OriginMatches(g, f)
    && SharesFlag(f.platforms, g.platforms, NumPlatforms)
    && SharesFlag(f.types, g.types, NumTypes)
    && FeatureMatches(g, f)
  }

  // ---------------------------------------------------------------------------------
  // The filter as the proxy model runs it

  /** Whether `value` is exactly one of the first `n` flags that `filter` selects. */
  method AnyFlagEquals(filter: Mask, value: Mask, n: nat) returns (found: bool)
    requires n <= 32
    ensures found <==> exists i :: 0 <= i < n && HasFlag(filter, i) && value == Flag(i)
  {
    var i := 0;
    while i < n
      invariant 0 <= i <= n
      invariant forall k :: 0 <= k < i ==> !(HasFlag(filter, k) && value == Flag(k))
    {
      if HasFlag(filter, i) && value == Flag(i) {
        return true;
      }
      i := i + 1;
    }
    return false;
  }

  /** Whether `mask` shares one of the first `n` flags that `filter` selects. */
  method AnyFlagShared(filter: Mask, mask: Mask, n: nat) returns (found: bool)
    requires n <= 32
    ensures found <==> exists i :: 0 <= i < n && HasFlag(filter, i) && HasFlag(mask, i)
  {
    var i := 0;
    while i < n
      invariant 0 <= i <= n
      invariant forall k :: 0 <= k < i ==> !(HasFlag(filter, k) && HasFlag(mask, k))
    {
      if HasFlag(filter, i) && HasFlag(mask, i) {
        return true;
      }
      i := i + 1;
    }
    return false;
  }

  /** Whether one of the gem's features is among the selected ones. */
  method AnyFeatureSelected(features: seq<string>, filter: set<string>) returns (found: bool)
    ensures found <==> exists j :: 0 <= j < |features| && features[j] in filter
  {
    var j := 0;
    while j < |features|
      invariant 0 <= j <= |features|
      invariant forall k :: 0 <= k < j ==> features[k] !in filter
    {
      if features[j] in filter {
        return true;
      }
      j := j + 1;
    }
    return false;
  }

  /**
   * Whether the row `row` of `gems` stays visible: a row outside the model is rejected,
   * then each filter in turn may reject it.
   */
  method FilterAcceptsRow(gems: seq<Gem>, row: int, f: Filters) returns (accepted: bool)
    ensures accepted <==> 0 <= row < |gems| && Accepts(gems[row], f)
  {
    if !(0 <= row < |gems|) {
      return false;
    }
    accepted := GemPassesFilters(gems[row], f);
  }

  /** Applies the filters to one gem in the order the proxy model checks them, stopping at the first rejection. */
  method GemPassesFilters(g: Gem, f: Filters) returns (accepted: bool)
    ensures accepted <==> Accepts(g, f)
  {
    var found := FindIgnoringCase(g.name, f.search);
    if !found {
      assert !SearchMatches(g, f);
      return false;
    }
    if f.status != NoFilter && f.status != StatusOf(g.added) {
      assert !StatusMatches(g, f);
      return false;
    }
    if f.origins != 0 {
      found := AnyFlagEquals(f.origins, g.origin, NumGemOrigins);
      if !found {
        assert !OriginMatches(g, f);
        return false;
      }
    }
    assert OriginMatches(g, f);
    if f.platforms != 0 {
      found := AnyFlagShared(f.platforms, g.platforms, NumPlatforms);
      if !found {
        assert !SharesFlag(f.platforms, g.platforms, NumPlatforms);
        return false;
      }
    }
    assert SharesFlag(f.platforms, g.platforms, NumPlatforms);
    if f.types != 0 {
      found := AnyFlagShared(f.types, g.types, NumTypes);
      if !found {
        assert !SharesFlag(f.types, g.types, NumTypes);
        return false;
      }
    }
    assert SharesFlag(f.types, g.types, NumTypes);
    if |f.features| != 0 {
      found := AnyFeatureSelected(g.features, f.features);
      if !found {
        assert !FeatureMatches(g, f);
        return false;
      }
    }
    assert FeatureMatches(g, f);
    return true;
  }

  // ---------------------------------------------------------------------------------
  // Turning filters off

  /** `a` is `b` with some of its filters switched off. */
  predicate Loosens(a: Filters, b: Filters)
  {
    && (a.search == b.search || a.search == [])
    && (a.status == b.status || a.status == NoFilter)
    && (a.origins == b.origins || a.origins == 0)
    && (a.platforms == b.platforms || a.platforms == 0)
    && (a.types == b.types || a.types == 0)
    && (a.features == b.features || a.features == {})
  }

  /** Switching filters on never shows a row that was hidden: every row `b` accepts, `a` accepts. */
  lemma LooserFiltersAcceptMore(g: Gem, a: Filters, b: Filters)
    requires Loosens(a, b)
    requires Accepts(g, b)
    ensures Accepts(g, a)
  {
    if a.search == [] {
      EmptySearchMatchesAll(g.name);
    }
  }

  /**
   * Clears the search string and the origin, platform, type and feature filters; the
   * status filter stays as it was.
   */
  function ResetFilters(f: Filters): (r: Filters)
    ensures Loosens(r, f)
    ensures r.status == f.status
  {
    Filters([], f.status, 0, 0, 0, {})
  }

  /** After a reset, a row is shown exactly when its status passes the status filter. */
  lemma ResetLeavesOnlyStatus(g: Gem, f: Filters)
    ensures Accepts(g, ResetFilters(f)) <==> StatusMatches(g, f)
  {
    EmptySearchMatchesAll(g.name);
  }

  /** A reset never hides a row that was shown, and resetting twice is resetting once. */
  lemma ResetShowsMore(g: Gem, f: Filters)
    ensures Accepts(g, f) ==> Accepts(g, ResetFilters(f))
    ensures ResetFilters(ResetFilters(f)) == ResetFilters(f)
  {
    if Accepts(g, f) {
      LooserFiltersAcceptMore(g, ResetFilters(f), f);
    }
  }

  /**
   * A non-zero flag filter none of whose bits lies among the flags the loop visits
   * hides every gem, whatever the gem's own flags are.
   */
  lemma OutOfRangePlatformFilterHidesAll(g: Gem, f: Filters)
    requires f.platforms != 0
    requires forall i :: 0 <= i < NumPlatforms ==> !HasFlag(f.platforms, i)
    ensures !Accepts(g, f)
  {
  }

  // ---------------------------------------------------------------------------------
  // Status names

  /** The display name of a status; `NoFilter` has none. */
  function GetGemStatusString(s: GemStatus): (r: string)
    ensures s == NoFilter <==> r == "<Unknown Gem Status>"
  {
    match s
    case Unselected => "Unselected"
    case Selected => "Selected"
    case _ => "<Unknown Gem Status>"
  }

  /** Different statuses have different display names. */
  lemma GemStatusStringInjective(a: GemStatus, b: GemStatus)
    ensures GetGemStatusString(a) == GetGemStatusString(b) ==> a == b
  {
  }
}
