/*
 * What the hits `scan` and `scanEx` count mean, how they are ordered, and
 * how the two scans relate when every remote read succeeds in full.
 */
module ScannerProperties {
  import opened Types
  import opened Pattern
  import opened Matching
  import opened Regions
  import opened Scanner

  /** Two ascending runs, the first below `bound` and the second from `bound` on, make one. */
  lemma AscendingAppend(front: seq<nat>, back: seq<nat>, bound: nat)
    requires Ascending(front) && Ascending(back)
    requires forall x :: x in front ==> x < bound
    requires forall x :: x in back ==> bound <= x
    ensures Ascending(front + back)
  {
    assert forall i :: 0 <= i < |front| ==> front[i] in front;
    assert forall i :: 0 <= i < |back| ==> back[i] in back;
  }

  // ---------------------------------------------------------------------------
  // scan
  // ---------------------------------------------------------------------------

  /**
   * Only the empty pattern has an empty signature, and for it both scans
   * return 0 whatever the regions, the memory and the handle.
   */
  lemma EmptyPatternFindsNothing(pattern: string, mem: nat -> byte, t: Target, hProcess: nat, regions: seq<Region>, k: nat)
    requires ValidPattern(pattern) && t.pageSize > 0
    ensures Parse(pattern).sigSize == 0 <==> pattern == ""
    ensures pattern == "" ==> ScanResult(mem, Parse(pattern), regions, k) == 0
    ensures pattern == "" ==> ScanExResult(t, hProcess, Parse(pattern), ThroughLast, regions, k) == 0
  {
    SplitJoin(pattern, ' ');
  }

  /** The signature, `size` bytes from `x`, lies inside `r`. */
  predicate Fits(r: Region, size: nat, x: nat)
  {
    r.start <= x && x + size <= r.end
  }

  /** The signature, `size` bytes from `x`, lies inside one of the regions. */
  ghost predicate InSomeRegion(regions: seq<Region>, size: nat, x: nat)
  {
    exists i :: 0 <= i < |regions| && Fits(regions[i], size, x)
  }

  lemma InSomeRegionCons(regions: seq<Region>, size: nat, x: nat)
    requires regions != []
    ensures InSomeRegion(regions, size, x) <==> Fits(regions[0], size, x) || InSomeRegion(regions[1..], size, x)
  {
    if InSomeRegion(regions, size, x) && !Fits(regions[0], size, x) {
      var i :| 0 <= i < |regions| && Fits(regions[i], size, x);
      assert regions[1..][i - 1] == regions[i];
    }
    if InSomeRegion(regions[1..], size, x) {
      var i :| 0 <= i < |regions[1..]| && Fits(regions[1..][i], size, x);
      assert regions[i + 1] == regions[1..][i];
    }
  }

  /** The naive scan of one region lists exactly the matching starts whose signature fits in it. */
  lemma RegionHitsMembers(mem: nat -> byte, ps: ParsedSig, r: Region)
    requires WellFormed(ps)
    ensures forall x :: x in RegionHits(mem, ps, r) <==> Fits(r, ps.sigSize, x) && MatchAt(mem, ps, x)
    ensures Ascending(RegionHits(mem, ps, r))
  {
    if r.end - r.start >= ps.sigSize {
      MatchesSpec(mem, ps, r.start, r.end - ps.sigSize + 1);
    }
  }

  /**
   * The naive scan over the regions lists exactly the starts `x` at which the
   * signature matches and fits, `x + sigSize <= end`, in one of the regions.
   */
  lemma {:induction false} RegionMatchesMembers(mem: nat -> byte, ps: ParsedSig, regions: seq<Region>)
    requires WellFormed(ps)
    ensures forall x :: x in RegionMatches(mem, ps, regions) <==> InSomeRegion(regions, ps.sigSize, x) && MatchAt(mem, ps, x)
    decreases |regions|
  {
    if regions != [] {
      RegionMatchesMembers(mem, ps, regions[1..]);
      RegionHitsMembers(mem, ps, regions[0]);
      forall x
        ensures x in RegionMatches(mem, ps, regions) <==> InSomeRegion(regions, ps.sigSize, x) && MatchAt(mem, ps, x)
      {
        InSomeRegionCons(regions, ps.sigSize, x);
      }
    }
  }

  /** Over disjoint regions the naive scan's hits strictly ascend. */
  lemma {:induction false} RegionMatchesAscend(mem: nat -> byte, ps: ParsedSig, regions: seq<Region>)
    requires WellFormed(ps) && ps.sigSize > 0 && Disjoint(regions)
    ensures Ascending(RegionMatches(mem, ps, regions))
    decreases |regions|
  {
    if regions != [] {
      var r := regions[0];
      var rest := regions[1..];
      assert Disjoint(rest) by {
        assert forall i :: 0 <= i < |rest| ==> rest[i] == regions[i + 1];
      }
      RegionMatchesAscend(mem, ps, rest);
      RegionMatchesMembers(mem, ps, rest);
      RegionHitsMembers(mem, ps, r);
      forall x | x in RegionMatches(mem, ps, rest)
        ensures r.end <= x
      {
        var i :| 0 <= i < |rest| && Fits(rest[i], ps.sigSize, x);
        assert rest[i] == regions[i + 1];
      }
      AscendingAppend(RegionHits(mem, ps, r), RegionMatches(mem, ps, rest), r.end);
    }
  }

  /** The wildcard-only hits are starts of regions. */
  lemma {:induction false} LongRegionStartsMembers(regions: seq<Region>, size: nat)
    ensures forall x :: x in LongRegionStarts(regions, size) ==> exists i :: 0 <= i < |regions| && regions[i].start == x
    decreases |regions|
  {
    if regions != [] {
      LongRegionStartsMembers(regions[1..], size);
      forall x | x in LongRegionStarts(regions, size)
        ensures exists i :: 0 <= i < |regions| && regions[i].start == x
      {
        if x != regions[0].start {
          assert x in LongRegionStarts(regions[1..], size);
          var i :| 0 <= i < |regions[1..]| && regions[1..][i].start == x;
          assert regions[i + 1].start == x;
        }
      }
    }
  }

  /** Over regions with ascending starts the wildcard-only hits strictly ascend. */
  lemma {:induction false} LongRegionStartsAscend(regions: seq<Region>, size: nat)
    requires StartsAscend(regions)
    ensures Ascending(LongRegionStarts(regions, size))
    decreases |regions|
  {
    if regions != [] {
      var rest := regions[1..];
      assert StartsAscend(rest) by {
        assert forall i :: 0 <= i < |rest| ==> rest[i] == regions[i + 1];
      }
      LongRegionStartsAscend(rest, size);
      LongRegionStartsMembers(rest, size);
      forall x | x in LongRegionStarts(rest, size)
        ensures regions[0].start + 1 <= x
      {
        var i :| 0 <= i < |rest| && rest[i].start == x;
        assert rest[i] == regions[i + 1];
      }
      var here: seq<nat> := if regions[0].end - regions[0].start >= size then [regions[0].start] else [];
      AscendingAppend(here, LongRegionStarts(rest, size), regions[0].start + 1);
    }
  }

  /** Taking the next hit of an ascending list gives a larger address, or runs out. */
  lemma SelectNextAscends(hits: seq<nat>, k: nat)
    requires Ascending(hits)
    ensures AddressOf(Select(hits, k + 1)) == 0 || AddressOf(Select(hits, k)) < AddressOf(Select(hits, k + 1))
  {
  }

  /**
   * Over non-empty disjoint regions, raising `skips` by one makes `scan`
   * return a strictly higher address, or 0.
   */
  lemma ScanMonotoneInSkips(mem: nat -> byte, ps: ParsedSig, regions: seq<Region>, k: nat)
    requires WellFormed(ps) && Disjoint(regions)
    requires forall r :: r in regions ==> r.start < r.end
    ensures ScanResult(mem, ps, regions, k + 1) == 0 || ScanResult(mem, ps, regions, k) < ScanResult(mem, ps, regions, k + 1)
  {
    if ps.sigSize > 0 {
      if ps.anchorIdx.None? {
        assert StartsAscend(regions) by {
          assert forall i :: 0 <= i < |regions| ==> regions[i] in regions;
        }
        LongRegionStartsAscend(regions, ps.sigSize);
        SelectNextAscends(LongRegionStarts(regions, ps.sigSize), k);
      } else {
        RegionMatchesAscend(mem, ps, regions);
        SelectNextAscends(RegionMatches(mem, ps, regions), k);
      }
    }
  }

  /**
   * When the scan range starts at a region base and regions tile memory,
   * `scan` over the regions it enumerates is monotone in `skips`.
   */
  lemma ScanAlignedMonotone(query: nat -> Option<MemInfo>, begin: nat, end: nat, mem: nat -> byte, pattern: string, k: nat)
    requires QueryContract(query) && Tiled(query) && AtBase(query, begin) && ValidPattern(pattern)
    ensures var regions := Enumerate(query, begin, end, FromCursor);
      ScanResult(mem, Parse(pattern), regions, k + 1) == 0
      || ScanResult(mem, Parse(pattern), regions, k) < ScanResult(mem, Parse(pattern), regions, k + 1)
  {
    EnumerateDisjointWhenAligned(query, begin, end);
    EnumerateInRange(query, begin, end, FromCursor);
    ScanMonotoneInSkips(mem, Parse(pattern), Enumerate(query, begin, end, FromCursor), k);
  }

  /**
   * A non-zero result of `scan` for a signature with a fixed byte is a start
   * at which the signature matches and which leaves room for the whole
   * signature inside one of the regions.
   */
  lemma ScanResultInRegion(mem: nat -> byte, ps: ParsedSig, regions: seq<Region>, k: nat)
    requires WellFormed(ps) && ps.anchorIdx.Some? && ScanResult(mem, ps, regions, k) != 0
    ensures MatchAt(mem, ps, ScanResult(mem, ps, regions, k))
    ensures InSomeRegion(regions, ps.sigSize, ScanResult(mem, ps, regions, k))
  {
    RegionMatchesMembers(mem, ps, regions);
  }

  // ---------------------------------------------------------------------------
  // scanEx
  // ---------------------------------------------------------------------------

  /** A read of `n` bytes at `a`, named so that `FullReads` applies only where a proof mentions it. */
  ghost function ReadOf(t: Target, a: nat, n: nat): Option<nat>
  {
    t.read(a, n)
  }

  /** Every read succeeds and copies all the bytes asked for. */
  ghost predicate FullReads(t: Target)
  {
    forall a: nat, n: nat :: ReadOf(t, a, n) == Some(n)
  }

  /** With full reads, fewer than `sigSize` bytes left produce no hit: the short read moves on by pages. */
  lemma {:induction false} RemoteShortTail(t: Target, ps: ParsedSig, rule: LastRule, cur: nat, end: nat)
    requires WellFormed(ps) && ps.sigSize > 0 && t.pageSize > 0 && FullReads(t)
    requires end < cur + ps.sigSize
    ensures Remote(t, ps, rule, cur, end) == []
    decreases end - cur
  {
    if cur < end {
      assert ReadOf(t, cur, ToRead(cur, end, ps.sigSize)) == Some(end - cur);
      RemoteSkipsPage(t, ps, rule, cur, end);
      RemoteShortTail(t, ps, rule, NextPage(cur, t.pageSize), end);
    }
  }

  /**
   * A window counts the naive scan's matches among its candidates, except
   * in the code's wildcard-only loop, which counts one offset more.
   */
  lemma WindowHitsAreMatches(t: Target, ps: ParsedSig, rule: LastRule, cur: nat, n: nat)
    requires WellFormed(ps) && 0 < ps.sigSize <= n
    requires rule == BeforeLast || ps.anchorIdx.Some?
    ensures WindowHits(t, ps, rule, cur, n) == Matches(t.mem, ps, cur, cur + (n - ps.sigSize + 1))
  {
    if ps.anchorIdx.None? {
      WildcardMatchesEverywhere(t.mem, ps, cur, cur + (n - ps.sigSize + 1));
    }
  }

  /** With full reads one window covers the naive scan's candidates `cur .. next - 1` and hands over at `next`. */
  lemma RemoteFullWindow(t: Target, ps: ParsedSig, rule: LastRule, cur: nat, end: nat) returns (next: nat)
    requires WellFormed(ps) && ps.sigSize > 0 && t.pageSize > 0 && FullReads(t)
    requires rule == BeforeLast || ps.anchorIdx.Some?
    requires cur + ps.sigSize <= end
    ensures cur < next <= end - ps.sigSize + 1
    ensures next == end - ps.sigSize + 1 || next + ps.sigSize <= end
    ensures Remote(t, ps, rule, cur, end) == Matches(t.mem, ps, cur, next) + Remote(t, ps, rule, next, end)
  {
    var toRead := ToRead(cur, end, ps.sigSize);
    assert ReadOf(t, cur, toRead) == Some(toRead);
    next := cur + (toRead - (ps.sigSize - 1));
    RemoteTakesWindow(t, ps, rule, cur, end, toRead);
    WindowHitsAreMatches(t, ps, rule, cur, toRead);
  }

  /**
   * With full reads the windows of a region hand over exactly: the window
   * loop over `[cur, end)` counts the naive scan's matches among the starts
   * `cur .. end - sigSize`, each once, in order.
   */
  lemma {:induction false} RemoteFullReads(t: Target, ps: ParsedSig, rule: LastRule, cur: nat, end: nat)
    requires WellFormed(ps) && ps.sigSize > 0 && t.pageSize > 0 && FullReads(t)
    requires rule == BeforeLast || ps.anchorIdx.Some?
    requires cur + ps.sigSize <= end
    ensures Remote(t, ps, rule, cur, end) == Matches(t.mem, ps, cur, end - ps.sigSize + 1)
    decreases end - cur
  {
    var last := end - ps.sigSize + 1;
    var next := RemoteFullWindow(t, ps, rule, cur, end);
    if next + ps.sigSize <= end {
      RemoteFullReads(t, ps, rule, next, end);
      MatchesSplit(t.mem, ps, cur, next, last);
    } else {
      assert next == last;
      RemoteShortTail(t, ps, rule, next, end);
    }
  }

  /** With full reads the window loop over one region is the naive scan of it. */
  lemma RemoteRegionFullReads(t: Target, ps: ParsedSig, rule: LastRule, r: Region)
    requires WellFormed(ps) && ps.sigSize > 0 && t.pageSize > 0 && FullReads(t)
    requires rule == BeforeLast || ps.anchorIdx.Some?
    ensures RemoteRegion(t, ps, rule, r) == RegionHits(t.mem, ps, r)
  {
    if r.end - r.start < ps.sigSize {
      assert RemoteRegion(t, ps, rule, r) == [] == RegionHits(t.mem, ps, r);
    } else {
      RemoteFullReads(t, ps, rule, r.start, r.end);
    }
  }

  /** With full reads the window loop over every region is the naive scan over every region. */
  lemma {:induction false} RemoteMatchesFullReads(t: Target, ps: ParsedSig, rule: LastRule, regions: seq<Region>)
    requires WellFormed(ps) && ps.sigSize > 0 && t.pageSize > 0 && FullReads(t)
    requires rule == BeforeLast || ps.anchorIdx.Some?
    ensures RemoteMatches(t, ps, rule, regions) == RegionMatches(t.mem, ps, regions)
    decreases |regions|
  {
    if regions != [] {
      RemoteRegionFullReads(t, ps, rule, regions[0]);
      RemoteMatchesFullReads(t, ps, rule, regions[1..]);
    }
  }

  /**
   * For a pattern with a fixed byte, when every read succeeds in full,
   * `scanEx` with a non-null handle returns what `scan` returns over the
   * same regions and the same bytes.
   */
  lemma ScanExAgreesWithScan(t: Target, hProcess: nat, ps: ParsedSig, regions: seq<Region>, k: nat)
    requires WellFormed(ps) && ps.anchorIdx.Some? && t.pageSize > 0 && FullReads(t) && hProcess != 0
    ensures ScanExResult(t, hProcess, ps, ThroughLast, regions, k) == ScanResult(t.mem, ps, regions, k)
  {
    RemoteMatchesFullReads(t, ps, ThroughLast, regions);
  }

  /** The hits of one window of `n` bytes read at `cur` are ascending matches below the next window that fit before `end`. */
  lemma WindowSound(t: Target, ps: ParsedSig, rule: LastRule, cur: nat, end: nat, n: nat)
    requires WellFormed(ps) && 0 < ps.sigSize <= n && cur + n <= end
    requires rule == BeforeLast || ps.anchorIdx.Some?
    ensures forall x :: x in WindowHits(t, ps, rule, cur, n) ==>
      cur <= x < cur + (n - (ps.sigSize - 1)) && x + ps.sigSize <= end && MatchAt(t.mem, ps, x)
    ensures Ascending(WindowHits(t, ps, rule, cur, n))
  {
    WindowHitsAreMatches(t, ps, rule, cur, n);
    MatchesSpec(t.mem, ps, cur, cur + (n - (ps.sigSize - 1)));
  }

  /**
   * Whatever reads fail, every address the window loop over `[cur, end)`
   * counts is a start in `[cur, end)` where the signature matches and fits
   * before `end`: a failed read only loses candidates, it never adds any.
   */
  lemma {:induction false} RemoteMembers(t: Target, ps: ParsedSig, rule: LastRule, cur: nat, end: nat)
    requires WellFormed(ps) && ps.sigSize > 0 && TargetContract(t)
    requires rule == BeforeLast || ps.anchorIdx.Some?
    ensures forall x :: x in Remote(t, ps, rule, cur, end) ==> cur <= x && x + ps.sigSize <= end && MatchAt(t.mem, ps, x)
    decreases end - cur
  {
    if cur < end {
      var got := t.read(cur, ToRead(cur, end, ps.sigSize));
      if got.None? || got.value < ps.sigSize {
        RemoteSkipsPage(t, ps, rule, cur, end);
        RemoteMembers(t, ps, rule, NextPage(cur, t.pageSize), end);
      } else {
        var n := got.value;
        var next := cur + (n - (ps.sigSize - 1));
        assert n <= end - cur by {
          assert t.read(cur, ToRead(cur, end, ps.sigSize)).value <= ToRead(cur, end, ps.sigSize);
        }
        var window := WindowHits(t, ps, rule, cur, n);
        var rest := Remote(t, ps, rule, next, end);
        assert Remote(t, ps, rule, cur, end) == window + rest by {
          RemoteTakesWindow(t, ps, rule, cur, end, n);
        }
        assert forall x :: x in window ==> cur <= x && x + ps.sigSize <= end && MatchAt(t.mem, ps, x) by {
          WindowSound(t, ps, rule, cur, end, n);
        }
        RemoteMembers(t, ps, rule, next, end);
      }
    }
  }

  /** Whatever reads fail, the addresses the window loop over `[cur, end)` counts strictly ascend. */
  lemma {:induction false} RemoteAscending(t: Target, ps: ParsedSig, rule: LastRule, cur: nat, end: nat)
    requires WellFormed(ps) && ps.sigSize > 0 && TargetContract(t)
    requires rule == BeforeLast || ps.anchorIdx.Some?
    ensures Ascending(Remote(t, ps, rule, cur, end))
    decreases end - cur
  {
    if cur < end {
      var got := t.read(cur, ToRead(cur, end, ps.sigSize));
      if got.None? || got.value < ps.sigSize {
        RemoteSkipsPage(t, ps, rule, cur, end);
        RemoteAscending(t, ps, rule, NextPage(cur, t.pageSize), end);
      } else {
        var n := got.value;
        var next := cur + (n - (ps.sigSize - 1));
        assert n <= end - cur by {
          assert t.read(cur, ToRead(cur, end, ps.sigSize)).value <= ToRead(cur, end, ps.sigSize);
        }
        var window := WindowHits(t, ps, rule, cur, n);
        var rest := Remote(t, ps, rule, next, end);
        assert Remote(t, ps, rule, cur, end) == window + rest by {
          RemoteTakesWindow(t, ps, rule, cur, end, n);
        }
        assert Ascending(window) && forall x :: x in window ==> x < next by {
          WindowSound(t, ps, rule, cur, end, n);
        }
        assert forall x :: x in rest ==> next <= x by {
          RemoteMembers(t, ps, rule, next, end);
        }
        RemoteAscending(t, ps, rule, next, end);
        AscendingAppend(window, rest, next);
      }
    }
  }

  /** Whatever reads fail, one region's window hits are matches that fit inside it, ascending. */
  lemma RemoteRegionSound(t: Target, ps: ParsedSig, rule: LastRule, r: Region)
    requires WellFormed(ps) && ps.sigSize > 0 && TargetContract(t)
    requires rule == BeforeLast || ps.anchorIdx.Some?
    ensures forall x :: x in RemoteRegion(t, ps, rule, r) ==> Fits(r, ps.sigSize, x) && MatchAt(t.mem, ps, x)
    ensures Ascending(RemoteRegion(t, ps, rule, r))
  {
    if r.end - r.start >= ps.sigSize {
      RemoteMembers(t, ps, rule, r.start, r.end);
      RemoteAscending(t, ps, rule, r.start, r.end);
    }
  }

  /**
   * Whatever reads fail, every address the window loop counts over the
   * regions is one the naive scan over the same regions counts.
   */
  lemma {:induction false} RemoteMatchesMembers(t: Target, ps: ParsedSig, rule: LastRule, regions: seq<Region>)
    requires WellFormed(ps) && ps.sigSize > 0 && TargetContract(t)
    requires rule == BeforeLast || ps.anchorIdx.Some?
    ensures forall x :: x in RemoteMatches(t, ps, rule, regions) ==> InSomeRegion(regions, ps.sigSize, x) && MatchAt(t.mem, ps, x)
    ensures forall x :: x in RemoteMatches(t, ps, rule, regions) ==> x in RegionMatches(t.mem, ps, regions)
    decreases |regions|
  {
    if regions != [] {
      RemoteRegionSound(t, ps, rule, regions[0]);
      RemoteMatchesMembers(t, ps, rule, regions[1..]);
      forall x | x in RemoteMatches(t, ps, rule, regions)
        ensures InSomeRegion(regions, ps.sigSize, x)
      {
        InSomeRegionCons(regions, ps.sigSize, x);
      }
    }
    RegionMatchesMembers(t.mem, ps, regions);
  }

  /** Whatever reads fail, over disjoint regions the window loop's hits strictly ascend. */
  lemma {:induction false} RemoteMatchesAscend(t: Target, ps: ParsedSig, rule: LastRule, regions: seq<Region>)
    requires WellFormed(ps) && ps.sigSize > 0 && TargetContract(t) && Disjoint(regions)
    requires rule == BeforeLast || ps.anchorIdx.Some?
    ensures Ascending(RemoteMatches(t, ps, rule, regions))
    decreases |regions|
  {
    if regions != [] {
      var r := regions[0];
      var rest := regions[1..];
      assert Disjoint(rest) by {
        assert forall i :: 0 <= i < |rest| ==> rest[i] == regions[i + 1];
      }
      RemoteMatchesAscend(t, ps, rule, rest);
      RemoteMatchesMembers(t, ps, rule, rest);
      RemoteRegionSound(t, ps, rule, r);
      forall x | x in RemoteMatches(t, ps, rule, rest)
        ensures r.end <= x
      {
        var i :| 0 <= i < |rest| && Fits(rest[i], ps.sigSize, x);
        assert rest[i] == regions[i + 1];
      }
      AscendingAppend(RemoteRegion(t, ps, rule, r), RemoteMatches(t, ps, rule, rest), r.end);
    }
  }

  /** `a` is `b` with some elements left out, the rest kept in order. */
  ghost predicate Subsequence(a: seq<nat>, b: seq<nat>)
    decreases |b|
  {
    a == [] || (b != [] && (if a[0] == b[0] then Subsequence(a[1..], b[1..]) else Subsequence(a, b[1..])))
  }

  /** An ascending run whose every element occurs in an ascending `b` is a subsequence of `b`. */
  lemma {:induction false} AscendingSubsequence(a: seq<nat>, b: seq<nat>)
    requires Ascending(a) && Ascending(b)
    requires forall x :: x in a ==> x in b
    ensures Subsequence(a, b)
    decreases |b|
  {
    if a != [] {
      assert a[0] in a;
      assert forall i :: 0 <= i < |b| ==> b[i] in b;
      if a[0] == b[0] {
        forall x | x in a[1..]
          ensures x in b[1..]
        {
          var i :| 0 <= i < |a[1..]| && a[1..][i] == x;
          assert a[i + 1] == x && x in a && b[0] == a[0] < x;
          var j :| 0 <= j < |b| && b[j] == x;
          assert 0 < j;
          assert b[1..][j - 1] == x;
        }
        AscendingSubsequence(a[1..], b[1..]);
      } else {
        forall x | x in a
          ensures x in b[1..]
        {
          var i :| 0 <= i < |a| && a[i] == x;
          var h :| 0 <= h < |b| && b[h] == a[0];
          assert b[0] < a[0] <= x by {
            if 0 < i {
              assert a[0] < a[i];
            }
          }
          var j :| 0 <= j < |b| && b[j] == x;
          assert 0 < j;
          assert b[1..][j - 1] == x;
        }
        AscendingSubsequence(a, b[1..]);
      }
    }
  }

  /** The read at cursor `c` of the window loop over `[c, end)` fails or returns fewer than `sigSize` bytes. */
  ghost predicate ReadFails(t: Target, ps: ParsedSig, c: nat, end: nat)
  {
    c < end && (var got := t.read(c, ToRead(c, end, ps.sigSize)); got.None? || got.value < ps.sigSize)
  }

  /**
   * The window loop over `[cur, end)` loses a naive match only to a failed
   * or short read: a match it does not count starts in the partial page
   * `[c, NextPage(c))` skipped after such a read at a cursor `c`.
   */
  lemma {:induction false} RemoteLosses(t: Target, ps: ParsedSig, rule: LastRule, cur: nat, end: nat)
    requires WellFormed(ps) && ps.sigSize > 0 && TargetContract(t)
    requires rule == BeforeLast || ps.anchorIdx.Some?
    ensures forall x :: cur <= x && x + ps.sigSize <= end && MatchAt(t.mem, ps, x) && x !in Remote(t, ps, rule, cur, end) ==>
      exists c :: cur <= c <= x < NextPage(c, t.pageSize) && ReadFails(t, ps, c, end)
    decreases end - cur
  {
    if cur < end {
      var got := t.read(cur, ToRead(cur, end, ps.sigSize));
      if got.None? || got.value < ps.sigSize {
        RemoteSkipsPage(t, ps, rule, cur, end);
        RemoteLosses(t, ps, rule, NextPage(cur, t.pageSize), end);
        assert ReadFails(t, ps, cur, end);
      } else {
        var n := got.value;
        var next := cur + (n - (ps.sigSize - 1));
        var window := WindowHits(t, ps, rule, cur, n);
        var rest := Remote(t, ps, rule, next, end);
        assert Remote(t, ps, rule, cur, end) == window + rest by {
          RemoteTakesWindow(t, ps, rule, cur, end, n);
        }
        WindowHitsAreMatches(t, ps, rule, cur, n);
        MatchesSpec(t.mem, ps, cur, next);
        RemoteLosses(t, ps, rule, next, end);
      }
    }
  }

  /**
   * What the window loop over one region misses of the region's naive hits
   * starts in the partial page skipped after a failed or short read.
   */
  lemma RemoteRegionLosses(t: Target, ps: ParsedSig, rule: LastRule, r: Region)
    requires WellFormed(ps) && ps.sigSize > 0 && TargetContract(t)
    requires rule == BeforeLast || ps.anchorIdx.Some?
    ensures forall x :: x in RegionHits(t.mem, ps, r) && x !in RemoteRegion(t, ps, rule, r) ==>
      exists c :: r.start <= c <= x < NextPage(c, t.pageSize) && ReadFails(t, ps, c, r.end)
  {
    RegionHitsMembers(t.mem, ps, r);
    if r.end - r.start >= ps.sigSize {
      RemoteLosses(t, ps, rule, r.start, r.end);
    }
  }

  /**
   * Whatever reads fail, over disjoint regions the window loop counts a
   * subsequence of the naive scan's hits: the same matches in the same
   * order, with only those lost that failed reads skipped.
   */
  lemma RemoteMatchesSubsequence(t: Target, ps: ParsedSig, rule: LastRule, regions: seq<Region>)
    requires WellFormed(ps) && ps.sigSize > 0 && TargetContract(t) && Disjoint(regions)
    requires rule == BeforeLast || ps.anchorIdx.Some?
    ensures Subsequence(RemoteMatches(t, ps, rule, regions), RegionMatches(t.mem, ps, regions))
  {
    RemoteMatchesMembers(t, ps, rule, regions);
    RemoteMatchesAscend(t, ps, rule, regions);
    RegionMatchesAscend(t.mem, ps, regions);
    AscendingSubsequence(RemoteMatches(t, ps, rule, regions), RegionMatches(t.mem, ps, regions));
  }

  /**
   * For a pattern with a fixed byte, whatever reads fail, a non-zero result
   * of `scanEx` is a start where `matchAt` holds and the whole signature
   * lies inside one of the regions.
   */
  lemma ScanExResultSound(t: Target, hProcess: nat, ps: ParsedSig, regions: seq<Region>, k: nat)
    requires WellFormed(ps) && ps.anchorIdx.Some? && TargetContract(t)
    ensures var r := ScanExResult(t, hProcess, ps, ThroughLast, regions, k);
      r != 0 ==> MatchAt(t.mem, ps, r) && InSomeRegion(regions, ps.sigSize, r)
  {
    if ps.sigSize > 0 && hProcess != 0 {
      RemoteMatchesMembers(t, ps, ThroughLast, regions);
    }
  }

  /**
   * For a pattern with a fixed byte over disjoint regions, whatever reads
   * fail, raising `skips` by one makes `scanEx` return 0 or a higher address.
   */
  lemma ScanExMonotoneInSkips(t: Target, hProcess: nat, ps: ParsedSig, regions: seq<Region>, k: nat)
    requires WellFormed(ps) && ps.anchorIdx.Some? && TargetContract(t) && Disjoint(regions)
    ensures ScanExResult(t, hProcess, ps, ThroughLast, regions, k + 1) == 0
      || ScanExResult(t, hProcess, ps, ThroughLast, regions, k) < ScanExResult(t, hProcess, ps, ThroughLast, regions, k + 1)
  {
    if ps.sigSize > 0 && hProcess != 0 {
      RemoteMatchesAscend(t, ps, ThroughLast, regions);
      SelectNextAscends(RemoteMatches(t, ps, ThroughLast, regions), k);
    }
  }

  /**
   * With the bound `cand < last`, the wildcard-only window loop over a region
   * with full reads counts every start `start .. end - sigSize` once, in
   * order.
   */
  lemma WildcardWindowsCorrected(t: Target, ps: ParsedSig, r: Region)
    requires WellFormed(ps) && ps.fixedIdx == [] && ps.sigSize > 0 && t.pageSize > 0 && FullReads(t)
    requires r.start + ps.sigSize <= r.end
    ensures RemoteRegion(t, ps, BeforeLast, r) == Consecutive(r.start, r.end - r.start - ps.sigSize + 1)
  {
    RemoteFullReads(t, ps, BeforeLast, r.start, r.end);
    WildcardMatchesEverywhere(t.mem, ps, r.start, r.end - ps.sigSize + 1);
  }

  /** The signature of the pattern `"?"`: one wildcard byte, no anchor. */
  const OneWildcard: ParsedSig := ParsedSig([0], [0], [], 1, None, 0)

  lemma OneWildcardParses()
    ensures ValidPattern("?")
    ensures Parse("?") == OneWildcard
  {
    assert NextDelim("?", ' ', 1) == 1;
    assert NextDelim("?", ' ', 0) == 1;
    assert "?"[0..1] == "?";
    assert Split("?", ' ') == ["?"];
    FixedIndicesSpec(["?"], 1);
  }

  /**
   * The code's wildcard-only loop `cand <= last` counts the first offset of
   * the next window twice: after a good read of `n` bytes at `cur`, the
   * window's last counted address `cur + (n - sigSize + 1)` is where the next
   * window starts, and a good read there counts it again. So `scanEx` over
   * the region returns the same address for `skips` equal to `n - sigSize + 1`
   * and one more, and is not monotone in `skips`.
   */
  lemma WildcardHandOverCountedTwice(t: Target, hProcess: nat, ps: ParsedSig, cur: nat, end: nat, n: nat, m: nat)
    requires WellFormed(ps) && ps.sigSize > 0 && ps.anchorIdx.None? && TargetContract(t) && hProcess != 0
    requires cur < end && t.read(cur, ToRead(cur, end, ps.sigSize)) == Some(n) && n >= ps.sigSize
    requires var next := cur + (n - (ps.sigSize - 1));
      next < end && t.read(next, ToRead(next, end, ps.sigSize)) == Some(m) && m >= ps.sigSize
    ensures var i := n - ps.sigSize + 1;
      i + 1 < |Remote(t, ps, ThroughLast, cur, end)|
      && Remote(t, ps, ThroughLast, cur, end)[i] == cur + i
      && Remote(t, ps, ThroughLast, cur, end)[i + 1] == cur + i
    ensures var i := n - ps.sigSize + 1;
      ScanExResult(t, hProcess, ps, ThroughLast, [Region(cur, end)], i) == cur + i
      && ScanExResult(t, hProcess, ps, ThroughLast, [Region(cur, end)], i + 1) == cur + i
  {
    var i := n - ps.sigSize + 1;
    var next := cur + i;
    assert n <= end - cur by {
      assert t.read(cur, ToRead(cur, end, ps.sigSize)).value <= ToRead(cur, end, ps.sigSize);
    }
    var window := WindowHits(t, ps, ThroughLast, cur, n);
    var rest := Remote(t, ps, ThroughLast, next, end);
    assert Remote(t, ps, ThroughLast, cur, end) == window + rest by {
      RemoteTakesWindow(t, ps, ThroughLast, cur, end, n);
    }
    assert rest == WindowHits(t, ps, ThroughLast, next, m) + Remote(t, ps, ThroughLast, next + (m - (ps.sigSize - 1)), end) by {
      RemoteTakesWindow(t, ps, ThroughLast, next, end, m);
    }
    assert |window| == i + 1 && window[i] == cur + i;
    assert rest[0] == next;
    assert (window + rest)[i + 1] == rest[0];
    assert RemoteMatches(t, ps, ThroughLast, [Region(cur, end)]) == Remote(t, ps, ThroughLast, cur, end) + [];
  }

  /**
   * The code's wildcard-only loop `cand <= last`: with the pattern `"?"`
   * and a 2-byte region at 0x1000, every read succeeding, the third hit it
   * counts is 0x1002, the region's end, whose one byte lies outside the
   * region; so `scanEx` with skips 2 returns 0x1002. The bound `cand < last`
   * counts just 0x1000 and 0x1001.
   */
  lemma WildcardOverrunAsWritten(t: Target)
    requires FullReads(t) && t.pageSize > 0
    ensures WellFormed(OneWildcard)
    ensures RemoteRegion(t, OneWildcard, ThroughLast, Region(0x1000, 0x1002)) == [0x1000, 0x1001, 0x1002]
    ensures ScanExResult(t, 1, OneWildcard, ThroughLast, [Region(0x1000, 0x1002)], 2) == 0x1002
    ensures RemoteRegion(t, OneWildcard, BeforeLast, Region(0x1000, 0x1002)) == [0x1000, 0x1001]
  {
    var ps := OneWildcard;
    assert ReadOf(t, 0x1000, 2) == Some(2);
    assert ToRead(0x1000, 0x1002, 1) == 2;
    RemoteTakesWindow(t, ps, ThroughLast, 0x1000, 0x1002, 2);
    RemoteTakesWindow(t, ps, BeforeLast, 0x1000, 0x1002, 2);
    assert Consecutive(0x1000, 3) == [0x1000, 0x1001, 0x1002];
    assert Consecutive(0x1000, 2) == [0x1000, 0x1001];
    assert [Region(0x1000, 0x1002)][1..] == [];
  }

  /**
   * For a wildcard-only pattern the two scans count different things: over
   * the one 2-byte region at 0x1000, `scan` with the pattern `"?"` counts the
   * region's start once, so skips 1 gives 0, while `scanEx` counts every
   * window position, so skips 1 gives 0x1001.
   */
  lemma WildcardScansDiffer(mem: nat -> byte, t: Target)
    requires FullReads(t) && t.pageSize > 0
    ensures WellFormed(OneWildcard)
    ensures ScanResult(mem, OneWildcard, [Region(0x1000, 0x1002)], 0) == 0x1000
    ensures ScanResult(mem, OneWildcard, [Region(0x1000, 0x1002)], 1) == 0
    ensures ScanExResult(t, 1, OneWildcard, ThroughLast, [Region(0x1000, 0x1002)], 1) == 0x1001
  {
    WildcardOverrunAsWritten(t);
    assert LongRegionStarts([Region(0x1000, 0x1002)], 1) == [0x1000] by {
      assert [Region(0x1000, 0x1002)][1..] == [];
    }
  }
}
