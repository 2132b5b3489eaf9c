/*
 * `SignatureScanner::scan` (the own process) and `SignatureScanner::scanEx`
 * (another process, read through a staging buffer), each proved against a
 * specification of the hits it counts down with `skips`.
 *
 * A scanner holds `startAddress`, `endAddress` and, for `scanEx`, a process
 * handle; here they are parameters of the two methods. The handle is a
 * number, 0 being the null handle.
 */
module Scanner {
  import opened Types
  import opened Pattern
  import opened Matching
  import opened Regions

  /** `CHUNK`: bytes of fresh candidates per remote read. */
  const CHUNK: nat := 0x10_0000

  /** What a search reports: the hit's address, or 0 when there are too few hits. */
  function AddressOf(out: Outcome): nat
  {
    if out.Found? then out.addr else 0
  }

  // ---------------------------------------------------------------------------
  // scan: the specification
  // ---------------------------------------------------------------------------

  /** The starts the naive scan accepts in one region; a region shorter than the signature has none. */
  function RegionHits(mem: nat -> byte, ps: ParsedSig, r: Region): seq<nat>
    requires WellFormed(ps)
  {
    if r.end - r.start < ps.sigSize then [] else Matches(mem, ps, r.start, r.end - ps.sigSize + 1)
  }

  /** The naive scan of every region in order. */
  function RegionMatches(mem: nat -> byte, ps: ParsedSig, regions: seq<Region>): seq<nat>
    requires WellFormed(ps)
  {
    if regions == [] then [] else RegionHits(mem, ps, regions[0]) + RegionMatches(mem, ps, regions[1..])
  }

  /** The starts of the regions at least `size` bytes long, in order. */
  function LongRegionStarts(regions: seq<Region>, size: nat): seq<nat>
  {
    if regions == [] then []
    else
      (if regions[0].end - regions[0].start >= size then [regions[0].start] else [])
      + LongRegionStarts(regions[1..], size)
  }

  /**
   * What `scan` returns over the regions it enumerates: 0 for an empty
   * pattern; for a pattern of wildcards only, the start of the
   * `skips`-th region (from 0) long enough to hold it; otherwise the
   * `skips`-th start the naive scan accepts; 0 when there are too few.
   */
  function ScanResult(mem: nat -> byte, ps: ParsedSig, regions: seq<Region>, skips: nat): nat
    requires WellFormed(ps)
  {
    if ps.sigSize == 0 then 0
    else if ps.anchorIdx.None? then AddressOf(Select(LongRegionStarts(regions, ps.sigSize), skips))
    else AddressOf(Select(RegionMatches(mem, ps, regions), skips))
  }

  lemma RegionMatchesAt(mem: nat -> byte, ps: ParsedSig, regions: seq<Region>, i: nat)
    requires WellFormed(ps) && i < |regions|
    ensures RegionMatches(mem, ps, regions[i..]) == RegionHits(mem, ps, regions[i]) + RegionMatches(mem, ps, regions[i + 1..])
  {
    assert regions[i..][1..] == regions[i + 1..];
  }

  lemma LongRegionStartsAt(regions: seq<Region>, size: nat, i: nat)
    requires i < |regions|
    ensures LongRegionStarts(regions[i..], size)
      == (if regions[i].end - regions[i].start >= size then [regions[i].start] else []) + LongRegionStarts(regions[i + 1..], size)
  {
    assert regions[i..][1..] == regions[i + 1..];
  }

  // ---------------------------------------------------------------------------
  // scan
  // ---------------------------------------------------------------------------

  /**
   * `SignatureScanner::scan` over the own process, whose memory is `mem` and
   * whose regions `query` reports.
   */
  method Scan(startAddress: nat, endAddress: nat, pattern: string, skips: nat,
              query: nat -> Option<MemInfo>, mem: nat -> byte) returns (r: nat)
    requires ValidPattern(pattern) && QueryContract(query)
    ensures r == ScanResult(mem, Parse(pattern), Enumerate(query, startAddress, endAddress, FromCursor), skips)
  {
    var ps := ParsePattern(pattern);
    if ps.sigSize == 0 {
      return 0;
    }
    if ps.anchorIdx.None? {
      var regions := QueryReadableRegions(query, startAddress, endAddress);
      r := FirstLongRegion(regions, ps.sigSize, skips);
      return;
    }
    var regions := QueryReadableRegions(query, startAddress, endAddress);
    r := SearchRegions(mem, ps, regions, skips);
  }

  /**
   * The wildcard-only branch of `scan`: count down `skips` over the regions
   * long enough for the signature and return the start of the one it
   * reaches zero at.
   */
  method FirstLongRegion(regions: seq<Region>, sigSize: nat, skips: nat) returns (r: nat)
    ensures r == AddressOf(Select(LongRegionStarts(regions, sigSize), skips))
  {
    var k: nat := skips;
    for i := 0 to |regions|
      invariant Select(LongRegionStarts(regions, sigSize), skips) == Select(LongRegionStarts(regions[i..], sigSize), k)
    {
      var reg := regions[i];
      LongRegionStartsAt(regions, sigSize, i);
      ghost var here: seq<nat> := if reg.end - reg.start >= sigSize then [reg.start] else [];
      SelectAppend(here, LongRegionStarts(regions[i + 1..], sigSize), k);
      if reg.end - reg.start >= sigSize {
        if k == 0 {
          return reg.start;
        }
        k := k - 1;
      }
    }
    return 0;
  }

  /**
   * The anchored branch of `scan`: skip the regions shorter than the
   * signature and run the anchored search over the starts
   * `[reg.start, reg.end - sigSize + 1)` of each other one, carrying `skips`
   * from region to region.
   */
  method SearchRegions(mem: nat -> byte, ps: ParsedSig, regions: seq<Region>, skips: nat) returns (r: nat)
    requires WellFormed(ps) && ps.anchorIdx.Some?
    ensures r == AddressOf(Select(RegionMatches(mem, ps, regions), skips))
  {
    ghost var goal := Select(RegionMatches(mem, ps, regions), skips);
    var k: nat := skips;
    assert regions[0..] == regions;
    for i := 0 to |regions|
      invariant goal == Select(RegionMatches(mem, ps, regions[i..]), k)
    {
      var out := SearchRegion(mem, ps, regions[i], k);
      RegionMatchesAt(mem, ps, regions, i);
      SelectThrough(RegionHits(mem, ps, regions[i]), RegionMatches(mem, ps, regions[i + 1..]), k, out);
      if out.Found? {
        return out.addr;
      }
      k := out.skips;
    }
    assert regions[|regions|..] == [];
    return 0;
  }

  /**
   * One iteration of the anchored branch: a region shorter than the
   * signature is skipped; otherwise the anchored search runs over the starts
   * `[reg.start, reg.end - sigSize + 1)`.
   */
  method SearchRegion(mem: nat -> byte, ps: ParsedSig, reg: Region, skips: nat) returns (out: Outcome)
    requires WellFormed(ps) && ps.anchorIdx.Some?
    ensures out == Select(RegionHits(mem, ps, reg), skips)
  {
    if reg.end - reg.start < ps.sigSize {
      return Exhausted(skips);
    }
    out := SearchAnchored(mem, ps, reg.start, reg.end - ps.sigSize + 1, skips);
  }

  // ---------------------------------------------------------------------------
  // scanEx: the specification
  // ---------------------------------------------------------------------------

  /**
   * The process `scanEx` reads: `read(cur, toRead)` is `ReadProcessMemory`,
   * `None` when it fails and otherwise the count of bytes it copied, which
   * are `mem(cur)`, `mem(cur + 1)`, ...; `pageSize` is what
   * `GetSystemInfo` reports.
   */
  datatype Target = Target(read: (nat, nat) -> Option<nat>, mem: nat -> byte, pageSize: nat)

  /** A read copies at most the bytes it was asked for; pages are not empty. */
  ghost predicate TargetContract(t: Target)
  {
    && t.pageSize > 0
    && forall a: nat, n: nat :: t.read(a, n).Some? ==> t.read(a, n).value <= n
  }

  /**
   * The next page boundary after `cur`: `(cur + pageSize) & ~(pageSize - 1)`
   * for a power-of-two page size, written as rounding down to a multiple.
   */
  function NextPage(cur: nat, pageSize: nat): (next: nat)
    requires pageSize > 0
  {
    ((cur + pageSize) / pageSize) * pageSize
  }

  lemma MulAtLeast(a: int, p: nat)
    requires a >= 1 && p > 0
    ensures a * p >= p
  {
  }

  /** Division and remainder are determined by any `q * p + r` form with `r < p`. */
  lemma DivModUnique(x: nat, p: nat, q: nat, r: nat)
    requires p > 0 && x == q * p + r && r < p
    ensures x % p == r && x / p == q
  {
    var q0 := x / p;
    if q > q0 {
      MulAtLeast(q - q0, p);
      assert false;
    } else if q < q0 {
      MulAtLeast(q0 - q, p);
      assert false;
    }
  }

  /** The next page boundary is the least multiple of the page size above `cur`. */
  lemma NextPageSpec(cur: nat, pageSize: nat)
    requires pageSize > 0
    ensures var next := NextPage(cur, pageSize);
      && cur < next <= cur + pageSize
      && next % pageSize == 0
      && forall m: nat :: cur < m && m % pageSize == 0 ==> next <= m
  {
    var q := (cur + pageSize) / pageSize;
    var next := q * pageSize;
    assert cur + pageSize == next + (cur + pageSize) % pageSize;
    DivModUnique(next, pageSize, q, 0);
    forall m: nat | cur < m && m % pageSize == 0
      ensures next <= m
    {
      var j := m / pageSize;
      assert m == j * pageSize;
      if j < q {
        MulAtLeast(q - j, pageSize);
      }
    }
  }

  /** `toRead`: the rest of the region, but no more than the staging buffer holds. */
  function ToRead(cur: nat, end: nat, sigSize: nat): (toRead: nat)
    requires cur < end
    ensures 0 < toRead <= end - cur
    ensures toRead <= CHUNK + sigSize - 1
    ensures toRead == end - cur || toRead == CHUNK + sigSize - 1
  {
    Min(CHUNK + sigSize - 1, end - cur)
  }

  /**
   * Which window offsets the wildcard-only loop of `scanEx` counts:
   * `ThroughLast` is the code's `cand <= last`, `BeforeLast` the bound the
   * anchored loop of the same window uses.
   */
  datatype LastRule = ThroughLast | BeforeLast

  /** Consecutive addresses from `from` on. */
  function Consecutive(from: nat, count: nat): (s: seq<nat>)
    ensures |s| == count && forall i :: 0 <= i < count ==> s[i] == from + i
  {
    seq(count, i requires 0 <= i < count => from + i)
  }

  /**
   * The addresses one window of `n` bytes read at `cur` contributes: every
   * candidate offset for a wildcard-only pattern, the naive scan's matches
   * among the starts `cur .. cur + n - sigSize` otherwise.
   */
  function WindowHits(t: Target, ps: ParsedSig, rule: LastRule, cur: nat, n: nat): seq<nat>
    requires WellFormed(ps) && 0 < ps.sigSize <= n
  {
    var last := n - ps.sigSize + 1;
    if ps.anchorIdx.None? then Consecutive(cur, if rule == ThroughLast then last + 1 else last)
    else Matches(t.mem, ps, cur, cur + last)
  }

  /**
   * The addresses the window loop of `scanEx` counts over `[cur, end)`: read
   * up to `toRead` bytes; after a failed or short read move to the next page
   * boundary; after a good read of `n` bytes take the window's hits and move
   * on by `n - (sigSize - 1)`, so that the next window starts at the first
   * candidate this one did not test.
   */
  function Remote(t: Target, ps: ParsedSig, rule: LastRule, cur: nat, end: nat): seq<nat>
    requires WellFormed(ps) && ps.sigSize > 0 && t.pageSize > 0
    decreases end - cur
  {
    if cur >= end then []
    else
      var got := t.read(cur, ToRead(cur, end, ps.sigSize));
      if got.None? || got.value < ps.sigSize then
        NextPageSpec(cur, t.pageSize);
        Remote(t, ps, rule, NextPage(cur, t.pageSize), end)
      else
        WindowHits(t, ps, rule, cur, got.value) + Remote(t, ps, rule, cur + (got.value - (ps.sigSize - 1)), end)
  }

  /** The window loop over one region; a region shorter than the signature is skipped. */
  function RemoteRegion(t: Target, ps: ParsedSig, rule: LastRule, r: Region): seq<nat>
    requires WellFormed(ps) && ps.sigSize > 0 && t.pageSize > 0
  {
    if r.end - r.start < ps.sigSize then [] else Remote(t, ps, rule, r.start, r.end)
  }

  /** The window loop over every region in order. */
  function RemoteMatches(t: Target, ps: ParsedSig, rule: LastRule, regions: seq<Region>): seq<nat>
    requires WellFormed(ps) && ps.sigSize > 0 && t.pageSize > 0
  {
    if regions == [] then []
    else RemoteRegion(t, ps, rule, regions[0]) + RemoteMatches(t, ps, rule, regions[1..])
  }

  /**
   * What `scanEx` returns over the regions it enumerates: 0 for an empty
   * pattern or a null handle, otherwise the `skips`-th address the window
   * loop counts, or 0 when there are too few.
   */
  function ScanExResult(t: Target, hProcess: nat, ps: ParsedSig, rule: LastRule, regions: seq<Region>, skips: nat): nat
    requires WellFormed(ps) && t.pageSize > 0
  {
    if ps.sigSize == 0 || hProcess == 0 then 0
    else AddressOf(Select(RemoteMatches(t, ps, rule, regions), skips))
  }

  /** A failed or short read moves the window loop to the next page boundary. */
  lemma RemoteSkipsPage(t: Target, ps: ParsedSig, rule: LastRule, cur: nat, end: nat)
    requires WellFormed(ps) && ps.sigSize > 0 && t.pageSize > 0 && cur < end
    requires var got := t.read(cur, ToRead(cur, end, ps.sigSize)); got.None? || got.value < ps.sigSize
    ensures cur < NextPage(cur, t.pageSize)
    ensures Remote(t, ps, rule, cur, end) == Remote(t, ps, rule, NextPage(cur, t.pageSize), end)
  {
    NextPageSpec(cur, t.pageSize);
  }

  /** A good read of `n` bytes contributes the window's hits and moves on by `n - (sigSize - 1)`. */
  lemma RemoteTakesWindow(t: Target, ps: ParsedSig, rule: LastRule, cur: nat, end: nat, n: nat)
    requires WellFormed(ps) && ps.sigSize > 0 && t.pageSize > 0 && cur < end
    requires t.read(cur, ToRead(cur, end, ps.sigSize)) == Some(n) && n >= ps.sigSize
    ensures Remote(t, ps, rule, cur, end)
      == WindowHits(t, ps, rule, cur, n) + Remote(t, ps, rule, cur + (n - (ps.sigSize - 1)), end)
  {
  }

  /**
   * Counting `skips` down over the window loop after a good read: a hit in
   * the window is the loop's hit; otherwise the count goes on from the next
   * window with the skips left.
   */
  lemma RemoteSelectsWindow(t: Target, ps: ParsedSig, rule: LastRule, cur: nat, end: nat, n: nat, skips: nat, out: Outcome)
    requires WellFormed(ps) && ps.sigSize > 0 && t.pageSize > 0 && cur < end
    requires t.read(cur, ToRead(cur, end, ps.sigSize)) == Some(n) && n >= ps.sigSize
    requires out == Select(WindowHits(t, ps, rule, cur, n), skips)
    ensures out.Found? ==> Select(Remote(t, ps, rule, cur, end), skips) == out
    ensures out.Exhausted? ==>
      Select(Remote(t, ps, rule, cur, end), skips) == Select(Remote(t, ps, rule, cur + (n - (ps.sigSize - 1)), end), out.skips)
  {
    RemoteTakesWindow(t, ps, rule, cur, end, n);
    SelectThrough(WindowHits(t, ps, rule, cur, n), Remote(t, ps, rule, cur + (n - (ps.sigSize - 1)), end), skips, out);
  }

  lemma RemoteMatchesAt(t: Target, ps: ParsedSig, rule: LastRule, regions: seq<Region>, i: nat)
    requires WellFormed(ps) && ps.sigSize > 0 && t.pageSize > 0 && i < |regions|
    ensures RemoteMatches(t, ps, rule, regions[i..])
      == RemoteRegion(t, ps, rule, regions[i]) + RemoteMatches(t, ps, rule, regions[i + 1..])
  {
    assert regions[i..][1..] == regions[i + 1..];
  }

  // ---------------------------------------------------------------------------
  // scanEx
  // ---------------------------------------------------------------------------

  /**
   * The wildcard-only loop of one `scanEx` window: every buffer offset
   * `cand` from 0 through `last` counts against `skips`, and the one it
   * reaches zero at is reported as `cur + cand`.
   */
  method CountOffsets(cur: nat, last: nat, skips: nat) returns (out: Outcome)
    ensures out == Select(Consecutive(cur, last + 1), skips)
  {
    var k: nat := skips;
    var cand := 0;
    while cand <= last
      invariant cand <= last + 1 && k + cand == skips
    {
      if k == 0 {
        return Found(cur + cand);
      }
      k := k - 1;
      cand := cand + 1;
    }
    return Exhausted(k);
  }

  /**
   * The search over one good window of `scanEx`: `win` is the staging
   * buffer's first `bytesRead` bytes, read at `cur`. Candidates are buffer
   * offsets up to `last = bytesRead - sigSize + 1`, and a hit at offset `cand`
   * is reported as `cur + cand`.
   */
  method ScanWindow(t: Target, ps: ParsedSig, win: seq<byte>, cur: nat, skips: nat) returns (out: Outcome)
    requires WellFormed(ps) && 0 < ps.sigSize <= |win|
    requires forall j :: 0 <= j < |win| ==> win[j] == t.mem(cur + j)
    ensures out == Select(WindowHits(t, ps, ThroughLast, cur, |win|), skips)
  {
    var last := |win| - ps.sigSize + 1;
    if ps.anchorIdx.None? {
      out := CountOffsets(cur, last, skips);
      return;
    }
    var view := (i: nat) => if i < |win| then win[i] else 0;
    ghost var local := Matches(view, ps, 0, last);
    assert WindowHits(t, ps, ThroughLast, cur, |win|) == Shift(local, cur) by {
      MatchesShift(view, t.mem, ps, 0, last, cur);
    }
    out := SearchAnchored(view, ps, 0, last, skips);
    SelectShift(local, cur, skips);
    if out.Found? {
      out := Found(cur + out.addr);
    }
  }

  /**
   * A good read of `bytesRead` bytes at `cur`: the bytes land in the staging
   * buffer's first `bytesRead` cells, the rest of the buffer is left as it
   * was, and the window they form is searched.
   */
  method ReadAndSearch(t: Target, ps: ParsedSig, buf: array<byte>, cur: nat, bytesRead: nat, skips: nat) returns (out: Outcome)
    requires WellFormed(ps) && 0 < ps.sigSize <= bytesRead <= buf.Length
    modifies buf
    ensures buf[..bytesRead] == seq(bytesRead, j requires 0 <= j < bytesRead => t.mem(cur + j))
    ensures buf[bytesRead..] == old(buf[bytesRead..])
    ensures out == Select(WindowHits(t, ps, ThroughLast, cur, bytesRead), skips)
  {
    forall j | 0 <= j < bytesRead {
      buf[j] := t.mem(cur + j);
    }
    out := ScanWindow(t, ps, buf[..bytesRead], cur, skips);
  }

  /**
   * The rest of one iteration of the window loop after a good read of
   * `bytesRead` bytes at `cur`: search the window, then move `cur` on so the
   * next window overlaps this one by `sigSize - 1` bytes.
   */
  method GoodRead(t: Target, ps: ParsedSig, buf: array<byte>, cur: nat, end: nat, bytesRead: nat, skips: nat)
    returns (result: Outcome, next: nat)
    requires WellFormed(ps) && 0 < ps.sigSize <= bytesRead <= buf.Length && t.pageSize > 0 && cur < end
    requires t.read(cur, ToRead(cur, end, ps.sigSize)) == Some(bytesRead)
    modifies buf
    ensures cur < next
    ensures result.Found? ==> Select(Remote(t, ps, ThroughLast, cur, end), skips) == result
    ensures result.Exhausted? ==> Select(Remote(t, ps, ThroughLast, cur, end), skips) == Select(Remote(t, ps, ThroughLast, next, end), result.skips)
  {
    result := ReadAndSearch(t, ps, buf, cur, bytesRead, skips);
    RemoteSelectsWindow(t, ps, ThroughLast, cur, end, bytesRead, skips, result);
    if bytesRead > ps.sigSize - 1 {
      next := cur + (bytesRead - (ps.sigSize - 1));
    } else {
      assert false;
    }
  }

  /**
   * The window loop of `scanEx` over the region `[start, end)`, reading into
   * `buf`.
   */
  method ScanRegionEx(t: Target, ps: ParsedSig, buf: array<byte>, start: nat, end: nat, skips: nat) returns (out: Outcome)
    requires WellFormed(ps) && ps.sigSize > 0 && TargetContract(t)
    requires buf.Length == CHUNK + ps.sigSize - 1
    modifies buf
    ensures out == Select(Remote(t, ps, ThroughLast, start, end), skips)
  {
    var sigSize := ps.sigSize;
    var cur := start;
    var k: nat := skips;
    ghost var goal := Select(Remote(t, ps, ThroughLast, start, end), skips);
    while cur < end
      invariant goal == Select(Remote(t, ps, ThroughLast, cur, end), k)
      decreases end - cur
    {
      var toRead := ToRead(cur, end, sigSize);
      var got := t.read(cur, toRead);
      if got.None? || got.value < sigSize {
        RemoteSkipsPage(t, ps, ThroughLast, cur, end);
        cur := NextPage(cur, t.pageSize);
        continue;
      }
      var result, next := GoodRead(t, ps, buf, cur, end, got.value, k);
      if result.Found? {
        return result;
      }
      k := result.skips;
      cur := next;
    }
    out := Exhausted(k);
  }

  /**
   * `SignatureScanner::scanEx` over the process behind `hProcess`, whose
   * regions `query` reports and whose memory `t` reads.
   */
  method ScanEx(hProcess: nat, startAddress: nat, endAddress: nat, pattern: string, skips: nat,
                query: nat -> Option<MemInfo>, t: Target) returns (r: nat)
    requires ValidPattern(pattern) && QueryContract(query) && TargetContract(t)
    ensures r == ScanExResult(t, hProcess, Parse(pattern), ThroughLast, Enumerate(query, startAddress, endAddress, FromCursor), skips)
  {
    var ps := ParsePattern(pattern);
    if ps.sigSize == 0 || hProcess == 0 {
      return 0;
    }

    var regions := QueryReadableRegions(query, startAddress, endAddress);
    var buf := new byte[CHUNK + ps.sigSize - 1];
    r := ScanRegionsEx(t, ps, buf, regions, skips);
  }

  /**
   * The loop of `scanEx` over the regions, carrying `skips` from region to
   * region and reusing one staging buffer.
   */
  method ScanRegionsEx(t: Target, ps: ParsedSig, buf: array<byte>, regions: seq<Region>, skips: nat) returns (r: nat)
    requires WellFormed(ps) && ps.sigSize > 0 && TargetContract(t)
    requires buf.Length == CHUNK + ps.sigSize - 1
    modifies buf
    ensures r == AddressOf(Select(RemoteMatches(t, ps, ThroughLast, regions), skips))
  {
    ghost var goal := Select(RemoteMatches(t, ps, ThroughLast, regions), skips);
    var k: nat := skips;
    assert regions[0..] == regions;
    for i := 0 to |regions|
      invariant goal == Select(RemoteMatches(t, ps, ThroughLast, regions[i..]), k)
    {
      var out := RegionEx(t, ps, buf, regions[i], k);
      RemoteMatchesAt(t, ps, ThroughLast, regions, i);
      SelectThrough(RemoteRegion(t, ps, ThroughLast, regions[i]), RemoteMatches(t, ps, ThroughLast, regions[i + 1..]), k, out);
      if out.Found? {
        return out.addr;
      }
      k := out.skips;
    }
    assert regions[|regions|..] == [];
    return 0;
  }

  /** One iteration over the regions: a region shorter than the signature is skipped. */
  method RegionEx(t: Target, ps: ParsedSig, buf: array<byte>, reg: Region, skips: nat) returns (out: Outcome)
    requires WellFormed(ps) && ps.sigSize > 0 && TargetContract(t)
    requires buf.Length == CHUNK + ps.sigSize - 1
    modifies buf
    ensures out == Select(RemoteRegion(t, ps, ThroughLast, reg), skips)
  {
    if reg.end - reg.start < ps.sigSize {
      return Exhausted(skips);
    }
    out := ScanRegionEx(t, ps, buf, reg.start, reg.end, skips);
  }
}
