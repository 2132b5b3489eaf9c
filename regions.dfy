/*
 * The readable-region enumerator `queryReadableRegions` and its twin
 * `queryReadableRegionsEx`, which differ only in the query they call
 * (`VirtualQuery` on the own process, `VirtualQueryEx` on a process handle).
 * Both are one method here, with the query passed in as an oracle.
 */
module Regions {
  import opened Types

  // Memory state and protection flags of `MEMORY_BASIC_INFORMATION`, as the
  // Windows headers define them.
  const MEM_COMMIT: bv32 := 0x1000
  const MEM_FREE: bv32 := 0x10000
  const PAGE_NOACCESS: bv32 := 0x01
  const PAGE_READONLY: bv32 := 0x02
  const PAGE_READWRITE: bv32 := 0x04
  const PAGE_WRITECOPY: bv32 := 0x08
  const PAGE_EXECUTE_READ: bv32 := 0x20
  const PAGE_EXECUTE_READWRITE: bv32 := 0x40
  const PAGE_EXECUTE_WRITECOPY: bv32 := 0x80
  const PAGE_GUARD: bv32 := 0x100

  /** The protections the enumerator treats as readable. */
  const READ_PROTECTIONS: bv32 :=
    PAGE_READONLY | PAGE_READWRITE | PAGE_WRITECOPY |
    PAGE_EXECUTE_READ | PAGE_EXECUTE_READWRITE | PAGE_EXECUTE_WRITECOPY

  /** What the query reports about the region holding an address. */
  datatype MemInfo = MemInfo(base: nat, size: nat, state: bv32, protect: bv32)

  /** A half-open address range `[start, end)`. */
  datatype Region = Region(start: nat, end: nat)

  /** Committed, with some read protection bit, and not a guard page. */
  predicate IsReadable(mi: MemInfo)
  {
    && mi.state == MEM_COMMIT
    && (mi.protect & READ_PROTECTIONS) != 0
    && (mi.protect & PAGE_GUARD) == 0
  }

  /**
   * The query oracle (`VirtualQuery`/`VirtualQueryEx`); `None` is a failed
   * call. When it answers, the region it reports holds the queried address,
   * so it is not empty.
   */
  ghost predicate QueryContract(query: nat -> Option<MemInfo>)
  {
    forall a: nat :: query(a).Some? ==> query(a).value.base <= a < query(a).value.base + query(a).value.size
  }

  /**
   * How the end of an emitted region is computed: `FromCursor` is the code's
   * `rStart + RegionSize` with `rStart = max(addr, BaseAddress)`;
   * `FromBase` is `BaseAddress + RegionSize`, the end of the queried region.
   * Either is then clipped to the end of the scan range.
   */
  datatype EndRule = FromCursor | FromBase

  function RegionEnd(mi: MemInfo, rStart: nat, end: nat, rule: EndRule): nat
  {
    var rEnd := if rule == FromCursor then rStart + mi.size else mi.base + mi.size;
    if rEnd > end then end else rEnd
  }

  /** What one step of the cursor loop emits: the clipped region when it is readable and not empty. */
  function Emitted(mi: MemInfo, addr: nat, end: nat, rule: EndRule): seq<Region>
  {
    var rStart := Max(addr, mi.base);
    var rEnd := RegionEnd(mi, rStart, end, rule);
    if IsReadable(mi) && rEnd > rStart then [Region(rStart, rEnd)] else []
  }

  /** The regions the cursor loop emits from cursor `addr` on, for the scan range ending at `end`. */
  function Enumerate(query: nat -> Option<MemInfo>, addr: nat, end: nat, rule: EndRule): seq<Region>
    requires QueryContract(query)
    decreases end - addr
  {
    if addr >= end then []
    else match query(addr)
      case None => []
      case Some(mi) => Emitted(mi, addr, end, rule) + Enumerate(query, mi.base + mi.size, end, rule)
  }

  /**
   * Every emitted region is non-empty and lies in `[addr, end)`; the query at
   * its start reports a readable region, and the region does not start before
   * that region's base.
   */
  lemma {:induction false} EnumerateInRange(query: nat -> Option<MemInfo>, addr: nat, end: nat, rule: EndRule)
    requires QueryContract(query)
    ensures forall r :: r in Enumerate(query, addr, end, rule) ==>
      && addr <= r.start < r.end <= end
      && query(r.start).Some?
      && IsReadable(query(r.start).value)
      && query(r.start).value.base <= r.start
    decreases end - addr
  {
    if addr < end && query(addr).Some? {
      var mi := query(addr).value;
      EnumerateInRange(query, mi.base + mi.size, end, rule);
    }
  }

  /** Starts strictly ascend. */
  predicate StartsAscend(rs: seq<Region>)
  {
    forall i, j :: 0 <= i < j < |rs| ==> rs[i].start < rs[j].start
  }

  /** Each region ends before the next one starts. */
  predicate Disjoint(rs: seq<Region>)
  {
    forall i, j :: 0 <= i < j < |rs| ==> rs[i].end <= rs[j].start
  }

  /** At most one region before `bound`, then ascending regions from `bound` on. */
  lemma ConsAscending(head: seq<Region>, rest: seq<Region>, bound: nat)
    requires |head| <= 1 && (forall r :: r in head ==> r.start < bound)
    requires (forall r :: r in rest ==> bound <= r.start) && StartsAscend(rest)
    ensures StartsAscend(head + rest)
  {
    assert forall k :: 0 <= k < |rest| ==> rest[k] in rest;
    if head != [] {
      assert head[0] in head;
    }
  }

  /** At most one region ending by `bound`, then disjoint regions from `bound` on. */
  lemma ConsDisjoint(head: seq<Region>, rest: seq<Region>, bound: nat)
    requires |head| <= 1 && (forall r :: r in head ==> r.end <= bound)
    requires (forall r :: r in rest ==> bound <= r.start) && Disjoint(rest)
    ensures Disjoint(head + rest)
  {
    assert forall k :: 0 <= k < |rest| ==> rest[k] in rest;
    if head != [] {
      assert head[0] in head;
    }
  }

  /** Region starts strictly ascend: the cursor moves past every region it emits from. */
  lemma {:induction false} EnumerateAscending(query: nat -> Option<MemInfo>, addr: nat, end: nat, rule: EndRule)
    requires QueryContract(query)
    ensures StartsAscend(Enumerate(query, addr, end, rule))
    decreases end - addr
  {
    if addr < end && query(addr).Some? {
      var mi := query(addr).value;
      var next := mi.base + mi.size;
      var head := Emitted(mi, addr, end, rule);
      EnumerateAscending(query, next, end, rule);
      EnumerateInRange(query, next, end, rule);
      ConsAscending(head, Enumerate(query, next, end, rule), next);
    }
  }

  /** The region the query reports at the start of `r` holds all of `r`. */
  ghost predicate WithinQueried(query: nat -> Option<MemInfo>, r: Region)
  {
    query(r.start).Some? && r.end <= query(r.start).value.base + query(r.start).value.size
  }

  /**
   * With the corrected end, every emitted region also lies inside the queried
   * region, and each region ends before the next one starts.
   */
  lemma {:induction false} EnumerateFromBaseDisjoint(query: nat -> Option<MemInfo>, addr: nat, end: nat)
    requires QueryContract(query)
    ensures forall r :: r in Enumerate(query, addr, end, FromBase) ==> WithinQueried(query, r)
    ensures Disjoint(Enumerate(query, addr, end, FromBase))
    decreases end - addr
  {
    if addr < end && query(addr).Some? {
      var mi := query(addr).value;
      var next := mi.base + mi.size;
      var head := Emitted(mi, addr, end, FromBase);
      EnumerateFromBaseDisjoint(query, next, end);
      EnumerateInRange(query, next, end, FromBase);
      ConsDisjoint(head, Enumerate(query, next, end, FromBase), next);
    }
  }

  /** Each region the query reports is followed directly by the region the query reports at its end. */
  ghost predicate Tiled(query: nat -> Option<MemInfo>)
  {
    forall a: nat :: query(a).Some? ==>
      var next := query(a).value.base + query(a).value.size;
      query(next).None? || query(next).value.base == next
  }

  /** The cursor sits at the base of the region the query reports there. */
  predicate AtBase(query: nat -> Option<MemInfo>, addr: nat)
  {
    query(addr).None? || query(addr).value.base == addr
  }

  /**
   * When the scan range starts at a region base and regions tile memory, the
   * code's end equals the region's own end at every step.
   */
  lemma {:induction false} AlignedEndsAgree(query: nat -> Option<MemInfo>, addr: nat, end: nat)
    requires QueryContract(query) && Tiled(query) && AtBase(query, addr)
    ensures Enumerate(query, addr, end, FromCursor) == Enumerate(query, addr, end, FromBase)
    decreases end - addr
  {
    if addr < end && query(addr).Some? {
      var mi := query(addr).value;
      AlignedEndsAgree(query, mi.base + mi.size, end);
    }
  }

  /**
   * Emitted regions do not overlap when the scan range starts at a region
   * base and regions tile memory. Without the first condition they can (see
   * `OvershootAsWritten`).
   */
  lemma EnumerateDisjointWhenAligned(query: nat -> Option<MemInfo>, begin: nat, end: nat)
    requires QueryContract(query) && Tiled(query) && AtBase(query, begin)
    ensures Disjoint(Enumerate(query, begin, end, FromCursor))
  {
    AlignedEndsAgree(query, begin, end);
    EnumerateFromBaseDisjoint(query, begin, end);
  }

  /** A query over three regions: free below 0x2000, then two committed pages. */
  function ThreeRegions(a: nat): Option<MemInfo>
  {
    if a < 0x2000 then Some(MemInfo(0, 0x2000, MEM_FREE, PAGE_NOACCESS))
    else if a < 0x3000 then Some(MemInfo(0x2000, 0x1000, MEM_COMMIT, PAGE_READWRITE))
    else if a < 0x4000 then Some(MemInfo(0x3000, 0x1000, MEM_COMMIT, PAGE_READONLY))
    else None
  }

  /**
   * A scan range starting inside a region: the first emitted region runs
   * 0x800 bytes past the end of its page into the next one, so the two
   * emitted regions overlap. The corrected end stops at the page.
   */
  lemma OvershootAsWritten()
    ensures QueryContract(ThreeRegions)
    ensures Enumerate(ThreeRegions, 0x2800, 0x4000, FromCursor) == [Region(0x2800, 0x3800), Region(0x3000, 0x4000)]
    ensures Enumerate(ThreeRegions, 0x2800, 0x4000, FromBase) == [Region(0x2800, 0x3000), Region(0x3000, 0x4000)]
  {
    assert IsReadable(ThreeRegions(0x2800).value);
    assert IsReadable(ThreeRegions(0x3000).value);
    assert Enumerate(ThreeRegions, 0x4000, 0x4000, FromCursor) == [];
    assert Enumerate(ThreeRegions, 0x4000, 0x4000, FromBase) == [];
  }

  lemma EnumerateStep(query: nat -> Option<MemInfo>, addr: nat, end: nat, rule: EndRule)
    requires QueryContract(query) && addr < end && query(addr).Some?
    ensures Enumerate(query, addr, end, rule)
      == Emitted(query(addr).value, addr, end, rule) + Enumerate(query, query(addr).value.base + query(addr).value.size, end, rule)
  {
  }

  /** Moving one step's regions from the remainder to the output keeps their concatenation. */
  lemma EmitGlue(before: seq<Region>, step: seq<Region>, rest: seq<Region>, next: seq<Region>, goal: seq<Region>)
    requires rest == step + next
    requires before + rest == goal
    ensures (before + step) + next == goal
  {
  }

  /**
   * `queryReadableRegions`/`queryReadableRegionsEx`: from `begin`, query the
   * region at the cursor, keep its part from the cursor (end computed as the
   * code does, clipped to `end`) when it is committed, readable and not a
   * guard page, and move the cursor to the region's end; stop at `end` or
   * when the query fails.
   */
  method QueryReadableRegions(query: nat -> Option<MemInfo>, begin: nat, end: nat) returns (regions: seq<Region>)
    requires QueryContract(query)
    ensures regions == Enumerate(query, begin, end, FromCursor)
    ensures forall r :: r in regions ==>
      begin <= r.start < r.end <= end && query(r.start).Some? && IsReadable(query(r.start).value)
    ensures StartsAscend(regions)
  {
    regions := [];
    var addr := begin;
    ghost var goal := Enumerate(query, begin, end, FromCursor);
    while addr < end
      invariant regions + Enumerate(query, addr, end, FromCursor) == goal
      decreases end - addr
    {
      var info := query(addr);
      if info.None? {
        break;
      }
      var mbi := info.value;
      var rStart := Max(addr, mbi.base);
      var rEnd := rStart + mbi.size;
      if rEnd > end {
        rEnd := end;
      }
      var readable := IsReadable(mbi);
      ghost var step := Emitted(mbi, addr, end, FromCursor);
      ghost var before := regions;
      if readable && rEnd > rStart {
        regions := regions + [Region(rStart, rEnd)];
      }
      assert regions == before + step;
      ghost var cur := addr;
      ghost var rest := Enumerate(query, cur, end, FromCursor);
      addr := mbi.base + mbi.size;
      assert rest == step + Enumerate(query, addr, end, FromCursor) by { EnumerateStep(query, cur, end, FromCursor); }
      EmitGlue(before, step, rest, Enumerate(query, addr, end, FromCursor), goal);
    }
    EnumerateInRange(query, begin, end, FromCursor);
    EnumerateAscending(query, begin, end, FromCursor);
  }
}
