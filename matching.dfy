/*
 * Matching a parsed signature against memory: `matchAt`, `findAnchor`, the
 * naive scan that defines which starts match, and the anchored search loop
 * that `scan` and `scanEx` both run over a candidate range.
 *
 * Memory is a snapshot function from address to byte; a `uint8_t*` value `ptr` of the
 * source is the address it points at.
 */
module Matching {
  import opened Types
  import opened Pattern

  // ---------------------------------------------------------------------------
  // matchAt
  // ---------------------------------------------------------------------------

  /** The fixed offsets from the `j`-th on all hold their expected byte; stops at the first mismatch. */
  function MatchFrom(mem: nat -> byte, ps: ParsedSig, p: nat, j: nat): bool
    requires WellFormed(ps)
    requires j <= |ps.fixedIdx|
    decreases |ps.fixedIdx| - j
  {
    if j == |ps.fixedIdx| then true
    else if mem(p + ps.fixedIdx[j]) != ps.bytes[ps.fixedIdx[j]] then false
    else MatchFrom(mem, ps, p, j + 1)
  }

  /** `matchAt`: walk `fixedIdx` and compare the byte at `p + idx` with `bytes[idx]`. */
  function MatchAt(mem: nat -> byte, ps: ParsedSig, p: nat): bool
    requires WellFormed(ps)
  {
    MatchFrom(mem, ps, p, 0)
  }

  /** The reference meaning of a match: every fixed offset holds its expected byte. */
  ghost predicate FixedBytesAt(mem: nat -> byte, ps: ParsedSig, p: nat)
    requires WellFormed(ps)
  {
    forall j :: 0 <= j < |ps.fixedIdx| ==> mem(p + ps.fixedIdx[j]) == ps.bytes[ps.fixedIdx[j]]
  }

  lemma {:induction false} MatchFromSpec(mem: nat -> byte, ps: ParsedSig, p: nat, j: nat)
    requires WellFormed(ps)
    requires j <= |ps.fixedIdx|
    ensures MatchFrom(mem, ps, p, j) <==>
      forall i :: j <= i < |ps.fixedIdx| ==> mem(p + ps.fixedIdx[i]) == ps.bytes[ps.fixedIdx[i]]
    decreases |ps.fixedIdx| - j
  {
    if j < |ps.fixedIdx| {
      MatchFromSpec(mem, ps, p, j + 1);
    }
  }

  /** The early-exit loop of `matchAt` accepts exactly when every fixed offset matches. */
  lemma MatchAtSpec(mem: nat -> byte, ps: ParsedSig, p: nat)
    requires WellFormed(ps)
    ensures MatchAt(mem, ps, p) <==> FixedBytesAt(mem, ps, p)
  {
    MatchFromSpec(mem, ps, p, 0);
  }

  /** A match read through a token list whose literal positions are exactly the fixed offsets. */
  lemma MatchAtTokens(mem: nat -> byte, ps: ParsedSig, tokens: seq<string>, p: nat)
    requires WellFormed(ps) && ps.sigSize == |tokens|
    requires forall x: nat :: x in ps.fixedIdx <==> x < |tokens| && !IsWildcardToken(tokens[x])
    requires forall i :: 0 <= i < |tokens| && !IsWildcardToken(tokens[i]) ==>
      IsByteLiteral(tokens[i]) && ps.bytes[i] == HexValue(tokens[i])
    ensures MatchAt(mem, ps, p) <==>
      forall i :: 0 <= i < |tokens| && !IsWildcardToken(tokens[i]) ==> mem(p + i) == HexValue(tokens[i])
  {
    MatchAtSpec(mem, ps, p);
    if MatchAt(mem, ps, p) {
      forall i | 0 <= i < |tokens| && !IsWildcardToken(tokens[i])
        ensures mem(p + i) == HexValue(tokens[i])
      {
        var j :| 0 <= j < |ps.fixedIdx| && ps.fixedIdx[j] == i;
      }
    } else {
      var j :| 0 <= j < |ps.fixedIdx| && mem(p + ps.fixedIdx[j]) != ps.bytes[ps.fixedIdx[j]];
      assert ps.fixedIdx[j] in ps.fixedIdx;
    }
  }

  /**
   * For a parsed pattern text, a match at `p` means: every literal token `i`
   * equals the byte at `p + i`; wildcard tokens accept any byte.
   */
  lemma MatchAtMeansPattern(mem: nat -> byte, pattern: string, p: nat)
    requires ValidPattern(pattern)
    ensures var tokens := Split(pattern, ' ');
      MatchAt(mem, Parse(pattern), p) <==>
        forall i :: 0 <= i < |tokens| && !IsWildcardToken(tokens[i]) ==> mem(p + i) == HexValue(tokens[i])
  {
    ParseShape(pattern);
    MatchAtTokens(mem, Parse(pattern), Split(pattern, ' '), p);
  }

  /** Every match carries the anchor byte at `p + anchorIdx`. */
  lemma MatchHasAnchor(mem: nat -> byte, ps: ParsedSig, p: nat)
    requires WellFormed(ps) && ps.anchorIdx.Some?
    requires MatchAt(mem, ps, p)
    ensures mem(p + ps.anchorIdx.value) == ps.anchorByte
  {
    MatchAtSpec(mem, ps, p);
    assert mem(p + ps.fixedIdx[|ps.fixedIdx| - 1]) == ps.bytes[ps.fixedIdx[|ps.fixedIdx| - 1]];
  }

  /** A match depends only on the `sigSize` bytes from `p` on. */
  lemma MatchAtLocal(mem: nat -> byte, other: nat -> byte, ps: ParsedSig, p: nat)
    requires WellFormed(ps)
    requires forall a :: p <= a < p + ps.sigSize ==> mem(a) == other(a)
    ensures MatchAt(mem, ps, p) == MatchAt(other, ps, p)
  {
    MatchAtSpec(mem, ps, p);
    MatchAtSpec(other, ps, p);
    assert forall j :: 0 <= j < |ps.fixedIdx| ==> mem(p + ps.fixedIdx[j]) == other(p + ps.fixedIdx[j]);
  }

  // ---------------------------------------------------------------------------
  // findAnchor
  // ---------------------------------------------------------------------------

  /** `findAnchor` (`memchr` over `[cur, end)`): the first address holding `anchor`, or none. */
  function FindAnchor(mem: nat -> byte, cur: nat, end: nat, anchor: byte): (hit: Option<nat>)
    ensures hit.Some? ==>
      && cur <= hit.value < end
      && mem(hit.value) == anchor
      && forall a :: cur <= a < hit.value ==> mem(a) != anchor
    ensures hit.None? ==> forall a :: cur <= a < end ==> mem(a) != anchor
    decreases end - cur
  {
    if cur >= end then None
    else if mem(cur) == anchor then Some(cur)
    else FindAnchor(mem, cur + 1, end, anchor)
  }

  // ---------------------------------------------------------------------------
  // The naive scan
  // ---------------------------------------------------------------------------

  /** Every start in `[lo, hi)` at which the signature matches, in address order. */
  function Matches(mem: nat -> byte, ps: ParsedSig, lo: nat, hi: nat): seq<nat>
    requires WellFormed(ps)
    decreases hi - lo
  {
    if lo >= hi then []
    else (if MatchAt(mem, ps, lo) then [lo] else []) + Matches(mem, ps, lo + 1, hi)
  }

  /** The naive scan lists exactly the matching starts of the range, strictly ascending. */
  lemma {:induction false} MatchesSpec(mem: nat -> byte, ps: ParsedSig, lo: nat, hi: nat)
    requires WellFormed(ps)
    ensures forall x :: x in Matches(mem, ps, lo, hi) <==> lo <= x < hi && MatchAt(mem, ps, x)
    ensures Ascending(Matches(mem, ps, lo, hi))
    decreases hi - lo
  {
    if lo < hi {
      MatchesSpec(mem, ps, lo + 1, hi);
      var rest := Matches(mem, ps, lo + 1, hi);
      assert forall i :: 0 <= i < |rest| ==> rest[i] in rest;
    }
  }

  /** Scanning `[lo, hi)` is scanning `[lo, mid)` and then `[mid, hi)`. */
  lemma {:induction false} MatchesSplit(mem: nat -> byte, ps: ParsedSig, lo: nat, mid: nat, hi: nat)
    requires WellFormed(ps)
    requires lo <= mid <= hi
    ensures Matches(mem, ps, lo, hi) == Matches(mem, ps, lo, mid) + Matches(mem, ps, mid, hi)
    decreases mid - lo
  {
    if lo < mid {
      MatchesSplit(mem, ps, lo + 1, mid, hi);
    }
  }

  /** Two memories that agree on every byte a candidate in `[lo, hi)` reads give the same matches. */
  lemma {:induction false} MatchesAgree(mem: nat -> byte, other: nat -> byte, ps: ParsedSig, lo: nat, hi: nat)
    requires WellFormed(ps)
    requires forall a :: lo <= a && a + 1 < hi + ps.sigSize ==> mem(a) == other(a)
    ensures Matches(mem, ps, lo, hi) == Matches(other, ps, lo, hi)
    decreases hi - lo
  {
    if lo < hi {
      MatchAtLocal(mem, other, ps, lo);
      MatchesAgree(mem, other, ps, lo + 1, hi);
    }
  }

  /** Every element of `s` moved up by `d`. */
  function Shift(s: seq<nat>, d: nat): (t: seq<nat>)
    ensures |t| == |s| && forall i :: 0 <= i < |s| ==> t[i] == s[i] + d
  {
    seq(|s|, i requires 0 <= i < |s| => s[i] + d)
  }

  lemma ShiftAppend(a: seq<nat>, b: seq<nat>, d: nat)
    ensures Shift(a + b, d) == Shift(a, d) + Shift(b, d)
  {
    assert forall i :: 0 <= i < |a + b| ==> Shift(a + b, d)[i] == (Shift(a, d) + Shift(b, d))[i];
  }

  /** A match read at `p + d` through a memory that holds at `a + d` what `mem` holds at `a`. */
  lemma MatchAtShift(mem: nat -> byte, moved: nat -> byte, ps: ParsedSig, p: nat, d: nat)
    requires WellFormed(ps)
    requires forall a :: p <= a < p + ps.sigSize ==> moved(a + d) == mem(a)
    ensures MatchAt(moved, ps, p + d) == MatchAt(mem, ps, p)
  {
    MatchAtSpec(mem, ps, p);
    MatchAtSpec(moved, ps, p + d);
    assert forall j :: 0 <= j < |ps.fixedIdx| ==> moved(p + d + ps.fixedIdx[j]) == mem(p + ps.fixedIdx[j]);
  }

  /**
   * Scanning a moved memory over the moved range finds the moved matches:
   * the naive scan commutes with turning buffer offsets into addresses.
   */
  lemma {:induction false} MatchesShift(mem: nat -> byte, moved: nat -> byte, ps: ParsedSig, lo: nat, hi: nat, d: nat)
    requires WellFormed(ps)
    requires forall a :: lo <= a && a + 1 < hi + ps.sigSize ==> moved(a + d) == mem(a)
    ensures Matches(moved, ps, lo + d, hi + d) == Shift(Matches(mem, ps, lo, hi), d)
    decreases hi - lo
  {
    if lo < hi {
      MatchAtShift(mem, moved, ps, lo, d);
      MatchesShift(mem, moved, ps, lo + 1, hi, d);
      var head: seq<nat> := if MatchAt(mem, ps, lo) then [lo] else [];
      ShiftAppend(head, Matches(mem, ps, lo + 1, hi), d);
    }
  }

  /** Where the anchor byte is absent at every `q + anchorIdx`, no start `q` matches. */
  lemma {:induction false} NoAnchorNoMatches(mem: nat -> byte, ps: ParsedSig, lo: nat, hi: nat)
    requires WellFormed(ps) && ps.anchorIdx.Some?
    requires forall a :: lo + ps.anchorIdx.value <= a < hi + ps.anchorIdx.value ==> mem(a) != ps.anchorByte
    ensures Matches(mem, ps, lo, hi) == []
    decreases hi - lo
  {
    if lo < hi {
      if MatchAt(mem, ps, lo) {
        MatchHasAnchor(mem, ps, lo);
        assert false;
      }
      NoAnchorNoMatches(mem, ps, lo + 1, hi);
    }
  }

  /** A signature with no fixed offset matches at every start of the range. */
  lemma {:induction false} WildcardMatchesEverywhere(mem: nat -> byte, ps: ParsedSig, lo: nat, hi: nat)
    requires WellFormed(ps) && ps.fixedIdx == []
    ensures |Matches(mem, ps, lo, hi)| == if lo <= hi then hi - lo else 0
    ensures forall i :: 0 <= i < |Matches(mem, ps, lo, hi)| ==> Matches(mem, ps, lo, hi)[i] == lo + i
    decreases hi - lo
  {
    if lo < hi {
      WildcardMatchesEverywhere(mem, ps, lo + 1, hi);
    }
  }

  // ---------------------------------------------------------------------------
  // Counting matches down with `skips`
  // ---------------------------------------------------------------------------

  /** How a search over a list of hits ends: on the hit `skips` reached zero at, or with the skips left. */
  datatype Outcome = Found(addr: nat) | Exhausted(skips: nat)

  /** Skip `k` hits of `hits` and take the next one; if there are too few, say how many skips remain. */
  function Select(hits: seq<nat>, k: nat): (out: Outcome)
    ensures out.Found? <==> k < |hits|
    ensures out.Found? ==> out.addr in hits
  {
    if k < |hits| then Found(hits[k]) else Exhausted(k - |hits|)
  }

  /** Selecting past a prefix: hits are consumed in order, the prefix first. */
  lemma SelectAppend(front: seq<nat>, back: seq<nat>, k: nat)
    ensures k < |front| ==> Select(front + back, k) == Select(front, k)
    ensures k >= |front| ==> Select(front + back, k) == Select(back, k - |front|)
  {
    if k < |front| {
      assert (front + back)[k] == front[k];
    }
  }

  /**
   * A search over `front` that ended with `out` decides the search over
   * `front + back`: the same hit, or the search over `back` with the skips left.
   */
  lemma SelectThrough(front: seq<nat>, back: seq<nat>, k: nat, out: Outcome)
    requires out == Select(front, k)
    ensures out.Found? ==> Select(front + back, k) == out
    ensures out.Exhausted? ==> Select(front + back, k) == Select(back, out.skips)
  {
    SelectAppend(front, back, k);
  }

  /** Selecting from moved hits selects the moved hit. */
  lemma SelectShift(hits: seq<nat>, d: nat, k: nat)
    ensures Select(Shift(hits, d), k) ==
      if Select(hits, k).Found? then Found(Select(hits, k).addr + d) else Select(hits, k)
  {
  }

  /**
   * The anchored search loop of `scan` and `scanEx` over the candidate starts
   * `[base, last)`: search for the anchor byte from `p + anchorIdx` to
   * `last + anchorIdx`, test the candidate `hit - anchorIdx` with `matchAt`,
   * count it against `skips`, and resume one past the candidate. It reports
   * the same hit the naive scan of `[base, last)` reaches after `skips`
   * matches, or the skips left when there are too few.
   */
  method SearchAnchored(mem: nat -> byte, ps: ParsedSig, base: nat, last: nat, skips: nat) returns (out: Outcome)
    requires WellFormed(ps) && ps.anchorIdx.Some?
    ensures out == Select(Matches(mem, ps, base, last), skips)
  {
    ghost var goal := Select(Matches(mem, ps, base, last), skips);
    var anchor := ps.anchorIdx.value;
    var p := base;
    var k := skips;
    while p <= last
      invariant goal == Select(Matches(mem, ps, p, last), k)
      decreases last + 1 - p
    {
      var hit := FindAnchor(mem, p + anchor, last + anchor, ps.anchorByte);
      if hit.None? {
        NoAnchorNoMatches(mem, ps, p, last);
        break;
      }
      var cand := hit.value - anchor;
      SelectAtCandidate(mem, ps, p, cand, last, k);
      if MatchAt(mem, ps, cand) {
        if k == 0 {
          return Found(cand);
        }
        k := k - 1;
      }
      p := cand + 1;
    }
    out := Exhausted(k);
  }

  /**
   * When the anchor byte first appears for the candidate `cand`, the naive
   * scan from `p` is `cand` if it matches, then the scan from `cand + 1`.
   */
  lemma SkipToCandidate(mem: nat -> byte, ps: ParsedSig, p: nat, cand: nat, last: nat)
    requires WellFormed(ps) && ps.anchorIdx.Some? && p <= cand < last
    requires forall a :: p + ps.anchorIdx.value <= a < cand + ps.anchorIdx.value ==> mem(a) != ps.anchorByte
    ensures MatchAt(mem, ps, cand) ==> Matches(mem, ps, p, last) == [cand] + Matches(mem, ps, cand + 1, last)
    ensures !MatchAt(mem, ps, cand) ==> Matches(mem, ps, p, last) == Matches(mem, ps, cand + 1, last)
  {
    NoAnchorNoMatches(mem, ps, p, cand);
    MatchesSplit(mem, ps, p, cand, last);
  }

  /** One candidate step of the anchored search, in terms of the selection it continues. */
  lemma SelectAtCandidate(mem: nat -> byte, ps: ParsedSig, p: nat, cand: nat, last: nat, k: nat)
    requires WellFormed(ps) && ps.anchorIdx.Some? && p <= cand < last
    requires forall a :: p + ps.anchorIdx.value <= a < cand + ps.anchorIdx.value ==> mem(a) != ps.anchorByte
    ensures MatchAt(mem, ps, cand) && k == 0 ==> Select(Matches(mem, ps, p, last), k) == Found(cand)
    ensures MatchAt(mem, ps, cand) && k > 0 ==> Select(Matches(mem, ps, p, last), k) == Select(Matches(mem, ps, cand + 1, last), k - 1)
    ensures !MatchAt(mem, ps, cand) ==> Select(Matches(mem, ps, p, last), k) == Select(Matches(mem, ps, cand + 1, last), k)
  {
    SkipToCandidate(mem, ps, p, cand, last);
    if MatchAt(mem, ps, cand) {
      SelectAppend([cand], Matches(mem, ps, cand + 1, last), k);
    }
  }
}
