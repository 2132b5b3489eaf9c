# Signature scanner: a verified model

This project models the signature scanner of mem-analyzer, `SignatureScanner.cpp`. The scanner finds
byte patterns in memory. A pattern is a string of space-separated tokens such as `"48 8B ? ? 89"`: a
token `?` or `??` is a wildcard byte and any other token is a hexadecimal byte literal. The scanner
returns the address of the (skips+1)-th place where every literal byte matches.

The model has five modules:

- `Types`: bytes, `Option`, `Min`/`Max` and `Ascending`.
- `Pattern`: `splitString` (the `getline` loop), `isWildcardToken` and `parsePattern`. `parsePattern`
  builds the descriptor: `bytes`, `mask`, the ascending fixed offsets `fixedIdx`, `sigSize`, and the
  anchor, which is the last fixed offset, together with its byte.
- `Matching`: `matchAt` and `findAnchor` (a first-occurrence search standing in for `memchr`). It also
  has the naive specification `Matches`, which tests every start in a range, and the anchored search
  loop that `scan` and `scanEx` share (`SearchAnchored`). `Select` picks the (skips+1)-th hit.
- `Regions`: `queryReadableRegions` / `queryReadableRegionsEx`, one cursor loop over a query oracle.
- `Scanner`: `SignatureScanner::scan` and `SignatureScanner::scanEx`, each proved equal to a
  specification function. `ScannerProperties` proves what those results mean.

The OS is passed in as parameters:

- `VirtualQuery`/`VirtualQueryEx` is a function `query` from an address to the region info, or
  `None` when the call fails.
  - Its contract is `QueryContract`: the region returned contains the queried address and is
    non-empty.
- `ReadProcessMemory` is a function `read` from (address, byte count) to the number of bytes read, or
  `None` on failure.
  - A read never returns more bytes than asked for.
  - The bytes it copies are those of a fixed memory snapshot `mem`.
- `GetSystemInfo` supplies a positive page size.

Both scans take memory as a snapshot function from address to byte.

## Model

| member | source | states |
|---|---|---|
| Pattern.SplitString | SignatureScanner.cpp:13-18 | the getline loop returns exactly `Split(str, delim)`: the maximal delimiter-free pieces in order, with no empty piece after a trailing delimiter |
| Pattern.GetLine | SignatureScanner.cpp:16 | one getline call returns the text up to the next delimiter (or the end) and the position of that delimiter |
| Pattern.NextDelimSpec | SignatureScanner.cpp:16 | the text before the stop position holds no delimiter, and the stop is a delimiter unless it is the end |
| Pattern.SplitJoin | SignatureScanner.cpp:13-18 | splitting yields no token exactly for the empty string; the tokens joined by the delimiter, plus a trailing delimiter if any, give back the input |
| Pattern.SplitTokensClean | SignatureScanner.cpp:16 | no token contains the delimiter |
| Pattern.HexDigitValue | SignatureScanner.cpp:49 | a hex digit's value is below 16 |
| Pattern.FixedIndicesSpec | SignatureScanner.cpp:42-53 | the fixed offsets are exactly the positions of non-wildcard tokens, strictly ascending |
| Pattern.Parse | SignatureScanner.cpp:35-62 | the descriptor is well formed and its `sigSize` is the token count |
| Pattern.ParseShape | SignatureScanner.cpp:36-60 | `sigSize`, `|bytes|` and `|mask|` are the token count. Wildcards get byte 0 and mask 0; literals get their value and mask 1. `fixedIdx` holds exactly the literal positions, ascending. The anchor is present exactly when `fixedIdx` is non-empty; it is then its largest element and `anchorByte` is its byte |
| Pattern.ParsePattern | SignatureScanner.cpp:35-62 | the method builds exactly `Parse(pattern)` |
| Pattern.BuildSig | SignatureScanner.cpp:38-60 | the index loop that fills `bytes`, `mask` and `fixedIdx` and then sets the anchor yields `SigOf(parts)` |
| Matching.MatchFromSpec | SignatureScanner.cpp:64-69 | the early-exit loop over the fixed offsets from `j` succeeds iff every remaining fixed byte is equal |
| Matching.MatchAtSpec | SignatureScanner.cpp:64-69 | `matchAt` holds iff every fixed offset holds its byte |
| Matching.MatchAtMeansPattern | SignatureScanner.cpp:35-69 | `matchAt` on the parsed pattern holds iff every literal token `i` equals the byte at `p + i` |
| Matching.MatchAtTokens | SignatureScanner.cpp:64-69 | the same iff for any descriptor whose fixed offsets and bytes agree with a token list |
| Matching.MatchHasAnchor | SignatureScanner.cpp:159-162 | every match has the anchor byte at `p + anchor`, so searching for the anchor skips no match |
| Matching.MatchAtLocal | SignatureScanner.cpp:64-69 | `matchAt` at `p` reads only the bytes `p .. p + sigSize - 1` |
| Matching.FindAnchor | SignatureScanner.cpp:71-73 | a hit is the first position in `[cur, end)` holding the byte; no hit means no position in the range holds it |
| Matching.MatchesSpec | SignatureScanner.cpp:152-170 | the naive scan of `[lo, hi)` lists exactly the matching starts in the range, strictly ascending |
| Matching.MatchesSplit | SignatureScanner.cpp:152-170 | the naive scan of a range is the scan of its two halves, one after the other |
| Matching.MatchesAgree | SignatureScanner.cpp:154-155 | the naive scan depends only on the bytes its candidates cover |
| Matching.MatchesShift | SignatureScanner.cpp:200-217 | scanning a copy of memory moved by `d` yields the original hits moved by `d` (the buffer offset `cand - base` turned back into `cur + offset`) |
| Matching.MatchAtShift | SignatureScanner.cpp:200-217 | a match in the moved copy is a match at the original address |
| Matching.NoAnchorNoMatches | SignatureScanner.cpp:159-160 | when the anchor byte is absent from the anchor window there is no match, which is why the loop may stop when `findAnchor` fails |
| Matching.WildcardMatchesEverywhere | SignatureScanner.cpp:203-206 | with no fixed offset every start in the range matches, each once, in order |
| Matching.Select | SignatureScanner.cpp:162-165 | the `skips--` countdown finds a hit iff there are more than `skips` hits, and the hit it finds is one of them |
| Matching.SelectAppend | SignatureScanner.cpp:163-165 | counting down across two runs of hits: a hit in the first run, or the second run with the first run's length subtracted |
| Matching.SelectThrough | SignatureScanner.cpp:152-168 | once the countdown over one run of hits has ended, the countdown over that run followed by more hits ends on the same hit, or goes on into the rest with the skips left |
| Matching.SelectShift | SignatureScanner.cpp:215-217 | counting down over hits moved by `cur` gives the hit the countdown over the unmoved hits gives, moved by `cur`, and leaves the same remaining count |
| Matching.SearchAnchored | SignatureScanner.cpp:157-168 | the `p`/`findAnchor`/`matchAt` loop returns the (skips+1)-th start of the naive scan of `[base, last)`, or reports the hits it used up |
| Matching.SkipToCandidate | SignatureScanner.cpp:159-167 | when `findAnchor` jumps from `p` to candidate `cand`, the naive scan from `p` is `cand` (if it matches) followed by the scan from `cand + 1`: the jump skips no match |
| Matching.SelectAtCandidate | SignatureScanner.cpp:162-167 | one candidate step: a match with `skips` at 0 is the answer, a match otherwise costs one skip, a non-match costs none, and the countdown continues from `cand + 1` |
| Regions.EnumerateInRange | SignatureScanner.cpp:79-95 | every emitted region is non-empty and inside `[begin, end)`. Its start was queried and lies in the region the query returned, and that region is committed, readable and not a guard page |
| Regions.EnumerateAscending | SignatureScanner.cpp:79-95 | region starts strictly ascend |
| Regions.EnumerateDisjointWhenAligned | SignatureScanner.cpp:79-95 | when the query regions tile memory and `begin` is a region base, the emitted regions do not overlap |
| Regions.AlignedEndsAgree | SignatureScanner.cpp:81-82 | when the cursor is always at a region base, the code's end `rStart + RegionSize` equals `BaseAddress + RegionSize` |
| Regions.OvershootAsWritten | SignatureScanner.cpp:81-82 | as written, `begin` inside a region makes the first emitted region run past that region's end and overlap the next one |
| Regions.EnumerateFromBaseDisjoint | SignatureScanner.cpp:81-82 | with the end taken from the region base, every emitted region lies inside its queried region and the regions never overlap, for any `begin` |
| Regions.EnumerateStep | SignatureScanner.cpp:80-94 | one loop step emits at most one region and moves the cursor to `BaseAddress + RegionSize` |
| Regions.QueryReadableRegions | SignatureScanner.cpp:76-120 | the cursor loop returns `Enumerate(query, begin, end)`: clipped regions that are readable, inside the range and ascending |
| Scanner.Scan | SignatureScanner.cpp:134-171 | `scan` returns `ScanResult`. That is 0 for an empty pattern. For wildcards only, it is the start of the (skips+1)-th region at least `sigSize` long. Otherwise it is the (skips+1)-th naive match over the regions in order. In every case it is 0 when there are too few |
| Scanner.FirstLongRegion | SignatureScanner.cpp:138-145 | the wildcard-only loop returns the start of the (skips+1)-th long enough region, or 0 |
| Scanner.SearchRegions | SignatureScanner.cpp:148-170 | the anchored loop over the regions returns the (skips+1)-th naive match, regions shorter than the signature contributing none, or 0 |
| Scanner.SearchRegion | SignatureScanner.cpp:153-168 | one region: a region shorter than the signature yields nothing; otherwise the result is the anchored search over its starts `[reg.start, reg.end - sigSize]` |
| Scanner.RegionMatchesAt | SignatureScanner.cpp:152-153 | the naive scan over the regions from `i` on is region `i`'s hits followed by the rest |
| Scanner.LongRegionStartsAt | SignatureScanner.cpp:140-143 | the wildcard-only hits from region `i` on are region `i`'s start, if long enough, followed by the hits of the rest |
| Scanner.NextPageSpec | SignatureScanner.cpp:196 | the next page start is above `cur`, at most one page above, a multiple of the page size, and the smallest such multiple |
| Scanner.ToRead | SignatureScanner.cpp:191 | `toRead` is positive, never exceeds the bytes left or the buffer size `CHUNK + sigSize - 1`, and is one of the two |
| Scanner.RemoteSkipsPage | SignatureScanner.cpp:193-197 | a failed or short read moves the cursor strictly up to the next page boundary and counts nothing |
| Scanner.RemoteTakesWindow | SignatureScanner.cpp:199-226 | a good read of `n` bytes counts the window's hits and moves the cursor on by `n - (sigSize - 1)` |
| Scanner.RemoteSelectsWindow | SignatureScanner.cpp:199-226 | after a good read, a hit the window counts is the loop's hit; otherwise the countdown goes on from the next window with the skips left |
| Scanner.ReadAndSearch | SignatureScanner.cpp:193-222 | after a good read of `bytesRead` bytes at `cur`, the buffer's first `bytesRead` cells hold the snapshot bytes `cur ..`, the rest of the buffer is unchanged, and the window search returns the countdown over that window's hits |
| Scanner.CountOffsets | SignatureScanner.cpp:204-205 | the wildcard-only `cand <= last` loop returns the (skips+1)-th of the `last + 1` consecutive offsets, or reports them all used up |
| Scanner.ScanWindow | SignatureScanner.cpp:200-222 | scanning a window of bytes copied from `cur` finds the (skips+1)-th of the window's hits, as addresses `cur + offset` |
| Scanner.GoodRead | SignatureScanner.cpp:199-226 | after a good read the window search and the cursor advance keep the loop's countdown over the rest of the region, and the cursor strictly increases |
| Scanner.ScanRegionEx | SignatureScanner.cpp:185-230 | the read loop over one region `[start, end)` returns the countdown over `Remote(start, end)`, the hits its windows count, with failed reads skipping to the next page |
| Scanner.RegionEx | SignatureScanner.cpp:184-189 | one region of `scanEx`: a region shorter than the signature yields nothing; otherwise its read loop's countdown |
| Scanner.RemoteMatchesAt | SignatureScanner.cpp:184 | the window hits from region `i` on are region `i`'s hits followed by the rest |
| Scanner.ScanRegionsEx | SignatureScanner.cpp:184-232 | the loop over all regions returns the (skips+1)-th hit the windows count across the regions, or 0 |
| Scanner.ScanEx | SignatureScanner.cpp:173-233 | `scanEx` returns `ScanExResult`: 0 for an empty pattern or a null handle, else the (skips+1)-th address the window loop counts over the regions, or 0 |
| ScannerProperties.EmptyPatternFindsNothing | SignatureScanner.cpp:135-175 | the signature is empty exactly for the empty pattern, and then both scans return 0 |
| ScannerProperties.RegionMatchesMembers | SignatureScanner.cpp:148-170 | an address is a hit of the anchored scan iff it matches and the whole signature fits inside one region |
| ScannerProperties.RegionHitsMembers | SignatureScanner.cpp:153-168 | one region's hits are exactly its matching starts whose signature fits inside it, strictly ascending |
| ScannerProperties.RegionMatchesAscend | SignatureScanner.cpp:152-168 | over disjoint regions the anchored hits strictly ascend |
| ScannerProperties.LongRegionStartsAscend | SignatureScanner.cpp:140-143 | over regions with ascending starts, the wildcard-only hits strictly ascend |
| ScannerProperties.LongRegionStartsMembers | SignatureScanner.cpp:140-143 | every wildcard-only hit is the start of one of the regions |
| ScannerProperties.SelectNextAscends | SignatureScanner.cpp:162-165 | over ascending hits, the countdown with one more skip finds nothing or a higher address |
| ScannerProperties.ScanMonotoneInSkips | SignatureScanner.cpp:134-171 | over non-empty disjoint regions, raising `skips` by one gives a strictly higher address or 0 |
| ScannerProperties.ScanAlignedMonotone | SignatureScanner.cpp:134-171 | the same over enumerated regions when `begin` is a region base |
| ScannerProperties.ScanResultInRegion | SignatureScanner.cpp:148-170 | a non-zero anchored result is a start where `matchAt` holds (by `MatchAtMeansPattern`, every literal token is present there) and the whole signature fits inside one region |
| ScannerProperties.RemoteShortTail | SignatureScanner.cpp:188-197 | when every read succeeds, fewer than `sigSize` bytes left count nothing |
| ScannerProperties.WindowHitsAreMatches | SignatureScanner.cpp:201-221 | a window counts the naive matches among its candidates `cur .. cur + n - sigSize`; for wildcard-only patterns this holds only with the bound `cand < last` |
| ScannerProperties.RemoteFullWindow | SignatureScanner.cpp:191-226 | when every read succeeds, one window covers the candidates `cur .. next - 1` and the next window starts at `next`, so the windows' candidate ranges are contiguous and disjoint |
| ScannerProperties.RemoteFullReads | SignatureScanner.cpp:190-230 | when every read succeeds, the window loop over `[cur, end)` counts exactly the naive matches among the starts `cur .. end - sigSize`, each once, in order |
| ScannerProperties.RemoteRegionFullReads | SignatureScanner.cpp:184-230 | when every read succeeds, one region's window hits equal its naive hits |
| ScannerProperties.RemoteMatchesFullReads | SignatureScanner.cpp:184-231 | when every read succeeds, the window loop over every region equals the naive scan over every region |
| ScannerProperties.ScanExAgreesWithScan | SignatureScanner.cpp:148-170 | when every read succeeds, the handle is non-null and the pattern has a fixed byte, `scanEx` returns what `scan` returns over the same regions and bytes |
| ScannerProperties.WindowSound | SignatureScanner.cpp:200-221 | for a pattern with a fixed byte, or with the bound `cand < last`: the hits of one window of `n` bytes at `cur` strictly ascend, lie below the next window's start `cur + n - sigSize + 1`, match, and fit before the region's end |
| ScannerProperties.RemoteMembers | SignatureScanner.cpp:190-230 | for a pattern with a fixed byte, or with the bound `cand < last`, whatever reads fail: every address the read loop over `[cur, end)` counts is a start at or after `cur` where `matchAt` holds and the signature fits before `end` |
| ScannerProperties.RemoteAscending | SignatureScanner.cpp:190-230 | for a pattern with a fixed byte, or with the bound `cand < last`, whatever reads fail: the addresses the read loop over `[cur, end)` counts strictly ascend |
| ScannerProperties.RemoteRegionSound | SignatureScanner.cpp:184-230 | for a pattern with a fixed byte, or with the bound `cand < last`, whatever reads fail: one region's counted addresses are matches that fit inside it, strictly ascending |
| ScannerProperties.RemoteMatchesMembers | SignatureScanner.cpp:184-231 | for a pattern with a fixed byte, or with the bound `cand < last`, whatever reads fail: every address `scanEx` counts over the regions is one `scan`'s naive scan counts over the same regions, a match that fits inside one region |
| ScannerProperties.RemoteMatchesAscend | SignatureScanner.cpp:184-231 | for a pattern with a fixed byte, or with the bound `cand < last`, whatever reads fail: over disjoint regions the addresses `scanEx` counts strictly ascend |
| ScannerProperties.RemoteMatchesSubsequence | SignatureScanner.cpp:184-231 | for a pattern with a fixed byte, or with the bound `cand < last`, whatever reads fail: over disjoint regions the hits `scanEx` counts are a subsequence of the naive scan's hits, the same matches in the same order. They are all of them when every read succeeds (`RemoteMatchesFullReads`), and what a region loses lies in skipped partial pages (`RemoteRegionLosses`) |
| ScannerProperties.RemoteLosses | SignatureScanner.cpp:190-230 | for a pattern with a fixed byte, or with the bound `cand < last`, whatever reads fail: a match in `[cur, end)` that fits before `end` but is not counted starts in `[c, NextPage(c))` for a cursor `c` at or after `cur` whose read failed or returned fewer than `sigSize` bytes |
| ScannerProperties.RemoteRegionLosses | SignatureScanner.cpp:184-230 | for a pattern with a fixed byte, or with the bound `cand < last`, whatever reads fail: a naive hit of a region that its read loop does not count starts in the partial page `[c, NextPage(c))` skipped after a failed or short read at a cursor `c` inside the region |
| ScannerProperties.ScanExResultSound | SignatureScanner.cpp:173-233 | for a pattern with a fixed byte, whatever reads fail, a non-zero `scanEx` result is a start where `matchAt` holds and the whole signature lies inside one region |
| ScannerProperties.ScanExMonotoneInSkips | SignatureScanner.cpp:173-233 | for a pattern with a fixed byte over disjoint regions, whatever reads fail, raising `skips` by one gives 0 or a strictly higher address |
| ScannerProperties.WildcardWindowsCorrected | SignatureScanner.cpp:203-206 | with the bound `cand < last`, the wildcard-only window loop counts every start `start .. end - sigSize` of a region once, in order |
| ScannerProperties.OneWildcardParses | SignatureScanner.cpp:35-62 | the pattern `"?"` parses to `OneWildcard`: one wildcard byte, no anchor |
| ScannerProperties.WildcardOverrunAsWritten | SignatureScanner.cpp:201-206 | as written, for `"?"` (`OneWildcard`) over the 2-byte region at 0x1000, the wildcard loop also counts 0x1002, the region's end; `scanEx` with skips 2 returns it |
| ScannerProperties.WildcardHandOverCountedTwice | SignatureScanner.cpp:201-206 | as written, after two good reads in a row the wildcard-only loop counts the next window's first address twice, so `scanEx` over the region returns the same address for `skips` = `n - sigSize + 1` and one more |
| ScannerProperties.WildcardScansDiffer | SignatureScanner.cpp:138-145 | for `"?"` (`OneWildcard`) over one 2-byte region, `scan` counts the region once (skips 1 gives 0) while `scanEx` counts each position (skips 1 gives 0x1001) |

## Left out

- OS calls: `VirtualQuery`, `VirtualQueryEx`, `ReadProcessMemory` and `GetSystemInfo` are parameters with contracts, and `memchr` is the pure `FindAnchor`. Memory is a fixed snapshot. Memory that changes between enumeration and reading, and other threads, are not modelled.
- Raw `uint8_t*` arithmetic and `reinterpret_cast`: addresses are `nat`s and memory is a function from address to byte.
- Machine words: `uintptr_t` overflow in `rStart + RegionSize`, `BaseAddress + RegionSize` and `cur + dwPageSize` is not modelled, because addresses are unbounded.
- Scanner.Scan: `skips` is a `nat`. The source's `int skips` may start negative, and then the countdown never reaches 0; that case is not modelled.
- Scanner.ScanEx: `skips` is a `nat`, as for `scan`.
- Malformed tokens: every token must be a wildcard or one or two hex digits (`ValidPattern`). `std::stoul` accepts longer hex and truncates it through the byte cast, and it throws on empty or non-hex tokens. Empty tokens come from doubled spaces. None of this is modelled, and no exception is.
- Scanner.NextPage: the page rounding `(cur + ps) & ~(ps - 1)` is written as `((cur + ps) / ps) * ps`. The two agree when the page size is a power of two, which `GetSystemInfo` guarantees.
- The two enumerators `queryReadableRegions` and `queryReadableRegionsEx` are one method: they differ only in the query oracle, which is a parameter.
- The return value 0 stands both for "not found" and for a match at address 0, as in the source. The lemmas about hits therefore speak of `Select` outcomes or of non-zero results.
- Scanner.ReadAndSearch: the staging buffer is an `array` filled from the snapshot. `ReadProcessMemory`'s copy is a `forall` assignment over the bytes read, and whether it writes past `bytesRead` on a short read is not modelled.
- The constructors and the header are not modelled: they only assign fields. The scanner's `startAddress`, `endAddress` and `hProcess` are parameters of `Scan` and `ScanEx`.
- The dead branch `cur += bytesRead` (SignatureScanner.cpp:227-229) is an `assert false`. A good read already has `bytesRead >= sigSize`, so `bytesRead > sigSize - 1` always holds.

## Findings

| source | as written | input that shows it | evidently intended | confidence | as-written member | corrected member |
|---|---|---|---|---|---|---|
| SignatureScanner.cpp:81-82 | the region end is `rStart + RegionSize` with `rStart = max(addr, BaseAddress)` | `begin` = 0x2800 inside the region [0x2000, 0x3000), followed by the readable region [0x3000, 0x4000): the regions emitted are [0x2800, 0x3800) and [0x3000, 0x4000), which overlap and run past the first region | end at `BaseAddress + RegionSize`, so that emitted regions stay inside their region and never overlap | medium, not executed | Regions.OvershootAsWritten | Regions.EnumerateFromBaseDisjoint |
| SignatureScanner.cpp:201-206 | the wildcard-only window loop runs `cand <= last`, one offset past the last full window. That offset is the next window's first, so each hand-over between two good reads is counted twice (`ScannerProperties.WildcardHandOverCountedTwice`), and wildcard-only `scanEx` is not monotone in `skips` | pattern `"?"`, one readable 2-byte region at 0x1000, every read succeeding: the loop counts 0x1000, 0x1001 and 0x1002, so skips 2 returns 0x1002, the region's end | `cand < last`, as the anchored loop bounds its candidates, counting each start `start .. end - sigSize` once | high, not executed | ScannerProperties.WildcardOverrunAsWritten | ScannerProperties.WildcardWindowsCorrected |
