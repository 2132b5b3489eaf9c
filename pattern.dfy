/**
 * Pattern parser: the token splitter `splitString`, `isWildcardToken` and
 * `parsePattern`, which turns a text such as "48 8B ? ? 89" into a parsed
 * signature (expected bytes, mask, fixed offsets, size and anchor).
 */
module Pattern {
  import opened Types

  // ---------------------------------------------------------------------------
  // splitString: std::getline on a string stream, one token per delimiter
  // ---------------------------------------------------------------------------

  /** Position of the first delimiter at or after `k`, or the end of the text. */
  function NextDelim(s: string, delim: char, k: nat): (e: nat)
    requires k <= |s|
    ensures k <= e <= |s|
    decreases |s| - k
  {
    if k == |s| || s[k] == delim then k else NextDelim(s, delim, k + 1)
  }

  lemma {:induction false} NextDelimSpec(s: string, delim: char, k: nat)
    requires k <= |s|
    ensures forall j :: k <= j < NextDelim(s, delim, k) ==> s[j] != delim
    ensures NextDelim(s, delim, k) < |s| ==> s[NextDelim(s, delim, k)] == delim
    decreases |s| - k
  {
    if k < |s| && s[k] != delim {
      NextDelimSpec(s, delim, k + 1);
    }
  }

  /** A scan that stops at the first delimiter (or the end) has found NextDelim. */
  lemma NextDelimIs(s: string, delim: char, k: nat, e: nat)
    requires k <= e <= |s|
    requires forall j :: k <= j < e ==> s[j] != delim
    requires e < |s| ==> s[e] == delim
    ensures NextDelim(s, delim, k) == e
  {
    NextDelimSpec(s, delim, k);
  }

  /**
   * The tokens successive getline calls extract from position `k` on: each
   * call takes the characters up to the next delimiter and consumes it; a call
   * that starts at the end of the text fails, so a trailing delimiter yields
   * no empty last token.
   */
  function SplitFrom(s: string, delim: char, k: nat): seq<string>
    requires k <= |s|
    decreases |s| - k
  {
    if k == |s| then []
    else
      var e := NextDelim(s, delim, k);
      [s[k..e]] + (if e < |s| then SplitFrom(s, delim, e + 1) else [])
  }

  /** `splitString(str, delim)`. */
  function Split(s: string, delim: char): seq<string>
  {
    SplitFrom(s, delim, 0)
  }

  /** Tokens glued back together with one delimiter between neighbours. */
  function Join(tokens: seq<string>, delim: char): string
  {
    if tokens == [] then []
    else if |tokens| == 1 then tokens[0]
    else tokens[0] + [delim] + Join(tokens[1..], delim)
  }

  /** The delimiter that ends `s`, if any: getline consumes it without a token. */
  function Trail(s: string, delim: char): string
  {
    if s != [] && s[|s| - 1] == delim then [delim] else []
  }

  lemma JoinCons(t: string, rest: seq<string>, delim: char)
    requires rest != []
    ensures Join([t] + rest, delim) == t + [delim] + Join(rest, delim)
  {
    assert ([t] + rest)[1..] == rest;
  }

  lemma SliceAtDelim(s: string, delim: char, k: nat, e: nat)
    requires k <= e < |s| && s[e] == delim
    ensures s[k..e] + [delim] + s[e + 1..] == s[k..]
  {
  }

  lemma Glue(x: string, delim: char, j: string, t: string, rest: string, whole: string)
    requires j + t == rest
    requires x + [delim] + rest == whole
    ensures (x + [delim] + j) + t == whole
  {
  }

  /** A token ended by a delimiter is followed by the tokens after the delimiter. */
  lemma SplitFromCons(s: string, delim: char, k: nat)
    requires k < |s| && NextDelim(s, delim, k) < |s|
    ensures SplitFrom(s, delim, k) == [s[k..NextDelim(s, delim, k)]] + SplitFrom(s, delim, NextDelim(s, delim, k) + 1)
  {
  }

  /** Joining one more token in front puts it and a delimiter before the joined rest. */
  lemma JoinGlue(tokens: seq<string>, x: string, rest: seq<string>, delim: char, trail: string, tail: string, whole: string)
    requires tokens == [x] + rest && rest != []
    requires Join(rest, delim) + trail == tail
    requires x + [delim] + tail == whole
    ensures Join(tokens, delim) + trail == whole
  {
    JoinCons(x, rest, delim);
    Glue(x, delim, Join(rest, delim), trail, tail, whole);
  }

  /** A token followed by a delimiter and more text: the step case of SplitJoin. */
  lemma SplitJoinStep(s: string, delim: char, k: nat)
    requires k < |s| && NextDelim(s, delim, k) < |s| - 1
    requires SplitFrom(s, delim, NextDelim(s, delim, k) + 1) != []
    requires Join(SplitFrom(s, delim, NextDelim(s, delim, k) + 1), delim) + Trail(s, delim)
          == s[NextDelim(s, delim, k) + 1..]
    ensures Join(SplitFrom(s, delim, k), delim) + Trail(s, delim) == s[k..]
  {
    var e := NextDelim(s, delim, k);
    assert s[e] == delim by {
      NextDelimSpec(s, delim, k);
    }
    SplitFromCons(s, delim, k);
    SliceAtDelim(s, delim, k, e);
    JoinGlue(SplitFrom(s, delim, k), s[k..e], SplitFrom(s, delim, e + 1), delim, Trail(s, delim), s[e + 1..], s[k..]);
  }

  /**
   * Split and Join are inverse: a non-empty text has tokens, and joining them
   * gives the text back, up to the one trailing delimiter that getline
   * swallows.
   */
  lemma {:induction false} SplitFromJoin(s: string, delim: char, k: nat)
    requires k < |s|
    ensures SplitFrom(s, delim, k) != []
    ensures Join(SplitFrom(s, delim, k), delim) + Trail(s, delim) == s[k..]
    decreases |s| - k
  {
    var e := NextDelim(s, delim, k);
    NextDelimSpec(s, delim, k);
    if e < |s| - 1 {
      SplitFromJoin(s, delim, e + 1);
      SplitJoinStep(s, delim, k);
    } else if e == |s| - 1 {
      SliceAtDelim(s, delim, k, e);
    } else {
      assert s[|s| - 1] != delim;
    }
  }

  /** The empty text is the only one without tokens; otherwise joining the tokens restores the text. */
  lemma SplitJoin(s: string, delim: char)
    ensures Split(s, delim) == [] <==> s == []
    ensures Join(Split(s, delim), delim) + Trail(s, delim) == s
  {
    if s != [] {
      SplitFromJoin(s, delim, 0);
    }
  }

  /** No token holds the delimiter. */
  lemma {:induction false} SplitTokensClean(s: string, delim: char, k: nat)
    requires k <= |s|
    ensures forall t :: t in SplitFrom(s, delim, k) ==> delim !in t
    decreases |s| - k
  {
    if k < |s| {
      var e := NextDelim(s, delim, k);
      NextDelimSpec(s, delim, k);
      assert delim !in s[k..e] by {
        forall j | 0 <= j < e - k ensures s[k..e][j] != delim {
          assert s[k..e][j] == s[k + j];
        }
      }
      if e < |s| {
        SplitTokensClean(s, delim, e + 1);
      }
    }
  }

  lemma SliceExtend(s: string, a: nat, b: nat)
    requires a <= b < |s|
    ensures s[a..b] + [s[b]] == s[a..b + 1]
  {
  }

  /** One getline call: the token up to the delimiter found at `e`, then the tokens after it. */
  lemma SplitFromStep(s: string, delim: char, k: nat, e: nat, acc: seq<string>)
    requires k < |s| && e == NextDelim(s, delim, k)
    ensures acc + SplitFrom(s, delim, k)
         == (acc + [s[k..e]]) + SplitFrom(s, delim, if e < |s| then e + 1 else e)
  {
    var rest := SplitFrom(s, delim, if e < |s| then e + 1 else e);
    assert SplitFrom(s, delim, k) == [s[k..e]] + rest;
    assert acc + ([s[k..e]] + rest) == (acc + [s[k..e]]) + rest;
  }

  /**
   * One `std::getline(split, each, delim)` on a stream positioned at `start`:
   * the characters up to the next delimiter, and the position where they stop.
   */
  method GetLine(str: string, delim: char, start: nat) returns (each: string, pos: nat)
    requires start < |str|
    ensures pos == NextDelim(str, delim, start)
    ensures each == str[start..pos]
  {
    each := "";
    pos := start;
    while pos < |str| && str[pos] != delim
      invariant start <= pos <= |str|
      invariant each == str[start..pos]
      invariant forall j :: start <= j < pos ==> str[j] != delim
    {
      SliceExtend(str, start, pos);
      each := each + [str[pos]];
      pos := pos + 1;
    }
    NextDelimIs(str, delim, start, pos);
  }

  /** The imperative splitter: one getline call per token, pushed onto the result. */
  method SplitString(str: string, delim: char) returns (retVal: seq<string>)
    ensures retVal == Split(str, delim)
  {
    retVal := [];
    var pos := 0;
    while pos < |str|
      invariant 0 <= pos <= |str|
      invariant retVal + SplitFrom(str, delim, pos) == Split(str, delim)
      decreases |str| - pos
    {
      var start := pos;
      var each;
      each, pos := GetLine(str, delim, start);
      ghost var next := if pos < |str| then pos + 1 else pos;
      assert retVal + SplitFrom(str, delim, start) == (retVal + [each]) + SplitFrom(str, delim, next) by {
        SplitFromStep(str, delim, start, pos, retVal);
      }
      if pos < |str| {
        pos := pos + 1;  // getline consumes the delimiter
      }
      retVal := retVal + [each];
    }
  }

  // ---------------------------------------------------------------------------
  // Tokens
  // ---------------------------------------------------------------------------

  /** `?` and `??` stand for a byte of any value. */
  predicate IsWildcardToken(s: string)
  {
    s == "?" || s == "??"
  }

  predicate IsHexDigit(c: char)
  {
    '0' <= c <= '9' || 'a' <= c <= 'f' || 'A' <= c <= 'F'
  }

  function HexDigitValue(c: char): (v: nat)
    requires IsHexDigit(c)
    ensures v < 16
  {
    if '0' <= c <= '9' then c as int - '0' as int
    else if 'a' <= c <= 'f' then c as int - 'a' as int + 10
    else c as int - 'A' as int + 10
  }

  /** One or two hexadecimal digits, the literals `std::stoul(tok, nullptr, 16)` reads without truncation. */
  predicate IsByteLiteral(s: string)
  {
    1 <= |s| <= 2 && forall c :: c in s ==> IsHexDigit(c)
  }

  predicate ValidToken(s: string)
  {
    IsWildcardToken(s) || IsByteLiteral(s)
  }

  /** The byte a literal token stands for. */
  function HexValue(s: string): byte
    requires IsByteLiteral(s)
  {
    if |s| == 1 then HexDigitValue(s[0]) as byte
    else (HexDigitValue(s[0]) * 16 + HexDigitValue(s[1])) as byte
  }

  /** The value stored in `bytes` for a token: 0 for a wildcard. */
  function TokenByte(t: string): byte
    requires ValidToken(t)
  {
    if IsWildcardToken(t) then 0 else HexValue(t)
  }

  /** A pattern whose every space-separated token is a wildcard or a byte literal. */
  ghost predicate ValidPattern(pattern: string)
  {
    var tokens := Split(pattern, ' ');
    forall i {:trigger tokens[i]} :: 0 <= i < |tokens| ==> ValidToken(tokens[i])
  }

  // ---------------------------------------------------------------------------
  // Parsed signature
  // ---------------------------------------------------------------------------

  /** `ParsedSig`. `anchorByte` keeps its zero default when there is no anchor. */
  datatype ParsedSig = ParsedSig(
    bytes: seq<byte>,
    mask: seq<byte>,
    fixedIdx: seq<nat>,
    sigSize: nat,
    anchorIdx: Option<nat>,
    anchorByte: byte)

  /** What every parsed signature satisfies and what the matcher relies on. */
  predicate WellFormed(ps: ParsedSig)
  {
    && |ps.bytes| == ps.sigSize
    && |ps.mask| == ps.sigSize
    && (forall j :: 0 <= j < |ps.fixedIdx| ==> ps.fixedIdx[j] < ps.sigSize)
    && Ascending(ps.fixedIdx)
    && (ps.anchorIdx.Some? <==> |ps.fixedIdx| > 0)
    && (ps.anchorIdx.Some? ==>
          ps.anchorIdx.value == ps.fixedIdx[|ps.fixedIdx| - 1]
          && ps.anchorByte == ps.bytes[ps.anchorIdx.value])
  }

  /** Indices below `n` whose token is not a wildcard, collected in the order `parsePattern` pushes them. */
  function FixedIndices(tokens: seq<string>, n: nat): seq<nat>
    requires n <= |tokens|
  {
    if n == 0 then []
    else FixedIndices(tokens, n - 1) + (if IsWildcardToken(tokens[n - 1]) then [] else [n - 1])
  }

  /** The fixed offsets are exactly the non-wildcard positions, in strictly ascending order. */
  lemma {:induction false} FixedIndicesSpec(tokens: seq<string>, n: nat)
    requires n <= |tokens|
    ensures forall x: nat :: x in FixedIndices(tokens, n) <==> x < n && !IsWildcardToken(tokens[x])
    ensures Ascending(FixedIndices(tokens, n))
  {
    if n > 0 {
      FixedIndicesSpec(tokens, n - 1);
      var prev := FixedIndices(tokens, n - 1);
      assert forall i :: 0 <= i < |prev| ==> prev[i] in prev;
    }
  }

  /** The expected byte per position: the literal's value, 0 under a wildcard. */
  function ByteVector(tokens: seq<string>): (v: seq<byte>)
    requires forall i {:trigger tokens[i]} :: 0 <= i < |tokens| ==> ValidToken(tokens[i])
  {
    seq(|tokens|, i requires 0 <= i < |tokens| => TokenByte(tokens[i]))
  }

  /** The mask per position: 1 under a literal, 0 under a wildcard. */
  function MaskVector(tokens: seq<string>): (v: seq<byte>)
  {
    seq(|tokens|, i requires 0 <= i < |tokens| => if IsWildcardToken(tokens[i]) then 0 else 1)
  }

  /** The signature a sequence of valid tokens describes. */
  function SigOf(tokens: seq<string>): (ps: ParsedSig)
    requires forall i {:trigger tokens[i]} :: 0 <= i < |tokens| ==> ValidToken(tokens[i])
    ensures WellFormed(ps)
    ensures ps.sigSize == |tokens|
  {
    var fixed := FixedIndices(tokens, |tokens|);
    FixedIndicesSpec(tokens, |tokens|);
    var bytes := ByteVector(tokens);
    var mask := MaskVector(tokens);
    if fixed == [] then ParsedSig(bytes, mask, fixed, |tokens|, None, 0)
    else
      assert fixed[|fixed| - 1] in fixed;
      ParsedSig(bytes, mask, fixed, |tokens|, Some(fixed[|fixed| - 1]), bytes[fixed[|fixed| - 1]])
  }

  /** The signature `parsePattern` builds from a pattern text. */
  function Parse(pattern: string): (ps: ParsedSig)
    requires ValidPattern(pattern)
    ensures WellFormed(ps)
    ensures ps.sigSize == |Split(pattern, ' ')|
  {
    SigOf(Split(pattern, ' '))
  }

  /**
   * What `parsePattern` promises: one byte and one mask entry per token;
   * wildcards store byte 0 and mask 0, literals their value and mask 1; the
   * fixed offsets are exactly the literal positions, ascending; the anchor is
   * present exactly when some offset is fixed, it is the largest fixed offset
   * and its byte is the expected byte there.
   */
  lemma ParseShape(pattern: string)
    requires ValidPattern(pattern)
    ensures var tokens := Split(pattern, ' '); var ps := Parse(pattern);
      && ps.sigSize == |tokens| == |ps.bytes| == |ps.mask|
      && (forall i :: 0 <= i < |tokens| && IsWildcardToken(tokens[i]) ==> ps.bytes[i] == 0 && ps.mask[i] == 0)
      && (forall i :: 0 <= i < |tokens| && !IsWildcardToken(tokens[i]) ==>
            IsByteLiteral(tokens[i]) && ps.bytes[i] == HexValue(tokens[i]) && ps.mask[i] == 1)
      && (forall x: nat :: x in ps.fixedIdx <==> x < |tokens| && !IsWildcardToken(tokens[x]))
      && Ascending(ps.fixedIdx)
      && (ps.anchorIdx.Some? <==> ps.fixedIdx != [])
      && (ps.anchorIdx.Some? ==>
            (forall x :: x in ps.fixedIdx ==> x <= ps.anchorIdx.value)
            && ps.anchorIdx.value in ps.fixedIdx
            && ps.anchorByte == ps.bytes[ps.anchorIdx.value])
  {
    var tokens := Split(pattern, ' ');
    FixedIndicesSpec(tokens, |tokens|);
  }

  /**
   * `parsePattern`: split on single spaces, then build the signature from the
   * tokens.
   */
  method ParsePattern(pattern: string) returns (ps: ParsedSig)
    requires ValidPattern(pattern)
    ensures ps == Parse(pattern)
  {
    var parts := SplitString(pattern, ' ');
    ps := BuildSig(parts);
  }

  /**
   * The body of `parsePattern` after the split: size the byte and mask vectors
   * to the token count, fill them position by position, push each fixed
   * offset, and take the last fixed offset as the anchor.
   */
  method BuildSig(parts: seq<string>) returns (ps: ParsedSig)
    requires forall i {:trigger parts[i]} :: 0 <= i < |parts| ==> ValidToken(parts[i])
    ensures ps == SigOf(parts)
  {
    var bytes: seq<byte> := seq(|parts|, _ => 0);
    var mask: seq<byte> := seq(|parts|, _ => 0);
    var fixedIdx: seq<nat> := [];
    for i := 0 to |parts|
      invariant |bytes| == |parts| && |mask| == |parts|
      invariant forall j :: 0 <= j < i ==> bytes[j] == TokenByte(parts[j])
      invariant forall j :: 0 <= j < i ==> mask[j] == if IsWildcardToken(parts[j]) then 0 else 1
      invariant fixedIdx == FixedIndices(parts, i)
    {
      var tok := parts[i];
      if IsWildcardToken(tok) {
        bytes := bytes[i := 0];
        mask := mask[i := 0];
      } else {
        bytes := bytes[i := HexValue(tok)];
        mask := mask[i := 1];
        fixedIdx := fixedIdx + [i];
      }
    }
    assert bytes == ByteVector(parts);
    assert mask == MaskVector(parts);
    var anchorIdx: Option<nat> := None;
    var anchorByte: byte := 0;
    if fixedIdx != [] {
      FixedIndicesSpec(parts, |parts|);
      assert fixedIdx[|fixedIdx| - 1] in fixedIdx;
      anchorIdx := Some(fixedIdx[|fixedIdx| - 1]);
      anchorByte := bytes[anchorIdx.value];
    }
    ps := ParsedSig(bytes, mask, fixedIdx, |parts|, anchorIdx, anchorByte);
  }
}
