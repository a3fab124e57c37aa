/**
 * `extract_mac_addresses`: find the first occurrence of
 *   source: [(\d+, \d+, \d+, \d+, \d+, \d+)], destination: [(\d+, \d+, \d+, \d+, \d+, \d+)]
 * in a text and format both captured groups with `format_mac`.
 *
 * The regular expression is written out as a matcher. Each `\d+` is greedy and
 * is always followed by ',' or ']', neither a digit, so the maximal run of
 * digits is the only way it can match; the pattern has no alternation, so a
 * match at a given position is unique and "the first match" is the match at
 * the smallest position. `\d` is read as the ASCII digits '0'..'9' (the Rust
 * class also admits other Unicode decimal digits).
 */
module MacExtract {
  import opened Wrappers
  import opened Text
  import opened MacFormat

  const SourceLit: string := "source: ["
  const DestLit: string := "], destination: ["
  const CloseLit: string := "]"

  /** `t` holds `lit` at position `i`. */
  predicate StartsWith(t: string, i: nat, lit: string) {
    i + |lit| <= |t| && t[i..i + |lit|] == lit
  }

  /** `n` numbers of one or more digits separated by ", ": \d+(, \d+){n-1}. */
  predicate IsNumberList(g: string, n: nat) {
    |Split(g)| == n && forall k :: 0 <= k < n ==> IsDigits(Split(g)[k])
  }

  /** One capture group of the pattern: six numbers. */
  predicate IsGroup(g: string) {
    IsNumberList(g, 6)
  }

  /**
   * The pattern, stated declaratively: `t` holds, from position `i` on, the
   * prefix text, a group `g1`, the middle text, a group `g2` and the closing
   * bracket, one after the other.
   */
  predicate MatchesAt(t: string, i: nat, g1: string, g2: string) {
    var a := i + |SourceLit|;
    var b := a + |g1| + |DestLit|;
    IsGroup(g1) && IsGroup(g2) &&
    StartsWith(t, i, SourceLit) && StartsWith(t, a, g1) &&
    StartsWith(t, a + |g1|, DestLit) && StartsWith(t, b, g2) &&
    StartsWith(t, b + |g2|, CloseLit)
  }

  /** The length of the run of digits starting at `i` (the greedy `\d+`, 0 when there is none). */
  function DigitRun(t: string, i: nat): (n: nat)
    requires i <= |t|
    ensures i + n <= |t|
    decreases |t| - i
  {
    if i < |t| && IsDigit(t[i]) then 1 + DigitRun(t, i + 1) else 0
  }

  /** `DigitRun` is maximal: what it covers is digits and what follows is not a digit. */
  lemma {:induction false} DigitRunMaximal(t: string, i: nat)
    requires i <= |t|
    ensures AllDigits(t[i..i + DigitRun(t, i)])
    ensures i + DigitRun(t, i) < |t| ==> !IsDigit(t[i + DigitRun(t, i)])
    decreases |t| - i
  {
    if i < |t| && IsDigit(t[i]) {
      DigitRunMaximal(t, i + 1);
      var n := DigitRun(t, i);
      assert t[i..i + n] == [t[i]] + t[i + 1..i + n];
    }
  }

  /** Matches \d+(, \d+){n-1} at `i` and returns where the match ends. */
  function MatchNumbers(t: string, i: nat, n: nat): (r: Option<nat>)
    requires i <= |t| && n >= 1
    ensures r.Some? ==> i < r.value <= |t|
    decreases n
  {
    var j := i + DigitRun(t, i);
    if j == i then None
    else if n == 1 then Some(j)
    else if IsSepAt(t, j) then MatchNumbers(t, j + 2, n - 1)
    else None
  }

  /** The regular expression anchored at `i`: the two captured groups, if it matches there. */
  function MatchAt(t: string, i: nat): Option<(string, string)>
  {
    if !StartsWith(t, i, SourceLit) then None
    else
      var a := i + |SourceLit|;
      match MatchNumbers(t, a, 6)
      case None => None
      case Some(j) => if StartsWith(t, j, DestLit) then MatchSecond(t, a, j) else None
  }

  /** The rest of the pattern once the first group `t[a..j]` and the middle text have matched. */
  function MatchSecond(t: string, a: nat, j: nat): Option<(string, string)>
    requires a <= j && j + |DestLit| <= |t|
  {
    var b := j + |DestLit|;
    match MatchNumbers(t, b, 6)
    case None => None
    case Some(e) => if e < |t| && t[e] == ']' then Some((t[a..j], t[b..e])) else None
  }

  /** A match found by the search: where it starts and its two groups. */
  datatype Match = Match(start: nat, src: string, dst: string)

  /** `re.captures(text)`: the match at the smallest position `>= i`, if any. */
  function FirstMatch(t: string, i: nat): (r: Option<Match>)
    ensures r.Some? ==> i <= r.value.start && MatchAt(t, r.value.start) == Some((r.value.src, r.value.dst))
    ensures r.Some? ==> forall j :: i <= j < r.value.start ==> MatchAt(t, j).None?
    ensures r.None? ==> forall j :: i <= j ==> MatchAt(t, j).None?
    decreases |t| - i
  {
    if i >= |t| then
      NoMatchPastEnd(t, i);
      None
    else match MatchAt(t, i)
      case Some((g1, g2)) => Some(Match(i, g1, g2))
      case None => FirstMatch(t, i + 1)
  }

  /** No match starts at or after the end of the text. */
  lemma NoMatchPastEnd(t: string, i: nat)
    requires i >= |t|
    ensures forall j :: i <= j ==> MatchAt(t, j).None?
  {
    assert forall j :: i <= j ==> !StartsWith(t, j, SourceLit);
  }

  /** `extract_mac_addresses(text)`. */
  function ExtractMac(text: string): (r: Option<(string, string)>)
    ensures r.Some? ==> IsCanonical(r.value.0) && IsCanonical(r.value.1)
  {
    match FirstMatch(text, 0)
    case None => None
    case Some(m) =>
      match FormatMac(m.src)
      case None => None
      case Some(src) =>
        match FormatMac(m.dst)
        case None => None
        case Some(dst) => Some((src, dst))
  }

  // ---------------------------------------------------------------------
  // The matcher agrees with the pattern
  // ---------------------------------------------------------------------

  lemma StartsWithConcat(t: string, i: nat, x: string, y: string)
    ensures StartsWith(t, i, x + y) <==> StartsWith(t, i, x) && StartsWith(t, i + |x|, y)
  {
    if StartsWith(t, i, x) && StartsWith(t, i + |x|, y) {
      assert t[i..i + |x + y|] == t[i..i + |x|] + t[i + |x|..i + |x| + |y|];
    }
    if StartsWith(t, i, x + y) {
      assert t[i..i + |x|] == (x + y)[..|x|];
      assert t[i + |x|..i + |x| + |y|] == (x + y)[|x|..];
    }
  }

  /** A run of `m` digits ended by a non-digit (or the end of the text) is what `DigitRun` finds. */
  lemma {:induction false} DigitRunExact(t: string, i: nat, m: nat)
    requires i + m <= |t| && AllDigits(t[i..i + m])
    requires i + m < |t| ==> !IsDigit(t[i + m])
    ensures DigitRun(t, i) == m
    decreases m
  {
    if m > 0 {
      assert t[i] == t[i..i + m][0];
      assert t[i + 1..i + m] == t[i..i + m][1..];
      DigitRunExact(t, i + 1, m - 1);
    }
  }

  /** What `MatchNumbers` consumes is a list of `n` numbers, and no digit follows it. */
  lemma {:induction false} MatchNumbersSound(t: string, i: nat, n: nat, j: nat)
    requires i <= |t| && n >= 1
    requires MatchNumbers(t, i, n) == Some(j)
    ensures i <= j <= |t|
    ensures IsNumberList(t[i..j], n)
    ensures j < |t| ==> !IsDigit(t[j])
    decreases n
  {
    var j0 := i + DigitRun(t, i);
    var p0 := t[i..j0];
    DigitRunMaximal(t, i);
    if n == 1 {
      NumberListSingle(p0);
    } else {
      MatchNumbersSound(t, j0 + 2, n - 1, j);
      NumberListOfSlices(t, i, j0, j, n - 1);
    }
  }

  /** One number is a list of one number. */
  lemma NumberListSingle(p: string)
    requires IsDigits(p)
    ensures IsNumberList(p, 1)
  {
    SplitNoComma(p);
  }

  /** A number, ", " and a list of `n` numbers make a list of `n + 1` numbers. */
  lemma NumberListBuild(p: string, g: string, n: nat)
    requires IsDigits(p) && IsNumberList(g, n)
    ensures IsNumberList(p + Sep + g, n + 1)
  {
    SplitCons(p, g);
    var r := Split(p + Sep + g);
    assert r == [p] + Split(g);
    assert forall k :: 1 <= k < n + 1 ==> r[k] == Split(g)[k - 1];
  }

  /** `NumberListBuild` on three adjacent slices of a text. */
  lemma NumberListOfSlices(t: string, i: nat, j0: nat, j: nat, n: nat)
    requires i <= j0 && j0 + 2 <= j <= |t|
    requires IsDigits(t[i..j0]) && IsSepAt(t, j0) && IsNumberList(t[j0 + 2..j], n)
    ensures IsNumberList(t[i..j], n + 1)
  {
    assert t[j0..j0 + 2] == Sep;
    SliceConcat(t, i, j0, j0 + 2);
    SliceConcat(t, i, j0 + 2, j);
    NumberListBuild(t[i..j0], t[j0 + 2..j], n);
  }

  /** A text holding `g` at `i` holds every prefix of `g` at `i` and the rest right after it. */
  lemma StartsWithSplit(t: string, i: nat, g: string, k: nat)
    requires StartsWith(t, i, g) && k <= |g|
    ensures StartsWith(t, i, g[..k]) && StartsWith(t, i + k, g[k..])
  {
    assert t[i..i + k] == t[i..i + |g|][..k];
    assert t[i + k..i + |g|] == t[i..i + |g|][k..];
  }

  /** A text holding `p + ", " + rest` at `i` holds `p`, a ',' after it, the separator, and `rest` after that. */
  lemma StartsWithSep(t: string, i: nat, g: string, k: nat)
    requires StartsWith(t, i, g) && k + 2 <= |g| && g[k..][..2] == Sep
    ensures StartsWith(t, i, g[..k]) && i + k < |t| && t[i + k] == ','
    ensures IsSepAt(t, i + k) && StartsWith(t, i + k + 2, g[k + 2..])
  {
    StartsWithSplit(t, i, g, k);
    var tail := g[k..];
    assert t[i + k] == tail[0];
    StartsWithSplit(t, i + k, tail, 2);
    assert tail[2..] == g[k + 2..];
    assert t[i + k + 1] == t[i + k..i + k + 2][1];
  }

  /** Digits standing at `i` and followed by a non-digit are what `DigitRun` finds. */
  lemma DigitRunOf(t: string, i: nat, p: string)
    requires StartsWith(t, i, p) && AllDigits(p)
    requires i + |p| < |t| && !IsDigit(t[i + |p|])
    ensures DigitRun(t, i) == |p|
  {
    DigitRunExact(t, i, |p|);
  }

  /** A list of one number is that number. */
  lemma NumberListOne(g: string)
    requires IsNumberList(g, 1)
    ensures IsDigits(g)
  {
    SplitSeveral(g);
    assert Split(g) == [g];
    assert IsDigits(Split(g)[0]);
  }

  /** A list of `n >= 2` numbers is a number, then ", ", then a list of `n - 1` numbers. */
  lemma NumberListCons(g: string, n: nat)
    requires n >= 2 && IsNumberList(g, n)
    ensures SepIndex(g, 0) < |g|
    ensures IsDigits(g[..SepIndex(g, 0)]) && g[SepIndex(g, 0)] == ','
    ensures g[SepIndex(g, 0)..][..2] == Sep
    ensures IsNumberList(g[SepIndex(g, 0) + 2..], n - 1)
  {
    SplitSeveral(g);
    SplitFirst(g);
    assert IsDigits(Split(g)[0]);
    SepSlice(g, SepIndex(g, 0));
    NumberListTail(g, n);
  }

  /** The separator read as a slice. */
  lemma SepSlice(g: string, k: nat)
    requires IsSepAt(g, k)
    ensures g[k..][..2] == Sep
  {
    assert g[k..][..2] == [g[k], g[k + 1]];
  }

  /** What follows the first separator of a list of `n` numbers is a list of `n - 1`. */
  lemma NumberListTail(g: string, n: nat)
    requires n >= 2 && IsNumberList(g, n) && SepIndex(g, 0) < |g|
    ensures IsNumberList(g[SepIndex(g, 0) + 2..], n - 1)
  {
    SplitFirst(g);
    var rest := g[SepIndex(g, 0) + 2..];
    assert forall m :: 0 <= m < n - 1 ==> Split(rest)[m] == Split(g)[1..][m];
  }

  /** A list of `n` numbers standing at `i`, followed by a non-digit, is exactly what `MatchNumbers` consumes. */
  lemma {:induction false} MatchNumbersComplete(t: string, i: nat, g: string, n: nat)
    requires n >= 1 && IsNumberList(g, n)
    requires StartsWith(t, i, g) && i + |g| < |t| && !IsDigit(t[i + |g|])
    ensures MatchNumbers(t, i, n) == Some(i + |g|)
    decreases n
  {
    if n == 1 {
      NumberListOne(g);
      DigitRunOf(t, i, g);
    } else {
      NumberListCons(g, n);
      var k := SepIndex(g, 0);
      StartsWithSep(t, i, g, k);
      DigitRunOf(t, i, g[..k]);
      MatchNumbersComplete(t, i + k + 2, g[k + 2..], n - 1);
    }
  }

  /** Where a successful `MatchAt` found its first group and its middle text. */
  lemma MatchAtFirst(t: string, i: nat, g1: string, g2: string) returns (j: nat)
    requires MatchAt(t, i) == Some((g1, g2))
    ensures StartsWith(t, i, SourceLit) && i + |SourceLit| <= j && j + |DestLit| <= |t|
    ensures MatchNumbers(t, i + |SourceLit|, 6) == Some(j) && StartsWith(t, j, DestLit)
    ensures MatchSecond(t, i + |SourceLit|, j) == Some((g1, g2))
    ensures IsGroup(t[i + |SourceLit|..j])
  {
    j := MatchNumbers(t, i + |SourceLit|, 6).value;
    MatchNumbersSound(t, i + |SourceLit|, 6, j);
  }

  /** Where a successful `MatchSecond` found its second group and the closing bracket. */
  lemma MatchSecondEnd(t: string, a: nat, j: nat, g1: string, g2: string) returns (e: nat)
    requires a <= j && j + |DestLit| <= |t|
    requires MatchSecond(t, a, j) == Some((g1, g2))
    ensures j + |DestLit| <= e <= |t|
    ensures MatchNumbers(t, j + |DestLit|, 6) == Some(e) && StartsWith(t, e, CloseLit)
    ensures g1 == t[a..j] && g2 == t[j + |DestLit|..e]
    ensures IsGroup(g2)
  {
    e := MatchNumbers(t, j + |DestLit|, 6).value;
    MatchNumbersSound(t, j + |DestLit|, 6, e);
    CloseAt(t, e);
  }

  /** A ']' is the closing literal. */
  lemma CloseAt(t: string, e: nat)
    requires e < |t| && t[e] == ']'
    ensures StartsWith(t, e, CloseLit)
  {
    assert t[e..e + 1] == [t[e]];
  }

  /** Every result of the matcher is a match of the pattern. */
  lemma MatchAtSound(t: string, i: nat, g1: string, g2: string)
    requires MatchAt(t, i) == Some((g1, g2))
    ensures MatchesAt(t, i, g1, g2)
  {
    var j := MatchAtFirst(t, i, g1, g2);
    var e := MatchSecondEnd(t, i + |SourceLit|, j, g1, g2);
    MatchesAtSlices(t, i, j, e);
  }

  /** The pattern's five parts laid out at known positions, with the groups read off the text. */
  lemma MatchesAtSlices(t: string, i: nat, j: nat, e: nat)
    requires i + |SourceLit| <= j && j + |DestLit| <= e <= |t|
    requires StartsWith(t, i, SourceLit) && StartsWith(t, j, DestLit) && StartsWith(t, e, CloseLit)
    requires IsGroup(t[i + |SourceLit|..j]) && IsGroup(t[j + |DestLit|..e])
    ensures MatchesAt(t, i, t[i + |SourceLit|..j], t[j + |DestLit|..e])
  {
  }

  /** Every match of the pattern is found by the matcher, with the same groups. */
  lemma MatchAtComplete(t: string, i: nat, g1: string, g2: string)
    requires MatchesAt(t, i, g1, g2)
    ensures MatchAt(t, i) == Some((g1, g2))
  {
    var a := i + |SourceLit|;
    var j := a + |g1|;
    var b := j + |DestLit|;
    var e := b + |g2|;
    LiteralHead(t, j, DestLit);
    LiteralHead(t, e, CloseLit);
    MatchNumbersComplete(t, a, g1, 6);
    MatchNumbersComplete(t, b, g2, 6);
    MatchAtOfParts(t, i, j, e);
  }

  /** The first character of a literal standing at `i`. */
  lemma LiteralHead(t: string, i: nat, lit: string)
    requires |lit| > 0 && StartsWith(t, i, lit)
    ensures i < |t| && t[i] == lit[0]
  {
    assert t[i] == t[i..i + |lit|][0];
  }

  /** The matcher succeeds once both groups are consumed and both literals found. */
  lemma MatchAtOfParts(t: string, i: nat, j: nat, e: nat)
    requires StartsWith(t, i, SourceLit) && i + |SourceLit| <= j
    requires MatchNumbers(t, i + |SourceLit|, 6) == Some(j) && StartsWith(t, j, DestLit)
    requires MatchNumbers(t, j + |DestLit|, 6) == Some(e) && e < |t| && t[e] == ']'
    ensures MatchAt(t, i) == Some((t[i + |SourceLit|..j], t[j + |DestLit|..e]))
  {
  }

  /** The pattern as one text: the match is the concatenation of its five parts. */
  lemma MatchesAtText(t: string, i: nat, g1: string, g2: string)
    ensures MatchesAt(t, i, g1, g2) <==>
              IsGroup(g1) && IsGroup(g2) && StartsWith(t, i, SourceLit + g1 + DestLit + g2 + CloseLit)
  {
    StartsWithConcat(t, i, SourceLit + g1 + DestLit + g2, CloseLit);
    StartsWithConcat(t, i, SourceLit + g1 + DestLit, g2);
    StartsWithConcat(t, i, SourceLit + g1, DestLit);
    StartsWithConcat(t, i, SourceLit, g1);
  }

  /** Hence a match at a given position is unique. */
  lemma MatchUnique(t: string, i: nat, g1: string, g2: string, h1: string, h2: string)
    requires MatchesAt(t, i, g1, g2) && MatchesAt(t, i, h1, h2)
    ensures g1 == h1 && g2 == h2
  {
    MatchAtComplete(t, i, g1, g2);
    MatchAtComplete(t, i, h1, h2);
  }

  // ---------------------------------------------------------------------
  // extract_mac_addresses
  // ---------------------------------------------------------------------

  /** The search finds something exactly when some position of the text starts a match. */
  lemma FirstMatchExists(t: string)
    ensures FirstMatch(t, 0).None? <==> forall i, g1, g2 :: !MatchesAt(t, i, g1, g2)
  {
    if FirstMatch(t, 0).Some? {
      var m := FirstMatch(t, 0).value;
      MatchAtSound(t, m.start, m.src, m.dst);
    }
    forall i, g1, g2 | MatchesAt(t, i, g1, g2)
      ensures FirstMatch(t, 0).Some?
    {
      MatchAtComplete(t, i, g1, g2);
    }
  }

  /** No occurrence of the pattern anywhere: no addresses. */
  lemma ExtractNoMatch(t: string)
    requires forall i, g1, g2 :: !MatchesAt(t, i, g1, g2)
    ensures ExtractMac(t) == None
  {
    FirstMatchExists(t);
  }

  /** A group of six numbers formats exactly when none of the numbers exceeds 255. */
  lemma FormatMacOfGroup(g: string)
    requires IsGroup(g)
    ensures FormatMac(g).Some? <==> forall k :: 0 <= k < 6 ==> DecValue(Split(g)[k]) <= 255
  {
    forall k | 0 <= k < 6
      ensures ParseU8(Split(g)[k]).Some? <==> DecValue(Split(g)[k]) <= 255
    {
      var p := Split(g)[k];
      assert IsDigits(p);
      assert p[0] != '+';
      assert ParseU8(p) == ParseUnsigned(p);
      assert ParseUnsigned(p).Some? <==> DecValue(p) < 256;
    }
    assert |Split(g)| == 6;
  }

  /** The search stops at the leftmost match of the pattern. */
  lemma FirstMatchLeftmost(t: string, i: nat, g1: string, g2: string)
    requires MatchesAt(t, i, g1, g2)
    requires forall j, h1, h2 :: 0 <= j < i ==> !MatchesAt(t, j, h1, h2)
    ensures FirstMatch(t, 0) == Some(Match(i, g1, g2))
  {
    MatchAtComplete(t, i, g1, g2);
    var m := FirstMatch(t, 0).value;
    if m.start < i {
      MatchAtSound(t, m.start, m.src, m.dst);
      assert false;
    }
    assert m.start == i;
    assert Some((m.src, m.dst)) == Some((g1, g2));
  }

  /**
   * The leftmost match decides: the result is the formatted pair of its two
   * groups, and it is `None` exactly when some captured number exceeds 255.
   */
  lemma ExtractLeftmost(t: string, i: nat, g1: string, g2: string)
    requires MatchesAt(t, i, g1, g2)
    requires forall j, h1, h2 :: 0 <= j < i ==> !MatchesAt(t, j, h1, h2)
    ensures ExtractMac(t) ==
              if FormatMac(g1).Some? && FormatMac(g2).Some?
              then Some((FormatMac(g1).value, FormatMac(g2).value))
              else None
    ensures ExtractMac(t).None? <==>
              exists k :: 0 <= k < 6 && (DecValue(Split(g1)[k]) > 255 || DecValue(Split(g2)[k]) > 255)
  {
    FirstMatchLeftmost(t, i, g1, g2);
    FormatMacOfGroup(g1);
    FormatMacOfGroup(g2);
  }

  /** The `Debug` list of six octets is a capture group. */
  lemma DebugListIsGroup(bytes: seq<Byte>)
    requires |bytes| == 6
    ensures IsGroup(DebugList(bytes))
  {
    var pieces := seq(|bytes|, k requires 0 <= k < |bytes| => Decimal(bytes[k]));
    SplitJoin(pieces);
  }

  /** A text whose character at `j` differs from the first of `lit` does not hold `lit` at `j`. */
  lemma LiteralHeadDiffers(t: string, j: nat, lit: string)
    requires |lit| > 0 && j < |t| && t[j] != lit[0]
    ensures !StartsWith(t, j, lit)
  {
    if j + |lit| <= |t| {
      assert t[j..j + |lit|][0] == t[j];
    }
  }

  /**
   * A text holding the rendering of a link header with octets `src` and
   * `dst`, after any preamble without a lower-case 's' (a type or variant
   * name such as "Ethernet2Header { "), and followed by anything, yields the
   * canonical forms of exactly those addresses.
   */
  lemma ExtractFromRendering(p: string, src: seq<Byte>, dst: seq<Byte>, rest: string)
    requires 's' !in p && |src| == 6 && |dst| == 6
    ensures ExtractMac(p + SourceLit + DebugList(src) + DestLit + DebugList(dst) + CloseLit + rest)
            == Some((Canonical(src), Canonical(dst)))
  {
    var g1, g2 := DebugList(src), DebugList(dst);
    var lit := SourceLit + g1 + DestLit + g2 + CloseLit;
    Regroup(p, SourceLit, g1, DestLit, g2, CloseLit, rest);
    var t := p + lit + rest;
    DebugListIsGroup(src);
    DebugListIsGroup(dst);
    StartsWithMiddle(p, lit, rest);
    MatchesAtText(t, |p|, g1, g2);
    PreambleNoMatch(t, p);
    ExtractLeftmost(t, |p|, g1, g2);
    FormatMacOfDebugList(src);
    FormatMacOfDebugList(dst);
  }

  /** Concatenation regrouped around the middle five parts. */
  lemma Regroup(p: string, a: string, b: string, c: string, d: string, e: string, rest: string)
    ensures p + a + b + c + d + e + rest == p + (a + b + c + d + e) + rest
  {
  }

  /** The middle part of a concatenation stands at the end of the first. */
  lemma StartsWithMiddle(p: string, m: string, rest: string)
    ensures StartsWith(p + m + rest, |p|, m)
  {
    assert (p + m + rest)[|p|..|p| + |m|] == m;
  }

  /** A preamble without 's' holds no start of a match. */
  lemma PreambleNoMatch(t: string, p: string)
    requires 's' !in p && |p| <= |t| && t[..|p|] == p
    ensures forall j, h1, h2 :: 0 <= j < |p| ==> !MatchesAt(t, j, h1, h2)
  {
    forall j | 0 <= j < |p|
      ensures !StartsWith(t, j, SourceLit)
    {
      assert t[j] == t[..|p|][j];
      LiteralHeadDiffers(t, j, SourceLit);
    }
  }
}
