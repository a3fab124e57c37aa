/**
 * The two string utilities `format_mac` relies on: `str::split` with the
 * separator ", " and `join` of a list of strings with a separator.
 */
module Text {

  /** The separator `format_mac` splits on. */
  const Sep: string := ", "

  /** True when `s` contains no comma at all (so it cannot contain ", "). */
  predicate NoComma(s: string) {
    forall i :: 0 <= i < |s| ==> s[i] != ','
  }

  /** The separator starts at index `m` of `s`. */
  predicate IsSepAt(s: string, m: nat) {
    m + 1 < |s| && s[m] == ',' && s[m + 1] == ' '
  }

  /** The smallest index `k >= i` at which ", " starts in `s`, or `|s|` when there is none. */
  function SepIndex(s: string, i: nat): (k: nat)
    requires i <= |s|
    ensures i <= k <= |s|
    ensures k < |s| ==> IsSepAt(s, k)
    ensures forall m :: i <= m < k ==> !IsSepAt(s, m)
    decreases |s| - i
  {
    if i + 2 > |s| then |s|
    else if IsSepAt(s, i) then i
    else SepIndex(s, i + 1)
  }

  /**
   * `s.split(", ")`: the pieces between successive leftmost occurrences of the
   * separator. The separator cannot overlap itself, so scanning for the first
   * occurrence and continuing after it is exactly Rust's search. An empty
   * string gives one empty piece.
   */
  function Split(s: string): (r: seq<string>)
    ensures |r| >= 1
    decreases |s|
  {
    var k := SepIndex(s, 0);
    if k == |s| then [s] else [s[..k]] + Split(s[k + 2..])
  }

  /** `pieces.join(sep)`. */
  function Join(pieces: seq<string>, sep: string): string
  {
    if |pieces| == 0 then ""
    else if |pieces| == 1 then pieces[0]
    else pieces[0] + sep + Join(pieces[1..], sep)
  }

  /** A comma-free head is a piece of its own. */
  lemma SplitCons(p: string, rest: string)
    requires NoComma(p)
    ensures Split(p + Sep + rest) == [p] + Split(rest)
  {
    var s := p + Sep + rest;
    var k := SepIndex(s, 0);
    assert IsSepAt(s, |p|);
    assert forall m :: 0 <= m < |p| ==> s[m] == p[m] && !IsSepAt(s, m);
    assert k == |p|;
    assert s[..k] == p;
    assert s[k + 2..] == rest;
  }

  /** A separator anywhere gives at least two pieces. */
  lemma SplitSeveral(s: string)
    ensures SepIndex(s, 0) < |s| ==> |Split(s)| >= 2
  {
  }

  /** The first piece ends at the first separator; the rest is split again. */
  lemma SplitFirst(s: string)
    requires SepIndex(s, 0) < |s|
    ensures IsSepAt(s, SepIndex(s, 0))
    ensures Split(s)[0] == s[..SepIndex(s, 0)]
    ensures Split(s)[1..] == Split(s[SepIndex(s, 0) + 2..])
  {
  }

  /** A comma-free string is not split at all. */
  lemma SplitNoComma(p: string)
    requires NoComma(p)
    ensures Split(p) == [p]
  {
    assert forall m :: 0 <= m < |p| ==> !IsSepAt(p, m);
    assert SepIndex(p, 0) == |p|;
  }

  /** Splitting loses nothing: joining the pieces again gives back the input. */
  lemma {:induction false} JoinSplit(s: string)
    ensures Join(Split(s), Sep) == s
    decreases |s|
  {
    var k := SepIndex(s, 0);
    if k < |s| {
      var rest := s[k + 2..];
      JoinSplit(rest);
      assert Split(s) == [s[..k]] + Split(rest);
      assert Join(Split(s), Sep) == s[..k] + Sep + Join(Split(rest), Sep);
      assert s == s[..k] + Sep + rest;
    }
  }

  /** Joining comma-free pieces and splitting again gives back the pieces. */
  lemma {:induction false} SplitJoin(pieces: seq<string>)
    requires |pieces| >= 1
    requires forall i :: 0 <= i < |pieces| ==> NoComma(pieces[i])
    ensures Split(Join(pieces, Sep)) == pieces
    decreases |pieces|
  {
    if |pieces| == 1 {
      SplitNoComma(pieces[0]);
    } else {
      SplitJoin(pieces[1..]);
      SplitCons(pieces[0], Join(pieces[1..], Sep));
      assert pieces == [pieces[0]] + pieces[1..];
    }
  }

  /** Adjacent slices concatenate. */
  lemma SliceConcat(s: string, a: nat, b: nat, c: nat)
    requires a <= b <= c <= |s|
    ensures s[a..c] == s[a..b] + s[b..c]
  {
  }
}
