/**
 * The discovered-host list of `networkScanning`.
 *
 * `listMac` starts empty. For every captured packet that decodes, the link
 * layer's debug text goes through `extract_mac_addresses`. On success the
 * source MAC and then the destination MAC are pushed, each only when the list
 * does not already contain it. A receive error ends the loop.
 *
 * `Observed` is the specification of one update and `ObserveAll` of a run of
 * updates. `RecordHosts` is the guarded-push step written imperatively.
 * `NetworkScanning` is the capture loop over a given sequence of receive
 * events. The capture device, the frame decoder and the debug rendering are
 * outside the model: a decoded frame is represented by the text it renders to.
 */
module HostScan {
  import opened Wrappers
  import opened MacFormat
  import opened MacExtract

  /** No entry occurs twice. */
  predicate NoDup(s: seq<string>) {
    forall i, j :: 0 <= i < j < |s| ==> s[i] != s[j]
  }

  /** `if !list.contains(&a) { list.push(a) }`. */
  function Add(list: seq<string>, a: string): (r: seq<string>)
    ensures a in r
    ensures |list| <= |r| <= |list| + 1 && r[..|list|] == list
    ensures forall x :: x in r <==> x in list || x == a
    ensures a in list <==> |r| == |list|
    ensures NoDup(list) ==> NoDup(r)
  {
    if a in list then list else list + [a]
  }

  /** The list after one extraction result has been handled. */
  function Observed(list: seq<string>, r: Option<(string, string)>): (res: seq<string>)
    ensures r.None? ==> res == list
    ensures r.Some? ==> r.value.0 in res && r.value.1 in res
    ensures |list| <= |res| <= |list| + 2 && res[..|list|] == list
    ensures forall x :: x in res <==> x in list || (r.Some? && (x == r.value.0 || x == r.value.1))
    ensures NoDup(list) ==> NoDup(res)
    ensures r.Some? ==>
              res[|list|..] ==
              (if r.value.0 in list then [] else [r.value.0]) +
              (if r.value.1 in list || r.value.1 == r.value.0 then [] else [r.value.1])
  {
    match r
    case None => list
    case Some((src, dst)) => Add(Add(list, src), dst)
  }

  /** The list after a run of extraction results, handled first to last. */
  function ObserveAll(list: seq<string>, rs: seq<Option<(string, string)>>): seq<string>
  {
    if rs == [] then list
    else Observed(ObserveAll(list, rs[..|rs| - 1]), rs[|rs| - 1])
  }

  /** The addresses a result offers, source first. */
  function Offered(r: Option<(string, string)>): seq<string> {
    match r
    case None => []
    case Some((src, dst)) => [src, dst]
  }

  /** Every address the results offer, in the order they are offered. */
  function Flatten(rs: seq<Option<(string, string)>>): seq<string>
  {
    if rs == [] then [] else Flatten(rs[..|rs| - 1]) + Offered(rs[|rs| - 1])
  }

  /** Guarded pushes of a stream of addresses, one after the other. */
  function AddAll(list: seq<string>, s: seq<string>): seq<string>
  {
    if s == [] then list else Add(AddAll(list, s[..|s| - 1]), s[|s| - 1])
  }

  /** The position of the first occurrence of `x` in `s`. */
  function FirstIndex(s: seq<string>, x: string): (k: nat)
    requires x in s
    ensures k < |s| && s[k] == x && x !in s[..k]
  {
    if s[0] == x then 0
    else
      assert x in s[1..];
      1 + FirstIndex(s[1..], x)
  }

  /**
   * Lines 144-149 of `networkScanning` as they are written, on the list
   * `listMac`, for a result of `extract_mac_addresses`.
   */
  method RecordHosts(listMac: seq<string>, r: Option<(string, string)>) returns (updated: seq<string>)
    ensures updated == Observed(listMac, r)
  {
    updated := listMac;
    match r {
      case None =>
      case Some((src, dst)) =>
        if src !in updated {
          updated := updated + [src];
        }
        if dst !in updated {
          updated := updated + [dst];
        }
    }
  }

  /** What the capture yields: a frame the decoder accepts or rejects, or an error. */
  datatype Frame = Undecodable | Decoded(linkDebug: string)
  datatype Receive = Received(frame: Frame) | ReceiveError

  /** The extraction result for one frame; an undecodable frame yields none. */
  function Extracted(f: Frame): (r: Option<(string, string)>)
    ensures f.Undecodable? ==> r.None?
    ensures f.Decoded? && r.Some? ==> IsCanonical(r.value.0) && IsCanonical(r.value.1)
  {
    match f
    case Undecodable => None
    case Decoded(text) => ExtractMac(text)
  }

  /** The events the loop handles: those before the first receive error. */
  function Handled(events: seq<Receive>): (h: seq<Receive>)
    ensures |h| <= |events| && h == events[..|h|]
    ensures ReceiveError !in h
    ensures |h| < |events| ==> events[|h|] == ReceiveError
  {
    if events == [] || events[0] == ReceiveError then []
    else [events[0]] + Handled(events[1..])
  }

  /** The extraction results of handled events, in order. */
  function Results(events: seq<Receive>): seq<Option<(string, string)>>
    requires ReceiveError !in events
  {
    seq(|events|, k requires 0 <= k < |events| => Extracted(events[k].frame))
  }

  /**
   * The loop of `networkScanning` over the first events the capture delivers.
   * `stopped` tells whether a receive error ended it; when the events run out
   * first, `hosts` is the list so far.
   */
  method NetworkScanning(events: seq<Receive>) returns (hosts: seq<string>, stopped: bool)
    ensures stopped <==> ReceiveError in events
    ensures hosts == ObserveAll([], Results(Handled(events)))
    ensures NoDup(hosts)
  {
    var listMac: seq<string> := [];
    var i := 0;
    stopped := false;
    while i < |events|
      invariant 0 <= i <= |events|
      invariant ReceiveError !in events[..i]
      invariant listMac == ObserveAll([], Results(events[..i]))
      invariant NoDup(listMac)
      decreases |events| - i
    {
      match events[i] {
        case ReceiveError =>
          stopped := true;
          break;
        case Received(frame) =>
          listMac := RecordHosts(listMac, Extracted(frame));
      }
      assert events[..i + 1][..i] == events[..i];
      assert Results(events[..i + 1])[..i] == Results(events[..i]);
      i := i + 1;
    }
    HandledPrefix(events, i);
    hosts := listMac;
  }

  /** `Handled` is the prefix up to the first error. */
  lemma HandledPrefix(events: seq<Receive>, i: nat)
    requires i <= |events| && ReceiveError !in events[..i]
    requires i == |events| || events[i] == ReceiveError
    ensures Handled(events) == events[..i]
  {
  }

  /** Handling results never drops or reorders what was listed before. */
  lemma {:induction false} ObserveAllPrefix(list: seq<string>, rs: seq<Option<(string, string)>>)
    ensures |list| <= |ObserveAll(list, rs)| && ObserveAll(list, rs)[..|list|] == list
  {
    if rs != [] {
      ObserveAllPrefix(list, rs[..|rs| - 1]);
    }
  }

  /** A duplicate-free list stays duplicate-free. */
  lemma {:induction false} ObserveAllNoDup(list: seq<string>, rs: seq<Option<(string, string)>>)
    requires NoDup(list)
    ensures NoDup(ObserveAll(list, rs))
  {
    if rs != [] {
      ObserveAllNoDup(list, rs[..|rs| - 1]);
    }
  }

  /** Handling a run of results is pushing every offered address in turn. */
  lemma {:induction false} ObserveAllIsAddAll(list: seq<string>, rs: seq<Option<(string, string)>>)
    ensures ObserveAll(list, rs) == AddAll(list, Flatten(rs))
  {
    if rs != [] {
      var init, last := rs[..|rs| - 1], rs[|rs| - 1];
      ObserveAllIsAddAll(list, init);
      var l := AddAll(list, Flatten(init));
      match last
      case None =>
        assert Flatten(rs) == Flatten(init);
      case Some((src, dst)) =>
        var f := Flatten(init) + [src, dst];
        assert Flatten(rs) == f;
        assert f[..|f| - 1] == Flatten(init) + [src];
        assert (Flatten(init) + [src])[..|f| - 2] == Flatten(init);
    }
  }

  /** The list holds exactly what it held before and every offered address. */
  lemma {:induction false} AddAllMembers(list: seq<string>, s: seq<string>, x: string)
    ensures x in AddAll(list, s) <==> x in list || x in s
  {
    if s != [] {
      AddAllMembers(list, s[..|s| - 1], x);
      assert s == s[..|s| - 1] + [s[|s| - 1]];
    }
  }

  lemma ObserveAllMembers(list: seq<string>, rs: seq<Option<(string, string)>>, x: string)
    ensures x in ObserveAll(list, rs) <==> x in list || x in Flatten(rs)
  {
    ObserveAllIsAddAll(list, rs);
    AddAllMembers(list, Flatten(rs), x);
  }

  /** Pushing addresses the list already holds changes nothing. */
  lemma {:induction false} AddAllKnown(list: seq<string>, s: seq<string>)
    requires forall x :: x in s ==> x in list
    ensures AddAll(list, s) == list
  {
    if s != [] {
      assert forall x :: x in s[..|s| - 1] ==> x in s;
      AddAllKnown(list, s[..|s| - 1]);
    }
  }

  /** Handling the same results a second time changes nothing. */
  lemma ObserveAllIdempotent(list: seq<string>, rs: seq<Option<(string, string)>>)
    ensures ObserveAll(ObserveAll(list, rs), rs) == ObserveAll(list, rs)
  {
    var l := ObserveAll(list, rs);
    forall x | x in Flatten(rs) ensures x in l {
      ObserveAllMembers(list, rs, x);
    }
    ObserveAllIsAddAll(l, rs);
    AddAllKnown(l, Flatten(rs));
  }

  /** An occurrence in the prefix is the first occurrence in the whole. */
  lemma FirstIndexPrefix(s: seq<string>, t: seq<string>, x: string)
    requires x in s
    ensures x in s + t && FirstIndex(s + t, x) == FirstIndex(s, x)
  {
    var k, m := FirstIndex(s, x), FirstIndex(s + t, x);
    assert (s + t)[k] == x;
    if m < k {
      assert false;
    }
    if k < m {
      assert false;
    }
  }

  /** An address first seen at the very end of a stream. */
  lemma FirstIndexLast(s: seq<string>, x: string)
    requires x !in s
    ensures x in s + [x] && FirstIndex(s + [x], x) == |s|
  {
  }

  /** `h` lists addresses of `s` in the order of their first occurrence in `s`. */
  predicate FirstSeenOrder(s: seq<string>, h: seq<string>) {
    (forall x :: x in h ==> x in s) &&
    forall i, j :: 0 <= i < j < |h| ==> FirstIndex(s, h[i]) < FirstIndex(s, h[j])
  }

  /** Extending the stream leaves the first occurrences of listed addresses where they were. */
  lemma FirstSeenExtend(s: seq<string>, h: seq<string>, x: string)
    requires FirstSeenOrder(s, h)
    ensures forall y :: y in h ==> y in s + [x] && FirstIndex(s + [x], y) == FirstIndex(s, y)
  {
    forall y | y in h ensures y in s + [x] && FirstIndex(s + [x], y) == FirstIndex(s, y) {
      FirstIndexPrefix(s, [x], y);
    }
  }

  /** An address already listed: the list keeps its order. */
  lemma FirstSeenKnown(s: seq<string>, h: seq<string>, x: string)
    requires FirstSeenOrder(s, h) && x in h
    ensures FirstSeenOrder(s + [x], h)
  {
    FirstSeenExtend(s, h, x);
  }

  /** A new address goes last, after every address seen before it. */
  lemma FirstSeenNew(s: seq<string>, h: seq<string>, x: string)
    requires FirstSeenOrder(s, h) && x !in s
    ensures FirstSeenOrder(s + [x], h + [x])
  {
    FirstSeenExtend(s, h, x);
    FirstIndexLast(s, x);
    var s', h' := s + [x], h + [x];
    forall i, j | 0 <= i < j < |h'|
      ensures FirstIndex(s', h'[i]) < FirstIndex(s', h'[j])
    {
      assert h'[i] == h[i];
      if j < |h| {
        assert h'[j] == h[j];
      }
    }
  }

  /** One more guarded push keeps the first-seen order. */
  lemma FirstSeenStep(s: seq<string>, h: seq<string>, x: string)
    requires FirstSeenOrder(s, h)
    requires x in h <==> x in s
    ensures FirstSeenOrder(s + [x], Add(h, x))
  {
    if x in h {
      FirstSeenKnown(s, h, x);
    } else {
      FirstSeenNew(s, h, x);
    }
  }

  /**
   * Pushing a stream onto an empty list keeps the addresses in the order in
   * which they first occur in the stream.
   */
  lemma {:induction false} AddAllFirstSeen(s: seq<string>)
    ensures FirstSeenOrder(s, AddAll([], s))
  {
    if s != [] {
      var init, last := s[..|s| - 1], s[|s| - 1];
      assert s == init + [last];
      AddAllFirstSeen(init);
      AddAllMembers([], init, last);
      FirstSeenStep(init, AddAll([], init), last);
    }
  }

  /**
   * The host list that `networkScanning` builds is free of duplicates, holds
   * exactly the addresses the handled packets offered, and lists them in the
   * order in which they were first seen.
   */
  lemma HostsFirstSeen(rs: seq<Option<(string, string)>>)
    ensures NoDup(ObserveAll([], rs))
    ensures forall x :: x in ObserveAll([], rs) <==> x in Flatten(rs)
    ensures FirstSeenOrder(Flatten(rs), ObserveAll([], rs))
  {
    ObserveAllNoDup([], rs);
    forall x ensures x in ObserveAll([], rs) <==> x in Flatten(rs) {
      ObserveAllMembers([], rs, x);
    }
    ObserveAllIsAddAll([], rs);
    AddAllFirstSeen(Flatten(rs));
  }
}
