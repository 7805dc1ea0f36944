/** Where requests served one after the other by first fit fall, as a function of the table they start from. */
module Placement {
  import opened HeapTable

  /** The block a request for n blocks gets; -1 when there is no run for it. */
  ghost function Fit(t: seq<bv8>, n: nat): int {
    if HasRun(t, n) then FirstFit(t, n) else -1
  }

  /** The table after requests of so many blocks each, in order. */
  ghost function Served(t: seq<bv8>, counts: seq<nat>): (u: seq<bv8>)
    ensures |u| == |t|
  {
    if counts == [] then t
    else
      var u, n := Served(t, counts[..|counts| - 1]), counts[|counts| - 1];
      if HasRun(u, n) then Take(u, FirstFit(u, n), n) else u
  }

  /** The block request k gets. */
  ghost function PlaceOf(t: seq<bv8>, counts: seq<nat>, k: nat): int
    requires k < |counts|
  {
    Fit(Served(t, counts[..k]), counts[k])
  }

  function Sum(counts: seq<nat>): nat {
    if counts == [] then 0 else Sum(counts[..|counts| - 1]) + counts[|counts| - 1]
  }

  function Ones(n: nat): (counts: seq<nat>)
    ensures |counts| == n && forall k :: 0 <= k < n ==> counts[k] == 1
  {
    seq(n, _ => 1)
  }

  /** t is t0 after these requests, and they got these blocks. */
  ghost predicate FirstFits(t0: seq<bv8>, t: seq<bv8>, counts: seq<nat>, got: seq<nat>) {
    && |got| == |counts| && t == Served(t0, counts)
    && forall k :: 0 <= k < |got| ==> got[k] == PlaceOf(t0, counts, k)
  }

  lemma FitNext(t0: seq<bv8>, t: seq<bv8>, counts: seq<nat>, got: seq<nat>, n: nat)
    requires FirstFits(t0, t, counts, got) && HasRun(t, n)
    ensures FirstFits(t0, Take(t, FirstFit(t, n), n), counts + [n], got + [FirstFit(t, n)])
  {
    var more := counts + [n];
    assert more[..|counts|] == counts;
    forall k | 0 <= k < |counts|
      ensures PlaceOf(t0, more, k) == PlaceOf(t0, counts, k)
    {
      assert more[..k] == counts[..k];
    }
  }

  lemma {:induction false} ServedTwice(t: seq<bv8>, a: seq<nat>, b: seq<nat>)
    ensures Served(t, a + b) == Served(Served(t, a), b)
    decreases |b|
  {
    if b == [] {
      assert a + b == a;
    } else {
      var rest := b[..|b| - 1];
      ServedTwice(t, a, rest);
      assert (a + b)[..|a + b| - 1] == a + rest;
    }
  }

  /** Requests after requests. */
  lemma FitsJoin(t0: seq<bv8>, tm: seq<bv8>, t: seq<bv8>, a: seq<nat>, got: seq<nat>, b: seq<nat>, got': seq<nat>)
    requires FirstFits(t0, tm, a, got) && FirstFits(tm, t, b, got')
    ensures FirstFits(t0, t, a + b, got + got')
  {
    ServedTwice(t0, a, b);
    forall k | 0 <= k < |a + b|
      ensures (got + got')[k] == PlaceOf(t0, a + b, k)
    {
      if k < |a| {
        assert (a + b)[..k] == a[..k];
      } else {
        ServedTwice(t0, a, b[..k - |a|]);
        assert (a + b)[..k] == a + b[..k - |a|];
      }
    }
  }

  /** In a first gap that has room for them the requests fall one behind the other. */
  lemma {:induction false} ServedInGap(t: seq<bv8>, counts: seq<nat>, g: nat, e: nat)
    requires Gap(t, g, e) && g + Sum(counts) <= e && forall k :: 0 <= k < |counts| ==> counts[k] >= 1
    ensures Gap(Served(t, counts), g + Sum(counts), e)
    ensures forall k :: 0 <= k < |counts| ==> PlaceOf(t, counts, k) == g + Sum(counts[..k])
    decreases |counts|
  {
    if counts != [] {
      var rest, n := counts[..|counts| - 1], counts[|counts| - 1];
      ServedInGap(t, rest, g, e);
      FirstFitInGap(Served(t, rest), g + Sum(rest), e, n);
      forall k | 0 <= k < |counts|
        ensures PlaceOf(t, counts, k) == g + Sum(counts[..k])
      {
        if k < |rest| {
          assert counts[..k] == rest[..k];
          assert PlaceOf(t, rest, k) == g + Sum(rest[..k]);
        }
      }
    }
  }

  /** Serving requests frees nothing. */
  lemma {:induction false} ServedFrees(t: seq<bv8>, counts: seq<nat>, b: nat)
    requires b < |t| && IsFree(Served(t, counts)[b])
    ensures IsFree(t[b])
    decreases |counts|
  {
    if counts != [] {
      var u, n := Served(t, counts[..|counts| - 1]), counts[|counts| - 1];
      if HasRun(u, n) && FirstFit(u, n) <= b < FirstFit(u, n) + n {
        FlagFacts(b - FirstFit(u, n), n);
      }
      ServedFrees(t, counts[..|counts| - 1], b);
    }
  }

  /** What a request gets was free all along. */
  lemma PlaceWasFree(t: seq<bv8>, counts: seq<nat>, k: nat, x: nat)
    requires k < |counts| && 0 <= PlaceOf(t, counts, k) <= x < PlaceOf(t, counts, k) + counts[k]
    ensures x < |t| && IsFree(t[x])
  {
    var u := Served(t, counts[..k]);
    assert RunAt(u, FirstFit(u, counts[k]), counts[k]);
    ServedFrees(t, counts[..k], x);
  }
}
