/** strtok of the user library: a tokenizer that remembers where it stopped and cuts its buffer in place. */
module Strtok {
  import opened Words
  import opened CStrings

  // -- What the tokens of a string are -----------------------------------------------------------

  /** The characters b[start..end]. */
  datatype Run = Run(start: nat, end: nat)

  /** Some NUL lies at p or after it. */
  ghost predicate Terminated(b: seq<byte>, p: nat) {
    exists z: nat :: EndsAt(b, p, z)
  }

  ghost predicate EndsAt(b: seq<byte>, p: nat, z: nat) {
    p <= z < |b| && b[z] == NUL
  }

  /** A maximal delimiter-free run of the string at p. */
  ghost predicate IsMaximalRun(b: seq<byte>, p: nat, d: seq<byte>, r: Run) {
    && p <= r.start < r.end < |b|
    && NUL !in b[p..r.end]
    && (forall i :: r.start <= i < r.end ==> b[i] !in d)
    && (r.start == p || b[r.start - 1] in d)
    && (b[r.end] == NUL || b[r.end] in d)
  }

  /** First position from p on that holds no delimiter. */
  function SkipFrom(b: seq<byte>, d: seq<byte>, p: nat): (k: nat)
    requires p <= |b|
    ensures p <= k <= |b| && (k < |b| ==> b[k] !in d)
    ensures forall j :: p <= j < k ==> b[j] in d
    decreases |b| - p
  {
    if p < |b| && b[p] in d then SkipFrom(b, d, p + 1) else p
  }

  /** First position from p on that holds a delimiter or the terminator. */
  function BreakFrom(b: seq<byte>, d: seq<byte>, p: nat): (k: nat)
    requires p <= |b|
    ensures p <= k <= |b| && (k < |b| ==> b[k] in d || b[k] == NUL)
    ensures forall j :: p <= j < k ==> b[j] !in d && b[j] != NUL
    decreases |b| - p
  {
    if p < |b| && b[p] !in d && b[p] != NUL then BreakFrom(b, d, p + 1) else p
  }

  /** Where scanning goes on after a token that ends at e. */
  function PastBreak(b: seq<byte>, e: nat): (q: nat)
    ensures e <= q <= e + 1
  {
    if e < |b| && b[e] != NUL then e + 1 else e
  }

  lemma InsideString(b: seq<byte>, d: seq<byte>, p: nat)
    requires NUL !in d && Terminated(b, p)
    ensures p < |b|
    ensures var k := SkipFrom(b, d, p);
            var e := BreakFrom(b, d, k);
            && e < |b| && Terminated(b, k) && Terminated(b, PastBreak(b, e)) && (b[k] != NUL ==> k < e)
  {
    var z: nat :| EndsAt(b, p, z);
    var k := SkipFrom(b, d, p);
    assert EndsAt(b, k, z);
    var e := BreakFrom(b, d, k);
    assert EndsAt(b, PastBreak(b, e), z);
  }

  /** The runs of the string at p, first to last. */
  ghost function Runs(b: seq<byte>, d: seq<byte>, p: nat): seq<Run>
    requires NUL !in d && Terminated(b, p)
    decreases |b| - p
  {
    InsideString(b, d, p);
    var k := SkipFrom(b, d, p);
    if b[k] == NUL then []
    else
      var e := BreakFrom(b, d, k);
      [Run(k, e)] + Runs(b, d, PastBreak(b, e))
  }

  /** Runs lists all maximal runs, each once, left to right. */
  lemma {:induction false} RunsAreMaximal(b: seq<byte>, d: seq<byte>, p: nat)
    requires NUL !in d && Terminated(b, p)
    ensures forall r :: r in Runs(b, d, p) <==> IsMaximalRun(b, p, d, r)
    ensures forall i, j :: 0 <= i < j < |Runs(b, d, p)| ==> Runs(b, d, p)[i].end < Runs(b, d, p)[j].start
    decreases |b| - p
  {
    InsideString(b, d, p);
    var k := SkipFrom(b, d, p);
    var rs := Runs(b, d, p);
    if b[k] == NUL {
      forall r
        ensures !IsMaximalRun(b, p, d, r)
      {
        if IsMaximalRun(b, p, d, r) {
          NoRunBefore(b, p, d, r);
        }
      }
    } else {
      var e := BreakFrom(b, d, k);
      var q := PastBreak(b, e);
      var rest := Runs(b, d, q);
      RunsAreMaximal(b, d, q);
      forall r
        ensures r in rs <==> IsMaximalRun(b, p, d, r)
      {
        assert r in rs <==> r == Run(k, e) || r in rest;
        FirstRun(b, p, d, r);
      }
      forall i, j | 0 <= i < j < |rs|
        ensures rs[i].end < rs[j].start
      {
        assert rs[j] == rest[j - 1] && rest[j - 1] in rest;
        NoTerminator(b, q, rest[j - 1].end);
      }
    }
  }

  lemma NoRunBefore(b: seq<byte>, p: nat, d: seq<byte>, r: Run)
    requires p <= |b| && IsMaximalRun(b, p, d, r)
    ensures SkipFrom(b, d, p) <= r.start && b[SkipFrom(b, d, p)] != NUL
  {
    assert b[r.start] !in d;
    var k := SkipFrom(b, d, p);
    assert b[p..r.end][k - p] == b[k];
  }

  lemma NoTerminator(b: seq<byte>, lo: nat, hi: nat)
    requires lo <= hi <= |b|
    ensures NUL !in b[lo..hi] <==> forall i :: lo <= i < hi ==> b[i] != NUL
  {
    assert forall i :: lo <= i < hi ==> b[lo..hi][i - lo] == b[i];
  }

  /** A maximal run is the first one or a maximal run of what follows it. */
  lemma FirstRun(b: seq<byte>, p: nat, d: seq<byte>, r: Run)
    requires NUL !in d && Terminated(b, p) && b[SkipFrom(b, d, p)] != NUL
    ensures var k := SkipFrom(b, d, p);
            var e := BreakFrom(b, d, k);
            IsMaximalRun(b, p, d, r) <==> r == Run(k, e) || IsMaximalRun(b, PastBreak(b, e), d, r)
  {
    InsideString(b, d, p);
    var k := SkipFrom(b, d, p);
    var e := BreakFrom(b, d, k);
    assert forall i :: p <= i < e ==> b[i] != NUL;
    NoTerminator(b, p, e);
    if IsMaximalRun(b, p, d, r) && r.start != k {
      LaterMaximalRun(b, p, d, r);
    }
    if IsMaximalRun(b, p, d, r) && r.start == k {
      NoTerminator(b, p, r.end);
      assert r.end == e;
    }
    if IsMaximalRun(b, PastBreak(b, e), d, r) {
      EarlierMaximalRun(b, p, e, d, r);
    }
  }

  /** A maximal run of what follows a token is one of the whole string. */
  lemma EarlierMaximalRun(b: seq<byte>, p: nat, e: nat, d: seq<byte>, r: Run)
    requires p <= e < |b| && NUL !in b[p..e] && (b[e] in d || b[e] == NUL) && IsMaximalRun(b, PastBreak(b, e), d, r)
    ensures IsMaximalRun(b, p, d, r)
  {
    NoTerminator(b, PastBreak(b, e), r.end);
    NoTerminator(b, p, e);
    NoTerminator(b, p, r.end);
    assert b[e] != NUL;
  }

  lemma LaterMaximalRun(b: seq<byte>, p: nat, d: seq<byte>, r: Run)
    requires NUL !in d && Terminated(b, p) && IsMaximalRun(b, p, d, r) && r.start != SkipFrom(b, d, p)
    ensures IsMaximalRun(b, PastBreak(b, BreakFrom(b, d, SkipFrom(b, d, p))), d, r)
  {
    InsideString(b, d, p);
    var e := BreakFrom(b, d, SkipFrom(b, d, p));
    NoRunBefore(b, p, d, r);
    NoTerminator(b, p, r.end);
    assert b[r.start - 1] in d;
    assert e < r.start;
    NoTerminator(b, PastBreak(b, e), r.end);
  }

  // -- One call ----------------------------------------------------------------------------------

  /** A char pointer into the buffer being cut, or NULL. */
  datatype Pointer = Null | At(index: nat)

  /** The buffer, the saved pointer and the returned pointer after a call. */
  datatype Result = Result(buffer: seq<byte>, sp: Pointer, token: Pointer)

  ghost predicate Ready(r: Result) {
    r.sp.At? ==> Terminated(r.buffer, r.sp.index)
  }

  /** The call that starts scanning at p. */
  ghost function Scan(b: seq<byte>, d: seq<byte>, p: nat): (r: Result)
    requires NUL !in d && Terminated(b, p)
    ensures Ready(r)
  {
    InsideString(b, d, p);
    var k := SkipFrom(b, d, p);
    if b[k] == NUL then Result(b, Null, Null)
    else
      var e := BreakFrom(b, d, k);
      RestTerminated(b, e);
      Result(b[e := NUL], At(PastBreak(b, e)), At(k))
  }

  /** Writing NUL where a token ends leaves what follows terminated. */
  lemma RestTerminated(b: seq<byte>, e: nat)
    requires e < |b| && Terminated(b, PastBreak(b, e))
    ensures Terminated(b[e := NUL], PastBreak(b, e))
  {
    var z: nat :| EndsAt(b, PastBreak(b, e), z);
    assert EndsAt(b[e := NUL], PastBreak(b, e), z);
  }

  /** The global `sp` of strtok, and the buffer it points into. */
  class Tokenizer {
    var buffer: array<byte>
    var sp: Pointer

    constructor (buffer: array<byte>)
      ensures this.buffer == buffer && sp == Null
    {
      this.buffer := buffer;
      sp := Null;
    }

    ghost predicate Valid()
      reads this, buffer
    {
      sp.At? ==> Terminated(buffer[..], sp.index)
    }

    /** strtok(str, delimiters). */
    method Strtok(str: array?<byte>, delimiters: seq<byte>) returns (token: Pointer)
      requires NUL !in delimiters
      requires if str == null then Valid() else Terminated(str[..], 0)
      modifies this, if str == null then {buffer} else {str}
      ensures Valid() && buffer == if str == null then old(buffer) else str
      ensures str == null && old(sp) == Null ==>
                token == Null && sp == Null && buffer[..] == old(buffer[..])
      ensures str == null && old(sp) != Null ==>
                Result(buffer[..], sp, token) == Scan(old(buffer[..]), delimiters, old(sp.index))
      ensures str != null ==>
                Result(buffer[..], sp, token) == Scan(old(str[..]), delimiters, 0)
    {
      if str == null && sp == Null {
        return Null;
      }
      if str != null {
        buffer := str;
        sp := At(0);
      }
      token := ScanOn(delimiters);
    }

    /** The inner loops: is c one of the delimiters? */
    method Among(c: byte, delimiters: seq<byte>) returns (found: bool)
      ensures found <==> c in delimiters
    {
      var i := 0;
      while i < |delimiters|
        invariant 0 <= i <= |delimiters|
        invariant c !in delimiters[..i]
      {
        if c == delimiters[i] {
          return true;
        }
        i := i + 1;
      }
      found := false;
    }

    method ScanOn(delimiters: seq<byte>) returns (token: Pointer)
      requires NUL !in delimiters && sp.At? && Valid()
      modifies this`sp, buffer
      ensures Valid()
      ensures Result(buffer[..], sp, token) == Scan(old(buffer[..]), delimiters, old(sp.index))
    {
      InsideString(buffer[..], delimiters, sp.index);
      var start := SkipDelimiters(sp.index, delimiters);
      sp := At(start);
      if buffer[start] == NUL {
        sp := Null;
        return Null;
      }
      CutToken(delimiters);
      token := At(start);
    }

    method SkipDelimiters(from: nat, delimiters: seq<byte>) returns (start: nat)
      requires NUL !in delimiters && Terminated(buffer[..], from)
      ensures start == SkipFrom(buffer[..], delimiters, from)
    {
      start := from;
      InsideString(buffer[..], delimiters, from);
      var more := Among(buffer[start], delimiters);
      while more
        invariant from <= start < buffer.Length
        invariant SkipFrom(buffer[..], delimiters, start) == SkipFrom(buffer[..], delimiters, from)
        invariant more <==> buffer[start] in delimiters
        decreases buffer.Length - start
      {
        start := start + 1;
        more := Among(buffer[start], delimiters);
      }
    }

    /** The second loop: runs sp to the end of the token and writes NUL over the delimiter there. */
    method CutToken(delimiters: seq<byte>)
      requires NUL !in delimiters && sp.At? && Valid()
      requires sp.index < buffer.Length && buffer[sp.index] !in delimiters
      modifies this`sp, buffer
      ensures sp.At? && Valid()
      ensures var e := BreakFrom(old(buffer[..]), delimiters, old(sp.index));
              && e < buffer.Length && sp == At(PastBreak(old(buffer[..]), e))
              && buffer[..] == old(buffer[..])[e := NUL]
    {
      ghost var b := buffer[..];
      ghost var e := BreakFrom(b, delimiters, sp.index);
      InsideString(b, delimiters, sp.index);
      RestTerminated(b, e);
      while buffer[sp.index] != NUL
        invariant sp.At? && sp.index < buffer.Length && buffer[..] == b
        invariant BreakFrom(b, delimiters, sp.index) == e
        decreases buffer.Length - sp.index
      {
        var found := Among(buffer[sp.index], delimiters);
        if found {
          buffer[sp.index] := NUL;
          sp := At(sp.index + 1);
          break;
        }
        sp := At(sp.index + 1);
      }
    }
  }

  // -- Successive calls --------------------------------------------------------------------------

  ghost function Next(r: Result, d: seq<byte>): (next: Result)
    requires NUL !in d && Ready(r)
    ensures Ready(next)
  {
    if r.sp.At? then Scan(r.buffer, d, r.sp.index) else Result(r.buffer, Null, Null)
  }

  /** What stands after n calls strtok(NULL, d). */
  ghost function After(r: Result, d: seq<byte>, n: nat): (last: Result)
    requires NUL !in d && Ready(r)
    ensures Ready(last)
    decreases n
  {
    if n == 0 then r else After(Next(r, d), d, n - 1)
  }

  ghost predicate SameFrom(b: seq<byte>, c: seq<byte>, p: nat) {
    |b| == |c| && forall i :: p <= i < |b| ==> b[i] == c[i]
  }

  lemma {:induction false} SameScan(b: seq<byte>, c: seq<byte>, d: seq<byte>, p: nat)
    requires p <= |b| && SameFrom(b, c, p)
    ensures SkipFrom(b, d, p) == SkipFrom(c, d, p) && BreakFrom(b, d, p) == BreakFrom(c, d, p)
    decreases |b| - p
  {
    if p < |b| {
      SameScan(b, c, d, p + 1);
    }
  }

  lemma SameFirst(b: seq<byte>, c: seq<byte>, d: seq<byte>, p: nat)
    requires NUL !in d && Terminated(b, p) && Terminated(c, p) && SameFrom(b, c, p)
    ensures var k := SkipFrom(b, d, p);
            var e := BreakFrom(b, d, k);
            && SkipFrom(c, d, p) == k && b[k] == c[k] && BreakFrom(c, d, k) == e
            && p <= k < |b| && PastBreak(c, e) == PastBreak(b, e) && SameFrom(b, c, PastBreak(b, e))
            && Terminated(b, PastBreak(b, e)) && Terminated(c, PastBreak(b, e))
            && (b[k] != NUL ==> PastBreak(b, e) > p)
  {
    InsideString(b, d, p);
    InsideString(c, d, p);
    SameScan(b, c, d, p);
    SameScan(b, c, d, SkipFrom(b, d, p));
  }

  /** The tokens depend only on the buffer from the scanning position on. */
  lemma {:induction false} SameRuns(b: seq<byte>, c: seq<byte>, d: seq<byte>, p: nat)
    requires NUL !in d && Terminated(b, p) && Terminated(c, p) && SameFrom(b, c, p)
    ensures Runs(b, d, p) == Runs(c, d, p)
    decreases |b| - p
  {
    SameFirst(b, c, d, p);
    var k := SkipFrom(b, d, p);
    if b[k] != NUL {
      SameRuns(b, c, d, PastBreak(b, BreakFrom(b, d, k)));
    }
  }

  /** Only delimiters at or after position p were overwritten, with NUL. */
  ghost predicate OnlyDelimitersCut(before: seq<byte>, after: seq<byte>, d: seq<byte>, p: nat) {
    && |after| == |before|
    && forall i :: 0 <= i < |before| ==> after[i] == before[i] || (i >= p && before[i] in d && after[i] == NUL)
  }

  /** The run is a NUL-terminated string of the buffer, spelt as in the original. */
  ghost predicate HoldsRun(original: seq<byte>, buffer: seq<byte>, r: Run) {
    && r.start <= r.end < |buffer| == |original|
    && buffer[r.start..r.end] == original[r.start..r.end] && NUL !in buffer[r.start..r.end]
    && buffer[r.end] == NUL
  }

  /** Call number j gives back run number j, and NULL once there are no more. */
  ghost predicate Gives(token: Pointer, runs: seq<Run>, j: nat) {
    token == if j < |runs| then At(runs[j].start) else Null
  }

  lemma {:induction false} NullForever(r: Result, d: seq<byte>, n: nat)
    requires NUL !in d && r.sp == Null
    ensures After(r, d, n).buffer == r.buffer && (n > 0 ==> After(r, d, n).token == Null)
    decreases n
  {
    if n > 0 {
      NullForever(Next(r, d), d, n - 1);
    }
  }

  /** Later cuts leave a finished token as it is. */
  lemma RunStays(original: seq<byte>, before: seq<byte>, after: seq<byte>, d: seq<byte>, r: Run, p: nat)
    requires HoldsRun(original, before, r) && OnlyDelimitersCut(before, after, d, p) && r.end <= p
    ensures HoldsRun(original, after, r)
  {
    assert after[r.start..r.end] == before[r.start..r.end];
  }

  /** The step from before to after: run is cut off, scanning has come from p to q, and only delimiters were lost. */
  ghost predicate CutsRun(before: seq<byte>, after: seq<byte>, d: seq<byte>, p: nat, q: nat, run: Run) {
    && p <= q && run.end <= q && HoldsRun(before, after, run)
    && OnlyDelimitersCut(before, after, d, p) && SameFrom(before, after, q)
  }

  lemma FirstToken(b: seq<byte>, d: seq<byte>, p: nat)
    requires NUL !in d && Terminated(b, p) && Scan(b, d, p).sp != Null
    ensures var k := SkipFrom(b, d, p);
            var e := BreakFrom(b, d, k);
            var r := Scan(b, d, p);
            && Runs(b, d, p) == [Run(k, e)] + Runs(r.buffer, d, r.sp.index)
            && r.token == At(k) && CutsRun(b, r.buffer, d, p, r.sp.index, Run(k, e))
  {
    InsideString(b, d, p);
    var k := SkipFrom(b, d, p);
    var e := BreakFrom(b, d, k);
    var r := Scan(b, d, p);
    SameRuns(b, r.buffer, d, PastBreak(b, e));
    assert r.buffer[k..e] == b[k..e];
  }

  /** One call that finds a token: its run, and the runs that are left. */
  lemma FirstCall(r: Result, d: seq<byte>) returns (run: Run)
    requires NUL !in d && r.sp.At? && Ready(r) && Next(r, d).sp != Null
    ensures var next := Next(r, d);
            && Runs(r.buffer, d, r.sp.index) == [run] + Runs(next.buffer, d, next.sp.index)
            && next.token == At(run.start) && CutsRun(r.buffer, next.buffer, d, r.sp.index, next.sp.index, run)
  {
    FirstToken(r.buffer, d, r.sp.index);
    var k := SkipFrom(r.buffer, d, r.sp.index);
    run := Run(k, BreakFrom(r.buffer, d, k));
  }

  /** What call number j (from 0) returns. */
  ghost function TokenOf(r: Result, d: seq<byte>, j: nat): Pointer
    requires NUL !in d && Ready(r)
  {
    After(r, d, j + 1).token
  }

  ghost predicate TokensGiven(r: Result, d: seq<byte>, runs: seq<Run>, n: nat)
    requires NUL !in d && Ready(r)
  {
    forall j: nat :: j < n ==> Gives(TokenOf(r, d, j), runs, j)
  }

  ghost predicate RunsHeld(original: seq<byte>, buffer: seq<byte>, runs: seq<Run>, n: nat) {
    forall j :: 0 <= j < n && j < |runs| ==> HoldsRun(original, buffer, runs[j])
  }

  lemma TokensShift(r: Result, d: seq<byte>, run: Run, rest: seq<Run>, n: nat)
    requires NUL !in d && Ready(r) && n > 0 && TokensGiven(Next(r, d), d, rest, n - 1)
    requires Next(r, d).token == At(run.start)
    ensures TokensGiven(r, d, [run] + rest, n)
  {
    forall j: nat | j < n
      ensures Gives(TokenOf(r, d, j), [run] + rest, j)
    {
      assert After(r, d, j + 1) == After(Next(r, d), d, j);
      assert j > 0 ==> Gives(TokenOf(Next(r, d), d, j - 1), rest, j - 1);
    }
  }

  lemma NoTokens(r: Result, d: seq<byte>, n: nat)
    requires NUL !in d && Ready(r) && Next(r, d).sp == Null && Next(r, d).token == Null
    ensures TokensGiven(r, d, [], n)
  {
    forall j: nat | j < n
      ensures Gives(TokenOf(r, d, j), [], j)
    {
      assert After(r, d, j + 1) == After(Next(r, d), d, j);
      NullForever(Next(r, d), d, j);
    }
  }

  lemma RunsStillHeld(b: seq<byte>, b1: seq<byte>, last: seq<byte>, d: seq<byte>, p: nat, q: nat, run: Run, n: nat)
    requires NUL !in d && Terminated(b1, q) && RunsHeld(b1, last, Runs(b1, d, q), n)
    requires CutsRun(b, b1, d, p, q, run) && OnlyDelimitersCut(b1, last, d, q)
    ensures RunsHeld(b, last, [run] + Runs(b1, d, q), n + 1)
    ensures OnlyDelimitersCut(b, last, d, p)
  {
    var rest := Runs(b1, d, q);
    RunStays(b, b1, last, d, run, q);
    RunsAreMaximal(b1, d, q);
    forall j | 0 < j <= n && j <= |rest|
      ensures HoldsRun(b, last, ([run] + rest)[j])
    {
      var r := rest[j - 1];
      assert r in rest && HoldsRun(b1, last, r);
      assert b[r.start..r.end] == b1[r.start..r.end];
    }
  }

  /**
   Successive calls return the starts of the maximal delimiter-free runs in order, then NULL for
   ever. In the buffer as it stands after n calls each pointer returned so far is a string equal to
   its run, and the buffer differs from the original only in delimiters overwritten with NUL.
   */
  lemma {:induction false} CallsGiveRuns(r: Result, d: seq<byte>, n: nat)
    requires NUL !in d && r.sp.At? && Ready(r)
    ensures TokensGiven(r, d, Runs(r.buffer, d, r.sp.index), n)
    ensures OnlyDelimitersCut(r.buffer, After(r, d, n).buffer, d, r.sp.index)
    ensures RunsHeld(r.buffer, After(r, d, n).buffer, Runs(r.buffer, d, r.sp.index), n)
    decreases n
  {
    if n > 0 {
      if Next(r, d).sp == Null {
        NoTokens(r, d, n);
        NullForever(Next(r, d), d, n - 1);
      } else {
        CallsGiveRuns(Next(r, d), d, n - 1);
        OneCallMore(r, Next(r, d), d, n, After(r, d, n).buffer);
      }
    }
  }

  lemma OneCallMore(r: Result, next: Result, d: seq<byte>, n: nat, last: seq<byte>)
    requires NUL !in d && r.sp.At? && Ready(r) && n > 0 && next == Next(r, d) && next.sp.At?
    requires TokensGiven(next, d, Runs(next.buffer, d, next.sp.index), n - 1)
    requires OnlyDelimitersCut(next.buffer, last, d, next.sp.index)
    requires RunsHeld(next.buffer, last, Runs(next.buffer, d, next.sp.index), n - 1)
    ensures TokensGiven(r, d, Runs(r.buffer, d, r.sp.index), n)
    ensures OnlyDelimitersCut(r.buffer, last, d, r.sp.index)
    ensures RunsHeld(r.buffer, last, Runs(r.buffer, d, r.sp.index), n)
  {
    var run := FirstCall(r, d);
    TokensShift(r, d, run, Runs(next.buffer, d, next.sp.index), n);
    RunsStillHeld(r.buffer, next.buffer, last, d, r.sp.index, next.sp.index, run, n - 1);
  }
}
