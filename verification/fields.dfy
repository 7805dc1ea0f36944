/** The words of a line, character by character, and that the tokenizer's runs are the same words. */
module Fields {
  import opened Words
  import opened CStrings
  import opened Strtok

  /** The word gathered so far, if there is one. */
  function Flush(word: seq<byte>): seq<seq<byte>> {
    if word == [] then [] else [word]
  }

  /** The words of line separated by characters of d, given the part of a word already gathered. */
  function LineWords(line: seq<byte>, d: seq<byte>, word: seq<byte>): seq<seq<byte>> {
    if line == [] then Flush(word)
    else if line[0] in d then Flush(word) + LineWords(line[1..], d, [])
    else LineWords(line[1..], d, word + [line[0]])
  }

  /** Each word but the last takes at least one character and a separator. */
  lemma {:induction false} FewFields(line: seq<byte>, d: seq<byte>, word: seq<byte>)
    ensures |LineWords(line, d, word)| <= (|line| + if word == [] then 1 else 2) / 2
  {
    if line != [] {
      if line[0] in d {
        FewFields(line[1..], d, []);
      } else {
        FewFields(line[1..], d, word + [line[0]]);
      }
    }
  }

  lemma {:induction false} FieldsHoldNoSeparator(line: seq<byte>, d: seq<byte>, word: seq<byte>)
    requires forall c :: c in word ==> c !in d
    ensures forall f :: f in LineWords(line, d, word) ==>
              f != [] && forall c :: c in f ==> c !in d && (c in line || c in word)
  {
    if line != [] {
      if line[0] in d {
        FieldsHoldNoSeparator(line[1..], d, []);
      } else {
        FieldsHoldNoSeparator(line[1..], d, word + [line[0]]);
      }
    }
  }

  ghost function Text(b: seq<byte>, r: Run): seq<byte> {
    if r.start <= r.end <= |b| then b[r.start..r.end] else []
  }

  ghost function Texts(b: seq<byte>, runs: seq<Run>): (t: seq<seq<byte>>)
    ensures |t| == |runs| && forall k :: 0 <= k < |t| ==> t[k] == Text(b, runs[k])
  {
    seq(|runs|, k requires 0 <= k < |runs| => Text(b, runs[k]))
  }

  /** z is where the string at p ends. */
  ghost predicate StringEnd(b: seq<byte>, p: nat, z: nat) {
    p <= z < |b| && b[z] == NUL && forall i :: p <= i < z ==> b[i] != NUL
  }

  lemma {:induction false} SkipNothing(b: seq<byte>, d: seq<byte>, p: nat, z: nat)
    requires NUL !in d && StringEnd(b, p, z)
    ensures SkipFrom(b, d, p) <= z && LineWords(b[p..z], d, []) == LineWords(b[SkipFrom(b, d, p)..z], d, [])
    decreases z - p
  {
    if p < z && b[p] in d {
      SkipNothing(b, d, p + 1, z);
      assert b[p..z][1..] == b[p + 1..z];
    }
  }

  lemma {:induction false} GatherWord(b: seq<byte>, d: seq<byte>, k: nat, p: nat, z: nat)
    requires NUL !in d && StringEnd(b, p, z) && k <= p
    ensures BreakFrom(b, d, p) <= z
    ensures LineWords(b[p..z], d, b[k..p]) == LineWords(b[BreakFrom(b, d, p)..z], d, b[k..BreakFrom(b, d, p)])
    decreases z - p
  {
    if p < z && b[p] !in d {
      GatherWord(b, d, k, p + 1, z);
      assert b[p..z][1..] == b[p + 1..z];
      assert b[k..p] + [b[p]] == b[k..p + 1];
    }
  }

  /** The runs of the string at p spell its words. */
  lemma {:induction false} RunsSpellFields(b: seq<byte>, d: seq<byte>, p: nat, z: nat)
    requires NUL !in d && StringEnd(b, p, z) && Terminated(b, p)
    ensures Texts(b, Runs(b, d, p)) == LineWords(b[p..z], d, [])
    decreases z - p
  {
    InsideString(b, d, p);
    SkipNothing(b, d, p, z);
    var k := SkipFrom(b, d, p);
    if b[k] == NUL {
      assert b[k..z] == [];
    } else {
      var e := BreakFrom(b, d, k);
      RunsSpellFields(b, d, PastBreak(b, e), z);
      FirstWord(b, d, k, e, z);
      FirstText(b, Run(k, e), Runs(b, d, PastBreak(b, e)));
    }
  }

  /** The word from k to e comes first, the words behind e follow. */
  lemma FirstWord(b: seq<byte>, d: seq<byte>, k: nat, e: nat, z: nat)
    requires NUL !in d && StringEnd(b, k, z) && k < z && b[k] !in d && e == BreakFrom(b, d, k)
    ensures e <= z && k < e && PastBreak(b, e) <= z
    ensures LineWords(b[k..z], d, []) == [b[k..e]] + LineWords(b[PastBreak(b, e)..z], d, [])
  {
    GatherWord(b, d, k, k, z);
    assert b[k..k] == [];
    if e < z {
      assert b[e..z][1..] == b[e + 1..z];
    }
  }

  lemma FirstText(b: seq<byte>, r: Run, rest: seq<Run>)
    ensures Texts(b, [r] + rest) == [Text(b, r)] + Texts(b, rest)
  {
  }
}
