/** What a path means: a drive digit, then the parts between slashes up to the first empty one. */
module Paths {
  import opened Words
  import opened CStrings

  const SLASH: byte := 0x2F
  const COLON: byte := 0x3A
  const MAX_PATH: int := 108

  /** Characters before the first slash. */
  function PartLength(s: seq<byte>): (n: nat)
    ensures n <= |s| && SLASH !in s[..n] && (n < |s| ==> s[n] == SLASH)
  {
    if s == [] || s[0] == SLASH then 0
    else
      var n := 1 + PartLength(s[1..]);
      assert s[..n] == [s[0]] + s[1..][..n - 1];
      n
  }

  function PastSlash(s: seq<byte>, n: nat): (k: nat)
    requires n <= |s|
    ensures n <= k <= |s|
  {
    if n < |s| then n + 1 else n
  }

  /** What the parser's loop collects. */
  function Components(s: seq<byte>): seq<seq<byte>>
    decreases |s|
  {
    var n := PartLength(s);
    if n == 0 then [] else [s[..n]] + Components(s[PastSlash(s, n)..])
  }

  /** s cut at every slash, empty pieces included. */
  function Pieces(s: seq<byte>, piece: seq<byte>): seq<seq<byte>> {
    if s == [] then [piece]
    else if s[0] == 0x2F then [piece] + Pieces(s[1..], [])
    else Pieces(s[1..], piece + [s[0]])
  }

  function UpToEmpty(pieces: seq<seq<byte>>): seq<seq<byte>> {
    if pieces == [] || pieces[0] == [] then [] else [pieces[0]] + UpToEmpty(pieces[1..])
  }

  lemma {:induction false} PiecesFrom(s: seq<byte>, piece: seq<byte>)
    ensures var n := PartLength(s);
            Pieces(s, piece) == [piece + s[..n]] + if n < |s| then Pieces(s[n + 1..], []) else []
  {
    if s == [] {
      assert piece + s == piece;
    } else if s[0] == SLASH {
      assert piece + s[..0] == piece;
    } else {
      PiecesFrom(s[1..], piece + [s[0]]);
      var n := PartLength(s);
      assert piece + [s[0]] + s[1..][..n - 1] == piece + s[..n];
      assert n < |s| ==> s[1..][n..] == s[n + 1..];
    }
  }

  /** The parser collects the pieces up to the first empty one. */
  lemma {:induction false} ComponentsArePieces(s: seq<byte>)
    ensures Components(s) == UpToEmpty(Pieces(s, []))
    decreases |s|
  {
    var n := PartLength(s);
    PiecesFrom(s, []);
    assert [] + s[..n] == s[..n];
    if n > 0 {
      ComponentsArePieces(s[PastSlash(s, n)..]);
      var rest := Pieces(s, [])[1..];
      if n < |s| {
        assert rest == Pieces(s[n + 1..], []);
      } else {
        assert rest == [] && s[n..] == [];
      }
    }
  }

  /** Every part is a non-empty stretch of the path without slashes. */
  lemma {:induction false} ComponentsFit(s: seq<byte>)
    ensures forall c :: c in Components(s) ==> 0 < |c| <= |s| && SLASH !in c && forall x :: x in c ==> x in s
    ensures 2 * |Components(s)| <= |s| + 1
    decreases |s|
  {
    var n := PartLength(s);
    if n > 0 {
      ComponentsFit(s[PastSlash(s, n)..]);
    }
  }

  function Digit(drive: nat): byte
    requires drive < 10
  {
    DIGIT_0 + drive
  }

  /** pparser's test of the format. */
  predicate ValidFormat(path: seq<byte>) {
    |path| > 2 && IsDigit(path[0]) && path[1] == COLON && path[2] == SLASH
  }

  /** How a printed path to drive d begins. */
  function Prefix(d: nat): seq<byte>
    requires d < 10
  {
    [Digit(d), COLON, SLASH]
  }

  ghost predicate StartsWithDrive(path: seq<byte>) {
    exists d: nat :: d < 10 && Prefix(d) <= path
  }

  /** The test accepts exactly the paths that begin like a printed one. */
  lemma ValidFormatIff(path: seq<byte>)
    ensures ValidFormat(path) <==> StartsWithDrive(path)
  {
    if ValidFormat(path) {
      var d: nat := path[0] - DIGIT_0;
      assert Prefix(d) <= path;
    }
    if d: nat :| d < 10 && Prefix(d) <= path {
      assert forall k :: 0 <= k < 3 ==> path[k] == Prefix(d)[k];
    }
  }

  datatype Path = Path(drive: nat, parts: seq<seq<byte>>)

  datatype Parsed = Bad | Good(path: Path)

  /** pparser_parse as a function of the path's characters. */
  function Parse(path: seq<byte>): Parsed {
    if |path| > MAX_PATH || !ValidFormat(path) then Bad
    else Good(Path(path[0] - DIGIT_0, Components(path[3..])))
  }

  /** Character by character: at most 108 of them, a digit, a colon and a slash, and then the parts. */
  lemma ParseIs(path: seq<byte>)
    ensures Parse(path).Good? <==>
            3 <= |path| <= 108 && 0x30 <= path[0] <= 0x39 && path[1] == 0x3A && path[2] == 0x2F
    ensures Parse(path).Good? ==>
            && path[0] == 0x30 + Parse(path).path.drive
            && Parse(path).path.parts == UpToEmpty(Pieces(path[3..], []))
  {
    if Parse(path).Good? {
      ComponentsArePieces(path[3..]);
    }
  }

  function Join(parts: seq<seq<byte>>): seq<byte> {
    if parts == [] then []
    else if |parts| == 1 then parts[0]
    else parts[0] + [SLASH] + Join(parts[1..])
  }

  function Print(path: Path): seq<byte>
    requires path.drive < 10
  {
    Prefix(path.drive) + Join(path.parts)
  }

  ghost predicate Printable(path: Path) {
    && path.drive < 10
    && (forall k :: 0 <= k < |path.parts| ==> path.parts[k] != [] && SLASH !in path.parts[k])
  }

  lemma {:induction false} LengthOfPart(s: seq<byte>, part: seq<byte>)
    requires SLASH !in part && part <= s && (|part| < |s| ==> s[|part|] == SLASH)
    ensures PartLength(s) == |part|
  {
    if part != [] {
      assert s[0] == part[0] && part[0] in part;
      LengthOfPart(s[1..], part[1..]);
    }
  }

  lemma {:induction false} ComponentsOfJoin(parts: seq<seq<byte>>)
    requires forall k :: 0 <= k < |parts| ==> parts[k] != [] && SLASH !in parts[k]
    ensures Components(Join(parts)) == parts
  {
    if parts != [] {
      var s := Join(parts);
      LengthOfPart(s, parts[0]);
      assert s[..|parts[0]|] == parts[0];
      ComponentsOfJoin(parts[1..]);
      assert s[PastSlash(s, |parts[0]|)..] == Join(parts[1..]);
    }
  }

  /** Printing a drive and its parts, then parsing, gives both back. */
  lemma PrintThenParse(path: Path)
    requires Printable(path) && |Print(path)| <= MAX_PATH
    ensures Parse(Print(path)) == Good(path)
  {
    ComponentsOfJoin(path.parts);
    assert Print(path)[3..] == Join(path.parts);
  }

  lemma {:induction false} JoinOfComponents(s: seq<byte>)
    requires forall k :: 0 <= k < |Pieces(s, [])| ==> Pieces(s, [])[k] != []
    ensures Join(Components(s)) == s
    decreases |s|
  {
    var n := PartLength(s);
    PiecesFrom(s, []);
    assert [] + s[..n] == s[..n];
    assert Pieces(s, [])[0] == s[..n];
    if n < |s| {
      var rest := s[n + 1..];
      forall k | 0 <= k < |Pieces(rest, [])|
        ensures Pieces(rest, [])[k] != []
      {
        assert Pieces(s, [])[k + 1] == Pieces(rest, [])[k];
      }
      JoinOfComponents(rest);
      PiecesFrom(rest, []);
      assert Pieces(rest, [])[0] == [] + rest[..PartLength(rest)];
      SplitAt(s, n);
    }
  }

  lemma SplitAt(s: seq<byte>, n: nat)
    requires n < |s|
    ensures s == s[..n] + [s[n]] + s[n + 1..]
  {
  }

  lemma {:induction false} PiecesOfJoin(parts: seq<seq<byte>>)
    requires parts != [] && forall k :: 0 <= k < |parts| ==> parts[k] != [] && SLASH !in parts[k]
    ensures Pieces(Join(parts), []) == parts
  {
    var s := Join(parts);
    LengthOfPart(s, parts[0]);
    PiecesFrom(s, []);
    assert [] + s[..|parts[0]|] == parts[0];
    if |parts| > 1 {
      PiecesOfJoin(parts[1..]);
      assert s[|parts[0]| + 1..] == Join(parts[1..]);
    }
  }

  lemma PrintedIs(path: seq<byte>)
    requires Parse(path).Good?
    ensures Print(Parse(path).path) == path <==> Join(Components(path[3..])) == path[3..]
  {
    var head := path[..3];
    assert path == head + path[3..];
    assert Print(Parse(path).path) == head + Join(Components(path[3..]));
    assert (head + Join(Components(path[3..])))[3..] == Join(Components(path[3..]));
  }

  /** Parsing, then printing, gives the path back exactly when no piece after the drive is empty. */
  lemma ParseThenPrint(path: seq<byte>)
    requires Parse(path).Good?
    ensures Print(Parse(path).path) == path <==>
            path[3..] == [] || forall k :: 0 <= k < |Pieces(path[3..], [])| ==> Pieces(path[3..], [])[k] != []
  {
    var s := path[3..];
    var parts := Components(s);
    PrintedIs(path);
    ComponentsFit(s);
    if forall k :: 0 <= k < |Pieces(s, [])| ==> Pieces(s, [])[k] != [] {
      JoinOfComponents(s);
    }
    if Join(parts) == s {
      if parts != [] {
        assert forall k :: 0 <= k < |parts| ==> parts[k] in parts;
        PiecesOfJoin(parts);
      }
    }
  }
}
