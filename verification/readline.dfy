/** terminal_readline: keys edited into a line as they are typed. */
module ReadLine {
  import opened Words
  import opened CStrings

  const RETURN: byte := 0x0D
  const BACKSPACE: byte := 0x08

  /** What one key does to the line: backspace takes the last character off, if there is one. */
  function Press(line: seq<byte>, key: byte): seq<byte> {
    if key == BACKSPACE && line != [] then line[..|line| - 1] else line + [key]
  }

  /** The line after a series of keys. */
  function Typed(keys: seq<byte>): seq<byte> {
    if keys == [] then [] else Press(Typed(keys[..|keys| - 1]), keys[|keys| - 1])
  }

  /** Reading stops after n keys: the line fills the buffer, or carriage return comes next. */
  ghost predicate Stops(keys: seq<byte>, room: nat, n: nat) {
    n <= |keys| && (|Typed(keys[..n])| >= room || (n < |keys| && keys[n] == 0x0D))
  }

  /** n is the first place where reading stops. */
  ghost predicate FirstStop(keys: seq<byte>, room: nat, n: nat) {
    Stops(keys, room, n) && NotBefore(keys, room, n)
  }

  ghost predicate NotBefore(keys: seq<byte>, room: nat, n: nat) {
    forall m: nat :: m < n ==> !Stops(keys, room, m)
  }

  /** The keys bring the reading to an end. */
  ghost predicate Ends(keys: seq<byte>, room: nat) {
    exists m: nat :: Stops(keys, room, m)
  }

  lemma OneMoreKey(keys: seq<byte>, n: nat)
    requires n < |keys|
    ensures Typed(keys[..n + 1]) == Press(Typed(keys[..n]), keys[n])
  {
    assert keys[..n + 1][..n] == keys[..n];
  }

  lemma {:induction false} NoNul(keys: seq<byte>, n: nat)
    requires n <= |keys| && NUL !in keys
    ensures NUL !in Typed(keys[..n])
  {
    if n > 0 {
      NoNul(keys, n - 1);
      OneMoreKey(keys, n - 1);
      assert keys[n - 1] in keys;
    }
  }

  /** Keys without a backspace (0x08) make the line they spell. */
  lemma {:induction false} PlainKeysStay(keys: seq<byte>)
    requires 0x08 !in keys
    ensures Typed(keys) == keys
  {
    if keys != [] {
      PlainKeysStay(keys[..|keys| - 1]);
    }
  }

  /** A backspace takes the last character off, and is stored on the empty line. */
  lemma BackspaceTakesLast(keys: seq<byte>)
    ensures Typed(keys) == [] ==> Typed(keys + [0x08]) == [0x08]
    ensures Typed(keys) != [] ==> Typed(keys + [0x08]) == Typed(keys)[..|Typed(keys)| - 1]
  {
    TypedLast(keys, 0x08);
  }

  /** A stored backspace is always the first character of the line. */
  lemma {:induction false} BackspaceOnlyFirst(keys: seq<byte>, i: nat)
    requires 0 < i < |Typed(keys)|
    ensures Typed(keys)[i] != BACKSPACE
  {
    var before, key := Typed(keys[..|keys| - 1]), keys[|keys| - 1];
    if i < |before| {
      BackspaceOnlyFirst(keys[..|keys| - 1], i);
    }
  }

  /** Keys typed and then erased leave the line as it was. */
  lemma {:induction false} EraseUndoes(keys: seq<byte>, more: seq<byte>)
    requires BACKSPACE !in more
    ensures Typed(keys + more + seq(|more|, i => BACKSPACE)) == Typed(keys)
    decreases |more|
  {
    if more == [] {
      assert keys + more + seq(|more|, i => BACKSPACE) == keys;
    } else {
      var rest, last := more[..|more| - 1], more[|more| - 1];
      var erase := seq(|rest|, i => BACKSPACE);
      EraseUndoes(keys, rest);
      EraseOne(keys + rest, last, erase);
      assert keys + rest + [last] == keys + more;
      assert [BACKSPACE] + erase == seq(|more|, i => BACKSPACE);
      assert keys + more + seq(|more|, i => BACKSPACE) == keys + rest + [last] + ([BACKSPACE] + erase);
    }
  }

  /** A key and a backspace right after it make no difference to what follows. */
  lemma {:induction false} EraseOne(keys: seq<byte>, key: byte, after: seq<byte>)
    requires key != BACKSPACE
    ensures Typed(keys + [key] + ([BACKSPACE] + after)) == Typed(keys + after)
    decreases |after|
  {
    var all := keys + [key] + ([BACKSPACE] + after);
    if after == [] {
      assert all == keys + [key] + [BACKSPACE] && keys + after == keys;
      TypedLast(keys, key);
      TypedLast(keys + [key], BACKSPACE);
    } else {
      var front, last := after[..|after| - 1], after[|after| - 1];
      EraseOne(keys, key, front);
      assert all == keys + [key] + ([BACKSPACE] + front) + [last] && keys + after == keys + front + [last];
      TypedLast(keys + [key] + ([BACKSPACE] + front), last);
      TypedLast(keys + front, last);
    }
  }

  lemma TypedLast(keys: seq<byte>, key: byte)
    ensures Typed(keys + [key]) == Press(Typed(keys), key)
  {
    assert (keys + [key])[..|keys|] == keys;
  }

  /** The buffer starts with the line and is as it was from max on. */
  ghost predicate Held(buffer: seq<byte>, before: seq<byte>, max: nat, line: seq<byte>) {
    && |buffer| == |before| && |line| < max <= |buffer|
    && (forall j :: 0 <= j < |line| ==> buffer[j] == line[j])
    && forall j :: max <= j < |buffer| ==> buffer[j] == before[j]
  }

  /** Puts the key just read into the buffer, or takes the last one out of it. */
  method StoreKey(out: array<byte>, i: nat, key: byte, ghost before: seq<byte>, ghost max: nat, ghost line: seq<byte>)
    returns (next: nat)
    requires Held(out[..], before, max, line) && i == |line| < max - 1
    modifies out
    ensures next == |Press(line, key)| && Held(out[..], before, max, Press(line, key))
  {
    if key == BACKSPACE && i >= 1 {
      out[i - 1] := NUL;
      next := i - 1;
    } else {
      out[i] := key;
      next := i + 1;
    }
  }

  /** The keys read so far have made the line, and nothing has stopped the reading before them. */
  ghost predicate Reading(keys: seq<byte>, room: nat, at: nat, line: seq<byte>) {
    at <= |keys| && line == Typed(keys[..at]) && |line| <= room && NotBefore(keys, room, at)
  }

  /** After one more key that does not stop it. */
  lemma ReadOne(keys: seq<byte>, room: nat, at: nat, line: seq<byte>)
    requires Reading(keys, room, at, line) && at < |keys| && |line| < room && NotBefore(keys, room, at + 1)
    ensures Reading(keys, room, at + 1, Press(line, keys[at]))
  {
    OneMoreKey(keys, at);
  }

  function Echo(shown: bool, keys: seq<byte>, n: nat): (echo: seq<byte>)
    requires n <= |keys|
    ensures |echo| == if shown then n else 0
  {
    if shown then keys[..n] else []
  }

  /** A line with its terminator is what strlen and the caller see. */
  lemma LineIsCut(buffer: seq<byte>, keys: seq<byte>, n: nat, line: seq<byte>)
    requires n <= |keys| && NUL !in keys && line == Typed(keys[..n])
    requires |line| < |buffer| && buffer[|line|] == NUL && buffer[..|line|] == line
    ensures Cut(buffer) == line
  {
    NoNul(keys, n);
    CutUnique(buffer, |line|);
  }

  /**
   Reads keys (getkey never yields NUL) until the line fills max - 1 characters or carriage return
   comes, echoing each key if asked to. The buffer then holds the line and its terminator.
   */
  method TerminalReadline(out: array<byte>, max: nat, outputWhileTyping: bool, keys: seq<byte>)
    returns (len: nat, echo: seq<byte>, ghost n: nat)
    requires 1 <= max <= out.Length && NUL !in keys
    requires Ends(keys, max - 1)
    modifies out
    ensures FirstStop(keys, max - 1, n)
    ensures len == |Typed(keys[..n])| < max && out[..len] == Typed(keys[..n]) && out[len] == NUL
    ensures Cut(out[..]) == Typed(keys[..n])
    ensures forall i :: max <= i < out.Length ==> out[i] == old(out[i])
    ensures echo == if outputWhileTyping then keys[..n] else []
  {
    ghost var before := out[..];
    var i, at := 0, 0;
    echo := [];
    ghost var line: seq<byte> := [];
    while i < max - 1
      invariant Reading(keys, max - 1, at, line) && i == |line|
      invariant Held(out[..], before, max, line)
      invariant echo == Echo(outputWhileTyping, keys, at)
      decreases |keys| - at
    {
      MoreKeys(keys, max - 1, at);
      if keys[at] == RETURN {
        break;
      }
      var key := keys[at];
      if outputWhileTyping {
        echo := echo + [key];
      }
      i := StoreKey(out, i, key, before, max, line);
      ReadOne(keys, max - 1, at, line);
      line := Press(line, key);
      at := at + 1;
    }
    out[i] := NUL;
    n := at;
    len := i;
    LineIsCut(out[..], keys, n, line);
  }

  /** While nothing has stopped the reading there is another key. */
  lemma MoreKeys(keys: seq<byte>, room: nat, at: nat)
    requires at <= |keys| && |Typed(keys[..at])| < room && Ends(keys, room)
    requires NotBefore(keys, room, at)
    ensures at < |keys|
    ensures keys[at] != RETURN ==> NotBefore(keys, room, at + 1)
  {
    var m :| Stops(keys, room, m);
    assert m == at ==> at < |keys|;
  }
}
