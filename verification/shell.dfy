/** BasicOS.c of the user library: a command line cut into a linked list of arguments. */
module Shell {
  import opened Status
  import opened Words
  import opened CStrings
  import opened Strtok
  import opened Fields

  const SPACE: byte := 0x20
  const COMMAND_BYTES: int := 1025
  const ARGUMENT_BYTES: int := 512
  const RUN_BYTES: int := 1024

  function Limited(s: seq<byte>, n: nat): (r: seq<byte>)
    ensures r <= s && |r| == if |s| <= n then |s| else n
  {
    if |s| <= n then s else s[..n]
  }

  /** dst with the string s and its terminator written over its front. */
  ghost predicate HoldsString(before: seq<byte>, after: seq<byte>, s: seq<byte>) {
    && |after| == |before| && |s| < |after|
    && after[..|s|] == s && after[|s|] == NUL
    && forall i :: |s| < i < |after| ==> after[i] == before[i]
  }

  lemma StringEndOf(b: seq<byte>, from: nat)
    requires Terminated(b, from)
    ensures from + |Cut(b[from..])| < |b|
    ensures StringEnd(b, from, from + |Cut(b[from..])|)
    ensures forall i :: 0 <= i < |Cut(b[from..])| ==> b[from + i] == Cut(b[from..])[i] != NUL
  {
    var z: nat :| EndsAt(b, from, z);
    var s := Cut(b[from..]);
    CutIs(b[from..]);
    assert b[from..][z - from] == NUL && b[from..][..|b| - from] == b[from..];
    forall i | from <= i < from + |s|
      ensures b[i] != NUL
    {
      assert b[i] == s[i - from] && s[i - from] in s;
    }
  }

  /** strncpy(dst, src + from, size). */
  method Strncpy(dst: array<byte>, src: array<byte>, from: nat, size: nat)
    requires dst != src && size <= dst.Length && Terminated(src[..], from)
    modifies dst
    ensures size == 0 ==> dst[..] == old(dst[..])
    ensures size > 0 ==> HoldsString(old(dst[..]), dst[..], Limited(Cut(src[..][from..]), size - 1))
  {
    if size == 0 {
      return;
    }
    ghost var s := Cut(src[..][from..]);
    StringEndOf(src[..], from);
    var i := 0;
    while i < size - 1 && src[from + i] != NUL
      invariant 0 <= i <= size - 1 && i <= |s|
      invariant forall j :: 0 <= j < i ==> dst[j] == s[j]
      invariant forall j :: i <= j < dst.Length ==> dst[j] == old(dst[j])
    {
      dst[i] := src[from + i];
      i := i + 1;
    }
    dst[i] := NUL;
    assert dst[..i] == s[..i];
    assert Limited(s, size - 1) == s[..i];
  }

  lemma HeldString(before: seq<byte>, after: seq<byte>, s: seq<byte>)
    requires HoldsString(before, after, s) && NUL !in s
    ensures Cut(after) == s && Terminated(after, 0) && StringEnd(after, 0, |s|)
  {
    CutUnique(after, |s|);
    assert EndsAt(after, 0, |s|);
    assert forall i :: 0 <= i < |s| ==> after[i] == s[i] && s[i] in s;
  }

  lemma LimitedHasNoNul(b: seq<byte>, n: nat)
    ensures NUL !in Limited(Cut(b), n)
  {
    CutIs(b);
    assert forall c :: c in Limited(Cut(b), n) ==> c in Cut(b);
  }

  // -- The list ----------------------------------------------------------------------------------

  /** struct command_argument; the 512 bytes are filled when the node is made and never change. */
  class CommandArgument {
    const argument: seq<byte>
    var next: CommandArgument?

    constructor (argument: seq<byte>)
      ensures this.argument == argument && next == null
    {
      this.argument := argument;
      next := null;
    }
  }

  ghost function Follower(nodes: seq<CommandArgument>, k: nat): CommandArgument? {
    if k < |nodes| then nodes[k] else null
  }

  ghost predicate Linked(nodes: seq<CommandArgument>, k: nat)
    requires k < |nodes|
    reads nodes[k]
  {
    nodes[k].next == Follower(nodes, k + 1)
  }

  /** Following next from root visits exactly these nodes. */
  ghost predicate Chain(root: CommandArgument?, nodes: seq<CommandArgument>)
    reads nodes
  {
    && root == Follower(nodes, 0)
    && (forall k :: 0 <= k < |nodes| ==> Linked(nodes, k))
  }

  /** current is the last node, and occurs nowhere before. */
  ghost predicate IsLast(nodes: seq<CommandArgument>, current: CommandArgument) {
    nodes != [] && nodes[|nodes| - 1] == current && current !in nodes[..|nodes| - 1]
  }

  /** Node k holds word k, cut to 511 characters. */
  ghost predicate Spell(nodes: seq<CommandArgument>, words: seq<seq<byte>>) {
    && |nodes| <= |words|
    && forall k :: 0 <= k < |nodes| ==> Holds(nodes[k], words[k])
  }

  ghost predicate Holds(node: CommandArgument, word: seq<byte>) {
    && |node.argument| == 512 && Terminated(node.argument, 0)
    && Cut(node.argument) == Limited(word, 511)
  }

  /** malloc of a node and strncpy of the token into it. */
  method NewArgument(buffer: array<byte>, token: nat) returns (node: CommandArgument)
    requires Terminated(buffer[..], token)
    ensures fresh(node) && node.next == null && Holds(node, Cut(buffer[..][token..]))
  {
    var argument := new byte[ARGUMENT_BYTES];
    ghost var before := argument[..];
    Strncpy(argument, buffer, token, ARGUMENT_BYTES);
    LimitedHasNoNul(buffer[..][token..], ARGUMENT_BYTES - 1);
    HeldString(before, argument[..], Limited(Cut(buffer[..][token..]), ARGUMENT_BYTES - 1));
    node := new CommandArgument(argument[..]);
  }

  // -- basic_os_parse_command --------------------------------------------------------------------

  ghost function CommandWords(command: seq<byte>): seq<seq<byte>> {
    LineWords(Limited(Cut(command), 1024), [0x20], [])
  }

  ghost function Start(b: seq<byte>): Result {
    Result(b, At(0), Null)
  }

  lemma {:induction false} AfterOneMore(r: Result, d: seq<byte>, n: nat)
    requires NUL !in d && Ready(r)
    ensures After(r, d, n + 1) == Next(After(r, d, n), d)
    decreases n
  {
    if n > 0 {
      AfterOneMore(Next(r, d), d, n - 1);
    }
  }

  /** Call j of strtok on the buffer b. */
  lemma TokenKnown(b: seq<byte>, r: Result, j: nat)
    requires Terminated(b, 0) && r == After(Start(b), [SPACE], j + 1)
    ensures var words := Texts(b, Runs(b, [SPACE], 0));
            && |r.buffer| == |b|
            && (r.token == Null <==> j >= |words|)
            && (j < |words| ==>
                  r.sp.At? && Terminated(r.buffer, r.token.index) && Cut(r.buffer[r.token.index..]) == words[j])
  {
    var d := [SPACE];
    var runs := Runs(b, d, 0);
    CallsGiveRuns(Start(b), d, j + 1);
    assert TokenOf(Start(b), d, j) == r.token;
    assert Gives(TokenOf(Start(b), d, j), runs, j);
    if j < |runs| {
      AfterOneMore(Start(b), [SPACE], j);
      assert HoldsRun(b, r.buffer, runs[j]);
      RunString(b, r.buffer, runs[j]);
    }
  }

  /** A pointer to a finished run is the run's text. */
  lemma RunString(b: seq<byte>, buffer: seq<byte>, run: Run)
    requires HoldsRun(b, buffer, run)
    ensures Terminated(buffer, run.start) && Cut(buffer[run.start..]) == Text(b, run)
  {
    assert buffer[run.start..][..run.end - run.start] == buffer[run.start..run.end];
    CutUnique(buffer[run.start..], run.end - run.start);
    assert EndsAt(buffer, run.start, run.end);
  }

  /** The parser's copy of the command has the command's words. */
  lemma CopyHasWords(command: seq<byte>, before: seq<byte>, b: seq<byte>)
    requires HoldsString(before, b, Limited(Cut(command), COMMAND_BYTES - 1))
    ensures Terminated(b, 0) && Texts(b, Runs(b, [SPACE], 0)) == CommandWords(command)
  {
    var line := Limited(Cut(command), COMMAND_BYTES - 1);
    LimitedHasNoNul(command, COMMAND_BYTES - 1);
    HeldString(before, b, line);
    RunsSpellFields(b, [SPACE], 0, |line|);
    assert b[0..|line|] == line;
  }

  function Smaller(a: nat, b: nat): nat {
    if a < b then a else b
  }

  /** What the successive calls leave behind: one that returns each word, and a last one that returns NULL. */
  ghost predicate Calls(b: seq<byte>, calls: seq<Result>, words: seq<seq<byte>>) {
    && |calls| == |words| + 1
    && Terminated(b, 0) && calls[0] == Next(Start(b), [SPACE])
    && forall j :: 0 <= j <= |words| ==> Call(calls, words, j)
  }

  ghost predicate Call(calls: seq<Result>, words: seq<seq<byte>>, j: nat)
    requires |calls| == |words| + 1 && j <= |words|
  {
    var r := calls[j];
    if j == |words| then r.token == Null
    else
      && r.token.At? && Terminated(r.buffer, r.token.index) && Cut(r.buffer[r.token.index..]) == words[j]
      && r.sp.At? && Terminated(r.buffer, r.sp.index) && calls[j + 1] == Next(r, [SPACE])
  }

  lemma CallsAre(b: seq<byte>) returns (calls: seq<Result>)
    requires Terminated(b, 0)
    ensures Calls(b, calls, Texts(b, Runs(b, [SPACE], 0)))
  {
    var words := Texts(b, Runs(b, [SPACE], 0));
    calls := seq(|words| + 1, j requires 0 <= j <= |words| => After(Start(b), [SPACE], j + 1));
    AfterOneMore(Start(b), [SPACE], 0);
    forall j | 0 <= j <= |words|
      ensures Call(calls, words, j)
    {
      CallIs(b, calls, words, j);
    }
  }

  lemma CallIs(b: seq<byte>, calls: seq<Result>, words: seq<seq<byte>>, j: nat)
    requires Terminated(b, 0) && words == Texts(b, Runs(b, [SPACE], 0)) && j <= |words|
    requires |calls| == |words| + 1 && forall k :: 0 <= k < |calls| ==> calls[k] == After(Start(b), [SPACE], k + 1)
    ensures Call(calls, words, j)
  {
    TokenKnown(b, calls[j], j);
    AfterOneMore(Start(b), [SPACE], j + 1);
  }

  /** What t holds, and what its last call returned. */
  ghost function Outcome(t: Tokenizer, token: Pointer): Result
    reads t, t.buffer
  {
    Result(t.buffer[..], t.sp, token)
  }

  /**
   The line's words as a linked list, as many as malloc has room for. With room for all of them
   the list has one node a word.
   */
  method ParseCommand(t: Tokenizer, command: array<byte>, max: int, room: nat)
    returns (root: CommandArgument?, ghost nodes: seq<CommandArgument>)
    requires Terminated(command[..], 0)
    modifies t
    ensures command[..] == old(command[..])
    ensures forall n :: n in nodes ==> fresh(n)
    ensures Chain(root, nodes)
    ensures max >= 1025 ==> root == null
    ensures max < 1025 ==>
              Spell(nodes, CommandWords(command[..])) && |nodes| == Smaller(room, |CommandWords(command[..])|)
  {
    nodes := [];
    if max >= COMMAND_BYTES {
      return null, nodes;
    }
    ghost var line := command[..];
    var scommand := CopyCommand(command);
    ghost var calls := CallsAre(scommand[..]);
    root, nodes := Collect(t, scommand, room, calls, CommandWords(line));
  }

  /** The calls of strtok on the copy, each token a new node at the end of the list. */
  method Collect(t: Tokenizer, scommand: array<byte>, room: nat, ghost calls: seq<Result>, ghost words: seq<seq<byte>>)
    returns (root: CommandArgument?, ghost nodes: seq<CommandArgument>)
    requires Calls(scommand[..], calls, words)
    modifies t, scommand
    ensures forall n :: n in nodes ==> fresh(n)
    ensures Chain(root, nodes) && Spell(nodes, words) && |nodes| == Smaller(room, |words|)
  {
    ghost var b := scommand[..];
    nodes := [];
    var token := FirstToken(t, scommand, calls, words);
    if token == Null || room == 0 {
      return null, nodes;
    }
    root, token := TakeToken(t, token, b, calls, words, 0);
    nodes := AddArguments(t, root, token, room - 1, b, calls, words);
  }

  /** The token as a node of its own, and the next token. */
  method TakeToken(t: Tokenizer, token: Pointer, ghost b: seq<byte>, ghost calls: seq<Result>,
                   ghost words: seq<seq<byte>>, ghost k: nat)
    returns (node: CommandArgument, next: Pointer)
    requires t.Valid() && Calls(b, calls, words) && k < |words| && Outcome(t, token) == calls[k]
    modifies t, t.buffer
    ensures fresh(node) && node.next == null && Holds(node, words[k])
    ensures t.buffer == old(t.buffer) && t.Valid() && Outcome(t, next) == calls[k + 1]
    ensures next == Null <==> k + 1 == |words|
  {
    assert Call(calls, words, k);
    node := NewArgument(t.buffer, token.index);
    next := NextToken(t, calls, words, token, k);
  }

  /** The loop over the second and later tokens. */
  method AddArguments(t: Tokenizer, root: CommandArgument, first: Pointer, room: nat,
                      ghost b: seq<byte>, ghost calls: seq<Result>, ghost words: seq<seq<byte>>)
    returns (ghost nodes: seq<CommandArgument>)
    requires t.Valid() && Calls(b, calls, words) && words != [] && Outcome(t, first) == calls[1]
    requires first == Null <==> 1 == |words|
    requires root.next == null && Holds(root, words[0])
    modifies t, t.buffer, root`next
    ensures forall n :: n in nodes ==> n == root || fresh(n)
    ensures Chain(root, nodes) && Spell(nodes, words) && |nodes| == Smaller(room + 1, |words|)
  {
    var token, left := first, room;
    var current := root;
    nodes := [root];
    ghost var k, buffer := 1, t.buffer;
    while token != Null
      invariant 0 <= left == room + 1 - k && k == |nodes| <= |words| && IsLast(nodes, current)
      invariant t.buffer == buffer && t.Valid() && Outcome(t, token) == calls[k] && (token == Null <==> k == |words|)
      invariant forall n :: n in nodes ==> n == root || fresh(n)
      invariant Chain(root, nodes) && Spell(nodes, words)
      decreases |words| - k
    {
      if left == 0 {
        break;
      }
      left := left - 1;
      assert current in nodes;
      current, token := AddArgument(t, root, current, token, b, calls, nodes, words, k);
      nodes := nodes + [current];
      k := k + 1;
    }
  }

  /** One turn of the loop: the token becomes a node at the end of the list, and the next is asked for. */
  method AddArgument(t: Tokenizer, ghost root: CommandArgument?, current: CommandArgument, token: Pointer,
                     ghost b: seq<byte>, ghost calls: seq<Result>, ghost nodes: seq<CommandArgument>,
                     ghost words: seq<seq<byte>>, ghost k: nat)
    returns (node: CommandArgument, next: Pointer)
    requires t.Valid() && Calls(b, calls, words) && k < |words| && Outcome(t, token) == calls[k]
    requires Chain(root, nodes) && Spell(nodes, words) && k == |nodes| && IsLast(nodes, current)
    modifies t, t.buffer, current`next
    ensures fresh(node) && t.buffer == old(t.buffer) && t.Valid() && Outcome(t, next) == calls[k + 1]
    ensures next == Null <==> k + 1 == |words|
    ensures Chain(root, nodes + [node]) && Spell(nodes + [node], words) && IsLast(nodes + [node], node)
  {
    node, next := TakeToken(t, token, b, calls, words, k);
    Append(root, current, node, nodes, words);
  }

  /** char scommand[1025]; strncpy(scommand, command, sizeof(scommand)). */
  method CopyCommand(command: array<byte>) returns (scommand: array<byte>)
    requires Terminated(command[..], 0)
    ensures fresh(scommand) && Terminated(scommand[..], 0)
    ensures Texts(scommand[..], Runs(scommand[..], [SPACE], 0)) == CommandWords(command[..])
  {
    scommand := new byte[COMMAND_BYTES];
    ghost var garbage := scommand[..];
    Strncpy(scommand, command, 0, COMMAND_BYTES);
    assert command[..][0..] == command[..];
    CopyHasWords(command[..], garbage, scommand[..]);
  }

  /** current->next = node. */
  method Append(ghost root: CommandArgument?, current: CommandArgument, node: CommandArgument,
                ghost nodes: seq<CommandArgument>, ghost words: seq<seq<byte>>)
    requires Chain(root, nodes) && Spell(nodes, words) && IsLast(nodes, current)
    requires node !in nodes && node.next == null && |nodes| < |words| && Holds(node, words[|nodes|])
    modifies current`next
    ensures Chain(root, nodes + [node]) && Spell(nodes + [node], words) && IsLast(nodes + [node], node)
  {
    ghost var longer := nodes + [node];
    SpellOneMore(nodes, node, words);
    NewIsLast(nodes, node);
    current.next := node;
    forall k | 0 <= k < |longer|
      ensures Linked(longer, k)
    {
      assert k < |nodes| - 1 ==> old(Linked(nodes, k)) && nodes[k] in nodes[..|nodes| - 1];
    }
  }

  lemma SpellOneMore(nodes: seq<CommandArgument>, node: CommandArgument, words: seq<seq<byte>>)
    requires Spell(nodes, words) && |nodes| < |words| && Holds(node, words[|nodes|])
    ensures Spell(nodes + [node], words)
  {
    var longer := nodes + [node];
    forall k | 0 <= k < |longer|
      ensures Holds(longer[k], words[k])
    {
      if k < |nodes| {
        assert Holds(nodes[k], words[k]);
      }
    }
  }

  lemma NewIsLast(nodes: seq<CommandArgument>, node: CommandArgument)
    requires node !in nodes
    ensures IsLast(nodes + [node], node)
  {
    assert (nodes + [node])[..|nodes|] == nodes;
  }

  /** strtok(scommand, " "). */
  method FirstToken(t: Tokenizer, scommand: array<byte>, ghost calls: seq<Result>, ghost words: seq<seq<byte>>)
    returns (token: Pointer)
    requires Calls(scommand[..], calls, words)
    modifies t, scommand
    ensures t.buffer == scommand && t.Valid() && Outcome(t, token) == calls[0]
    ensures token == Null <==> words == []
  {
    assert Call(calls, words, 0);
    token := t.Strtok(scommand, [SPACE]);
  }

  /** strtok(NULL, " "). */
  method NextToken(t: Tokenizer, ghost calls: seq<Result>, ghost words: seq<seq<byte>>, ghost last: Pointer,
                   ghost k: nat)
    returns (token: Pointer)
    requires t.Valid() && |calls| == |words| + 1 && k < |words| && Outcome(t, last) == calls[k]
    requires Call(calls, words, k) && Call(calls, words, k + 1)
    modifies t, t.buffer
    ensures t.buffer == old(t.buffer) && t.Valid() && Outcome(t, token) == calls[k + 1]
    ensures token == Null <==> k + 1 == |words|
  {
    token := t.Strtok(null, [SPACE]);
  }

  /** The longest list: every word but the last is followed by a separator within the 1024 characters. */
  lemma AtMost512Arguments(command: seq<byte>)
    ensures |CommandWords(command)| <= 512
  {
    FewFields(Limited(Cut(command), COMMAND_BYTES - 1), [SPACE], []);
  }

  /** basic_os_system_run; what the kernel is asked to run is the list returned. */
  method SystemRun(t: Tokenizer, command: array<byte>, room: nat)
    returns (res: int, root: CommandArgument?, ghost nodes: seq<CommandArgument>)
    requires Terminated(command[..], 0)
    modifies t
    ensures Chain(root, nodes) && Spell(nodes, CommandWords(command[..]))
    ensures |nodes| == Smaller(room, |CommandWords(command[..])|)
    ensures res == if room == 0 || CommandWords(command[..]) == [] then -2 else 0
  {
    var buf := new byte[RUN_BYTES];
    Strncpy(buf, command, 0, RUN_BYTES);
    root, nodes := ParseCommand(t, command, RUN_BYTES, room);
    res := if root == null then -EINVARG else 0;
  }
}
