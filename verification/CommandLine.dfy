/**
  programs/stdlib/src/string.c and kernel.c: the stateful tokenizer and the
  command parser built on it.
 */
module CommandLine {
  import opened Words

  /** `strtok` with its static cursor `sp`: the buffer it walks and the next position in it, or no position after a
      NULL. */
  class Tokenizer {
    var text: array<char>
    var sp: int

    ghost predicate Valid()
      reads this, text
    {
      sp >= -1 && (sp >= 0 ==> Terminated(text[..], sp))
    }

    /** What is still to be split. */
    ghost function Rest(): string
      reads this, text
    {
      if sp < 0 then [] else CStr(text[..], sp)
    }

    constructor ()
      ensures Valid() && sp == -1 && fresh(text)
    {
      text := new char[1](_ => NUL);
      sp := -1;
    }

    /** The first loop of `strtok`: past the leading delimiters. */
    method SkipDelims(start: nat, delims: string) returns (p: nat)
      requires Terminated(text[..], start)
      ensures p == start + LeadingDelims(CStr(text[..], start), delims)
      ensures p < text.Length
    {
      hide CStr, LeadingDelims, Terminated;
      ghost var s := CStr(text[..], start);
      CStrAt(text[..], start);
      p := start;
      while text[p] != NUL && IsDelim(text[p], delims)
        invariant start <= p <= start + |s| && AllDelims(s[..p - start], delims)
        decreases |s| - (p - start)
      {
        assert text[p] == s[p - start];
        assert s[..p + 1 - start] == s[..p - start] + [s[p - start]];
        p := p + 1;
      }
      assert p < start + |s| ==> text[p] == s[p - start];
      LeadingDelimsIs(s, delims, p - start);
    }

    /** The second loop of `strtok`: past the characters of a word. */
    method SkipWord(start: nat, delims: string) returns (p: nat)
      requires Terminated(text[..], start)
      ensures p == start + WordLength(CStr(text[..], start), delims)
      ensures p < text.Length
    {
      hide CStr, WordLength, Terminated;
      ghost var s := CStr(text[..], start);
      CStrAt(text[..], start);
      p := start;
      while text[p] != NUL && !IsDelim(text[p], delims)
        invariant start <= p <= start + |s| && NoDelims(s[..p - start], delims)
        decreases |s| - (p - start)
      {
        assert text[p] == s[p - start];
        assert s[..p + 1 - start] == s[..p - start] + [s[p - start]];
        p := p + 1;
      }
      assert p < start + |s| ==> text[p] == s[p - start];
      WordLengthIs(s, delims, p - start);
    }

    /** The token at tok is the first of these words, and the rest to be split are the others. */
    ghost predicate TokenCut(tok: int, words: seq<string>, delims: string)
      reads this, text
    {
      && words != [] && 0 <= tok < sp && Terminated(text[..], tok)
      && CStr(text[..], tok) == words[0] && WordsOf(Rest(), delims) == words[1..]
    }

    /** The end of `strtok`: find the end of the word at p, terminate it in place and move the cursor past it. */
    method CutWord(p: nat, delims: string)
      requires Terminated(text[..], p) && NUL !in delims
      requires CStr(text[..], p) != [] && !IsDelim(CStr(text[..], p)[0], delims)
      modifies this`sp, text
      ensures Valid() && 0 <= p < sp && Terminated(text[..], p)
      ensures var t := old(CStr(text[..], p));
        CStr(text[..], p) == t[..WordLength(t, delims)]
          && WordsOf(Rest(), delims) == WordsOf(t[WordLength(t, delims)..], delims)
      ensures forall k :: 0 <= k < text.Length && k < p ==> text[k] == old(text[k])
    {
      hide CStr, WordLength, WordsOf, Terminated;
      ghost var a, t := text[..], CStr(text[..], p);
      CStrAt(a, p);
      sp := SkipWord(p, delims);
      ghost var n := WordLength(t, delims);
      if text[sp] != NUL {
        assert n < |t| && t[n] == text[sp];
        text[sp] := NUL;
        sp := sp + 1;
        CStrIs(text[..], sp, |t| - n - 1);
        assert CStr(text[..], sp) == t[n..][1..];
        WordsOfSkip(t[n..], delims);
      } else {
        assert n == |t|;
        CStrIs(text[..], sp, 0);
        assert CStr(text[..], sp) == t[n..];
      }
      CStrIs(text[..], p, n);
      assert CStr(text[..], p) == t[..n];
    }

    /** `strtok`: each call returns the first of the words still to be split, as a C string cut in place, and leaves
        exactly the others. */
    method Strtok(str: array?<char>, delims: string) returns (tok: int)
      requires Valid() && NUL !in delims && (str != null ==> Terminated(str[..], 0))
      modifies this, text, str
      ensures Valid()
      ensures delims == [] ==> tok == -1 && text == old(text) && sp == old(sp) && text[..] == old(text[..])
      ensures delims != [] ==> text == if str == null then old(text) else str
      ensures delims != [] ==> var s := if str == null then old(Rest()) else old(CStr(str[..], 0));
        if WordsOf(s, delims) == [] then tok == -1 && sp == -1 else TokenCut(tok, WordsOf(s, delims), delims)
      ensures delims != [] && tok >= 0 ==> tok >= if str == null then old(sp) else 0
      ensures delims != [] && str == null ==> forall k :: 0 <= k < text.Length && (k < tok || tok < 0) ==>
        text[k] == old(text[k])
    {
      hide CStr, LeadingDelims, WordLength, WordsOf, Terminated;
      if delims == [] {
        return -1;
      }
      if str != null {
        text, sp := str, 0;
      } else if sp < 0 {
        NoWords([], delims);
        return -1;
      }
      ghost var a, start, s := text[..], sp, CStr(text[..], sp);
      CStrAt(a, start);
      var p := SkipDelims(sp, delims);
      ghost var k := LeadingDelims(s, delims);
      ghost var t := s[k..];
      assert k < |s| <==> text[p] != NUL;
      if text[p] == NUL {
        NoWordsLeft(s, delims);
        sp := -1;
        return -1;
      }
      CStrIs(a, p, |t|);
      assert CStr(a, p) == t;
      SplitFirst(s, delims, k, t, WordLength(t, delims));
      CutWord(p, delims);
      tok := p;
    }
  }

  const ARGUMENT_SIZE: int := 512
  const COMMAND_SIZE: int := 1025

  /** The first n characters of a string, or all of it. */
  function Clip(s: string, n: nat): string {
    if |s| <= n then s else s[..n]
  }

  /** The user library's `strncpy`: copies at most count - 1 characters and always terminates. */
  method StrNCpy(dest: array<char>, src: array<char>, from: nat, count: nat)
    requires 0 < count <= dest.Length && dest != src && Terminated(src[..], from)
    modifies dest
    ensures CStr(dest[..], 0) == Clip(CStr(src[..], from), count - 1) && Terminated(dest[..], 0)
  {
    hide CStr, Terminated;
    ghost var s := CStr(src[..], from);
    CStrAt(src[..], from);
    var i := 0;
    while i < count - 1
      invariant 0 <= i <= count - 1 && i <= |s|
      invariant dest[..i] == s[..i]
    {
      if src[from + i] == NUL {
        break;
      }
      assert src[from + i] == s[i];
      dest[i] := src[from + i];
      assert dest[..i + 1] == dest[..i] + [s[i]];
      i := i + 1;
    }
    dest[i] := NUL;
    assert forall k :: 0 <= k < i ==> dest[k] == dest[..i][k] == s[..i][k] == src[from + k];
    CStrIs(dest[..], 0, i);
    assert dest[..][0..i] == s[..i];
  }

  /** `struct command_argument`. */
  class ArgNode {
    const argument: array<char>
    var next: ArgNode?

    constructor ()
      ensures argument.Length == ARGUMENT_SIZE && next == null && fresh(argument)
    {
      argument := new char[ARGUMENT_SIZE](_ => NUL);
      next := null;
    }
  }

  /** Each node links to the one after it and the last links to nothing. */
  ghost predicate Chained(nodes: seq<ArgNode>)
    reads nodes
  {
    && (forall i, j :: 0 <= i < j < |nodes| ==> nodes[i] != nodes[j])
    && forall i {:trigger nodes[i].next} :: 0 <= i < |nodes| ==>
      nodes[i].next == if i + 1 < |nodes| then nodes[i + 1] else null
  }

  ghost predicate HoldsAt(node: ArgNode, word: string)
    reads node.argument
  {
    node.argument.Length == ARGUMENT_SIZE && Terminated(node.argument[..], 0) && CStr(node.argument[..], 0) == word
  }

  /** The list holds these strings, in order. */
  ghost predicate Holds(nodes: seq<ArgNode>, words: seq<string>)
    reads nodes, set n | n in nodes :: n.argument
  {
    |nodes| == |words| && forall i :: 0 <= i < |nodes| ==> HoldsAt(nodes[i], words[i])
  }

  /** A command's words as the list stores them: each cut to 511 characters. */
  function Stored(words: seq<string>): (stored: seq<string>)
    ensures |stored| == |words|
  {
    seq(|words|, i requires 0 <= i < |words| => Clip(words[i], ARGUMENT_SIZE - 1))
  }

  lemma StoredAt(words: seq<string>, i: nat)
    requires i < |words|
    ensures Stored(words)[i] == Clip(words[i], ARGUMENT_SIZE - 1) && words[i..][0] == words[i]
  {
  }

  /** One node of the list: `kernel_malloc` and the `strncpy` of the token into it. */
  method MakeNode(text: array<char>, token: nat) returns (node: ArgNode)
    requires Terminated(text[..], token)
    ensures fresh(node) && fresh(node.argument) && node.next == null
    ensures HoldsAt(node, Clip(CStr(text[..], token), ARGUMENT_SIZE - 1))
  {
    hide CStr, Terminated;
    node := new ArgNode();
    StrNCpy(node.argument, text, token, ARGUMENT_SIZE);
  }

  /** One round of the parser's loop: store the token in a node of its own, link the node at the end, and cut the next
      token. */
  method AddToken(tk: Tokenizer, token: nat, nodes0: seq<ArgNode>, ghost words: seq<string>)
    returns (nodes: seq<ArgNode>, next: int)
    requires 0 < |nodes0| <= |words| && tk.Valid() && tk.TokenCut(token, words[|nodes0|..], " ")
    requires Chained(nodes0) && Holds(nodes0, Stored(words)[..|nodes0|])
    requires forall n :: n in nodes0 ==> n.argument != tk.text
    modifies tk, tk.text, nodes0[|nodes0| - 1]
    ensures |nodes| == |nodes0| + 1 <= |words| && nodes[..|nodes0|] == nodes0 && nodes[0] == nodes0[0] && Chained(nodes)
    ensures fresh(nodes[|nodes0|]) && fresh(nodes[|nodes0|].argument)
    ensures forall n :: n in nodes ==> (n in nodes0 || n == nodes[|nodes0|]) && n.argument != tk.text
    ensures Holds(nodes, Stored(words)[..|nodes|])
    ensures tk.Valid() && tk.text == old(tk.text)
    ensures if next < 0 then |nodes| == |words| else tk.TokenCut(next, words[|nodes|..], " ")
  {
    hide CStr, Terminated, WordsOf, Clip, HoldsAt, Stored;
    var n := |nodes0|;
    assert words[n..][1..] == words[n + 1..];
    StoredAt(words, n);
    var node := MakeNode(tk.text, token);
    var current := nodes0[n - 1];
    current.next := node;
    nodes := nodes0 + [node];
    next := tk.Strtok(null, " ");
  }

  lemma OneChained(nodes: seq<ArgNode>)
    requires |nodes| <= 1 && forall n :: n in nodes ==> n.next == null
    ensures Chained(nodes)
  {
  }

  /** `kernel_parse_command`: the words of the command line in order, each cut to 511 characters. `grants` is how many
      allocations `kernel_malloc` can still make; when they run out the list stops early. */
  method ParseCommand(tk: Tokenizer, command: array<char>, max: int, grants: nat)
    returns (root: ArgNode?, nodes: seq<ArgNode>)
    requires tk.Valid() && Terminated(command[..], 0)
    modifies tk, tk.text
    ensures root == if nodes == [] then null else nodes[0]
    ensures Chained(nodes) && forall n :: n in nodes ==> fresh(n) && fresh(n.argument)
    ensures max >= COMMAND_SIZE ==> nodes == []
    ensures max < COMMAND_SIZE ==>
      var words := Stored(WordsOf(Clip(old(CStr(command[..], 0)), COMMAND_SIZE - 1), " "));
      Holds(nodes, if grants < |words| then words[..grants] else words)
  {
    hide CStr, Terminated, WordsOf, HoldsAt, Stored, Clip, Chained, Tokenizer.Valid;
    OneChained([]);
    nodes := [];
    root := null;
    if max >= COMMAND_SIZE {
      return;
    }
    var scommand := new char[COMMAND_SIZE](_ => NUL);
    StrNCpy(scommand, command, 0, COMMAND_SIZE);
    ghost var words := WordsOf(Clip(CStr(command[..], 0), COMMAND_SIZE - 1), " ");
    ghost var stored := Stored(words);
    var token := tk.Strtok(scommand, " ");
    if token < 0 {
      return;
    }
    if grants == 0 {
      return;
    }
    root := MakeNode(tk.text, token);
    StoredAt(words, 0);
    nodes := [root];
    OneChained(nodes);
    token := tk.Strtok(null, " ");
    while token >= 0
      invariant tk.Valid() && tk.text == scommand && fresh(scommand)
      invariant 0 < |nodes| <= grants && |nodes| <= |words| && Chained(nodes) && root == nodes[0]
      invariant forall n :: n in nodes ==> fresh(n) && fresh(n.argument) && n.argument != scommand
      invariant Holds(nodes, Stored(words)[..|nodes|])
      invariant if token < 0 then |nodes| == |words| else tk.TokenCut(token, words[|nodes|..], " ")
      decreases grants - |nodes|
    {
      if |nodes| == grants {
        break;
      }
      assert nodes[|nodes| - 1] in nodes;
      nodes, token := AddToken(tk, token, nodes, words);
    }
  }
}
