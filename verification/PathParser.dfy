/**
  fs/pparser.c: splitting "d:/part/part" into a drive number and a list of
  parts.
 */
module PathParser {
  import opened Machine
  import opened Words

  const KERNEL_MAX_PATH: int := 108

  // ----- the value view

  predicate IsDigit(c: char) {
    '0' <= c <= '9'
  }

  /** `pathpraser_path_vaild_format`. */
  predicate ValidFormat(path: string) {
    |path| >= 3 && IsDigit(path[0]) && path[1] == ':' && path[2] == '/'
  }

  /** How many characters come before the first slash. */
  function PartLength(s: string): (n: nat)
    ensures n <= |s| && '/' !in s[..n] && (n < |s| ==> s[n] == '/')
  {
    if s == [] || s[0] == '/' then 0
    else
      var n := PartLength(s[1..]);
      assert s[..n + 1] == [s[0]] + s[1..][..n];
      n + 1
  }

  /** What follows the first part and its slash. */
  function AfterPart(s: string): (r: string)
    ensures |r| <= |s| && (s != [] ==> |r| < |s|)
  {
    var n := PartLength(s);
    if n < |s| then s[n + 1..] else []
  }

  /** The parts of a path after the drive, up to the first empty one. */
  function PartsOf(s: string): seq<string>
    decreases |s|
  {
    var n := PartLength(s);
    if n == 0 then [] else [s[..n]] + PartsOf(AfterPart(s))
  }

  /** The written form of a list of parts. */
  function Join(parts: seq<string>): string {
    if parts == [] then [] else if |parts| == 1 then parts[0] else parts[0] + "/" + Join(parts[1..])
  }

  function DrivePrefix(drive: nat): string
    requires drive < 10
  {
    [(drive as char) + '0', ':', '/']
  }

  function Render(drive: nat, parts: seq<string>): string
    requires drive < 10
  {
    DrivePrefix(drive) + Join(parts)
  }

  predicate ProperParts(parts: seq<string>) {
    forall i :: 0 <= i < |parts| ==> parts[i] != [] && '/' !in parts[i]
  }

  lemma {:induction false} PartLengthIs(s: string, n: nat)
    requires n <= |s| && '/' !in s[..n] && (n < |s| ==> s[n] == '/')
    ensures PartLength(s) == n
  {
    if n > 0 {
      assert s[0] == s[..n][0] && s[1..][..n - 1] == s[..n][1..];
      PartLengthIs(s[1..], n - 1);
    }
  }

  /** Splitting a written list of parts gives the list back. */
  lemma {:induction false} PartsOfJoin(parts: seq<string>)
    requires ProperParts(parts)
    ensures PartsOf(Join(parts)) == parts
    decreases |parts|
  {
    hide PartsOf;
    if parts == [] {
      PartsUnfold("", 0);
    } else {
      var p, rest := parts[0], parts[1..];
      PartsOfJoin(rest);
      var tail := if rest == [] then "" else "/" + Join(rest);
      assert Join(parts) == p + tail;
      assert rest != [] ==> tail[1..] == Join(rest);
      PartsUnfold("", 0);
      FirstPart(p, tail);
    }
  }

  lemma PartsUnfold(s: string, n: nat)
    requires n == PartLength(s)
    ensures PartsOf(s) == if n == 0 then [] else [s[..n]] + PartsOf(if n < |s| then s[n + 1..] else [])
  {
    hide PartLength, PartsOf;
    PartsNext(s);
  }

  lemma PartsNext(s: string)
    ensures PartsOf(s) == if PartLength(s) == 0 then [] else [s[..PartLength(s)]] + PartsOf(AfterPart(s))
  {
    hide PartLength, AfterPart;
  }

  lemma TailStep(parts: seq<string>, k: nat)
    requires k < |parts|
    ensures parts[k..] == [parts[k]] + parts[k + 1..]
  {
  }

  lemma FirstPart(p: string, tail: string)
    requires p != [] && '/' !in p && (tail != [] ==> tail[0] == '/')
    ensures PartsOf(p + tail) == [p] + PartsOf(if tail == [] then "" else tail[1..])
  {
    hide PartLength, PartsOf;
    var s := p + tail;
    assert s[..|p|] == p;
    assert tail != [] ==> s[|p|] == tail[0] && s[|p| + 1..] == tail[1..];
    PartLengthIs(s, |p|);
    PartsUnfold(s, |p|);
  }

  /** Writing the parts found gives a prefix of what was split. */
  lemma {:induction false} JoinOfPartsIsPrefix(s: string)
    ensures Join(PartsOf(s)) <= s && ProperParts(PartsOf(s))
    decreases |s|
  {
    hide PartLength, PartsOf;
    var n := PartLength(s);
    PartsUnfold(s, n);
    if n > 0 {
      var after := if n < |s| then s[n + 1..] else [];
      JoinOfPartsIsPrefix(after);
      JoinPrefix(s, n, PartsOf(after), after);
    }
  }

  lemma JoinPrefix(s: string, n: nat, rest: seq<string>, after: string)
    requires 0 < n <= |s| && (n < |s| ==> s[n] == '/') && after == (if n < |s| then s[n + 1..] else [])
    requires ProperParts(rest) && Join(rest) <= after && '/' !in s[..n]
    ensures Join([s[..n]] + rest) <= s && ProperParts([s[..n]] + rest)
  {
    var parts := [s[..n]] + rest;
    assert parts[1..] == rest && s == s[..n] + s[n..];
    if rest != [] {
      assert Join(rest) != [] by {
        assert rest[0] != [];
      }
      assert s[n..] == "/" + after;
      assert Join(parts) == s[..n] + ("/" + Join(rest));
    }
  }

  /** What `pathparser_parse` answers while memory lasts: the drive and the parts, or nothing. */
  datatype Parsed = Root(drive: nat, parts: seq<string>) | Refused

  function Parse(path: string): Parsed {
    if |path| > KERNEL_MAX_PATH || !ValidFormat(path) || PartsOf(path[3..]) == [] then Refused
    else Root((path[0] - '0') as nat, PartsOf(path[3..]))
  }

  /** Parsing the written form of a drive and its parts gives both back, whenever the written form is within the
      length limit. */
  lemma RenderThenParse(drive: nat, parts: seq<string>)
    requires drive < 10 && parts != [] && ProperParts(parts)
    ensures Parse(Render(drive, parts)) == if |Render(drive, parts)| <= 108 then Root(drive, parts)
      else Refused
  {
    var path := Render(drive, parts);
    assert path[3..] == Join(parts);
    PartsOfJoin(parts);
  }

  /** No part of the path is empty: no leading slash, no trailing slash, no two slashes in a row. */
  predicate Tidy(s: string) {
    s != [] && s[0] != '/' && s[|s| - 1] != '/' && forall k :: 0 < k < |s| ==> s[k - 1] != '/' || s[k] != '/'
  }

  lemma TidyStep(s: string, n: nat)
    requires 0 < n < |s| && s[n] == '/' && '/' !in s[..n]
    ensures Tidy(s) <==> Tidy(s[n + 1..])
  {
    var after := s[n + 1..];
    assert s[0] == s[..n][0];
    if Tidy(s) {
      assert s[|s| - 1] != '/';
      forall k | 0 < k < |after| ensures after[k - 1] != '/' || after[k] != '/' {
        assert after[k] == s[n + 1 + k] && after[k - 1] == s[n + 1 + k - 1];
      }
      assert after[0] == s[n + 1] && s[n + 1 - 1] == '/';
    }
    if Tidy(after) {
      forall k | 0 < k < |s| ensures s[k - 1] != '/' || s[k] != '/' {
        if k <= n {
          assert s[k - 1] == s[..n][k - 1];
        } else if k == n + 1 {
          assert s[k] == after[0];
        } else {
          assert s[k] == after[k - n - 1] && s[k - 1] == after[k - n - 1 - 1];
        }
      }
    }
  }

  /** Nothing is lost exactly when no part is empty. */
  lemma {:induction false} JoinIsWhole(s: string)
    requires s != []
    ensures Join(PartsOf(s)) == s <==> Tidy(s)
    decreases |s|
  {
    hide PartLength, PartsOf;
    var n := PartLength(s);
    PartsUnfold(s, n);
    PartsUnfold("", 0);
    if n == |s| {
      assert s[..n] == s;
      assert s[0] in s[..n] && s[|s| - 1] in s[..n] && forall k :: 0 < k < |s| ==> s[k] in s[..n];
    } else if n > 0 {
      var after := s[n + 1..];
      TidyStep(s, n);
      assert s == s[..n] + ("/" + after);
      JoinOfPartsIsPrefix(after);
      JoinSplits(s[..n], PartsOf(after), after);
      if after != [] {
        JoinIsWhole(after);
      }
    }
  }

  lemma JoinSplits(p: string, rest: seq<string>, after: string)
    requires ProperParts(rest) && (after == [] ==> rest == [])
    ensures Join([p] + rest) == p + ("/" + after) <==> rest != [] && Join(rest) == after
  {
    assert ([p] + rest)[1..] == rest;
    if rest == [] {
      assert |p| < |p + ("/" + after)|;
    } else {
      assert Join([p] + rest) == p + ("/" + Join(rest));
      assert (p + ("/" + Join(rest)))[|p| + 1..] == Join(rest) && (p + ("/" + after))[|p| + 1..] == after;
    }
  }

  /** Writing back a successful parse gives a prefix of the input, and all of it exactly when no part is empty. */
  lemma ParseThenRender(path: string)
    requires Parse(path).Root?
    ensures
      var r := Parse(path); r.drive < 10 && r.parts != [] && ProperParts(r.parts) && Render(r.drive, r.parts) <= path
    ensures Render(Parse(path).drive, Parse(path).parts) == path <==> Tidy(path[3..])
  {
    hide PartsOf, Join, Tidy, PartLength;
    JoinOfPartsIsPrefix(path[3..]);
    PartsUnfold("", 0);
    assert path[3..] != [] by {
      assert PartLength("") == 0;
    }
    JoinIsWhole(path[3..]);
    var r := Parse(path);
    assert Render(r.drive, r.parts)[3..] == Join(r.parts) && Render(r.drive, r.parts)[..3] == path[..3];
    assert path == path[..3] + path[3..];
  }

  // ----- the parser

  class PathPart {
    const part: array<char>
    var next: PathPart?

    constructor (part: array<char>)
      ensures this.part == part && next == null
    {
      this.part, next := part, null;
    }
  }

  class PathRoot {
    const drive: nat
    var first: PathPart?

    constructor (drive: nat)
      ensures this.drive == drive && first == null
    {
      this.drive, first := drive, null;
    }
  }

  ghost predicate Linked(nodes: seq<PathPart>)
    reads nodes
  {
    && (forall i, j :: 0 <= i < j < |nodes| ==> nodes[i] != nodes[j])
    && forall i {:trigger nodes[i].next} :: 0 <= i < |nodes| ==>
      nodes[i].next == if i + 1 < |nodes| then nodes[i + 1] else null
  }

  ghost predicate PartIs(node: PathPart, part: string)
    reads node.part
  {
    CStr(node.part[..], 0) == part
  }

  const EBADPATH: i32 := -4

  /** `pathparser_get_drive_by_path`: the one drive the path is written under and the cursor at what follows, or a
      refusal of a path that is written under none. */
  method GetDriveByPath(path: string) returns (drive: int, pos: nat)
    ensures 0 <= drive < 10 || (drive == -4 && pos == 0)
    ensures drive >= 0 ==> pos <= |path| && path == DrivePrefix(drive) + path[pos..]
    ensures forall d: nat, rest: string :: d < 10 && path == DrivePrefix(d) + rest ==> drive == d && path[pos..] == rest
    ensures drive >= 0 <==> ValidFormat(path)
  {
    if !ValidFormat(path) {
      return EBADPATH, 0;
    }
    drive, pos := (path[0] - '0') as int, 3;
  }

  /** `pathparser_get_path_part`: the next part in a buffer of its own, or no buffer when the part is empty; the path
      bound keeps every store inside the buffer. `grants` is how many allocations can still succeed. */
  method GetPathPart(path: string, pos: nat, grants: nat) returns (status: i32, part: array?<char>, next: nat)
    requires 3 <= pos <= |path| <= KERNEL_MAX_PATH && NUL !in path
    ensures status == if grants == 0 then ENOMEM else OK
    ensures status == OK ==> pos <= next <= |path| && path[next..] == AfterPart(path[pos..])
    ensures status == OK ==> (part == null <==> PartLength(path[pos..]) == 0)
    ensures part != null ==> fresh(part) && CStr(part[..], 0) == path[pos..][..PartLength(path[pos..])]
    ensures status != OK ==> part == null
  {
    hide PartLength, CStr, Terminated;
    part, next := null, pos;
    if grants == 0 {
      return ENOMEM, null, pos;
    }
    status := OK;
    ghost var s := path[pos..];
    var buffer := new char[KERNEL_MAX_PATH](_ => NUL);
    var i := 0;
    while next < |path| && path[next] != '/'
      invariant 0 <= i <= |s| && next == pos + i && '/' !in s[..i]
      invariant buffer[..i] == s[..i]
    {
      assert path[next] == s[i];
      buffer[i] := path[next];
      assert s[..i + 1] == s[..i] + [s[i]];
      assert buffer[..i + 1] == buffer[..i] + [s[i]];
      i := i + 1;
      next := next + 1;
    }
    assert i < |s| ==> s[i] == path[next];
    PartLengthIs(s, i);
    if next < |path| && path[next] == '/' {
      next := next + 1;
    }
    assert path[next..] == AfterPart(s);
    buffer[i] := NUL;
    assert forall k :: 0 <= k < i ==> buffer[k] == buffer[..i][k] == s[..i][k] == path[pos + k];
    CStrIs(buffer[..], 0, i);
    assert buffer[..][0..i] == s[..i];
    if i == 0 {
      return;
    }
    part := buffer;
  }

  /** `pathparser_parse_path_part`: the next part as a list node linked behind the last one. */
  method ParsePathPart(nodes0: seq<PathPart>, path: string, pos: nat, grants: nat)
    returns (status: i32, node: PathPart?, next: nat)
    requires 3 <= pos <= |path| <= KERNEL_MAX_PATH && NUL !in path && Linked(nodes0)
    modifies if nodes0 == [] then {} else {nodes0[|nodes0| - 1]}
    ensures status == if grants == 0 || (grants == 1 && PartLength(path[pos..]) > 0) then ENOMEM else OK
    ensures status == OK ==> pos <= next <= |path| && path[next..] == AfterPart(path[pos..])
    ensures status == OK ==> (node == null <==> PartLength(path[pos..]) == 0)
    ensures node != null ==>
      && status == OK && fresh(node) && PartIs(node, path[pos..][..PartLength(path[pos..])])
      && Linked(nodes0 + [node])
    ensures node == null ==> Linked(nodes0)
    ensures forall i, w :: 0 <= i < |nodes0| && old(PartIs(nodes0[i], w)) ==> PartIs(nodes0[i], w)
  {
    hide PartLength, CStr;
    var part;
    node := null;
    status, part, next := GetPathPart(path, pos, grants);
    if status < 0 || part == null {
      return;
    }
    if grants == 1 {
      return ENOMEM, null, next;
    }
    node := new PathPart(part);
    if nodes0 != [] {
      nodes0[|nodes0| - 1].next := node;
    }
  }

  /** The loop of `pathparser_parse`: the parts after the first, each linked behind the one before. */
  method ParseRest(path: string, start: nat, first: PathPart, grants: nat, ghost parts: seq<string>)
    returns (res: i32, nodes: seq<PathPart>)
    requires 3 <= start <= |path| <= KERNEL_MAX_PATH && NUL !in path && first.next == null
    requires parts != [] && PartIs(first, parts[0]) && parts[1..] == PartsOf(path[start..])
    modifies first
    ensures res == if grants < 2 * |parts| - 1 then ENOMEM else OK
    ensures res == OK ==> |nodes| == |parts| && nodes[0] == first && Linked(nodes)
    ensures res == OK ==> forall i :: 0 <= i < |nodes| ==> PartIs(nodes[i], parts[i])
  {
    hide PartsOf, PartLength, AfterPart, CStr, PartIs;
    var node: PathPart?, pos := first, start;
    nodes := [first];
    res := OK;
    while node != null
      invariant 0 < |nodes| <= |parts| && nodes[0] == first && Linked(nodes) && 2 * |nodes| - 2 <= grants
      invariant start <= pos <= |path|
      invariant forall i :: 0 <= i < |nodes| ==> (nodes[i] == first || fresh(nodes[i])) && PartIs(nodes[i], parts[i])
      invariant node != null ==> parts[|nodes|..] == PartsOf(path[pos..])
      invariant node == null ==> |nodes| == |parts| && 2 * |nodes| - 1 <= grants
      invariant res == OK
      decreases |parts| - |nodes|, node
    {
      PartsNext(path[pos..]);
      ghost var before := nodes;
      var next;
      res, next, pos := ParsePathPart(nodes, path, pos, grants - (2 * |nodes| - 2));
      if res < 0 {
        return;
      }
      if next != null {
        nodes := nodes + [next];
        TailStep(parts, |before|);
      }
      node := next;
    }
  }

  /** `pathparser_parse`: with memory for it, a linked list of exactly the parts of the path; otherwise an error and
      no list. */
  method PathParse(path: string, grants: nat) returns (res: i32, root: PathRoot?, nodes: seq<PathPart>)
    requires NUL !in path
    ensures res == if |path| > KERNEL_MAX_PATH || !ValidFormat(path) then EINVAGS
      else if grants < 2 * |PartsOf(path[3..])| + 2 then ENOMEM
      else if PartsOf(path[3..]) == [] then EINVAGS else OK
    ensures root == null <==> res != OK
    ensures root != null ==> Parse(path) == Root(root.drive, PartsOf(path[3..]))
    ensures root != null ==> |nodes| == |PartsOf(path[3..])| > 0 && root.first == nodes[0] && Linked(nodes)
    ensures root != null ==> forall i :: 0 <= i < |nodes| ==> PartIs(nodes[i], PartsOf(path[3..])[i])
  {
    hide PartsOf, PartLength, AfterPart, CStr, PartIs;
    res, root, nodes := OK, null, [];
    if |path| > KERNEL_MAX_PATH {
      return EINVAGS, null, [];
    }
    var drive, pos := GetDriveByPath(path);
    if drive < 0 {
      return EINVAGS, null, [];
    }
    if grants == 0 {
      return ENOMEM, null, [];
    }
    var made := new PathRoot(drive);
    PartsNext(path[pos..]);
    var node;
    res, node, pos := ParsePathPart([], path, pos, grants - 1);
    if res < 0 || node == null {
      return if res < 0 then res else EINVAGS, null, [];
    }
    assert [] + [node] == [node];
    assert [node][0].next == null;
    made.first := node;
    res, nodes := ParseRest(path, pos, node, grants - 3, PartsOf(path[3..]));
    if res < 0 {
      return res, null, [];
    }
    root := made;
  }
}
