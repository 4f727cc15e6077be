/**
 * The directory tree of file_system.py as an arena: every directory and
 * file is a Node stored under an integer id, and a directory keeps its
 * children as (name, id) entries in insertion order, as the source's
 * nested `children` dicts do. This module holds the pure side of the tree
 * operations: child lookup, walking `current_path`, `_resolve_path`, the
 * search DFS and the plan `mv` follows. The state and the methods that
 * change it are in file_system.dfy.
 */
module Tree {

  import opened Options
  import opened Paths

  type NodeId = nat

  const ROOT: NodeId := 0

  /** One child of a directory: the key it is stored under and its node. */
  datatype Entry = Entry(name: string, id: NodeId)

  datatype Node =
    | Dir(name: string, children: seq<Entry>)
    | File(name: string, size: nat, firstBlock: int)

  /** The outcome of an operation: Ok, one of the errors the source prints,
      or Crash for the KeyError the source raises (and does not catch) when
      `current_path` no longer leads to a directory. */
  datatype Status =
    | Ok
    | AlreadyExists
    | NotFound
    | NotADirectory
    | IsADirectory
    | AlreadyOpen
    | NotOpen
    | DiskFull
    | DirectoryNotEmpty
    | InvalidDestination
    | Crash

  // ---------- children ----------

  /** The position of the child called `name`, or -1 (`name in children`). */
  function Find(cs: seq<Entry>, name: string): (r: int)
    ensures -1 <= r < |cs|
    ensures r == -1 <==> forall i :: 0 <= i < |cs| ==> cs[i].name != name
    ensures r >= 0 ==> cs[r].name == name && forall i :: 0 <= i < r ==> cs[i].name != name
    decreases |cs|
  {
    if cs == [] then -1
    else if cs[0].name == name then 0
    else
      var k := Find(cs[1..], name);
      if k < 0 then -1 else k + 1
  }

  predicate HasName(cs: seq<Entry>, name: string)
  {
    Find(cs, name) >= 0
  }

  /** `children.get(name)`. */
  function Lookup(cs: seq<Entry>, name: string): (r: Option<NodeId>)
    ensures r.Some? <==> HasName(cs, name)
    ensures r.Some? ==> Entry(name, r.value) == cs[Find(cs, name)]
  {
    var i := Find(cs, name);
    if i < 0 then None else Some(cs[i].id)
  }

  /** `children.pop(name)`: the entry called `name` is removed, the others
      keep their order. */
  function Without(cs: seq<Entry>, name: string): (r: seq<Entry>)
    ensures !HasName(cs, name) ==> r == cs
    ensures HasName(cs, name) ==>
      && |r| == |cs| - 1
      && forall j :: 0 <= j < |r| ==> r[j] == if j < Find(cs, name) then cs[j] else cs[j + 1]
  {
    var i := Find(cs, name);
    if i < 0 then cs else cs[..i] + cs[i + 1..]
  }

  ghost predicate UniqueNames(cs: seq<Entry>)
  {
    forall i, j :: 0 <= i < j < |cs| ==> cs[i].name != cs[j].name
  }

  lemma WithoutUnique(cs: seq<Entry>, name: string)
    requires UniqueNames(cs)
    ensures UniqueNames(Without(cs, name))
    ensures !HasName(Without(cs, name), name)
  {
    var r := Without(cs, name);
    if HasName(cs, name) {
      var k := Find(cs, name);
      forall j | 0 <= j < |r|
        ensures r[j].name != name
      {
        if j < k { assert r[j] == cs[j]; } else { assert r[j] == cs[j + 1]; }
      }
    }
  }

  /** Popping an entry never brings in a name that was absent. */
  lemma WithoutAbsent(cs: seq<Entry>, name: string, other: string)
    requires !HasName(cs, other)
    ensures !HasName(Without(cs, name), other)
  {
    var r := Without(cs, name);
    if HasName(cs, name) {
      var k := Find(cs, name);
      forall j | 0 <= j < |r|
        ensures r[j].name != other
      {
        if j < k { assert r[j] == cs[j]; } else { assert r[j] == cs[j + 1]; }
      }
    }
  }

  /** Popping one name keeps every other name that was there. */
  lemma WithoutKeepsOthers(cs: seq<Entry>, name: string, other: string)
    requires other != name && HasName(cs, other)
    ensures HasName(Without(cs, name), other)
  {
    var r := Without(cs, name);
    if HasName(cs, name) {
      var k := Find(cs, name);
      var j := Find(cs, other);
      assert cs[j].name == other && cs[k].name == name;
      var j' := if j < k then j else j - 1;
      assert 0 <= j' < |r| && r[j'] == cs[j];
    }
  }

  /** Appending an entry under a name the children lack keeps names unique. */
  lemma AppendUnique(cs: seq<Entry>, x: Entry)
    requires UniqueNames(cs) && !HasName(cs, x.name)
    ensures UniqueNames(cs + [x])
  {
    var cs' := cs + [x];
    forall i, j | 0 <= i < j < |cs'|
      ensures cs'[i].name != cs'[j].name
    {
      assert cs'[i] == cs[i];
      if j < |cs| {
        assert cs'[j] == cs[j];
      }
    }
  }

  /** Appending an entry under a name the children lack makes that name
      find the entry, and leaves every other name as it was. */
  lemma AppendEntry(cs: seq<Entry>, x: Entry, other: string)
    requires !HasName(cs, x.name) && other != x.name
    ensures Lookup(cs + [x], x.name) == Some(x.id)
    ensures HasName(cs + [x], other) == HasName(cs, other)
  {
    var cs' := cs + [x];
    assert cs'[|cs|] == x;
    forall i | 0 <= i < |cs| ensures cs'[i] == cs[i] { }
  }

  // ---------- shape of the arena ----------

  /** Every child entry names a node of the arena. */
  ghost predicate Closed(nodes: map<NodeId, Node>)
  {
    forall d, i :: d in nodes && nodes[d].Dir? && 0 <= i < |nodes[d].children| ==> nodes[d].children[i].id in nodes
  }

  ghost predicate AllIn(nodes: map<NodeId, Node>, cs: seq<Entry>)
  {
    forall i :: 0 <= i < |cs| ==> cs[i].id in nodes
  }

  /** The arena invariant: the root is a directory; ids are below the next
      fresh id; the entry of a child carries the child's own name, is never
      the root, and sits in the one directory that `parent` records for it,
      so no node is the child of two directories; and names are unique
      within a directory, as dict keys are. */
  ghost predicate TreeShape(nodes: map<NodeId, Node>, parent: map<NodeId, NodeId>, nextId: nat)
  {
    && ROOT in nodes && nodes[ROOT].Dir?
    && Closed(nodes)
    && (forall id :: id in nodes ==> id < nextId)
    && (forall d, i :: d in nodes && nodes[d].Dir? && 0 <= i < |nodes[d].children| ==>
          var e := nodes[d].children[i];
          e.id != ROOT && nodes[e.id].name == e.name && e.id in parent && parent[e.id] == d)
    && (forall d :: d in nodes && nodes[d].Dir? ==> UniqueNames(nodes[d].children))
  }

  /** Adding a fresh node as a new, uniquely named child of directory `p`
      (what mkdir and create_file do). */
  function AddChild(nodes: map<NodeId, Node>, p: NodeId, id: NodeId, node: Node): (r: map<NodeId, Node>)
    requires p in nodes && nodes[p].Dir?
    ensures r.Keys == nodes.Keys + {id}
    ensures id != p ==> r[id] == node
    ensures r[p].Dir? && r[p].name == nodes[p].name
    ensures !HasName(nodes[p].children, node.name) ==> Lookup(r[p].children, node.name) == Some(id)
    ensures forall n :: n in nodes && n != p && n != id ==> r[n] == nodes[n]
  {
    var cs := nodes[p].children;
    assert (cs + [Entry(node.name, id)])[|cs|] == Entry(node.name, id);
    nodes[id := node][p := nodes[p].(children := nodes[p].children + [Entry(node.name, id)])]
  }

  lemma AddChildShape(nodes: map<NodeId, Node>, parent: map<NodeId, NodeId>, nextId: nat, p: NodeId, node: Node)
    requires TreeShape(nodes, parent, nextId)
    requires p in nodes && nodes[p].Dir? && !HasName(nodes[p].children, node.name)
    requires node.Dir? ==> node.children == []
    ensures TreeShape(AddChild(nodes, p, nextId, node), parent[nextId := p], nextId + 1)
  {
    var nodes' := AddChild(nodes, p, nextId, node);
    var parent' := parent[nextId := p];
    forall d, i | d in nodes' && nodes'[d].Dir? && 0 <= i < |nodes'[d].children|
      ensures var e := nodes'[d].children[i];
        e.id in nodes' && e.id != ROOT && nodes'[e.id].name == e.name && e.id in parent' && parent'[e.id] == d
    {
      var e := nodes'[d].children[i];
      if d == p && i == |nodes[p].children| {
        assert e == Entry(node.name, nextId);
      } else {
        assert d != nextId;
        assert e == nodes[d].children[i];
        assert e.id in nodes && e.id != nextId;
      }
    }
    forall d | d in nodes' && nodes'[d].Dir?
      ensures UniqueNames(nodes'[d].children)
    {
      if d == p {
        var cs := nodes'[d].children;
        forall i, j | 0 <= i < j < |cs| ensures cs[i].name != cs[j].name {
          if j == |cs| - 1 {
            assert cs[i] == nodes[p].children[i];
          }
        }
      }
    }
  }

  /** Removing child `name` (node `id`) of directory `p` from the arena
      (what delete_file does once its checks pass). */
  function Detach(nodes: map<NodeId, Node>, p: NodeId, name: string, id: NodeId): (r: map<NodeId, Node>)
    requires p in nodes && nodes[p].Dir?
    ensures r.Keys == nodes.Keys - {id} + {p}
    ensures r[p].Dir? && r[p].name == nodes[p].name
    ensures HasName(nodes[p].children, name) ==> |r[p].children| == |nodes[p].children| - 1
    ensures forall n :: n in nodes && n != p && n != id ==> r[n] == nodes[n]
  {
    var cs := Without(nodes[p].children, name);
    (nodes - {id})[p := nodes[p].(children := cs)]
  }

  lemma DetachShape(nodes: map<NodeId, Node>, parent: map<NodeId, NodeId>, nextId: nat, p: NodeId, name: string, id: NodeId)
    requires TreeShape(nodes, parent, nextId)
    requires p in nodes && nodes[p].Dir? && Lookup(nodes[p].children, name) == Some(id)
    requires id != p
    requires nodes[id].Dir? ==> nodes[id].children == []
    ensures TreeShape(Detach(nodes, p, name, id), parent, nextId)
  {
    var nodes' := Detach(nodes, p, name, id);
    var k := Find(nodes[p].children, name);
    WithoutUnique(nodes[p].children, name);
    forall d, i | d in nodes' && nodes'[d].Dir? && 0 <= i < |nodes'[d].children|
      ensures var e := nodes'[d].children[i];
        e.id in nodes' && e.id != ROOT && nodes'[e.id].name == e.name && e.id in parent && parent[e.id] == d
    {
      var e := nodes'[d].children[i];
      if d == p {
        var j := if i < k then i else i + 1;
        assert e == nodes[p].children[j];
        assert e.name != name;
        assert e.id != id;
      } else {
        assert e == nodes[d].children[i];
        assert parent[e.id] == d && parent[id] == p;
      }
    }
  }

  /** What delete_file leaves: the directory no longer has `name`, still
      has every other name it had, and the node is gone from the arena. */
  lemma DetachForgets(nodes: map<NodeId, Node>, parent: map<NodeId, NodeId>, nextId: nat, p: NodeId, name: string, id: NodeId, other: string)
    requires TreeShape(nodes, parent, nextId)
    requires p in nodes && nodes[p].Dir? && Lookup(nodes[p].children, name) == Some(id)
    requires nodes[id].Dir? ==> nodes[id].children == []
    ensures var nodes' := Detach(nodes, p, name, id);
      && id !in nodes' && p in nodes'
      && !HasName(nodes'[p].children, name)
      && (other != name ==> HasName(nodes'[p].children, other) == HasName(nodes[p].children, other))
  {
    var k := Find(nodes[p].children, name);
    assert nodes[p].children[k].id == id;
    WithoutUnique(nodes[p].children, name);
    if other != name {
      if HasName(nodes[p].children, other) {
        WithoutKeepsOthers(nodes[p].children, name, other);
      } else {
        WithoutAbsent(nodes[p].children, name, other);
      }
    }
  }

  // ---------- walking current_path (_get_current_dir_node) ----------

  /** One step of `node = node["children"][part]`: it fails (KeyError) on a
      file or on a missing name, and may land on a file. */
  function WalkStep(nodes: map<NodeId, Node>, n: NodeId, part: string): (r: Option<NodeId>)
    requires Closed(nodes) && n in nodes
    ensures r.Some? ==> r.value in nodes
  {
    match nodes[n]
    case File(_, _, _) => None
    case Dir(_, cs) => Lookup(cs, part)
  }

  function Walk(nodes: map<NodeId, Node>, n: NodeId, path: seq<string>): (r: Option<NodeId>)
    requires Closed(nodes) && n in nodes
    ensures r.Some? ==> r.value in nodes
    decreases |path|
  {
    if path == [] then Some(n)
    else
      match WalkStep(nodes, n, path[0])
      case None => None
      case Some(c) => Walk(nodes, c, path[1..])
  }

  /** Walking one more name is walking the path, then one step (what `cd`
      relies on when it appends to current_path). */
  lemma {:induction false} WalkAppend(nodes: map<NodeId, Node>, n: NodeId, path: seq<string>, part: string)
    requires Closed(nodes) && n in nodes
    ensures Walk(nodes, n, path + [part]) ==
      match Walk(nodes, n, path)
      case None => None
      case Some(m) => WalkStep(nodes, m, part)
    decreases |path|
  {
    if path == [] {
      assert [part][1..] == [];
    } else {
      assert (path + [part])[0] == path[0] && (path + [part])[1..] == path[1..] + [part];
      match WalkStep(nodes, n, path[0])
      case None =>
      case Some(c) => WalkAppend(nodes, c, path[1..], part);
    }
  }

  /** A non-empty sequence is its front followed by its last element. */
  lemma InitLast<T>(s: seq<T>)
    requires s != []
    ensures s[..|s| - 1] + [s[|s| - 1]] == s
  {
  }

  /** Dropping the first of the elements from `i` on leaves those from `i + 1` on. */
  lemma DropFront<T>(s: seq<T>, i: nat)
    requires i < |s|
    ensures s[i..][1..] == s[i + 1..]
  {
  }

  /** Taking one more element of a sequence extends the prefix by it. */
  lemma TakeOneMore<T>(s: seq<T>, k: nat)
    requires k < |s|
    ensures s[..k + 1][..k] == s[..k] && s[..k + 1][k] == s[k]
  {
  }

  /** A path that walks successfully walks, without its last name, to a
      directory (`cd ..` never breaks a good current directory). */
  lemma WalkPrefix(nodes: map<NodeId, Node>, n: NodeId, path: seq<string>)
    requires Closed(nodes) && n in nodes && path != []
    requires Walk(nodes, n, path).Some?
    ensures Walk(nodes, n, path[..|path| - 1]).Some?
    ensures nodes[Walk(nodes, n, path[..|path| - 1]).value].Dir?
  {
    var init := path[..|path| - 1];
    InitLast(path);
    WalkAppend(nodes, n, init, path[|path| - 1]);
  }

  /** The current directory: where `current_path` leads from the root, when
      that is a directory. None stands for the KeyError that every operation
      using _get_current_dir_node raises when the path has gone stale (a
      missing name, or a file where a directory was). */
  function WorkingDir(nodes: map<NodeId, Node>, cwdPath: seq<string>): (r: Option<NodeId>)
    requires Closed(nodes) && ROOT in nodes
    ensures r.Some? ==> r.value in nodes && nodes[r.value].Dir?
    ensures r.Some? <==> Walk(nodes, ROOT, cwdPath).Some? && nodes[Walk(nodes, ROOT, cwdPath).value].Dir?
  {
    match Walk(nodes, ROOT, cwdPath)
    case None => None
    case Some(n) => if nodes[n].Dir? then Some(n) else None
  }

  // ---------- _resolve_path ----------

  datatype Step = Fault | Miss | Into(id: NodeId)

  /** The loop over `parts[:-1]` of _resolve_path: move into each named
      subdirectory; a missing name or a file stops with a miss, and a
      starting node that is a file raises (KeyError on its "children"). */
  function Descend(nodes: map<NodeId, Node>, n: NodeId, parts: seq<string>): (r: Step)
    requires Closed(nodes) && n in nodes
    ensures r.Into? ==> r.id in nodes
    ensures r.Into? && parts != [] ==> nodes[r.id].Dir?
    decreases |parts|
  {
    if parts == [] then Into(n)
    else
      match nodes[n]
      case File(_, _, _) => Fault
      case Dir(_, cs) =>
        match Lookup(cs, parts[0])
        case None => Miss
        case Some(c) => if nodes[c].Dir? then Descend(nodes, c, parts[1..]) else Miss
  }

  /** What _resolve_path returns: a (directory, last name) pair, or one of its
      sentinels (None, "/"), (None, "."), (None, None); Crashed for the
      KeyError it can raise. */
  datatype Resolved =
    | Located(dir: NodeId, name: string)
    | AtRoot
    | AtCurrent
    | Unresolved
    | Crashed

  function Finish(s: Step, last: string): Resolved
  {
    match s
    case Fault => Crashed
    case Miss => Unresolved
    case Into(d) => Located(d, last)
  }

  function PathParts(path: string): (parts: seq<string>)
    ensures path != "/" ==> |parts| >= 1
  {
    if path == "/" then [] else Split(Strip(path))
  }

  function Resolution(nodes: map<NodeId, Node>, cwdPath: seq<string>, path: string): (r: Resolved)
    requires Closed(nodes) && ROOT in nodes
    ensures r.Located? ==> r.dir in nodes
  {
    var parts := PathParts(path);
    if |path| > 0 && path[0] == SEP then
      if parts == [] then AtRoot
      else Finish(Descend(nodes, ROOT, parts[..|parts| - 1]), parts[|parts| - 1])
    else
      match Walk(nodes, ROOT, cwdPath)
      case None => Crashed
      case Some(cwd) =>
        if path == "" || path == "." then AtCurrent
        else Finish(Descend(nodes, cwd, parts[..|parts| - 1]), parts[|parts| - 1])
  }

  /** A plain name resolves to itself in the current directory. */
  lemma ResolveName(nodes: map<NodeId, Node>, cwdPath: seq<string>, name: string, cwd: NodeId)
    requires Closed(nodes) && ROOT in nodes
    requires name != "" && name != "." && SEP !in name
    requires Walk(nodes, ROOT, cwdPath) == Some(cwd)
    ensures Resolution(nodes, cwdPath, name) == Located(cwd, name)
  {
    NoSeparatorStrip(name);
    NoSeparatorSplit(name);
    assert name[0] in name;
  }

  /** An absolute path resolves from the root, whatever the current path,
      even one that no longer leads anywhere. */
  lemma ResolveAbsolute(nodes: map<NodeId, Node>, cwdPath: seq<string>, parts: seq<string>)
    requires Closed(nodes) && ROOT in nodes
    requires |parts| >= 1
    requires forall i :: 0 <= i < |parts| ==> parts[i] != "" && SEP !in parts[i]
    ensures Resolution(nodes, cwdPath, [SEP] + Join(parts)) ==
      Finish(Descend(nodes, ROOT, parts[..|parts| - 1]), parts[|parts| - 1])
  {
    AbsoluteParts(parts);
  }

  /** The names of "/" followed by names joined with "/" are those names. */
  lemma AbsoluteParts(parts: seq<string>)
    requires |parts| >= 1
    requires forall i :: 0 <= i < |parts| ==> parts[i] != "" && SEP !in parts[i]
    ensures PathParts([SEP] + Join(parts)) == parts
  {
    var path := [SEP] + Join(parts);
    JoinBounds(parts);
    assert path[1..] == Join(parts);
    assert TrimStart(path) == TrimStart(Join(parts));
    assert TrimStart(Join(parts)) == Join(parts);
    assert TrimEnd(Join(parts)) == Join(parts);
    SplitJoin(parts);
  }

  /** The joined path starts with the first name and ends with the last one. */
  lemma {:induction false} JoinBounds(parts: seq<string>)
    requires |parts| >= 1
    requires forall i :: 0 <= i < |parts| ==> parts[i] != "" && SEP !in parts[i]
    ensures |Join(parts)| > 0
    ensures Join(parts)[0] == parts[0][0]
    ensures Join(parts)[|Join(parts)| - 1] == parts[|parts| - 1][|parts[|parts| - 1]| - 1]
    ensures Join(parts)[0] != SEP && Join(parts)[|Join(parts)| - 1] != SEP
    decreases |parts|
  {
    assert parts[0][0] in parts[0];
    var last := parts[|parts| - 1];
    assert last[|last| - 1] in last;
    if |parts| > 1 {
      JoinBounds(parts[1..]);
    }
  }

  // ---------- search_files ----------

  /** One search hit: its full path and whether it is a directory. */
  datatype Match = Match(path: string, isDir: bool)

  ghost predicate EndsWith(s: string, suffix: string)
  {
    |suffix| <= |s| && s[|s| - |suffix|..] == suffix
  }

  /** `path` lies at or below `dir`: it starts with it. */
  ghost predicate Below(path: string, dir: string)
  {
    |dir| <= |path| && path[..|dir|] == dir
  }

  /** Every hit in `ms` lies at or below `dir`. */
  ghost predicate AllBelow(ms: seq<Match>, dir: string)
  {
    forall i :: 0 <= i < |ms| ==> Below(ms[i].path, dir)
  }

  /** The path of child `name` below `pathSoFar` ("/" only for the root). */
  function ChildPath(pathSoFar: string, name: string): (r: string)
    ensures Below(r, pathSoFar)
  {
    if pathSoFar != "/" then pathSoFar + [SEP] + name else [SEP] + name
  }

  /** The hits of the nested `dfs` of search_files below node `n`, in
      pre-order and insertion order. The recursion depth is bounded by
      `fuel`: a call with no fuel left returns no hits. */
  function SearchDir(nodes: map<NodeId, Node>, n: NodeId, pathSoFar: string, name: string, fuel: nat): (r: seq<Match>)
    requires Closed(nodes) && n in nodes
    ensures AllBelow(r, pathSoFar)
    decreases fuel, 0
  {
    if fuel == 0 then []
    else
      match nodes[n]
      case File(_, _, _) => []
      case Dir(_, cs) => SearchEntries(nodes, cs, pathSoFar, name, fuel - 1)
  }

  /** The hits of the loop over children `cs` of one `dfs` call. */
  function SearchEntries(nodes: map<NodeId, Node>, cs: seq<Entry>, pathSoFar: string, name: string, fuel: nat): (r: seq<Match>)
    requires Closed(nodes) && AllIn(nodes, cs)
    ensures AllBelow(r, pathSoFar)
    decreases fuel, 2, |cs|
  {
    if cs == [] then []
    else
      var e := cs[|cs| - 1];
      SearchEntries(nodes, cs[..|cs| - 1], pathSoFar, name, fuel) + Visit(nodes, e, pathSoFar, name, fuel)
  }

  /** One turn of that loop: a hit if the child is called `name`, then the
      child's own hits if it is a directory. */
  function Visit(nodes: map<NodeId, Node>, e: Entry, pathSoFar: string, name: string, fuel: nat): (r: seq<Match>)
    requires Closed(nodes) && e.id in nodes
    ensures AllBelow(r, ChildPath(pathSoFar, e.name))
    decreases fuel, 1
  {
    var p := ChildPath(pathSoFar, e.name);
    (if e.name == name then [Match(p, nodes[e.id].Dir?)] else [])
    + (if nodes[e.id].Dir? then SearchDir(nodes, e.id, p, name, fuel) else [])
  }

  /** One more turn of the loop over the children adds that child's hits. */
  lemma SearchEntriesStep(nodes: map<NodeId, Node>, cs: seq<Entry>, pathSoFar: string, name: string, fuel: nat, k: nat)
    requires Closed(nodes) && AllIn(nodes, cs) && k < |cs|
    ensures AllIn(nodes, cs[..k]) && AllIn(nodes, cs[..k + 1]) && cs[k].id in nodes
    ensures SearchEntries(nodes, cs[..k + 1], pathSoFar, name, fuel)
         == SearchEntries(nodes, cs[..k], pathSoFar, name, fuel) + Visit(nodes, cs[k], pathSoFar, name, fuel)
  {
    TakeOneMore(cs, k);
  }


  ghost predicate HitOk(m: Match, name: string)
  {
    EndsWith(m.path, [SEP] + name) && m.path != [] && m.path[0] == SEP
  }

  /** Every hit is an absolute path whose last component is the name sought. */
  lemma {:induction false} SearchDirHits(nodes: map<NodeId, Node>, n: NodeId, pathSoFar: string, name: string, fuel: nat)
    requires Closed(nodes) && n in nodes
    requires pathSoFar != [] && pathSoFar[0] == SEP
    ensures forall m :: m in SearchDir(nodes, n, pathSoFar, name, fuel) ==> HitOk(m, name)
    decreases fuel, 0
  {
    if fuel > 0 && nodes[n].Dir? {
      SearchEntriesHits(nodes, nodes[n].children, pathSoFar, name, fuel - 1);
    }
  }

  lemma {:induction false} SearchEntriesHits(nodes: map<NodeId, Node>, cs: seq<Entry>, pathSoFar: string, name: string, fuel: nat)
    requires Closed(nodes) && AllIn(nodes, cs)
    requires pathSoFar != [] && pathSoFar[0] == SEP
    ensures forall m :: m in SearchEntries(nodes, cs, pathSoFar, name, fuel) ==> HitOk(m, name)
    decreases fuel, 2, |cs|
  {
    if cs != [] {
      var e := cs[|cs| - 1];
      var p := ChildPath(pathSoFar, e.name);
      SearchEntriesHits(nodes, cs[..|cs| - 1], pathSoFar, name, fuel);
      assert p != [] && p[0] == SEP;
      if nodes[e.id].Dir? {
        SearchDirHits(nodes, e.id, p, name, fuel);
      }
      if e.name == name {
        assert p[|p| - |[SEP] + name|..] == [SEP] + name;
      }
    }
  }

  /** Every child called `name` of a searched directory is a hit. */
  lemma {:induction false} SearchFindsChild(nodes: map<NodeId, Node>, cs: seq<Entry>, pathSoFar: string, name: string, fuel: nat, i: nat)
    requires Closed(nodes) && AllIn(nodes, cs)
    requires i < |cs| && cs[i].name == name
    ensures Match(ChildPath(pathSoFar, name), nodes[cs[i].id].Dir?) in SearchEntries(nodes, cs, pathSoFar, name, fuel)
    decreases |cs|
  {
    var init := cs[..|cs| - 1];
    if i < |cs| - 1 {
      assert init[i] == cs[i];
      SearchFindsChild(nodes, init, pathSoFar, name, fuel, i);
    }
  }

  // ---------- mv ----------

  /** What mv decides before it changes anything: refuse with a status, or
      move the entry `entry` called `srcName` out of directory `srcDir`
      into directory `target` under `targetName`. */
  datatype MovePlan =
    | Refused(status: Status)
    | Move(srcDir: NodeId, srcName: string, entry: NodeId, target: NodeId, targetName: string)

  /** The checks of mv (file_system.py:424-458), in the source's order. */
  function PlanMove(nodes: map<NodeId, Node>, cwdPath: seq<string>, src: string, dest: string): (r: MovePlan)
    requires Closed(nodes) && ROOT in nodes && nodes[ROOT].Dir?
    ensures r.Refused? ==> r.status != Ok
    ensures r.Move? ==>
      && r.srcDir in nodes && nodes[r.srcDir].Dir?
      && Lookup(nodes[r.srcDir].children, r.srcName) == Some(r.entry)
      && r.target in nodes && nodes[r.target].Dir?
      && !HasName(nodes[r.target].children, r.targetName)
  {
    match Resolution(nodes, cwdPath, src)
    case Crashed => Refused(Crash)
    case Located(sp, sn) =>
      if nodes[sp].File? then Refused(Crash)
      else
        (match Lookup(nodes[sp].children, sn)
         case None => Refused(NotFound)
         case Some(e) =>
           (match Destination(nodes, cwdPath, dest, sn)
            case Refused(st) => Refused(st)
            case Move(_, _, _, td, tn) =>
              if nodes[td].File? then Refused(Crash)
              else if HasName(nodes[td].children, tn) then Refused(AlreadyExists)
              else Move(sp, sn, e, td, tn)))
    case _ => Refused(NotFound)
  }

  /** The (target_dir, target_name) choice of mv, returned in the target
      fields of a Move (its source fields are unused). */
  function Destination(nodes: map<NodeId, Node>, cwdPath: seq<string>, dest: string, srcName: string): (r: MovePlan)
    requires Closed(nodes) && ROOT in nodes
    ensures r.Refused? ==> r.status != Ok
    ensures r.Move? ==> r.target in nodes
  {
    match Resolution(nodes, cwdPath, dest)
    case Crashed => Refused(Crash)
    case AtRoot => Move(ROOT, "", ROOT, ROOT, srcName)
    case AtCurrent =>
      (match Walk(nodes, ROOT, cwdPath)
       case None => Refused(Crash)
       case Some(cwd) => Move(ROOT, "", ROOT, cwd, srcName))
    case Located(dp, dn) =>
      if nodes[dp].File? then Refused(Crash)
      else
        (match Lookup(nodes[dp].children, dn)
         case Some(x) => if nodes[x].Dir? then Move(ROOT, "", ROOT, x, srcName) else Refused(AlreadyExists)
         case None => Move(ROOT, "", ROOT, dp, dn))
    case Unresolved => Refused(InvalidDestination)
  }

  /** The three updates of mv: pop the entry from its directory, rename the
      node, insert it into the target directory. Each step sees the previous
      one, as the source's dict updates do, so the target may be the source
      directory or the moved node itself. */
  function Relink(nodes: map<NodeId, Node>, sp: NodeId, sn: string, e: NodeId, td: NodeId, tn: string): (r: map<NodeId, Node>)
    requires sp in nodes && nodes[sp].Dir? && e in nodes && td in nodes && nodes[td].Dir?
    ensures r.Keys == nodes.Keys
    ensures r[e].name == tn
    ensures r[td].Dir? && r[td].children != [] && r[td].children[|r[td].children| - 1] == Entry(tn, e)
    ensures forall n :: n in nodes && n != sp && n != e && n != td ==> r[n] == nodes[n]
  {
    var n1 := nodes[sp := nodes[sp].(children := Without(nodes[sp].children, sn))];
    var n2 := n1[e := n1[e].(name := tn)];
    n2[td := n2[td].(children := n2[td].children + [Entry(tn, e)])]
  }

  /** A child entry links back: it names a node other than the root, under
      that node's own name, whose recorded parent is the directory. */
  lemma EntryLink(nodes: map<NodeId, Node>, parent: map<NodeId, NodeId>, nextId: nat, d: NodeId, j: nat)
    requires TreeShape(nodes, parent, nextId)
    requires d in nodes && nodes[d].Dir? && j < |nodes[d].children|
    ensures var f := nodes[d].children[j];
      f.id in nodes && f.id != ROOT && nodes[f.id].name == f.name && f.id in parent && parent[f.id] == d
  {
  }

  /** Two different positions of uniquely named children hold different names. */
  lemma DistinctNames(cs: seq<Entry>, a: nat, b: nat)
    requires UniqueNames(cs) && a < |cs| && b < |cs| && a != b
    ensures cs[a].name != cs[b].name
  {
    if b < a {
      assert cs[b].name != cs[a].name;
    }
  }

  /** An entry left after popping `name` is an entry of the original other
      than the popped one. */
  lemma WithoutIndex(cs: seq<Entry>, name: string, i: nat) returns (j: nat)
    requires i < |Without(cs, name)|
    ensures j < |cs| && Without(cs, name)[i] == cs[j]
    ensures HasName(cs, name) ==> j != Find(cs, name)
  {
    if HasName(cs, name) {
      j := if i < Find(cs, name) then i else i + 1;
    } else {
      j := i;
    }
  }

  /** After Relink every node keeps its kind and (for files) its size and
      first block; only the moved node's name changes, and a directory's
      children change only by losing the popped entry and gaining the new one. */
  lemma RelinkFacts(nodes: map<NodeId, Node>, sp: NodeId, sn: string, e: NodeId, td: NodeId, tn: string)
    requires sp in nodes && nodes[sp].Dir? && e in nodes && td in nodes && nodes[td].Dir?
    ensures var nodes' := Relink(nodes, sp, sn, e, td, tn);
      && nodes'.Keys == nodes.Keys
      && forall d :: d in nodes ==>
        && nodes'[d].Dir? == nodes[d].Dir?
        && nodes'[d].name == (if d == e then tn else nodes[d].name)
        && (nodes[d].File? ==> nodes'[d].size == nodes[d].size && nodes'[d].firstBlock == nodes[d].firstBlock)
        && (nodes[d].Dir? ==>
              nodes'[d].children ==
                (if d == sp then Without(nodes[d].children, sn) else nodes[d].children)
                + (if d == td then [Entry(tn, e)] else []))
  {
  }

  /** After Relink, the `i`-th entry of directory `d` names a live node
      other than the root, under that node's own name, and `d` is the
      directory `parent` records for it (the moved node's parent becomes the
      target directory). */
  lemma RelinkLink(nodes: map<NodeId, Node>, parent: map<NodeId, NodeId>, nextId: nat, sp: NodeId, sn: string, e: NodeId, td: NodeId, tn: string, d: NodeId, i: nat)
    requires TreeShape(nodes, parent, nextId)
    requires sp in nodes && nodes[sp].Dir? && Lookup(nodes[sp].children, sn) == Some(e)
    requires td in nodes && nodes[td].Dir?
    requires var nodes' := Relink(nodes, sp, sn, e, td, tn);
      d in nodes' && nodes'[d].Dir? && i < |nodes'[d].children|
    ensures var nodes' := Relink(nodes, sp, sn, e, td, tn);
      var parent' := parent[e := td];
      var f := nodes'[d].children[i];
      f.id in nodes' && f.id != ROOT && nodes'[f.id].name == f.name && f.id in parent' && parent'[f.id] == d
  {
    var nodes' := Relink(nodes, sp, sn, e, td, tn);
    RelinkFacts(nodes, sp, sn, e, td, tn);
    var f := nodes'[d].children[i];
    var base := if d == sp then Without(nodes[d].children, sn) else nodes[d].children;
    if i < |base| {
      assert f == base[i];
      var j := i;
      if d == sp {
        j := WithoutIndex(nodes[sp].children, sn, i);
      }
      assert f == nodes[d].children[j];
      KeptLink(nodes, parent, nextId, sp, sn, e, d, j);
    } else {
      assert d == td && f == Entry(tn, e);
      EntryLink(nodes, parent, nextId, sp, Find(nodes[sp].children, sn));
    }
  }

  /** A child entry other than the one Relink pops links back as before and
      does not name the moved node. */
  lemma KeptLink(nodes: map<NodeId, Node>, parent: map<NodeId, NodeId>, nextId: nat, sp: NodeId, sn: string, e: NodeId, d: NodeId, j: nat)
    requires TreeShape(nodes, parent, nextId)
    requires sp in nodes && nodes[sp].Dir? && Lookup(nodes[sp].children, sn) == Some(e)
    requires d in nodes && nodes[d].Dir? && j < |nodes[d].children|
    requires d == sp ==> j != Find(nodes[sp].children, sn)
    ensures var f := nodes[d].children[j];
      f.id in nodes && f.id != ROOT && f.id != e && nodes[f.id].name == f.name && f.id in parent && parent[f.id] == d
  {
    var k := Find(nodes[sp].children, sn);
    EntryLink(nodes, parent, nextId, sp, k);
    EntryLink(nodes, parent, nextId, d, j);
    if d == sp {
      assert UniqueNames(nodes[sp].children);
      DistinctNames(nodes[sp].children, j, k);
    }
  }

  /** After Relink names stay unique in directory `d`, provided the target
      directory had no entry under the new name. */
  lemma RelinkUnique(nodes: map<NodeId, Node>, parent: map<NodeId, NodeId>, nextId: nat, sp: NodeId, sn: string, e: NodeId, td: NodeId, tn: string, d: NodeId)
    requires TreeShape(nodes, parent, nextId)
    requires sp in nodes && nodes[sp].Dir? && td in nodes && nodes[td].Dir? && !HasName(nodes[td].children, tn)
    requires e in nodes && d in nodes && nodes[d].Dir?
    ensures UniqueNames(Relink(nodes, sp, sn, e, td, tn)[d].children)
  {
    RelinkFacts(nodes, sp, sn, e, td, tn);
    var cs := nodes[d].children;
    if d == sp {
      WithoutUnique(cs, sn);
    }
    var base := if d == sp then Without(cs, sn) else cs;
    if d == td {
      if d == sp {
        WithoutAbsent(cs, sn, tn);
      }
      AppendUnique(base, Entry(tn, e));
    }
  }

  /** Moving an entry into a directory that lacks its new name keeps the
      arena a well-formed tree shape. */
  lemma RelinkShape(nodes: map<NodeId, Node>, parent: map<NodeId, NodeId>, nextId: nat, sp: NodeId, sn: string, e: NodeId, td: NodeId, tn: string)
    requires TreeShape(nodes, parent, nextId)
    requires sp in nodes && nodes[sp].Dir? && Lookup(nodes[sp].children, sn) == Some(e)
    requires td in nodes && nodes[td].Dir? && !HasName(nodes[td].children, tn)
    ensures TreeShape(Relink(nodes, sp, sn, e, td, tn), parent[e := td], nextId)
  {
    var nodes' := Relink(nodes, sp, sn, e, td, tn);
    var parent' := parent[e := td];
    RelinkFacts(nodes, sp, sn, e, td, tn);
    forall d, i | d in nodes' && nodes'[d].Dir? && 0 <= i < |nodes'[d].children|
      ensures var f := nodes'[d].children[i];
        f.id in nodes' && f.id != ROOT && nodes'[f.id].name == f.name && f.id in parent' && parent'[f.id] == d
    {
      RelinkLink(nodes, parent, nextId, sp, sn, e, td, tn, d, i);
    }
    forall d | d in nodes' && nodes'[d].Dir?
      ensures UniqueNames(nodes'[d].children)
    {
      RelinkUnique(nodes, parent, nextId, sp, sn, e, td, tn, d);
    }
  }

  /** Renaming within the current directory: `mv a b` with plain names, when
      `a` exists there and `b` does not, is planned as a move from the
      current directory to itself under the new name. */
  lemma PlanRename(nodes: map<NodeId, Node>, cwdPath: seq<string>, cwd: NodeId, src: string, dest: string, e: NodeId)
    requires Closed(nodes) && ROOT in nodes && nodes[ROOT].Dir?
    requires Walk(nodes, ROOT, cwdPath) == Some(cwd) && nodes[cwd].Dir?
    requires src != "" && src != "." && SEP !in src && dest != "" && dest != "." && SEP !in dest
    requires Lookup(nodes[cwd].children, src) == Some(e) && !HasName(nodes[cwd].children, dest)
    ensures PlanMove(nodes, cwdPath, src, dest) == Move(cwd, src, e, cwd, dest)
  {
    ResolveName(nodes, cwdPath, src, cwd);
    ResolveName(nodes, cwdPath, dest, cwd);
    assert Destination(nodes, cwdPath, dest, src) == Move(ROOT, "", ROOT, cwd, dest);
  }

  /** After such a rename the current directory holds the entry under the
      new name and no longer under the old one. */
  lemma RenameInPlace(nodes: map<NodeId, Node>, parent: map<NodeId, NodeId>, nextId: nat, cwd: NodeId, src: string, dest: string, e: NodeId)
    requires TreeShape(nodes, parent, nextId)
    requires cwd in nodes && nodes[cwd].Dir?
    requires Lookup(nodes[cwd].children, src) == Some(e) && !HasName(nodes[cwd].children, dest)
    ensures var cs' := Relink(nodes, cwd, src, e, cwd, dest)[cwd].children;
      Lookup(cs', dest) == Some(e) && !HasName(cs', src)
  {
    RelinkFacts(nodes, cwd, src, e, cwd, dest);
    var cs := nodes[cwd].children;
    WithoutUnique(cs, src);
    WithoutAbsent(cs, src, dest);
    AppendEntry(Without(cs, src), Entry(dest, e), src);
  }

  /** The missing cycle check: `mv d d` for a directory `d` of the current
      directory takes `d` out of the current directory and makes it a child
      of itself, so it is no longer reachable from the root. */
  lemma MoveIntoItself(nodes: map<NodeId, Node>, parent: map<NodeId, NodeId>, nextId: nat, cwdPath: seq<string>, cwd: NodeId, name: string, d: NodeId)
    requires TreeShape(nodes, parent, nextId)
    requires Walk(nodes, ROOT, cwdPath) == Some(cwd) && nodes[cwd].Dir?
    requires name != "" && name != "." && SEP !in name
    requires Lookup(nodes[cwd].children, name) == Some(d) && nodes[d].Dir?
    requires !HasName(nodes[d].children, name)
    ensures PlanMove(nodes, cwdPath, name, name) == Move(cwd, name, d, d, name)
    ensures var nodes' := Relink(nodes, cwd, name, d, d, name);
      && !HasName(nodes'[cwd].children, name)
      && Entry(name, d) in nodes'[d].children
  {
    ResolveName(nodes, cwdPath, name, cwd);
    assert Destination(nodes, cwdPath, name, name) == Move(ROOT, "", ROOT, d, name);
    RelinkFacts(nodes, cwd, name, d, d, name);
    WithoutUnique(nodes[cwd].children, name);
    var k := Find(nodes[cwd].children, name);
    assert parent[d] == cwd;
    var cs' := Relink(nodes, cwd, name, d, d, name)[d].children;
    assert cs'[|cs'| - 1] == Entry(name, d);
  }
}
