/** The tree builder, `parseInput`: one pass over the lines that keeps an id-to-node
    map, the flag `foundRoot` and the first root. A bad line is skipped, never fatal. */
module TreeBuilder {
  import opened Model
  import opened LineGrammar

  /** The builder's three variables between two lines. */
  datatype BuildState = BuildState(nodes: Nodes, foundRoot: bool, root: Option<nat>)

  const Init := BuildState(map[], false, None)

  /** The node a matched line describes, before any check (the parent id keeps the
      default 0 on a root line). */
  function NewNode(f: Fields): (n: NodeRec)
    ensures n.id == f.id && n.isRoot == f.parent.None? && n.children == [] && !n.isInitialized
    ensures f.parent.Some? ==> n.parentId == f.parent.value
    ensures n.content == match f.payload case DataList(vs) => Explicit(vs) case Oper(op) => Op(op)
  {
    NodeRec(f.id, if f.parent.Some? then f.parent.value else 0, f.parent.None?,
            match f.payload case DataList(vs) => Explicit(vs) case Oper(op) => Op(op),
            [], false)
  }

  /** Append child `c` to the list of `pid`, creating a placeholder for `pid` when
      the map has no entry for it yet. */
  function Attach(m: Nodes, pid: nat, c: nat): Nodes {
    if pid in m then m[pid := m[pid].(children := m[pid].children + [c])]
    else m[pid := Placeholder(pid, [c])]
  }

  /** What one line does to the builder's state: a line the pattern does not match
      changes nothing. */
  function Step(st: BuildState, line: string): BuildState {
    match Find(line)
    case None => st
    case Some(f) => Accept(st, f)
  }

  /** What a matched line does (lines 128-174). */
  function Accept(st: BuildState, f: Fields): BuildState {
    var node := NewNode(f);
    if f.id in st.nodes && st.nodes[f.id].isInitialized then st
    else
      var adopted := if f.id in st.nodes then node.(children := st.nodes[f.id].children) else node;
      var m := st.nodes - {f.id};
      if node.isRoot && st.foundRoot then st.(nodes := m)
      else if node.isRoot then BuildState(m[f.id := adopted.(isInitialized := true)], true, Some(f.id))
      else if node.id == node.parentId then st.(nodes := m)
      else BuildState(Attach(m, node.parentId, f.id)[f.id := adopted.(isInitialized := true)],
                      st.foundRoot, st.root)
  }

  /** The state after the given lines, in order. */
  function Parse(lines: seq<string>): BuildState {
    if lines == [] then Init else Step(Parse(lines[..|lines| - 1]), lines[|lines| - 1])
  }

  /** `parseInput`: returns the root (None for Java's null) and the node map through
      which the root's object graph is reached. */
  method ParseInput(input: seq<string>) returns (root: Option<nat>, parsedNodes: Nodes)
    ensures Parse(input) == BuildState(parsedNodes, root.Some?, root)
  {
    parsedNodes := map[];
    var foundRoot := false;
    root := None;
    var i := 0;
    while i < |input|
      invariant 0 <= i <= |input|
      invariant foundRoot == root.Some?
      invariant Parse(input[..i]) == BuildState(parsedNodes, foundRoot, root)
    {
      var line := input[i];
      ghost var after := Step(BuildState(parsedNodes, foundRoot, root), line);
      i := i + 1;
      assert input[..i][..i - 1] == input[..i - 1];
      assert Parse(input[..i]) == after;
      var m := Find(line);
      if m.None? {
        continue;
      }
      ghost var f := m.value;
      ghost var st0 := BuildState(parsedNodes, foundRoot, root);
      var node := NewNode(m.value);
      if node.id in parsedNodes {
        var n := parsedNodes[node.id];
        if !n.isInitialized {
          node := node.(children := n.children);
          parsedNodes := parsedNodes - {node.id};
        } else {
          continue;
        }
      }
      assert parsedNodes == st0.nodes - {f.id};
      if node.isRoot && foundRoot {
        continue;
      } else if node.isRoot {
        foundRoot := true;
        root := Some(node.id);
      } else {
        if node.id == node.parentId {
          continue;
        }
        if node.parentId in parsedNodes {
          var parent := parsedNodes[node.parentId];
          parsedNodes := parsedNodes[node.parentId := parent.(children := parent.children + [node.id])];
        } else {
          var parent := Placeholder(node.parentId, [node.id]);
          parsedNodes := parsedNodes[parent.id := parent];
        }
        assert parsedNodes == Attach(st0.nodes - {f.id}, node.parentId, f.id);
      }
      node := node.(isInitialized := true);
      parsedNodes := parsedNodes[node.id := node];
    }
    assert input[..i] == input;
  }

  predicate NoDuplicates(s: seq<nat>) {
    forall i, j :: 0 <= i < j < |s| ==> s[i] != s[j]
  }

  /** The shape every node map the builder produces has: each entry is filed under
      its own id; every listed child is an initialised non-root node whose parent id
      names the list's owner, so a node sits in at most one list and at most once;
      exactly the placeholders are uninitialised and carry no content. */
  ghost predicate WfNodes(m: Nodes) {
    (forall k :: k in m ==> m[k].id == k) &&
    (forall k :: k in m ==> NoDuplicates(m[k].children)) &&
    (forall k :: k in m ==> (m[k].isInitialized <==> !m[k].content.Missing?)) &&
    (forall k :: k in m ==> m[k].isInitialized || !m[k].isRoot) &&
    (forall k, c :: k in m && c in m[k].children ==>
       c in m && m[c].isInitialized && !m[c].isRoot && m[c].parentId == k)
  }

  /** The builder's invariant: the map is well formed, `foundRoot` says whether a
      root is recorded, and a recorded root is an initialised root node of the map. */
  ghost predicate Wf(st: BuildState) {
    WfNodes(st.nodes) &&
    (st.foundRoot <==> st.root.Some?) &&
    (st.root.Some? ==> st.root.value in st.nodes && st.nodes[st.root.value].isInitialized &&
                       st.nodes[st.root.value].isRoot)
  }

  lemma InitWf()
    ensures Wf(Init)
  {
  }

  /** Round trip from a written line to its node: the node built from the match of
      a canonical line has the line's id, is a root exactly when the parent field is
      empty, carries the parent id otherwise, and holds the data list or operator. */
  lemma NodeOfLineText(f: Fields)
    requires f.payload.DataList? ==> f.payload.values != []
    ensures Find(LineText(f)).Some?
    ensures var n := NewNode(Find(LineText(f)).value);
            n.id == f.id && (n.isRoot <==> f.parent.None?) &&
            (f.parent.Some? ==> n.parentId == f.parent.value) &&
            (f.payload.DataList? ==> n.content == Explicit(f.payload.values)) &&
            (f.payload.Oper? ==> n.content == Op(f.payload.op))
  {
    MatchLineText(f);
  }

  /** Every line keeps the invariant. */
  lemma StepWf(st: BuildState, line: string)
    requires Wf(st)
    ensures Wf(Step(st, line))
  {
    if Find(line).Some? {
      AcceptWf(st, Find(line).value);
    }
  }

  lemma AcceptWf(st: BuildState, f: Fields)
    requires Wf(st)
    ensures Wf(Accept(st, f))
  {
    if !(f.id in st.nodes && st.nodes[f.id].isInitialized) {
      var node := NewNode(f);
      var c := f.id;
      var m := st.nodes - {c};
      var adopted := if c in st.nodes then node.(children := st.nodes[c].children) else node;
      var n := adopted.(isInitialized := true);
      RemovePending(st.nodes, f);
      assert n.isRoot == node.isRoot && n.parentId == node.parentId && n.id == c;
      if node.isRoot && st.foundRoot {
        AcceptDropped(st, c, m, n);
        assert Accept(st, f) == st.(nodes := m);
      } else if node.isRoot {
        AcceptRoot(st, c, m, n);
        assert Accept(st, f) == BuildState(m[c := n], true, Some(c));
      } else if node.id == node.parentId {
        AcceptDropped(st, c, m, n);
        assert Accept(st, f) == st.(nodes := m);
      } else {
        AcceptChild(st, c, m, n);
        assert Accept(st, f) == BuildState(Attach(m, n.parentId, c)[c := n], st.foundRoot, st.root);
      }
    }
  }

  /** A line that is dropped after its placeholder was removed. */
  lemma AcceptDropped(st: BuildState, c: nat, m: Nodes, n: NodeRec)
    requires Wf(st) && !(c in st.nodes && st.nodes[c].isInitialized) && m == st.nodes - {c}
    requires WfPending(m, c, n) && forall k :: k in m ==> c !in m[k].children
    ensures Wf(st.(nodes := m))
  {
    DroppedWf(m, c, n);
    RootKept(st, c, m, m);
  }

  /** The first root line. */
  lemma AcceptRoot(st: BuildState, c: nat, m: Nodes, n: NodeRec)
    requires WfPending(m, c, n) && n.isRoot
    ensures Wf(BuildState(m[c := n], true, Some(c)))
  {
    AddNodeWf(m, c, n);
  }

  /** A child line, attached to its parent (or to a new placeholder for it). */
  lemma AcceptChild(st: BuildState, c: nat, m: Nodes, n: NodeRec)
    requires Wf(st) && !(c in st.nodes && st.nodes[c].isInitialized) && m == st.nodes - {c}
    requires WfPending(m, c, n) && forall k :: k in m ==> c !in m[k].children
    requires !n.isRoot && n.parentId != c
    ensures Wf(BuildState(Attach(m, n.parentId, c)[c := n], st.foundRoot, st.root))
  {
    var m2: Nodes := Attach(m, n.parentId, c);
    AttachPending(m, c, n);
    AddNodeWf(m2, c, n);
    ChildRootKept(st, c, m, m2, n);
  }

  lemma ChildRootKept(st: BuildState, c: nat, m: Nodes, m2: Nodes, n: NodeRec)
    requires Wf(st) && !(c in st.nodes && st.nodes[c].isInitialized) && m == st.nodes - {c}
    requires c !in m && WfNodes(m2[c := n])
    requires forall k :: k in m ==> k in m2 && m2[k].isRoot == m[k].isRoot &&
                                    m2[k].isInitialized == m[k].isInitialized
    ensures Wf(BuildState(m2[c := n], st.foundRoot, st.root))
  {
    var m3: Nodes := m2[c := n];
    assert forall k :: k in m ==> k in m3 && m3[k] == m2[k];
    RootKept(st, c, m, m3);
  }

  /** Dropping the pending node altogether leaves a well-formed map: nobody lists it. */
  lemma DroppedWf(m: Nodes, c: nat, n: NodeRec)
    requires WfPending(m, c, n) && forall k :: k in m ==> c !in m[k].children
    ensures WfNodes(m)
  {
  }

  /** A recorded root survives a step that keeps the flags of every entry of `m`,
      the old map without the line's own id. */
  lemma RootKept(st: BuildState, c: nat, m: Nodes, m3: Nodes)
    requires Wf(st) && !(c in st.nodes && st.nodes[c].isInitialized) && m == st.nodes - {c}
    requires WfNodes(m3)
    requires forall k :: k in m ==> k in m3 && m3[k].isInitialized == m[k].isInitialized &&
                                    m3[k].isRoot == m[k].isRoot
    ensures Wf(BuildState(m3, st.foundRoot, st.root))
  {
  }

  /** The map is well formed except that node `n`, about to be stored under `c`, is
      not in it yet. */
  ghost predicate WfPending(m: Nodes, c: nat, n: NodeRec) {
    c !in m &&
    (forall k :: k in m ==> m[k].id == k) &&
    (forall k :: k in m ==> NoDuplicates(m[k].children)) &&
    (forall k :: k in m ==> (m[k].isInitialized <==> !m[k].content.Missing?)) &&
    (forall k :: k in m ==> m[k].isInitialized || !m[k].isRoot) &&
    (forall k, d :: k in m && d in m[k].children && d != c ==>
       d in m && m[d].isInitialized && !m[d].isRoot && m[d].parentId == k) &&
    (forall k :: k in m && c in m[k].children ==> k == n.parentId && !n.isRoot) &&
    n.id == c && n.isInitialized && !n.content.Missing? && NoDuplicates(n.children) &&
    (forall d :: d in n.children ==>
       d != c && d in m && m[d].isInitialized && !m[d].isRoot && m[d].parentId == c)
  }

  lemma AddNodeWf(m: Nodes, c: nat, n: NodeRec)
    requires WfPending(m, c, n)
    ensures WfNodes(m[c := n])
  {
  }

  /** Removing the line's own placeholder leaves a pending map for the new node. */
  lemma RemovePending(nodes: Nodes, f: Fields)
    requires WfNodes(nodes) && !(f.id in nodes && nodes[f.id].isInitialized)
    ensures forall k :: k in nodes - {f.id} ==> f.id !in nodes[k].children
    ensures var node := NewNode(f);
            var adopted := if f.id in nodes then node.(children := nodes[f.id].children) else node;
            WfPending(nodes - {f.id}, f.id, adopted.(isInitialized := true))
  {
    var node := NewNode(f);
    var adopted := if f.id in nodes then node.(children := nodes[f.id].children) else node;
    var n := adopted.(isInitialized := true);
    var m := nodes - {f.id};
    var c := f.id;
    RemovedRest(nodes, c, m);
    RemovedNode(nodes, c, n, m);
    PendingOf(m, c, n);
  }

  /** Without an uninitialised entry nobody lists, the rest of the map is unchanged
      in shape. */
  lemma RemovedRest(nodes: Nodes, c: nat, m: Nodes)
    requires WfNodes(nodes) && !(c in nodes && nodes[c].isInitialized) && m == nodes - {c}
    ensures c !in m
    ensures forall k :: k in m ==> m[k].id == k && NoDuplicates(m[k].children)
    ensures forall k :: k in m ==> (m[k].isInitialized <==> !m[k].content.Missing?)
    ensures forall k :: k in m ==> m[k].isInitialized || !m[k].isRoot
    ensures forall k, d :: k in m && d in m[k].children && d != c ==>
              d in m && m[d].isInitialized && !m[d].isRoot && m[d].parentId == k
    ensures forall k :: k in m ==> c !in m[k].children
  {
  }

  /** The new node takes over the placeholder's list, whose entries all name it. */
  lemma RemovedNode(nodes: Nodes, c: nat, n: NodeRec, m: Nodes)
    requires WfNodes(nodes) && !(c in nodes && nodes[c].isInitialized) && m == nodes - {c}
    requires n.children == if c in nodes then nodes[c].children else []
    ensures NoDuplicates(n.children)
    ensures forall d :: d in n.children ==>
              d != c && d in m && m[d].isInitialized && !m[d].isRoot && m[d].parentId == c
  {
  }

  /** The conjuncts of the pending shape, gathered. */
  lemma PendingOf(m: Nodes, c: nat, n: NodeRec)
    requires c !in m
    requires forall k :: k in m ==> m[k].id == k && NoDuplicates(m[k].children)
    requires forall k :: k in m ==> (m[k].isInitialized <==> !m[k].content.Missing?)
    requires forall k :: k in m ==> m[k].isInitialized || !m[k].isRoot
    requires forall k, d :: k in m && d in m[k].children && d != c ==>
               d in m && m[d].isInitialized && !m[d].isRoot && m[d].parentId == k
    requires forall k :: k in m ==> c !in m[k].children
    requires n.id == c && n.isInitialized && !n.content.Missing? && NoDuplicates(n.children)
    requires forall d :: d in n.children ==>
               d != c && d in m && m[d].isInitialized && !m[d].isRoot && m[d].parentId == c
    ensures WfPending(m, c, n)
  {
  }

  /** Appending the pending node's id to its parent's list keeps the map pending. */
  lemma AttachPending(m: Nodes, c: nat, n: NodeRec)
    requires WfPending(m, c, n) && !n.isRoot && n.parentId != c
    requires forall k :: k in m ==> c !in m[k].children
    ensures var m2 := Attach(m, n.parentId, c);
            WfPending(m2, c, n) && n.parentId in m2 && m2.Keys == m.Keys + {n.parentId} &&
            (forall k :: k in m ==> m2[k].isRoot == m[k].isRoot && m2[k].isInitialized == m[k].isInitialized)
  {
    var pid := n.parentId;
    var r := if pid in m then m[pid].(children := m[pid].children + [c]) else Placeholder(pid, [c]);
    assert Attach(m, pid, c) == m[pid := r];
    UpdatePending(m, c, n, pid, r);
  }

  lemma UpdatePending(m: Nodes, c: nat, n: NodeRec, pid: nat, r: NodeRec)
    requires WfPending(m, c, n) && !n.isRoot && n.parentId == pid && pid != c
    requires forall k :: k in m ==> c !in m[k].children
    requires pid in m ==> r == m[pid].(children := m[pid].children + [c])
    requires pid !in m ==> r == Placeholder(pid, [c])
    ensures WfPending(m[pid := r], c, n)
  {
    var m2 := m[pid := r];
    UpdatedEntry(m, c, n, pid, r);
    UpdatedLinks(m, c, n, pid, r, m2);
  }

  /** The parent's new or extended entry has the shape every entry has. */
  lemma UpdatedEntry(m: Nodes, c: nat, n: NodeRec, pid: nat, r: NodeRec)
    requires WfPending(m, c, n) && pid != c
    requires forall k :: k in m ==> c !in m[k].children
    requires pid in m ==> r == m[pid].(children := m[pid].children + [c])
    requires pid !in m ==> r == Placeholder(pid, [c])
    ensures r.id == pid && NoDuplicates(r.children) && c in r.children
    ensures (r.isInitialized <==> !r.content.Missing?) && (r.isInitialized || !r.isRoot)
    ensures forall d :: d in r.children && d != c ==> pid in m && d in m[pid].children
  {
    var prev := if pid in m then m[pid].children else [];
    assert r.children == prev + [c];
    assert NoDuplicates(r.children) by {
      assert NoDuplicates(prev) && c !in prev;
    }
  }

  /** Every list link of the updated map still satisfies the pending shape. */
  lemma UpdatedLinks(m: Nodes, c: nat, n: NodeRec, pid: nat, r: NodeRec, m2: Nodes)
    requires WfPending(m, c, n) && !n.isRoot && n.parentId == pid && pid != c
    requires forall k :: k in m ==> c !in m[k].children
    requires pid in m ==> r.isInitialized == m[pid].isInitialized && r.isRoot == m[pid].isRoot &&
                          r.parentId == m[pid].parentId && r.content == m[pid].content
    requires r.id == pid && NoDuplicates(r.children) && c in r.children
    requires (r.isInitialized <==> !r.content.Missing?) && (r.isInitialized || !r.isRoot)
    requires forall d :: d in r.children && d != c ==> pid in m && d in m[pid].children
    requires m2 == m[pid := r]
    ensures WfPending(m2, c, n)
  {
  }

  /** The invariant holds after any input. */
  lemma {:induction false} ParseWf(lines: seq<string>)
    ensures Wf(Parse(lines))
  {
    if lines != [] {
      ParseWf(lines[..|lines| - 1]);
      StepWf(Parse(lines[..|lines| - 1]), lines[|lines| - 1]);
    }
  }

  /** `path` starts at a root, visits each id at most once, and each step goes from
      a node to one of the ids on its children list. */
  ghost predicate RootPath(m: Nodes, path: seq<nat>) {
    |path| > 0 &&
    (forall i :: 0 <= i < |path| ==> path[i] in m) &&
    m[path[0]].isRoot &&
    (forall i, j :: 0 <= i < j < |path| ==> path[i] != path[j]) &&
    (forall i :: 0 < i < |path| ==> path[i] in m[path[i - 1]].children)
  }

  /** Along a path of list links from a root, every further link leads to a node not
      on the path: a child's parent id names the one list it sits in, and no root is
      listed. So the part of a well-formed map reachable from a root is a finite tree. */
  lemma {:induction false} PathExtendsToTree(m: Nodes, path: seq<nat>)
    requires WfNodes(m) && RootPath(m, path) && m[path[|path| - 1]].isInitialized
    ensures TreeBelow(m, path[|path| - 1], ElemSet(path[..|path| - 1]))
    decreases m.Keys - ElemSet(path)
  {
    var x := path[|path| - 1];
    assert ElemSet(path) == ElemSet(path[..|path| - 1]) + {x} by {
      assert path == path[..|path| - 1] + [x];
    }
    forall c | c in m[x].children
      ensures TreeBelow(m, c, ElemSet(path))
    {
      var longer := path + [c];
      PathStep(m, path, x, c, longer);
      PathExtendsToTree(m, longer);
    }
  }

  /** A path extended by a child of its last node is again a root path, and the
      child is a new, initialised node. */
  lemma PathStep(m: Nodes, path: seq<nat>, x: nat, c: nat, longer: seq<nat>)
    requires WfNodes(m) && RootPath(m, path) && x == path[|path| - 1] && c in m[x].children
    requires longer == path + [c]
    ensures RootPath(m, longer) && m[c].isInitialized
    ensures longer[..|longer| - 1] == path && ElemSet(longer) == ElemSet(path) + {c} && c !in ElemSet(path)
    ensures c in m
  {
    forall i | 0 <= i < |path|
      ensures path[i] != c
    {
      if i > 0 {
        assert path[i] in m[path[i - 1]].children;
      }
    }
    assert longer[..|longer| - 1] == path;
    assert forall i :: 0 <= i < |path| ==> longer[i] == path[i];
  }

  /** The node graph below the recorded root is a finite tree. */
  lemma RootTree(st: BuildState)
    requires Wf(st) && st.root.Some?
    ensures TreeBelow(st.nodes, st.root.value, {})
  {
    var path := [st.root.value];
    assert path[..0] == [] && ElemSet([]) == {};
    PathExtendsToTree(st.nodes, path);
  }

  /** The line's id already names an initialised node. */
  predicate IsDuplicate(st: BuildState, f: Fields) {
    f.id in st.nodes && st.nodes[f.id].isInitialized
  }

  /** A line the pattern does not match leaves the map, `foundRoot` and `root` alone. */
  lemma SkipsUnmatchedLine(st: BuildState, line: string)
    requires Find(line).None?
    ensures Step(st, line) == st
  {
  }

  /** A line whose id names an initialised node is discarded. */
  lemma DiscardsDuplicateId(st: BuildState, f: Fields)
    requires IsDuplicate(st, f)
    ensures Accept(st, f) == st
  {
  }

  /** A second root line is discarded and the first root stays; a placeholder it
      consumed is gone from the map. */
  lemma DiscardsSecondRoot(st: BuildState, f: Fields)
    requires !IsDuplicate(st, f) && f.parent.None? && st.foundRoot
    ensures Accept(st, f) == BuildState(st.nodes - {f.id}, true, st.root)
  {
  }

  /** A non-root line naming itself as parent is rejected; a placeholder it
      consumed is not restored, so its id is absent afterwards. */
  lemma RejectsSelfParent(st: BuildState, f: Fields)
    requires !IsDuplicate(st, f) && f.parent == Some(f.id)
    ensures Accept(st, f) == st.(nodes := st.nodes - {f.id}) && f.id !in Accept(st, f).nodes
  {
  }

  /** The children a node takes over on its own line: a placeholder's, same
      elements in the same order, or none. */
  function Adopted(st: BuildState, f: Fields): seq<nat> {
    if f.id in st.nodes then st.nodes[f.id].children else []
  }

  /** The first root line is recorded as the root, owning any children its
      placeholder had gathered; nothing else in the map changes. */
  lemma RecordsFirstRoot(st: BuildState, f: Fields)
    requires !IsDuplicate(st, f) && f.parent.None? && !st.foundRoot
    ensures var r := Accept(st, f);
            r.foundRoot && r.root == Some(f.id) && r.nodes.Keys == st.nodes.Keys + {f.id} &&
            r.nodes[f.id] == NewNode(f).(children := Adopted(st, f), isInitialized := true) &&
            forall k :: k in st.nodes && k != f.id ==> r.nodes[k] == st.nodes[k]
  {
  }

  /** An accepted non-root line: its node is appended at the end of exactly one
      list, its parent's, or a fresh placeholder's stored under the parent id; it is
      then stored, initialised, under its own id with the children it took over. */
  lemma AttachesChild(st: BuildState, f: Fields)
    requires Wf(st) && !IsDuplicate(st, f) && f.parent.Some? && f.parent.value != f.id
    ensures var r := Accept(st, f);
            var p := f.parent.value;
            r.foundRoot == st.foundRoot && r.root == st.root &&
            r.nodes.Keys == st.nodes.Keys + {p, f.id} &&
            r.nodes[f.id] == NewNode(f).(children := Adopted(st, f), isInitialized := true) &&
            (p in st.nodes ==> r.nodes[p] == st.nodes[p].(children := st.nodes[p].children + [f.id])) &&
            (p !in st.nodes ==> r.nodes[p] == Placeholder(p, [f.id])) &&
            (forall k :: k in r.nodes ==> (f.id in r.nodes[k].children <==> k == p)) &&
            (forall k :: k in st.nodes && k != p && k != f.id ==> r.nodes[k] == st.nodes[k])
  {
    var p := f.parent.value;
    var r := Accept(st, f);
    assert f.id in r.nodes[p].children by {
      assert r.nodes[p].children[|r.nodes[p].children| - 1] == f.id;
    }
    forall k | k in r.nodes && k != p
      ensures f.id !in r.nodes[k].children
    {
      if k != f.id {
        assert r.nodes[k] == st.nodes[k];
      }
    }
  }

  /** The line is the first accepted root line. */
  predicate AcceptsRoot(st: BuildState, line: string) {
    Find(line).Some? && Find(line).value.parent.None? && !st.foundRoot &&
    !IsDuplicate(st, Find(line).value)
  }

  /** The root changes exactly when a line is accepted as the first root. */
  lemma StepRoot(st: BuildState, line: string)
    requires Wf(st)
    ensures Step(st, line).foundRoot == (st.foundRoot || AcceptsRoot(st, line))
    ensures Step(st, line).root == if AcceptsRoot(st, line) then Some(Find(line).value.id) else st.root
  {
  }

  /** Once a root is recorded, no later line changes it. */
  lemma {:induction false} RootStaysFirst(lines: seq<string>, more: seq<string>)
    requires Parse(lines).foundRoot
    ensures Parse(lines + more).root == Parse(lines).root && Parse(lines + more).foundRoot
    decreases |more|
  {
    if more == [] {
      assert lines + more == lines;
    } else {
      var init := more[..|more| - 1];
      assert (lines + more)[..|lines + more| - 1] == lines + init;
      assert (lines + more)[|lines + more| - 1] == more[|more| - 1];
      RootStaysFirst(lines, init);
      ParseWf(lines + init);
      StepRoot(Parse(lines + init), more[|more| - 1]);
    }
  }

  /** Line `i` of `lines` is accepted as the first root. */
  predicate RootLineAt(lines: seq<string>, i: nat)
    requires i < |lines|
  {
    AcceptsRoot(Parse(lines[..i]), lines[i])
  }

  /** Whether line `i` is the first root line does not depend on later lines. */
  lemma RootLineAtPrefix(lines: seq<string>, n: nat, i: nat)
    requires i < n <= |lines|
    ensures RootLineAt(lines, i) == RootLineAt(lines[..n], i)
  {
    assert lines[..n][..i] == lines[..i];
  }

  /** `parseInput` returns None (Java's null) exactly when no line is accepted as a
      root, and otherwise the id of the first line that is. */
  lemma {:induction false} ParseRootIsFirstRootLine(lines: seq<string>)
    ensures Parse(lines).root.None? <==> forall i :: 0 <= i < |lines| ==> !RootLineAt(lines, i)
    ensures Parse(lines).root.Some? ==>
            exists i :: 0 <= i < |lines| && RootLineAt(lines, i) &&
                        Find(lines[i]).value.id == Parse(lines).root.value &&
                        forall j :: 0 <= j < i ==> !RootLineAt(lines, j)
  {
    if lines != [] {
      var n := |lines| - 1;
      var init := lines[..n];
      ParseRootIsFirstRootLine(init);
      FirstRootStep(lines, n, init);
    }
  }

  /** The induction step: one more line either is the first root line or leaves the
      answer as it was. */
  lemma FirstRootStep(lines: seq<string>, n: nat, init: seq<string>)
    requires n == |lines| - 1 && init == lines[..n]
    requires Parse(init).root.None? <==> forall i :: 0 <= i < n ==> !RootLineAt(init, i)
    requires Parse(init).root.Some? ==>
             exists i :: 0 <= i < n && RootLineAt(init, i) &&
                         Find(init[i]).value.id == Parse(init).root.value &&
                         forall j :: 0 <= j < i ==> !RootLineAt(init, j)
    ensures Parse(lines).root.None? <==> forall i :: 0 <= i < |lines| ==> !RootLineAt(lines, i)
    ensures Parse(lines).root.Some? ==>
            exists i :: 0 <= i < |lines| && RootLineAt(lines, i) &&
                        Find(lines[i]).value.id == Parse(lines).root.value &&
                        forall j :: 0 <= j < i ==> !RootLineAt(lines, j)
  {
    ParseWf(init);
    StepRoot(Parse(init), lines[n]);
    forall i | 0 <= i < n
      ensures RootLineAt(lines, i) == RootLineAt(init, i)
    {
      RootLineAtPrefix(lines, n, i);
    }
    assert Parse(lines) == Step(Parse(init), lines[n]);
    assert RootLineAt(lines, n) == AcceptsRoot(Parse(init), lines[n]);
    if Parse(init).root.Some? {
      var i :| 0 <= i < n && RootLineAt(init, i) &&
               Find(init[i]).value.id == Parse(init).root.value &&
               forall j :: 0 <= j < i ==> !RootLineAt(init, j);
      assert lines[i] == init[i];
      assert Parse(lines).root == Parse(init).root;
      assert RootLineAt(lines, i) && Find(lines[i]).value.id == Parse(lines).root.value;
    } else if RootLineAt(lines, n) {
      assert Parse(lines).root == Some(Find(lines[n]).value.id);
      assert forall j :: 0 <= j < n ==> !RootLineAt(lines, j);
    } else {
      assert Parse(lines).root.None?;
    }
  }
}
