/** The lazy, memoised set evaluator of `Node`: `getData`, `calcDataSetsRecursively`
    and `updateData`, proved against the set each tree node denotes. */
module SetEvaluator {
  import opened Model
  import opened TreeBuilder

  /** The set a tree node denotes, with `anc` the ids above it on the path walked:
      the elements of its data list, or its operator folded over the children left
      to right, where an operator with no children gives the empty set. */
  function EvalIn(m: Nodes, x: nat, anc: set<nat>): set<nat>
    requires TreeBelow(m, x, anc)
    decreases m.Keys - anc, 1
  {
    var n := m[x];
    if n.content.Explicit? then ElemSet(n.content.values)
    else if n.content.op == Union then UnionOver(m, x, anc, |n.children|)
    else if n.children == [] then {}
    else IntersectOver(m, x, anc, |n.children|)
  }

  /** The union of the first `i` children's sets. */
  function UnionOver(m: Nodes, x: nat, anc: set<nat>, i: nat): set<nat>
    requires TreeBelow(m, x, anc) && i <= |m[x].children|
    decreases m.Keys - anc, 0, i
  {
    if i == 0 then {}
    else UnionOver(m, x, anc, i - 1) + EvalIn(m, m[x].children[i - 1], anc + {x})
  }

  /** children[0] ∩ … ∩ children[i-1], folded from the left. */
  function IntersectOver(m: Nodes, x: nat, anc: set<nat>, i: nat): set<nat>
    requires TreeBelow(m, x, anc) && 1 <= i <= |m[x].children|
    decreases m.Keys - anc, 0, i
  {
    if i == 1 then EvalIn(m, m[x].children[0], anc + {x})
    else IntersectOver(m, x, anc, i - 1) * EvalIn(m, m[x].children[i - 1], anc + {x})
  }

  /** The set of a tree node. */
  function Eval(m: Nodes, x: nat): set<nat>
    requires TreeBelow(m, x, {})
  {
    EvalIn(m, x, {})
  }

  /** The path walked to reach a node does not change its set. */
  lemma {:induction false} EvalInIndependent(m: Nodes, x: nat, a: set<nat>, b: set<nat>)
    requires TreeBelow(m, x, a) && TreeBelow(m, x, b)
    ensures EvalIn(m, x, a) == EvalIn(m, x, b)
    decreases m.Keys - a
  {
    var cs := m[x].children;
    forall j | 0 <= j < |cs|
      ensures EvalIn(m, cs[j], a + {x}) == EvalIn(m, cs[j], b + {x})
    {
      EvalInIndependent(m, cs[j], a + {x}, b + {x});
    }
    if m[x].content.Op? && m[x].content.op == Union {
      UnionOverCongruent(m, x, a, b, |cs|);
    } else if m[x].content.Op? && cs != [] {
      IntersectOverCongruent(m, x, a, b, |cs|);
    }
  }

  lemma {:induction false} UnionOverCongruent(m: Nodes, x: nat, a: set<nat>, b: set<nat>, i: nat)
    requires TreeBelow(m, x, a) && TreeBelow(m, x, b) && i <= |m[x].children|
    requires forall j :: 0 <= j < |m[x].children| ==>
               EvalIn(m, m[x].children[j], a + {x}) == EvalIn(m, m[x].children[j], b + {x})
    ensures UnionOver(m, x, a, i) == UnionOver(m, x, b, i)
  {
    if i > 0 {
      UnionOverCongruent(m, x, a, b, i - 1);
    }
  }

  lemma {:induction false} IntersectOverCongruent(m: Nodes, x: nat, a: set<nat>, b: set<nat>, i: nat)
    requires TreeBelow(m, x, a) && TreeBelow(m, x, b) && 1 <= i <= |m[x].children|
    requires forall j :: 0 <= j < |m[x].children| ==>
               EvalIn(m, m[x].children[j], a + {x}) == EvalIn(m, m[x].children[j], b + {x})
    ensures IntersectOver(m, x, a, i) == IntersectOver(m, x, b, i)
  {
    if i > 1 {
      IntersectOverCongruent(m, x, a, b, i - 1);
    }
  }

  /** A child's set as seen from its parent is its own set. */
  lemma EvalChild(m: Nodes, x: nat, anc: set<nat>, c: nat)
    requires TreeBelow(m, x, anc) && c in m[x].children
    ensures TreeBelow(m, c, {}) && TreeBelow(m, c, anc + {x})
    ensures EvalIn(m, c, anc + {x}) == Eval(m, c)
  {
    TreeBelowChild(m, x, anc, c);
    EvalInIndependent(m, c, anc + {x}, {});
  }

  /** A union's first `i` children contribute exactly their elements. */
  lemma {:induction false} UnionOverMembers(m: Nodes, x: nat, anc: set<nat>, i: nat, v: nat)
    requires TreeBelow(m, x, anc) && i <= |m[x].children|
    ensures v in UnionOver(m, x, anc, i) <==>
            exists j :: 0 <= j < i && v in EvalIn(m, m[x].children[j], anc + {x})
  {
    if i > 0 {
      UnionOverMembers(m, x, anc, i - 1, v);
    }
  }

  /** An intersection keeps exactly the elements every one of its first `i`
      children has. */
  lemma {:induction false} IntersectOverMembers(m: Nodes, x: nat, anc: set<nat>, i: nat, v: nat)
    requires TreeBelow(m, x, anc) && 1 <= i <= |m[x].children|
    ensures v in IntersectOver(m, x, anc, i) <==>
            forall j :: 0 <= j < i ==> v in EvalIn(m, m[x].children[j], anc + {x})
  {
    if i > 1 {
      IntersectOverMembers(m, x, anc, i - 1, v);
    }
  }

  /** What a node's set holds, in terms of its children's own sets: the declared
      elements; for a union, what some child has; for an intersection, what every
      child has, and nothing when there is no child. */
  lemma EvalMembers(m: Nodes, x: nat, v: nat)
    requires TreeBelow(m, x, {})
    ensures forall c :: c in m[x].children ==> TreeBelow(m, c, {})
    ensures m[x].content.Explicit? ==> (v in Eval(m, x) <==> v in m[x].content.values)
    ensures m[x].content == Op(Union) ==>
              (v in Eval(m, x) <==> exists c :: c in m[x].children && v in Eval(m, c))
    ensures m[x].content == Op(Intersect) ==>
              (v in Eval(m, x) <==> m[x].children != [] && forall c :: c in m[x].children ==> v in Eval(m, c))
  {
    var cs := m[x].children;
    assert {} + {x} == {x};
    forall c | c in cs
      ensures TreeBelow(m, c, {}) && EvalIn(m, c, {x}) == Eval(m, c)
    {
      EvalChild(m, x, {}, c);
    }
    if m[x].content == Op(Union) {
      UnionOverMembers(m, x, {}, |cs|, v);
      if v in Eval(m, x) {
        var j :| 0 <= j < |cs| && v in EvalIn(m, cs[j], {} + {x});
        assert cs[j] in cs && v in Eval(m, cs[j]);
      }
      if exists c :: c in cs && v in Eval(m, c) {
        var c :| c in cs && v in Eval(m, c);
        var j :| 0 <= j < |cs| && cs[j] == c;
        assert v in EvalIn(m, cs[j], {} + {x});
      }
    } else if m[x].content == Op(Intersect) && cs != [] {
      IntersectOverMembers(m, x, {}, |cs|, v);
    }
  }

  /** The least element of a non-empty set (see `MinIsLeast`). */
  ghost function Min(s: set<nat>): (v: nat)
    requires s != {}
    ensures v in s
    decreases |s|
  {
    var x :| x in s;
    if s - {x} == {} then x
    else
      var r := Min(s - {x});
      if x < r then x else r
  }

  lemma {:induction false} MinIsLeast(s: set<nat>, w: nat)
    requires w in s
    ensures Min(s) <= w
    decreases |s|
  {
    var x :| x in s && Min(s) == (if s - {x} == {} then x else var r := Min(s - {x}); if x < r then x else r);
    if w != x {
      assert w in s - {x};
      MinIsLeast(s - {x}, w);
    }
  }

  lemma MinIsLeastOfAll(s: set<nat>)
    requires s != {}
    ensures Min(s) in s && forall w :: w in s ==> Min(s) <= w
  {
    forall w | w in s
      ensures Min(s) <= w
    {
      MinIsLeast(s, w);
    }
  }

  /** The order in which the model enumerates a result set: ascending. (Java's
      `HashSet` order is unspecified.) */
  ghost function Sorted(s: set<nat>): seq<nat>
    decreases |s|
  {
    if s == {} then [] else [Min(s)] + Sorted(s - {Min(s)})
  }

  /** The enumeration lists every element of `s` and nothing else. */
  lemma {:induction false} SortedElems(s: set<nat>)
    ensures ElemSet(Sorted(s)) == s
    decreases |s|
  {
    if s != {} {
      var v := Min(s);
      SortedElems(s - {v});
      assert Sorted(s) == [v] + Sorted(s - {v});
      assert ElemSet(Sorted(s)) == {v} + ElemSet(Sorted(s - {v}));
    }
  }

  predicate Increasing(q: seq<nat>) {
    forall i, j :: 0 <= i < j < |q| ==> q[i] < q[j]
  }

  lemma IncreasingCons(v: nat, r: seq<nat>)
    requires Increasing(r) && forall k :: 0 <= k < |r| ==> v < r[k]
    ensures Increasing([v] + r)
  {
    var q := [v] + r;
    forall i, j | 0 <= i < j < |q|
      ensures q[i] < q[j]
    {
      assert q[j] == r[j - 1];
      if i > 0 {
        assert q[i] == r[i - 1];
      }
    }
  }

  /** The enumeration starts with the least element and goes on with the rest. */
  lemma SortedStartsWithLeast(s: set<nat>, v: nat)
    requires v in s && forall w :: w in s ==> v <= w
    ensures Sorted(s) == [v] + Sorted(s - {v})
  {
    MinIsLeast(s, v);
  }

  /** Whatever lists the rest of a set lies above its least element. */
  lemma LeastOfRest(s: set<nat>, r: seq<nat>)
    requires s != {} && ElemSet(r) == s - {Min(s)}
    ensures forall k :: 0 <= k < |r| ==> Min(s) < r[k]
  {
    forall k | 0 <= k < |r|
      ensures Min(s) < r[k]
    {
      assert r[k] in ElemSet(r);
      MinIsLeast(s, r[k]);
    }
  }

  /** ... in strictly increasing order ... */
  lemma {:induction false} SortedIncreasing(s: set<nat>)
    ensures Increasing(Sorted(s))
    decreases |s|
  {
    if s != {} {
      var v := Min(s);
      var r := Sorted(s - {v});
      SortedIncreasing(s - {v});
      SortedElems(s - {v});
      LeastOfRest(s, r);
      IncreasingCons(v, r);
    }
  }

  /** ... and of length |s|. */
  lemma {:induction false} SortedLength(s: set<nat>)
    ensures |Sorted(s)| == |s|
    decreases |s|
  {
    if s != {} {
      SortedLength(s - {Min(s)});
    }
  }

  /** Hence the enumeration holds no element twice. */
  lemma SortedNoDuplicates(s: set<nat>)
    ensures NoDuplicates(Sorted(s))
  {
    SortedIncreasing(s);
  }

  /** What `getData` returns for a node: its declared list, or for an operator
      node the enumeration of its set. */
  ghost function DataOf(m: Nodes, y: nat): seq<nat>
    requires y in m && (m[y].content.Op? ==> TreeBelow(m, y, {}))
    requires !m[y].content.Missing?
  {
    if m[y].content.Explicit? then m[y].content.values else Sorted(Eval(m, y))
  }

  /* The mutable state of all nodes, kept as maps: `data` holds the data array of
     every node that has one, `resultSet` the HashSet object a node refers to, `sets`
     the contents of each allocated HashSet object, and `next` the reference the next
     allocation returns. Two ghost maps record the aliasing:
     `taken` holds the nodes whose object an intersection parent took over as its
     own and narrowed with `retainAll`, and `owner` names, for each object, the one
     node whose set it holds. */

  /** Declared lists are in place, and only nodes with content have data. */
  ghost predicate DeclaredData(m: Nodes, data: map<nat, seq<nat>>) {
    (forall k :: k in m && m[k].content.Explicit? ==> k in data && data[k] == m[k].content.values) &&
    (forall k :: k in data ==> k in m && !m[k].content.Missing?)
  }

  /** Every evaluated node refers to an allocated object, and every allocated
      object lies below the allocation counter. */
  ghost predicate Objects(m: Nodes, rs: map<nat, nat>, sets: map<nat, set<nat>>, next: nat) {
    (forall k :: k in rs ==> k in m && rs[k] in sets) &&
    (forall t :: t in sets ==> t < next)
  }

  /** Only tree nodes are evaluated. */
  ghost predicate Trees(m: Nodes, rs: map<nat, nat>) {
    forall k :: k in rs ==> k in m && TreeBelow(m, k, {})
  }

  /** An operator node has data exactly when it has been evaluated. */
  ghost predicate Memo(m: Nodes, data: map<nat, seq<nat>>, rs: map<nat, nat>) {
    forall k :: k in m && m[k].content.Op? ==> (k in data <==> k in rs)
  }

  /** An evaluated operator node's data enumerates its set. */
  ghost predicate DataMatches(m: Nodes, data: map<nat, seq<nat>>, rs: map<nat, nat>)
    requires Trees(m, rs)
  {
    forall k :: k in data && k in rs && m[k].content.Op? ==> data[k] == Sorted(Eval(m, k))
  }

  /** Only an evaluated node's object is taken over, and only by its evaluated parent. */
  ghost predicate TakenOver(m: Nodes, rs: map<nat, nat>, taken: set<nat>) {
    forall y :: y in taken ==> y in rs && y in m && m[y].parentId in rs
  }

  /** An object is held by at most one node whose object was not taken over. */
  ghost predicate Owners(rs: map<nat, nat>, taken: set<nat>, owner: map<nat, nat>) {
    forall y :: y in rs && y !in taken ==> rs[y] in owner && owner[rs[y]] == y
  }

  /** The object of a node not taken over holds exactly the node's set. */
  ghost predicate SetsMatch(m: Nodes, rs: map<nat, nat>, sets: map<nat, set<nat>>, taken: set<nat>)
    requires (forall k :: k in rs ==> rs[k] in sets) && Trees(m, rs)
  {
    forall y :: y in rs && y !in taken ==> sets[rs[y]] == Eval(m, y)
  }

  /** The memo's invariant. */
  ghost predicate ValidState(m: Nodes, data: map<nat, seq<nat>>, rs: map<nat, nat>,
                             sets: map<nat, set<nat>>, next: nat, taken: set<nat>, owner: map<nat, nat>) {
    WfNodes(m) && DeclaredData(m, data) && Objects(m, rs, sets, next) && Trees(m, rs) &&
    Memo(m, data, rs) && DataMatches(m, data, rs) && TakenOver(m, rs, taken) &&
    Owners(rs, taken, owner) && SetsMatch(m, rs, sets, taken)
  }

  lemma ObjectsGrow(m: Nodes, rs: map<nat, nat>, sets: map<nat, set<nat>>, next: nat, next': nat,
                    y: nat, t: nat, acc: set<nat>)
    requires Objects(m, rs, sets, next) && y in m && next <= next' && t < next'
    ensures Objects(m, rs[y := t], sets[t := acc], next')
  {
  }

  lemma TreesGrow(m: Nodes, rs: map<nat, nat>, y: nat, t: nat)
    requires Trees(m, rs) && y in m && TreeBelow(m, y, {})
    ensures Trees(m, rs[y := t])
  {
  }

  lemma MemoGrow(m: Nodes, data: map<nat, seq<nat>>, rs: map<nat, nat>, y: nat, t: nat, data': map<nat, seq<nat>>)
    requires Memo(m, data, rs) && y in data' && data'.Keys == data.Keys + {y}
    ensures Memo(m, data', rs[y := t])
  {
  }

  lemma DataMatchesGrow(m: Nodes, data: map<nat, seq<nat>>, rs: map<nat, nat>, y: nat, t: nat,
                        data': map<nat, seq<nat>>)
    requires Trees(m, rs) && y in m && TreeBelow(m, y, {}) && DataMatches(m, data, rs)
    requires y in data' && (m[y].content.Op? ==> data'[y] == Sorted(Eval(m, y)))
    requires forall k :: k in data' && k != y ==> k in data && data'[k] == data[k]
    ensures DataMatches(m, data', rs[y := t])
  {
  }

  lemma DeclaredDataGrow(m: Nodes, data: map<nat, seq<nat>>, y: nat, d: seq<nat>)
    requires DeclaredData(m, data) && y in m && !m[y].content.Missing?
    requires m[y].content.Explicit? ==> d == m[y].content.values
    ensures DeclaredData(m, data[y := d])
  {
  }

  lemma TakenGrow(m: Nodes, rs: map<nat, nat>, taken: set<nat>, y: nat, t: nat, c: set<nat>)
    requires TakenOver(m, rs, taken) && forall x :: x in c ==> x in m && m[x].parentId == y
    requires forall x :: x in c ==> x in rs || x == y
    ensures TakenOver(m, rs[y := t], taken + c)
  {
  }

  lemma OwnersFresh(rs: map<nat, nat>, sets: map<nat, set<nat>>, taken: set<nat>, owner: map<nat, nat>,
                    y: nat, t: nat)
    requires Owners(rs, taken, owner) && (forall z :: z in rs ==> rs[z] in sets) && t !in sets
    requires forall z :: z in taken ==> z in rs
    requires y !in rs
    ensures Owners(rs[y := t], taken, owner[t := y])
  {
    assert forall z :: z in rs ==> rs[z] != t;
  }

  lemma SetsMatchFresh(m: Nodes, rs: map<nat, nat>, sets: map<nat, set<nat>>, taken: set<nat>,
                       y: nat, t: nat, acc: set<nat>)
    requires (forall k :: k in rs ==> rs[k] in sets) && Trees(m, rs) && SetsMatch(m, rs, sets, taken)
    requires y !in rs && t !in sets && y in m && TreeBelow(m, y, {}) && acc == Eval(m, y)
    requires Trees(m, rs[y := t])
    ensures SetsMatch(m, rs[y := t], sets[t := acc], taken)
  {
    assert forall z :: z in rs ==> rs[z] != t;
  }

  lemma OwnersIntersect(rs: map<nat, nat>, taken: set<nat>, owner: map<nat, nat>, y: nat, c0: nat)
    requires Owners(rs, taken, owner) && y !in rs && c0 in rs && c0 !in taken
    ensures forall z :: z in rs && z !in taken && z != c0 ==> rs[z] != rs[c0]
    ensures Owners(rs[y := rs[c0]], taken + {c0}, owner[rs[c0] := y])
  {
  }

  lemma SetsMatchIntersect(m: Nodes, rs: map<nat, nat>, sets: map<nat, set<nat>>, taken: set<nat>,
                           y: nat, c0: nat, acc: set<nat>)
    requires (forall k :: k in rs ==> rs[k] in sets) && Trees(m, rs) && SetsMatch(m, rs, sets, taken)
    requires y !in rs && y in m && TreeBelow(m, y, {}) && acc == Eval(m, y) && c0 in rs
    requires forall z :: z in rs && z !in taken && z != c0 ==> rs[z] != rs[c0]
    requires Trees(m, rs[y := rs[c0]])
    ensures SetsMatch(m, rs[y := rs[c0]], sets[rs[c0] := acc], taken + {c0})
  {
  }

  lemma FreshBookkeeping(m: Nodes, data: map<nat, seq<nat>>, rs: map<nat, nat>, sets: map<nat, set<nat>>, next: nat,
                         taken: set<nat>, owner: map<nat, nat>, y: nat, acc: set<nat>, d: seq<nat>)
    requires ValidState(m, data, rs, sets, next, taken, owner) && y !in rs && TreeBelow(m, y, {})
    requires acc == Eval(m, y) && d == DataOf(m, y)
    ensures DeclaredData(m, data[y := d]) && Objects(m, rs[y := next], sets[next := acc], next + 1)
    ensures Trees(m, rs[y := next]) && Memo(m, data[y := d], rs[y := next])
    ensures DataMatches(m, data[y := d], rs[y := next])
  {
    DeclaredDataGrow(m, data, y, d);
    ObjectsGrow(m, rs, sets, next, next + 1, y, next, acc);
    TreesGrow(m, rs, y, next);
    MemoGrow(m, data, rs, y, next, data[y := d]);
    DataMatchesGrow(m, data, rs, y, next, data[y := d]);
  }

  lemma FreshAliasing(m: Nodes, data: map<nat, seq<nat>>, rs: map<nat, nat>, sets: map<nat, set<nat>>, next: nat,
                      taken: set<nat>, owner: map<nat, nat>, y: nat, acc: set<nat>)
    requires ValidState(m, data, rs, sets, next, taken, owner) && y !in rs && TreeBelow(m, y, {})
    requires acc == Eval(m, y)
    ensures Objects(m, rs[y := next], sets[next := acc], next + 1) && Trees(m, rs[y := next])
    ensures TakenOver(m, rs[y := next], taken) && Owners(rs[y := next], taken, owner[next := y])
    ensures SetsMatch(m, rs[y := next], sets[next := acc], taken)
  {
    assert next !in sets;
    ObjectsGrow(m, rs, sets, next, next + 1, y, next, acc);
    TreesGrow(m, rs, y, next);
    TakenGrow(m, rs, taken, y, next, {});
    assert taken + {} == taken;
    OwnersFresh(rs, sets, taken, owner, y, next);
    SetsMatchFresh(m, rs, sets, taken, y, next, acc);
  }

  /** Evaluating a node into a newly allocated result set object, and recording
      its data, keeps the invariant. */
  lemma FinishFresh(m: Nodes, data: map<nat, seq<nat>>, rs: map<nat, nat>, sets: map<nat, set<nat>>, next: nat,
                    taken: set<nat>, owner: map<nat, nat>, y: nat, acc: set<nat>, d: seq<nat>)
    requires ValidState(m, data, rs, sets, next, taken, owner) && y !in rs && TreeBelow(m, y, {})
    requires acc == Eval(m, y) && d == DataOf(m, y)
    ensures ValidState(m, data[y := d], rs[y := next], sets[next := acc], next + 1, taken, owner[next := y])
  {
    FreshBookkeeping(m, data, rs, sets, next, taken, owner, y, acc, d);
    FreshAliasing(m, data, rs, sets, next, taken, owner, y, acc);
  }

  lemma IntersectBookkeeping(m: Nodes, data: map<nat, seq<nat>>, rs: map<nat, nat>, sets: map<nat, set<nat>>,
                             next: nat, taken: set<nat>, owner: map<nat, nat>, y: nat, acc: set<nat>,
                             d: seq<nat>, t: nat)
    requires ValidState(m, data, rs, sets, next, taken, owner) && y !in rs && TreeBelow(m, y, {})
    requires acc == Eval(m, y) && d == DataOf(m, y) && t in sets
    ensures DeclaredData(m, data[y := d]) && Objects(m, rs[y := t], sets[t := acc], next)
    ensures Trees(m, rs[y := t]) && Memo(m, data[y := d], rs[y := t])
    ensures DataMatches(m, data[y := d], rs[y := t])
  {
    DeclaredDataGrow(m, data, y, d);
    ObjectsGrow(m, rs, sets, next, next, y, t, acc);
    TreesGrow(m, rs, y, t);
    MemoGrow(m, data, rs, y, t, data[y := d]);
    DataMatchesGrow(m, data, rs, y, t, data[y := d]);
  }

  lemma IntersectAliasing(m: Nodes, data: map<nat, seq<nat>>, rs: map<nat, nat>, sets: map<nat, set<nat>>,
                          next: nat, taken: set<nat>, owner: map<nat, nat>, y: nat, acc: set<nat>,
                          c0: nat, t: nat)
    requires ValidState(m, data, rs, sets, next, taken, owner) && y !in rs && TreeBelow(m, y, {})
    requires acc == Eval(m, y)
    requires m[y].children != [] && c0 == m[y].children[0] && c0 in rs && t == rs[c0]
    ensures Objects(m, rs[y := t], sets[t := acc], next) && Trees(m, rs[y := t])
    ensures TakenOver(m, rs[y := t], taken + {c0}) && Owners(rs[y := t], taken + {c0}, owner[t := y])
    ensures SetsMatch(m, rs[y := t], sets[t := acc], taken + {c0})
  {
    ObjectsGrow(m, rs, sets, next, next, y, t, acc);
    TreesGrow(m, rs, y, t);
    assert m[c0].parentId == y;
    assert c0 !in taken;
    TakenGrow(m, rs, taken, y, t, {c0});
    OwnersIntersect(rs, taken, owner, y, c0);
    SetsMatchIntersect(m, rs, sets, taken, y, c0, acc);
  }

  /** An intersection that takes over its first child's result set object, which
      now holds the intersection, and records its data keeps the invariant. */
  lemma FinishIntersect(m: Nodes, data: map<nat, seq<nat>>, rs: map<nat, nat>, sets: map<nat, set<nat>>, next: nat,
                        taken: set<nat>, owner: map<nat, nat>, y: nat, acc: set<nat>, d: seq<nat>, c0: nat)
    requires ValidState(m, data, rs, sets, next, taken, owner) && y !in rs && TreeBelow(m, y, {})
    requires acc == Eval(m, y) && d == DataOf(m, y)
    requires m[y].children != [] && c0 == m[y].children[0] && c0 in rs
    ensures ValidState(m, data[y := d], rs[y := rs[c0]], sets[rs[c0] := acc], next, taken + {c0}, owner[rs[c0] := y])
  {
    IntersectBookkeeping(m, data, rs, sets, next, taken, owner, y, acc, d, rs[c0]);
    IntersectAliasing(m, data, rs, sets, next, taken, owner, y, acc, c0, rs[c0]);
  }

  lemma Regroup(p: seq<nat>, v: nat, q: seq<nat>)
    ensures p + ([v] + q) == (p + [v]) + q
  {
  }

  /** One more child's set joins the union. */
  lemma UnionStep(m: Nodes, y: nat, i: nat, acc: set<nat>, r: set<nat>)
    requires TreeBelow(m, y, {}) && i < |m[y].children| && acc == UnionOver(m, y, {}, i)
    requires TreeBelow(m, m[y].children[i], {}) && r == Eval(m, m[y].children[i])
    ensures acc + r == UnionOver(m, y, {}, i + 1)
  {
    EvalChild(m, y, {}, m[y].children[i]);
  }

  /** One more child's set narrows the intersection. */
  lemma IntersectStep(m: Nodes, y: nat, i: nat, acc: set<nat>, r: set<nat>)
    requires TreeBelow(m, y, {}) && 1 <= i < |m[y].children| && acc == IntersectOver(m, y, {}, i)
    requires TreeBelow(m, m[y].children[i], {}) && r == Eval(m, m[y].children[i])
    ensures acc * r == IntersectOver(m, y, {}, i + 1)
  {
    EvalChild(m, y, {}, m[y].children[i]);
  }

  /** The first child's set starts the intersection. */
  lemma IntersectFirst(m: Nodes, y: nat, r: set<nat>)
    requires TreeBelow(m, y, {}) && m[y].children != []
    requires TreeBelow(m, m[y].children[0], {}) && r == Eval(m, m[y].children[0])
    ensures r == IntersectOver(m, y, {}, 1)
  {
    EvalChild(m, y, {}, m[y].children[0]);
  }

  /** A child of a node not yet evaluated is a tree on the path below the node,
      and its object has not been taken over. */
  lemma ChildReady(m: Nodes, data: map<nat, seq<nat>>, rs: map<nat, nat>, sets: map<nat, set<nat>>, next: nat,
                   taken: set<nat>, owner: map<nat, nat>, y: nat, anc: set<nat>, c: nat)
    requires ValidState(m, data, rs, sets, next, taken, owner) && y !in rs
    requires TreeBelow(m, y, anc) && c in m[y].children
    ensures TreeBelow(m, c, anc + {y}) && TreeBelow(m, c, {}) && c !in taken
  {
    TreeBelowChild(m, y, anc, c);
    assert m[c].parentId == y;
  }

  /** Between two states of the memo: evaluated nodes keep their object, nodes
      evaluated in between lie outside `anc`, and data arrays already set stay. */
  ghost predicate Grows(data0: map<nat, seq<nat>>, rs0: map<nat, nat>,
                        data1: map<nat, seq<nat>>, rs1: map<nat, nat>, anc: set<nat>) {
    (forall k :: k in rs0 ==> k in rs1 && rs1[k] == rs0[k]) &&
    (forall k :: k in rs1 && k !in rs0 ==> k !in anc) &&
    (forall k :: k in data0 ==> k in data1 && data1[k] == data0[k])
  }

  lemma GrowsTrans(data0: map<nat, seq<nat>>, rs0: map<nat, nat>, data1: map<nat, seq<nat>>,
                   rs1: map<nat, nat>, data2: map<nat, seq<nat>>, rs2: map<nat, nat>,
                   anc: set<nat>, anc': set<nat>)
    requires Grows(data0, rs0, data1, rs1, anc) && Grows(data1, rs1, data2, rs2, anc') && anc <= anc'
    ensures Grows(data0, rs0, data2, rs2, anc)
  {
  }

  /** A node not yet evaluated has data exactly when it declares a list. */
  lemma NotEvaluated(m: Nodes, data: map<nat, seq<nat>>, rs: map<nat, nat>, y: nat)
    requires DeclaredData(m, data) && Memo(m, data, rs) && y in m && !m[y].content.Missing? && y !in rs
    ensures y !in data <==> m[y].content.Op?
    ensures y in data ==> data[y] == m[y].content.values
  {
  }

  /** Recording one more node, outside `anc` and not yet evaluated, keeps the
      growth relation. */
  lemma GrowsAdd(data0: map<nat, seq<nat>>, rs0: map<nat, nat>, data1: map<nat, seq<nat>>,
                 rs1: map<nat, nat>, anc: set<nat>, anc': set<nat>, y: nat, t: nat, d: seq<nat>)
    requires Grows(data0, rs0, data1, rs1, anc') && anc <= anc' && y !in anc && y !in rs1
    requires y in data0 ==> data0[y] == d
    ensures Grows(data0, rs0, data1[y := d], rs1[y := t], anc)
  {
  }

  /** An evaluated operator node already holds its enumeration as data (line 57), so
      the second `updateData` of `getData` (line 23) stores the same array again. */
  lemma RecordData(m: Nodes, data: map<nat, seq<nat>>, rs: map<nat, nat>, sets: map<nat, set<nat>>,
                   next: nat, taken: set<nat>, owner: map<nat, nat>, y: nat)
    requires ValidState(m, data, rs, sets, next, taken, owner)
    requires y in rs && y in m && m[y].content.Op?
    ensures y in data && data[y] == Sorted(Eval(m, y))
  {
  }

  /** The set of an evaluated node, case by case. */
  lemma EvalUnfold(m: Nodes, y: nat)
    requires TreeBelow(m, y, {})
    ensures m[y].content.Explicit? ==> Eval(m, y) == ElemSet(m[y].content.values)
    ensures m[y].content.Op? && m[y].content.op == Union ==>
              Eval(m, y) == UnionOver(m, y, {}, |m[y].children|)
    ensures m[y].content.Op? && m[y].content.op == Intersect && m[y].children == [] ==> Eval(m, y) == {}
    ensures m[y].content.Op? && m[y].content.op == Intersect && m[y].children != [] ==>
              Eval(m, y) == IntersectOver(m, y, {}, |m[y].children|)
  {
  }

  /** The mutable fields of the nodes of one node map (`data` and `resultSet` of
      every `Node`) together with the HashSet objects they refer to. */
  class Evaluator {
    const nodes: Nodes
    var data: map<nat, seq<nat>>
    var resultSet: map<nat, nat>
    var sets: map<nat, set<nat>>
    var next: nat
    ghost var taken: set<nat>
    ghost var owner: map<nat, nat>

    ghost predicate Valid()
      reads this
    {
      ValidState(nodes, data, resultSet, sets, next, taken, owner)
    }

    /** The state the builder leaves: every node with a data list holds it, and no
        result set exists yet. */
    constructor (m: Nodes)
      requires WfNodes(m)
      ensures Valid() && nodes == m && resultSet == map[] && sets == map[]
      ensures data == map k | k in m && m[k].content.Explicit? :: m[k].content.values
    {
      nodes := m;
      data := map k | k in m && m[k].content.Explicit? :: m[k].content.values;
      resultSet := map[];
      sets := map[];
      next := 0;
      taken := {};
      owner := map[];
    }

    /** `updateData`: a fresh array filled by enumerating the node's result set
        (ascending here), then stored as the node's data. */
    method UpdateData(y: nat)
      requires y in resultSet && resultSet[y] in sets
      modifies this
      ensures resultSet == old(resultSet) && sets == old(sets) && next == old(next)
      ensures taken == old(taken) && owner == old(owner)
      ensures data == old(data)[y := Sorted(sets[resultSet[y]])]
    {
      var s := sets[resultSet[y]];
      var a := new nat[|s|];
      var rest := s;
      var i := 0;
      SortedLength(s);
      while rest != {}
        modifies a
        invariant 0 <= i <= a.Length && i + |rest| == |s| == a.Length
        invariant a[..i] + Sorted(rest) == Sorted(s)
        decreases |rest|
      {
        MinIsLeastOfAll(rest);
        var v :| v in rest && forall w :: w in rest ==> v <= w;
        SortedStartsWithLeast(rest, v);
        ghost var before := a[..i];
        a[i] := v;
        assert a[..i + 1] == before + [v];
        Regroup(before, v, Sorted(rest - {v}));
        rest := rest - {v};
        i := i + 1;
      }
      assert a[..] == a[..i] == Sorted(s);
      data := data[y := a[..]];
    }
  
    /** `calcDataSetsRecursively`: the node's result set, computed on the first call
        only. A node with a declared list collects its elements; an operator node
        folds its children's sets and then fills its data array. `anc` holds the
        ids the recursion came through; the node must not be one whose object its
        parent has already taken over (callers never ask for such a node). */
    method CalcDataSetsRecursively(y: nat, ghost anc: set<nat>) returns (r: set<nat>)
      requires Valid() && TreeBelow(nodes, y, anc) && y !in taken
      modifies this
      ensures Valid() && TreeBelow(nodes, y, {}) && r == Eval(nodes, y)
      ensures y in resultSet && resultSet[y] in sets && sets[resultSet[y]] == r
      ensures Grows(old(data), old(resultSet), data, resultSet, anc)
      ensures old(y in resultSet) ==> data == old(data) && resultSet == old(resultSet) && sets == old(sets)
      decreases nodes.Keys - anc, 2
    {
      TreeBelowAntimono(nodes, y, anc, {});
      if y !in resultSet {
        NotEvaluated(nodes, data, resultSet, y);
        if y !in data {
          CalcOperator(y, anc);
        } else {
          CalcDeclared(y, anc);
        }
      }
      r := sets[resultSet[y]];
    }

    /** Lines 41-57: an operator node folds its children's sets into its result
        set object and fills its data array. */
    method CalcOperator(y: nat, ghost anc: set<nat>)
      requires Valid() && TreeBelow(nodes, y, anc) && y !in resultSet && nodes[y].content.Op?
      modifies this
      ensures Valid() && TreeBelow(nodes, y, {})
      ensures y in resultSet && resultSet[y] in sets && sets[resultSet[y]] == Eval(nodes, y)
      ensures Grows(old(data), old(resultSet), data, resultSet, anc)
      decreases nodes.Keys - anc, 1
    {
      TreeBelowAntimono(nodes, y, anc, {});
      EvalUnfold(nodes, y);
      var acc: set<nat>;
      var c0: nat := 0;
      if nodes[y].content.op == Union {
        acc := UnionOfChildren(y, anc);
      } else if nodes[y].children == [] {
        acc := {};
      } else {
        c0, acc := IntersectionOfChildren(y, anc);
      }
      ghost var data1, rs1 := data, resultSet;
      if nodes[y].content.op == Intersect && nodes[y].children != [] {
        FinishIntersect(nodes, data, resultSet, sets, next, taken, owner, y, acc, Sorted(acc), c0);
        TakeOver(y, c0, acc);
      } else {
        FinishFresh(nodes, data, resultSet, sets, next, taken, owner, y, acc, Sorted(acc));
        Fresh(y, acc);
      }
      assert y in resultSet && resultSet[y] in sets && sets[resultSet[y]] == acc;
      UpdateData(y);
      assert data == data1[y := Sorted(acc)];
      GrowsAdd(old(data), old(resultSet), data1, rs1, anc, anc + {y}, y, resultSet[y], Sorted(acc));
    }

    /** Lines 59-62: a node with a declared list collects its elements into a newly
        allocated result set object. */
    method CalcDeclared(y: nat, ghost anc: set<nat>)
      requires Valid() && TreeBelow(nodes, y, anc) && y !in resultSet && nodes[y].content.Explicit?
      modifies this
      ensures Valid() && TreeBelow(nodes, y, {})
      ensures y in resultSet && resultSet[y] in sets && sets[resultSet[y]] == Eval(nodes, y)
      ensures Grows(old(data), old(resultSet), data, resultSet, anc)
    {
      TreeBelowAntimono(nodes, y, anc, {});
      EvalUnfold(nodes, y);
      var d := data[y];
      var acc: set<nat> := {};
      for i := 0 to |d|
        invariant acc == ElemSet(d[..i])
      {
        assert d[..i + 1] == d[..i] + [d[i]];
        acc := acc + {d[i]};
      }
      assert d[..|d|] == d;
      FinishFresh(nodes, data, resultSet, sets, next, taken, owner, y, acc, d);
      assert data[y := d] == data;
      Fresh(y, acc);
    }

    /** Line 39 and the end of the computation: the node refers to a newly
        allocated object holding `acc`. */
    method Fresh(y: nat, acc: set<nat>)
      modifies this
      ensures data == old(data) && taken == old(taken) && next == old(next) + 1
      ensures resultSet == old(resultSet)[y := old(next)] && sets == old(sets)[old(next) := acc]
      ensures owner == old(owner)[old(next) := y]
    {
      resultSet, sets, owner, next := resultSet[y := next], sets[next := acc], owner[next := y], next + 1;
    }

    /** Line 50: an intersection node takes over its first child's object, which
        then holds the intersection. */
    method TakeOver(y: nat, c0: nat, acc: set<nat>)
      requires c0 in resultSet
      modifies this
      ensures data == old(data) && next == old(next) && taken == old(taken) + {c0}
      ensures resultSet == old(resultSet)[y := old(resultSet)[c0]]
      ensures sets == old(sets)[old(resultSet)[c0] := acc]
      ensures owner == old(owner)[old(resultSet)[c0] := y]
    {
      var t := resultSet[c0];
      resultSet, sets, owner, taken := resultSet[y := t], sets[t := acc], owner[t := y], taken + {c0};
    }

    /** The loop of the union case: every child's set, added in list order. */
    method UnionOfChildren(y: nat, ghost anc: set<nat>) returns (acc: set<nat>)
      requires Valid() && TreeBelow(nodes, y, anc) && y !in resultSet
      modifies this
      ensures Valid() && y !in resultSet && TreeBelow(nodes, y, {})
      ensures acc == UnionOver(nodes, y, {}, |nodes[y].children|)
      ensures Grows(old(data), old(resultSet), data, resultSet, anc + {y})
      decreases nodes.Keys - anc, 0
    {
      TreeBelowAntimono(nodes, y, anc, {});
      var cs := nodes[y].children;
      acc := {};
      var i := 0;
      while i < |cs|
        invariant 0 <= i <= |cs|
        invariant Valid() && y !in resultSet
        invariant acc == UnionOver(nodes, y, {}, i)
        invariant Grows(old(data), old(resultSet), data, resultSet, anc + {y})
      {
        var c := cs[i];
        ChildReady(nodes, data, resultSet, sets, next, taken, owner, y, anc, c);
        ghost var data0, rs0 := data, resultSet;
        var r := CalcDataSetsRecursively(c, anc + {y});
        GrowsTrans(old(data), old(resultSet), data0, rs0, data, resultSet, anc + {y}, anc + {y});
        UnionStep(nodes, y, i, acc, r);
        acc := acc + r;
        i := i + 1;
      }
    }

    /** The intersection case: the first child's set, narrowed by each further
        child's set in list order. Returns the first child too, whose object the
        node takes over. */
    method IntersectionOfChildren(y: nat, ghost anc: set<nat>) returns (c0: nat, acc: set<nat>)
      requires Valid() && TreeBelow(nodes, y, anc) && y !in resultSet && nodes[y].children != []
      modifies this
      ensures Valid() && y !in resultSet && TreeBelow(nodes, y, {})
      ensures c0 == nodes[y].children[0] && c0 in resultSet
      ensures acc == IntersectOver(nodes, y, {}, |nodes[y].children|)
      ensures Grows(old(data), old(resultSet), data, resultSet, anc + {y})
      decreases nodes.Keys - anc, 0
    {
      TreeBelowAntimono(nodes, y, anc, {});
      var cs := nodes[y].children;
      c0 := cs[0];
      ChildReady(nodes, data, resultSet, sets, next, taken, owner, y, anc, c0);
      acc := CalcDataSetsRecursively(c0, anc + {y});
      IntersectFirst(nodes, y, acc);
      var i := 1;
      while i < |cs|
        invariant 1 <= i <= |cs|
        invariant Valid() && y !in resultSet && c0 in resultSet
        invariant acc == IntersectOver(nodes, y, {}, i)
        invariant Grows(old(data), old(resultSet), data, resultSet, anc + {y})
      {
        var c := cs[i];
        ChildReady(nodes, data, resultSet, sets, next, taken, owner, y, anc, c);
        ghost var data0, rs0 := data, resultSet;
        var r := CalcDataSetsRecursively(c, anc + {y});
        GrowsTrans(old(data), old(resultSet), data0, rs0, data, resultSet, anc + {y}, anc + {y});
        IntersectStep(nodes, y, i, acc, r);
        acc := acc * r;
        i := i + 1;
      }
    }

    /** `getData`: a node without an operator gives its declared list; an operator
        node computes its data on the first call and gives the stored array on
        every later one. */
    method GetData(y: nat) returns (d: seq<nat>)
      requires Valid() && y in nodes && !nodes[y].content.Missing?
      requires nodes[y].content.Op? ==> TreeBelow(nodes, y, {})
      modifies this
      ensures Valid() && d == DataOf(nodes, y)
      ensures y in data && data[y] == d && (nodes[y].content.Op? ==> y in resultSet)
      ensures Grows(old(data), old(resultSet), data, resultSet, {})
      ensures old(y in data) ==> data == old(data) && resultSet == old(resultSet) && sets == old(sets)
    {
      if nodes[y].content.Explicit? {
        d := data[y];
        return;
      }
      if y !in data {
        assert y !in resultSet && y !in taken;
        var _ := CalcDataSetsRecursively(y, {});
        ghost var data1 := data;
        RecordData(nodes, data, resultSet, sets, next, taken, owner, y);
        UpdateData(y);
        assert data == data1[y := data1[y]] == data1;
      }
      d := data[y];
    }

    /** Two calls of `getData` in a row return the same array. The first leaves the
        node with data, so `GetData`'s clause for a node with data covers the second. */
    method GetDataTwice(y: nat) returns (d1: seq<nat>, d2: seq<nat>)
      requires Valid() && y in nodes && !nodes[y].content.Missing?
      requires nodes[y].content.Op? ==> TreeBelow(nodes, y, {})
      modifies this
      ensures Valid() && d1 == d2 == DataOf(nodes, y)
      ensures y in data && data[y] == d1 && (nodes[y].content.Op? ==> y in resultSet)
    {
      d1 := GetData(y);
      ghost var data1, rs1, sets1 := data, resultSet, sets;
      d2 := GetData(y);
      assert data == data1 && resultSet == rs1 && sets == sets1;
    }
  }
}
