/** The node record shared by the tree builder, the set evaluator and the renderer.
    A node graph is a map from node id to record; a node's children are listed by id. */
module Model {

  datatype Option<T> = None | Some(value: T)

  /** The two operators a node line may name instead of a data list. */
  datatype Operation = Union | Intersect

  /** What a node carries: a declared data list, an operator, or nothing at all
      (a placeholder created only because some node named it as its parent). */
  datatype Content = Explicit(values: seq<nat>) | Op(op: Operation) | Missing

  /** One node: the fields of `Node` that the builder sets. `children` holds ids. */
  datatype NodeRec = NodeRec(
    id: nat,
    parentId: nat,
    isRoot: bool,
    content: Content,
    children: seq<nat>,
    isInitialized: bool)

  type Nodes = map<nat, NodeRec>

  /** The set of the elements of a list: duplicates collapse, order is forgotten. */
  function ElemSet(vs: seq<nat>): set<nat> {
    set v | v in vs
  }

  /** The placeholder parent created for a forward reference (its parent id keeps
      the default 0 and it has no content). */
  function Placeholder(id: nat, children: seq<nat>): (r: NodeRec)
    ensures r.id == id && r.children == children
    ensures !r.isInitialized && !r.isRoot && r.content.Missing?
  {
    NodeRec(id, 0, false, Missing, children, false)
  }

  /** The node graph below `x` is a finite tree when every path from `x` that does
      not revisit an id in `anc` reaches only initialised nodes and never comes back
      to an id on the path; `anc` holds the ids already on the path. */
  predicate TreeBelow(m: Nodes, x: nat, anc: set<nat>)
    decreases m.Keys - anc
  {
    x in m && x !in anc && m[x].isInitialized && !m[x].content.Missing? &&
    forall c :: c in m[x].children ==> TreeBelow(m, c, anc + {x})
  }

  /** A smaller set of ancestors only removes obstacles. */
  lemma {:induction false} TreeBelowAntimono(m: Nodes, x: nat, a: set<nat>, b: set<nat>)
    requires TreeBelow(m, x, a) && b <= a
    ensures TreeBelow(m, x, b)
    decreases m.Keys - a
  {
    forall c | c in m[x].children
      ensures TreeBelow(m, c, b + {x})
    {
      TreeBelowAntimono(m, c, a + {x}, b + {x});
    }
  }

  /** The children of a tree node are tree nodes in their own right. */
  lemma TreeBelowChild(m: Nodes, x: nat, anc: set<nat>, c: nat)
    requires TreeBelow(m, x, anc) && c in m[x].children
    ensures TreeBelow(m, c, {}) && TreeBelow(m, c, anc + {x})
  {
    TreeBelowAntimono(m, c, anc + {x}, {});
  }
}
