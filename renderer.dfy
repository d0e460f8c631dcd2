/** The ASCII renderer of `PrettyTreeTansducer`: `printTreePretty`,
    `getOutputTreeFormatted`, `getOutputRec` and `dataToString`. Each loop is proved
    equal to a recursive description of the text it builds. */
module Renderer {
  import opened Model
  import opened Decimal
  import opened LineGrammar
  import opened TreeBuilder
  import opened SetEvaluator

  /** `k` copies of `s`, one after the other. */
  function Repeat(s: string, k: nat): string {
    if k == 0 then "" else Repeat(s, k - 1) + s
  }

  /** The elements of `d` in order, each written in decimal, with `" ,"` between two
      neighbours. */
  function Joined(d: seq<nat>): string {
    if |d| == 0 then ""
    else if |d| == 1 then NatToString(d[0])
    else Joined(d[..|d| - 1]) + " ," + NatToString(d[|d| - 1])
  }

  /** What `dataToString` makes of an array. */
  function DataText(d: seq<nat>): string {
    "{" + Joined(d) + "}"
  }

  /** The label of an operation node is the operator's letter. */
  function OpText(op: Operation): (s: string)
    ensures |s| == 1 && (s == "U" <==> op == Union) && (s == "I" <==> op == Intersect)
  {
    match op
    case Union => "U"
    case Intersect => "I"
  }

  /** The label an operator node prints is the letter its line was written with,
      and the pattern's operator alternative reads it back as that operator. */
  lemma OpTextReadBack(op: Operation)
    ensures OpText(op) == PayloadText(Oper(op))
    ensures PayloadAt(OpText(op), 0) == Some(Oper(op))
  {
  }

  /** The data array `getData` gives each node of a tree: its declared list, or the
      enumeration of its evaluated set. */
  ghost function Arrays(m: Nodes): map<nat, seq<nat>> {
    map k | k in m && TreeBelow(m, k, {}) :: DataOf(m, k)
  }

  /** Every tree node has its array in `Arrays`, and only tree nodes do. */
  lemma ArraysAt(m: Nodes, k: nat)
    ensures k in Arrays(m) <==> k in m && TreeBelow(m, k, {})
    ensures k in Arrays(m) ==> Arrays(m)[k] == DataOf(m, k)
  {
  }

  /** The first line of a node's block, without its prefix: id, label and result,
      the data array taken from `arrays` (a node without one prints as null does). */
  function NodeLine(m: Nodes, arrays: map<nat, seq<nat>>, x: nat): string
    requires x in m
  {
    var result := DataText(if x in arrays then arrays[x] else []);
    var dataOrOp := if m[x].content.Op? then OpText(m[x].content.op) else result;
    HeaderText(NatToString(m[x].id), dataOrOp, result)
  }

  /** Line 55: id, label and result, separated, and a line break. */
  function HeaderText(id: string, dataOrOp: string, result: string): string {
    id + " : " + dataOrOp + " -> " + result + "\n"
  }

  /** The text `getOutputRec(x, level)` returns for the tree below `x`, given each
      node's data array; `anc` holds the nodes above `x`. */
  function Render(m: Nodes, arrays: map<nat, seq<nat>>, x: nat, level: nat, anc: set<nat>): string
    decreases m.Keys - anc, 1, 0
  {
    if x in m && x !in anc then
      NodeLine(m, arrays, x) + ChildrenText(m, arrays, x, level, anc, |m[x].children|)
    else ""
  }

  /** The blocks of the first `n` children of `x`, each preceded by its connector
      line and its child marker at the parent's depth. */
  function ChildrenText(m: Nodes, arrays: map<nat, seq<nat>>, x: nat, level: nat, anc: set<nat>, n: nat): string
    requires x in m && x !in anc && n <= |m[x].children|
    decreases m.Keys - anc, 0, n
  {
    if n == 0 then ""
    else
      ChildrenText(m, arrays, x, level, anc, n - 1) +
      Block(Repeat("|  ", level), Render(m, arrays, m[x].children[n - 1], level + 1, anc + {x}))
  }

  /** One child's block under a parent whose line prefix is `prefix`: the connector
      line, then the child marker in front of the child's own rendering. */
  function Block(prefix: string, sub: string): string {
    prefix + "|\n" + prefix + "+- " + sub
  }

  /** The number of nodes in the tree below `x`. */
  function TreeSize(m: Nodes, x: nat, anc: set<nat>): nat
    decreases m.Keys - anc, 1, 0
  {
    if x in m && x !in anc then 1 + ChildrenSize(m, x, anc, |m[x].children|) else 0
  }

  /** The number of nodes below the first `n` children of `x`. */
  function ChildrenSize(m: Nodes, x: nat, anc: set<nat>, n: nat): nat
    requires x in m && x !in anc && n <= |m[x].children|
    decreases m.Keys - anc, 0, n
  {
    if n == 0 then 0
    else ChildrenSize(m, x, anc, n - 1) + TreeSize(m, m[x].children[n - 1], anc + {x})
  }

  /** The number of times `c` occurs in `s`. */
  function Count(c: char, s: string): nat {
    if s == [] then 0 else Count(c, s[..|s| - 1]) + (if s[|s| - 1] == c then 1 else 0)
  }

  lemma {:induction false} CountConcat(c: char, a: string, b: string)
    ensures Count(c, a + b) == Count(c, a) + Count(c, b)
    decreases |b|
  {
    if b != [] {
      var b' := b[..|b| - 1];
      var ab := a + b;
      assert ab[..|ab| - 1] == a + b';
      assert ab[|ab| - 1] == b[|b| - 1];
      CountConcat(c, a, b');
      assert Count(c, ab) == Count(c, a + b') + (if b[|b| - 1] == c then 1 else 0);
    } else {
      assert a + b == a;
    }
  }

  /** Appending one character adds one occurrence exactly when it is `c`. */
  lemma CountSnoc(c: char, s: string, ch: char)
    ensures Count(c, s + [ch]) == Count(c, s) + (if ch == c then 1 else 0)
  {
    assert (s + [ch])[..|s|] == s;
  }

  /** A string without `c` has no occurrence of it. */
  lemma {:induction false} CountAbsent(c: char, s: string)
    requires forall k :: 0 <= k < |s| ==> s[k] != c
    ensures Count(c, s) == 0
  {
    if s != [] {
      CountAbsent(c, s[..|s| - 1]);
    }
  }

  lemma {:induction false} CountRepeat(k: nat)
    ensures Count('\n', Repeat("|  ", k)) == 0
  {
    if k > 0 {
      CountRepeat(k - 1);
      CountAbsent('\n', "|  ");
      CountConcat('\n', Repeat("|  ", k - 1), "|  ");
    }
  }

  /** A data list's text is one line: it holds no line break. */
  lemma {:induction false} DataTextIsOneLine(d: seq<nat>)
    ensures Count('\n', DataText(d)) == 0
  {
    JoinedIsOneLine(d);
    CountAbsent('\n', "{");
    CountAbsent('\n', "}");
    CountConcat('\n', "{", Joined(d));
    CountConcat('\n', "{" + Joined(d), "}");
  }

  lemma {:induction false} JoinedIsOneLine(d: seq<nat>)
    ensures Count('\n', Joined(d)) == 0
    decreases |d|
  {
    if |d| == 1 {
      CountAbsent('\n', NatToString(d[0]));
    } else if |d| > 1 {
      JoinedIsOneLine(d[..|d| - 1]);
      CountAbsent('\n', NatToString(d[|d| - 1]));
      CountAbsent('\n', " ,");
      CountConcat('\n', Joined(d[..|d| - 1]), " ,");
      CountConcat('\n', Joined(d[..|d| - 1]) + " ,", NatToString(d[|d| - 1]));
    }
  }

  /** `dataToString` writes one separator fewer than there are elements. */
  lemma {:induction false} DataTextSeparators(d: seq<nat>)
    ensures Count(',', DataText(d)) == if d == [] then 0 else |d| - 1
  {
    JoinedSeparators(d);
    CountAbsent(',', "{");
    CountAbsent(',', "}");
    CountConcat(',', "{", Joined(d));
    CountConcat(',', "{" + Joined(d), "}");
  }

  lemma {:induction false} JoinedSeparators(d: seq<nat>)
    ensures Count(',', Joined(d)) == if d == [] then 0 else |d| - 1
    decreases |d|
  {
    if |d| == 1 {
      CountAbsent(',', NatToString(d[0]));
    } else if |d| > 1 {
      JoinedSeparators(d[..|d| - 1]);
      CountAbsent(',', NatToString(d[|d| - 1]));
      CountSnoc(',', " ", ',');
      assert " ," == " " + [','];
      CountAbsent(',', " ");
      CountConcat(',', Joined(d[..|d| - 1]), " ,");
      CountConcat(',', Joined(d[..|d| - 1]) + " ,", NatToString(d[|d| - 1]));
    }
  }

  /** A node's own line ends in its only line break. */
  lemma NodeLineIsOneLine(m: Nodes, arrays: map<nat, seq<nat>>, x: nat)
    requires x in m
    ensures Count('\n', NodeLine(m, arrays, x)) == 1 && EndsInNewline(NodeLine(m, arrays, x))
  {
    var d := if x in arrays then arrays[x] else [];
    var result := DataText(d);
    var dataOrOp := if m[x].content.Op? then OpText(m[x].content.op) else result;
    var id := NatToString(m[x].id);
    CountAbsent('\n', id);
    DataTextIsOneLine(d);
    if m[x].content.Op? {
      CountAbsent('\n', dataOrOp);
    }
    HeaderIsOneLine(id, dataOrOp, result);
  }

  lemma HeaderIsOneLine(id: string, dataOrOp: string, result: string)
    requires Count('\n', id) == 0 && Count('\n', dataOrOp) == 0 && Count('\n', result) == 0
    ensures Count('\n', HeaderText(id, dataOrOp, result)) == 1 && EndsInNewline(HeaderText(id, dataOrOp, result))
  {
    CountAbsent('\n', " : ");
    CountAbsent('\n', " -> ");
    var p1 := id + " : ";
    var p2 := p1 + dataOrOp;
    var p3 := p2 + " -> ";
    var p4 := p3 + result;
    CountConcat('\n', id, " : ");
    CountConcat('\n', p1, dataOrOp);
    CountConcat('\n', p2, " -> ");
    CountConcat('\n', p3, result);
    CountSnoc('\n', p4, '\n');
    assert HeaderText(id, dataOrOp, result) == p4 + ['\n'];
  }

  /** A rendered tree of `n` nodes is 2n-1 lines: one per node and one connector
      line per child. */
  lemma {:induction false} RenderLines(m: Nodes, arrays: map<nat, seq<nat>>, x: nat, level: nat, anc: set<nat>)
    requires TreeBelow(m, x, anc)
    ensures Count('\n', Render(m, arrays, x, level, anc)) == 2 * TreeSize(m, x, anc) - 1
    decreases m.Keys - anc, 1, 0
  {
    NodeLineIsOneLine(m, arrays, x);
    ChildrenLines(m, arrays, x, level, anc, |m[x].children|);
    CountConcat('\n', NodeLine(m, arrays, x), ChildrenText(m, arrays, x, level, anc, |m[x].children|));
  }

  /** The children's blocks have two lines per node below them. */
  lemma {:induction false} ChildrenLines(m: Nodes, arrays: map<nat, seq<nat>>, x: nat, level: nat, anc: set<nat>, n: nat)
    requires TreeBelow(m, x, anc) && n <= |m[x].children|
    ensures Count('\n', ChildrenText(m, arrays, x, level, anc, n)) == 2 * ChildrenSize(m, x, anc, n)
    decreases m.Keys - anc, 0, n
  {
    if n > 0 {
      var j := n - 1;
      var c := m[x].children[j];
      var below := anc + {x};
      TreeBelowChild(m, x, anc, c);
      ChildrenLines(m, arrays, x, level, anc, j);
      RenderLines(m, arrays, c, level + 1, below);
      SizePositive(m, c, below);
      CountRepeat(level);
      ChildLinesStep(m, arrays, x, level, anc, n, j, c, below);
    }
  }

  /** The arithmetic of one more child: its block adds twice its size. */
  lemma ChildLinesStep(m: Nodes, arrays: map<nat, seq<nat>>, x: nat, level: nat, anc: set<nat>,
                       n: nat, j: nat, c: nat, below: set<nat>)
    requires x in m && x !in anc && n == j + 1 && n <= |m[x].children| && c == m[x].children[j]
    requires below == anc + {x} && TreeSize(m, c, below) >= 1
    requires Count('\n', ChildrenText(m, arrays, x, level, anc, j)) == 2 * ChildrenSize(m, x, anc, j)
    requires Count('\n', Render(m, arrays, c, level + 1, below)) == 2 * TreeSize(m, c, below) - 1
    requires Count('\n', Repeat("|  ", level)) == 0
    ensures Count('\n', ChildrenText(m, arrays, x, level, anc, n)) == 2 * ChildrenSize(m, x, anc, n)
  {
    var prev := ChildrenText(m, arrays, x, level, anc, j);
    var pre := Repeat("|  ", level);
    var sub := Render(m, arrays, c, level + 1, below);
    TextStep(m, arrays, x, level, anc, n, j, c, below, prev, pre, sub);
    SizeStep(m, x, anc, n, j, c, below);
    BlocksLines(prev, pre, sub, ChildrenSize(m, x, anc, j), TreeSize(m, c, below));
  }

  /** The text of the first `n` children is that of the first `j` and the block of
      child `j`. */
  lemma TextStep(m: Nodes, arrays: map<nat, seq<nat>>, x: nat, level: nat, anc: set<nat>,
                 n: nat, j: nat, c: nat, below: set<nat>, prev: string, pre: string, sub: string)
    requires x in m && x !in anc && n == j + 1 && n <= |m[x].children| && c == m[x].children[j]
    requires below == anc + {x} && prev == ChildrenText(m, arrays, x, level, anc, j)
    requires pre == Repeat("|  ", level) && sub == Render(m, arrays, c, level + 1, below)
    ensures ChildrenText(m, arrays, x, level, anc, n) == prev + Block(pre, sub)
  {
  }

  /** The size of the first `n` children is that of the first `j` and the size of
      child `j`. */
  lemma SizeStep(m: Nodes, x: nat, anc: set<nat>, n: nat, j: nat, c: nat, below: set<nat>)
    requires x in m && x !in anc && n == j + 1 && n <= |m[x].children| && c == m[x].children[j]
    requires below == anc + {x}
    ensures ChildrenSize(m, x, anc, n) == ChildrenSize(m, x, anc, j) + TreeSize(m, c, below)
  {
  }

  lemma SizePositive(m: Nodes, x: nat, anc: set<nat>)
    requires TreeBelow(m, x, anc)
    ensures TreeSize(m, x, anc) >= 1
  {
  }

  /** One more block of a subtree of `t` nodes adds `2t` lines. */
  lemma BlocksLines(prev: string, pre: string, sub: string, s: nat, t: nat)
    requires Count('\n', prev) == 2 * s && Count('\n', pre) == 0
    requires t >= 1 && Count('\n', sub) == 2 * t - 1
    ensures Count('\n', prev + Block(pre, sub)) == 2 * (s + t)
  {
    BlockLines(pre, sub);
    CountConcat('\n', prev, Block(pre, sub));
  }

  /** A child's block adds the connector line to the child's own lines. */
  lemma BlockLines(prefix: string, sub: string)
    requires Count('\n', prefix) == 0
    ensures Count('\n', Block(prefix, sub)) == 1 + Count('\n', sub)
  {
    var q1 := prefix + "|\n";
    var q2 := q1 + prefix;
    var q3 := q2 + "+- ";
    CountSnoc('\n', "|", '\n');
    assert "|" + ['\n'] == "|\n";
    CountAbsent('\n', "|");
    CountAbsent('\n', "+- ");
    CountConcat('\n', prefix, "|\n");
    CountConcat('\n', q1, prefix);
    CountConcat('\n', q2, "+- ");
    CountConcat('\n', q3, sub);
    assert Block(prefix, sub) == q3 + sub;
  }

  /** The text is non-empty and its last character is a line break. */
  predicate EndsInNewline(s: string) {
    |s| > 0 && s[|s| - 1] == '\n'
  }

  lemma EndsConcat(a: string, b: string)
    requires EndsInNewline(b)
    ensures EndsInNewline(a + b)
  {
    assert (a + b)[|a + b| - 1] == b[|b| - 1];
  }

  /** The rendering ends with a line break, so every line of it is terminated. */
  lemma {:induction false} RenderEndsWithNewline(m: Nodes, arrays: map<nat, seq<nat>>, x: nat, level: nat, anc: set<nat>)
    requires TreeBelow(m, x, anc)
    ensures EndsInNewline(Render(m, arrays, x, level, anc))
    decreases m.Keys - anc
  {
    var k := |m[x].children|;
    var head := NodeLine(m, arrays, x);
    var rest := ChildrenText(m, arrays, x, level, anc, k);
    assert Render(m, arrays, x, level, anc) == head + rest;
    if k == 0 {
      NodeLineIsOneLine(m, arrays, x);
      assert head + rest == head;
    } else {
      var j := k - 1;
      var c := m[x].children[j];
      var below := anc + {x};
      RenderEndsWithNewline(m, arrays, c, level + 1, below);
      LastBlockEnds(m, arrays, x, level, anc, k, j, c, below, Render(m, arrays, c, level + 1, below));
      EndsConcat(head, rest);
    }
  }

  /** The children's text ends where the last child's rendering does. */
  lemma LastBlockEnds(m: Nodes, arrays: map<nat, seq<nat>>, x: nat, level: nat, anc: set<nat>,
                      k: nat, j: nat, c: nat, below: set<nat>, sub: string)
    requires x in m && x !in anc && k == j + 1 && k <= |m[x].children| && c == m[x].children[j]
    requires below == anc + {x} && sub == Render(m, arrays, c, level + 1, below) && EndsInNewline(sub)
    ensures EndsInNewline(ChildrenText(m, arrays, x, level, anc, k))
  {
    var prev := ChildrenText(m, arrays, x, level, anc, j);
    var p := Repeat("|  ", level);
    TextStep(m, arrays, x, level, anc, k, j, c, below, prev, p, sub);
    BlockEnds(p, sub);
    EndsConcat(prev, Block(p, sub));
  }

  lemma BlockEnds(prefix: string, sub: string)
    requires EndsInNewline(sub)
    ensures EndsInNewline(Block(prefix, sub))
  {
    EndsConcat(prefix + "|\n" + prefix + "+- ", sub);
  }

  /** Appending the next child's block to the text so far extends it by one child. */
  lemma ChildrenTextStep(m: Nodes, arrays: map<nat, seq<nat>>, x: nat, level: nat, anc: set<nat>,
                         i: nat, k: nat, c: nat, below: set<nat>, head: string, before: string,
                         prefix: string, sub: string)
    requires x in m && x !in anc && i < |m[x].children| && k == i + 1 && c == m[x].children[i]
    requires below == anc + {x}
    requires before == head + ChildrenText(m, arrays, x, level, anc, i) && prefix == Repeat("|  ", level)
    requires sub == Render(m, arrays, c, level + 1, below)
    ensures before + Block(prefix, sub) == head + ChildrenText(m, arrays, x, level, anc, k)
  {
    TextStep(m, arrays, x, level, anc, k, i, c, below, ChildrenText(m, arrays, x, level, anc, i), prefix, sub);
  }

  /** Lines 40-43: the prefix of a node at depth `level`, built by the pre-decrementing
      counter loop (`level` iterations). */
  method LinePrefix(level: nat) returns (linePrefix: string)
    ensures linePrefix == Repeat("|  ", level)
  {
    linePrefix := "";
    var counter: int := level;
    counter := counter - 1;
    while counter >= 0
      invariant -1 <= counter < level
      invariant linePrefix == Repeat("|  ", level - 1 - counter)
    {
      linePrefix := linePrefix + "|  ";
      counter := counter - 1;
    }
  }

  /** `dataToString`: `None` stands for a null array. */
  method DataToString(data: Option<seq<nat>>) returns (out: string)
    ensures out == DataText(if data.Some? then data.value else [])
  {
    out := "{";
    if data.Some? {
      var d := data.value;
      for i := 0 to |d|
        invariant out == "{" + Joined(d[..i]) + (if 0 < i < |d| then " ," else "")
      {
        ghost var before := out;
        out := out + NatToString(d[i]);
        if i + 1 < |d| {
          out := out + " ,";
        }
        JoinedStep(d, i, i + 1, before, out);
      }
      assert d[..|d|] == d;
    }
    out := out + "}";
  }

  /** Lines 68-71, one iteration: the next number, then a separator unless it was
      the last. */
  lemma JoinedStep(d: seq<nat>, i: nat, k: nat, before: string, out: string)
    requires k == i + 1 && k <= |d|
    requires before == "{" + Joined(d[..i]) + (if 0 < i < |d| then " ," else "")
    requires out == before + NatToString(d[i]) + (if k < |d| then " ," else "")
    ensures out == "{" + Joined(d[..k]) + (if 0 < k < |d| then " ," else "")
  {
    var pre := d[..i];
    assert d[..k][..i] == pre;
    assert d[..k][i] == d[i];
    if i == 0 {
      assert Joined(d[..k]) == NatToString(d[i]);
    } else {
      assert Joined(d[..k]) == Joined(pre) + " ," + NatToString(d[i]);
    }
  }

  /** Lines 45-55: the node's own line, its data array obtained through `getData`. */
  method NodeHeader(ev: Evaluator, x: nat, ghost anc: set<nat>) returns (out: string)
    requires ev.Valid() && TreeBelow(ev.nodes, x, anc)
    modifies ev
    ensures ev.Valid() && out == NodeLine(ev.nodes, Arrays(ev.nodes), x)
  {
    TreeBelowAntimono(ev.nodes, x, anc, {});
    ArraysAt(ev.nodes, x);
    var dataOrOp: string;
    var result: string;
    var node := ev.nodes[x];
    if node.content.Op? {
      dataOrOp := OpText(node.content.op);
      var d := ev.GetData(x);
      result := DataToString(Some(d));
    } else {
      var d := ev.GetData(x);
      dataOrOp := DataToString(Some(d));
      result := dataOrOp;
    }
    out := NatToString(node.id) + " : " + dataOrOp + " -> " + result + "\n";
  }

  /** Lines 57-58 append exactly one child's block. */
  lemma BlockAppended(before: string, prefix: string, childPrefix: string, sub: string, out: string)
    requires childPrefix == "+- " && out == before + prefix + "|\n" + prefix + childPrefix + sub
    ensures out == before + Block(prefix, sub)
  {
  }

  /** `getOutputRec`: the node's own line, then for each child in list order the
      connector line, the child marker and the child's block one level deeper. The
      data arrays come from `getData`, which may evaluate and memoise on the way. */
  method GetOutputRec(ev: Evaluator, x: nat, level: nat, ghost anc: set<nat>) returns (out: string)
    requires ev.Valid() && TreeBelow(ev.nodes, x, anc)
    modifies ev
    ensures ev.Valid() && out == Render(ev.nodes, Arrays(ev.nodes), x, level, anc)
    decreases ev.nodes.Keys - anc, 1
  {
    var linePrefix := LinePrefix(level);
    out := NodeHeader(ev, x, anc);
    var children := ev.nodes[x].children;
    for i := 0 to |children|
      invariant ev.Valid()
      invariant out == NodeLine(ev.nodes, Arrays(ev.nodes), x) + ChildrenText(ev.nodes, Arrays(ev.nodes), x, level, anc, i)
    {
      out := AppendChild(ev, x, level, anc, i, linePrefix, out);
    }
  }

  /** Lines 56-58, one iteration: the connector line, then the child marker and the
      child's block, appended to the text so far. */
  method AppendChild(ev: Evaluator, x: nat, level: nat, ghost anc: set<nat>, i: nat, linePrefix: string,
                     out0: string) returns (out: string)
    requires ev.Valid() && TreeBelow(ev.nodes, x, anc) && i < |ev.nodes[x].children|
    requires linePrefix == Repeat("|  ", level)
    requires out0 == NodeLine(ev.nodes, Arrays(ev.nodes), x) + ChildrenText(ev.nodes, Arrays(ev.nodes), x, level, anc, i)
    modifies ev
    ensures ev.Valid()
    ensures out == NodeLine(ev.nodes, Arrays(ev.nodes), x) + ChildrenText(ev.nodes, Arrays(ev.nodes), x, level, anc, i + 1)
    decreases ev.nodes.Keys - anc, 0
  {
    var childPrefix := "+- ";
    var child := ev.nodes[x].children[i];
    TreeBelowChild(ev.nodes, x, anc, child);
    var sub := GetOutputRec(ev, child, level + 1, anc + {x});
    out := out0 + linePrefix + "|\n";
    out := out + linePrefix + childPrefix + sub;
    BlockAppended(out0, linePrefix, childPrefix, sub, out);
    ChildrenTextStep(ev.nodes, Arrays(ev.nodes), x, level, anc, i, i + 1, child, anc + {x},
                     NodeLine(ev.nodes, Arrays(ev.nodes), x), out0, linePrefix, sub);
  }

  /** `getOutputTreeFormatted`: the tree at depth 0. */
  method GetOutputTreeFormatted(ev: Evaluator, root: nat) returns (out: string)
    requires ev.Valid() && TreeBelow(ev.nodes, root, {})
    modifies ev
    ensures ev.Valid() && out == Render(ev.nodes, Arrays(ev.nodes), root, 0, {})
  {
    out := GetOutputRec(ev, root, 0, {});
  }

  /** `printTreePretty`: `None` (Java's null) exactly when the input has no root
      line the builder accepts, and otherwise the rendering of the tree below the
      first one over the builder's nodes. */
  method PrintTreePretty(input: seq<string>) returns (tree: Option<string>)
    ensures tree.None? <==> forall i :: 0 <= i < |input| ==> !RootLineAt(input, i)
    ensures tree.None? <==> Parse(input).root.None?
    ensures tree.Some? ==> TreeBelow(Parse(input).nodes, Parse(input).root.value, {}) &&
                           tree.value == Render(Parse(input).nodes, Arrays(Parse(input).nodes), Parse(input).root.value, 0, {})
  {
    tree := None;
    var root, parsedNodes := ParseInput(input);
    ParseRootIsFirstRootLine(input);
    ParseWf(input);
    if root.Some? {
      RootTree(Parse(input));
      var ev := new Evaluator(parsedNodes);
      var out := GetOutputTreeFormatted(ev, root.value);
      tree := Some(out);
    }
  }
}
