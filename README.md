# PrettyTreeTansducer in Dafny

A model of the tree transducer of `PrettyTreeTansducer` and `Node`, with proofs. The transducer reads lines of the form `id,parent,payload`. The payload is a data list or one of the set operators `U` (union) and `I` (intersection). A line with an empty or blank parent field declares the root. The transducer builds a tree from the lines. It evaluates every operator node to the set its children denote, and it returns the tree as ASCII text.

The project has six modules, following the program's structure:

| file | module | what it models |
|---|---|---|
| `model.dfy` | `Model` | The node record. `TreeBelow` is the predicate "the nodes reachable from `x` form a finite tree". |
| `decimal.dfy` | `Decimal` | How `Integer.valueOf` reads a decimal numeral and how `String.valueOf` writes one. |
| `grammar.dfy` | `LineGrammar` | The one regular expression `parseInput` compiles and `Matcher.find`, written out by hand. |
| `builder.dfy` | `TreeBuilder` | `parseInput`. `Step` and `Parse` specify the pass over the lines. The loop method `ParseInput` is proved equal to them. The invariant `Wf` is kept by every line. |
| `evaluator.dfy` | `SetEvaluator` | `Node.getData`, `calcDataSetsRecursively` and `updateData`, as methods of the class `Evaluator`. |
| `renderer.dfy` | `Renderer` | `printTreePretty`, `getOutputTreeFormatted`, `getOutputRec` and `dataToString`. The loops of `getOutputRec` and `dataToString` are methods proved equal to a recursive description (`Render`, `DataText`) of the text they build. `printTreePretty` and `getOutputTreeFormatted` are methods that call them, and their contracts state the rendering they return. |

How the pieces are represented:

- **Nodes:** Java's object graph of `Node`s becomes a map from id to `NodeRec`. A node's `children` list holds child ids, in list order.
- **Placeholders:** a placeholder parent is a record whose content is `Missing` and whose `isInitialized` is false.
- **Per-node memo:** the mutable fields of every node are fields of one `Evaluator` object: `data` (node to array) and `resultSet` (node to HashSet reference).
- **HashSet objects:** `sets` maps each reference to the contents of its HashSet, and `next` is the next fresh reference. With references, the model can state the aliasing that `retainAll` creates, not just a set value per node.
- **Specification of the evaluator:** `Eval` is the set a node denotes. `Sorted` is the order in which a set is enumerated into an array.
- **Specification of the output:** `Render` is the text of the tree below a node, given each node's array through `Arrays`.

Behaviour of the code that the model keeps:

- **Bad lines are skipped.** A malformed line, a duplicate id, a second root and a self-parent line are each skipped, and the pass goes on with the next line.
- **Missing root and leftover placeholders are not errors.** A missing root makes the result null. Leftover placeholders are only reported.
- **The separator is `" ,"`.** `dataToString` puts a space and then a comma between two elements.
- **Declared lists keep their duplicates.** A declared data list is printed with its values in the declared order, duplicates included, each value in canonical decimal. It is a set only inside the evaluator.

The two Java files disagree on the name of the children field. The renderer and the builder use `childs`, at lines 56, 134, 161 and 166 of `src/PrettyTreeTansducer.java`. `Node` declares `children`, at line 10 of `src/Node.java`. The model treats the two as one field, `children`.

## Model

| member | source | states |
|---|---|---|
| Decimal.NatToString | src/PrettyTreeTansducer.java:55 | A number is written as a non-empty digit string with no leading zero unless the number is 0. |
| Decimal.ValueOfNatToString | src/PrettyTreeTansducer.java:96 | Reading a written number back with `Integer.valueOf` gives the number. |
| LineGrammar.DigitsEnd | src/PrettyTreeTansducer.java:79 | The greedy `\d+` stops at the end of the longest run of digits. |
| LineGrammar.SpacesEnd | src/PrettyTreeTansducer.java:79 | The greedy `\s*` of the root marker stops at the end of the longest run of whitespace. |
| LineGrammar.DataValues | src/PrettyTreeTansducer.java:111-117 | Group 6, split at its commas, gives at least one number. |
| LineGrammar.FindFrom | src/PrettyTreeTansducer.java:92 | `find` reports a match at the first start position where the pattern matches. It fails only when no position works. |
| LineGrammar.FindIsLeftmost | src/PrettyTreeTansducer.java:91-92 | `find` succeeds exactly when some start position matches. It then reports the leftmost one, and the text after the match is ignored. |
| LineGrammar.MatchLineText | src/PrettyTreeTansducer.java:79-123 | Round trip: on any line written in canonical form, the pattern anchored at the start, and so `find`, reads back the id, the parent or root marker, and the data list or operator. |
| LineGrammar.DataValuesOfJoined | src/PrettyTreeTansducer.java:111-117 | Splitting group 6 at commas gives back every number of a comma-joined list, in order. |
| TreeBuilder.NodeOfLineText | src/PrettyTreeTansducer.java:90-123 | Round trip from a line to its node: the node built from the match of a canonically written line has the line's id, is a root exactly when the parent field is empty, has the written parent id otherwise, and holds the written data list or operator. |
| TreeBuilder.ParseInput | src/PrettyTreeTansducer.java:77-194 | The loop over the lines ends with the node map `Parse(input).nodes`, with `foundRoot` true exactly when a root was returned, and with the root `Parse` determines. |
| TreeBuilder.InitWf | src/PrettyTreeTansducer.java:84-88 | The empty map with no root satisfies the builder's invariant. |
| TreeBuilder.StepWf | src/PrettyTreeTansducer.java:89-181 | Every line keeps the invariant. Each node is filed under its id. Each listed child is an initialised non-root node whose parent id names the list it is in. Exactly the placeholders are uninitialised. A recorded root is an initialised root node of the map. |
| TreeBuilder.ParseWf | src/PrettyTreeTansducer.java:89-181 | The invariant holds after any sequence of lines. |
| TreeBuilder.SkipsUnmatchedLine | src/PrettyTreeTansducer.java:177-180 | A line the pattern does not match leaves the map, `foundRoot` and `root` unchanged. |
| TreeBuilder.DiscardsDuplicateId | src/PrettyTreeTansducer.java:128-140 | A line whose id already names an initialised node leaves the whole state unchanged. |
| TreeBuilder.DiscardsSecondRoot | src/PrettyTreeTansducer.java:144-147 | A later root line is discarded and the first root stays. A placeholder it consumed at line 135 is gone from the map. |
| TreeBuilder.RejectsSelfParent | src/PrettyTreeTansducer.java:155-158 | A non-root line with id equal to parent id is rejected. A placeholder it consumed is not restored, so its id is absent afterwards. |
| TreeBuilder.RecordsFirstRoot | src/PrettyTreeTansducer.java:148-150 | The first root line becomes the root. It takes over its placeholder's children, same elements in the same order, and is stored initialised under its id. No other entry changes. |
| TreeBuilder.AttachesChild | src/PrettyTreeTansducer.java:160-174 | The accepted node is appended at the end of exactly one list. That is its parent's list, or a fresh placeholder's stored under the parent id. The node is then stored initialised under its id with the children it took over, and no other entry changes. |
| TreeBuilder.PathExtendsToTree | src/PrettyTreeTansducer.java:160-174 | In a map satisfying the invariant, every path of list links from a root reaches only new, initialised nodes. |
| TreeBuilder.RootTree | src/PrettyTreeTansducer.java:160-174 | The part of the node graph reachable from a recorded root is a finite tree. |
| TreeBuilder.StepRoot | src/PrettyTreeTansducer.java:144-150 | A line changes `foundRoot` and `root` exactly when it is accepted as the first root line. The root then becomes that line's id. |
| TreeBuilder.RootStaysFirst | src/PrettyTreeTansducer.java:144-147 | Once a root is recorded, no later line changes it. |
| TreeBuilder.ParseRootIsFirstRootLine | src/PrettyTreeTansducer.java:183-193 | `parseInput` returns null exactly when no line is accepted as a root. Otherwise it returns the id of the first accepted root line. A missing root is not an error. |
| SetEvaluator.UnionOverMembers | src/Node.java:43-47 | A union holds exactly the elements some child's set holds. With no children it is empty. |
| SetEvaluator.IntersectOverMembers | src/Node.java:48-55 | The intersection folded over the first `i` children holds exactly the elements every one of them holds. |
| SetEvaluator.EvalMembers | src/Node.java:37-66 | Case by case, in terms of the children's own sets: a declared list gives the set of its elements with duplicates collapsed. A union gives what some child has. An intersection gives what every child has, and nothing when there is no child. |
| SetEvaluator.EvalInIndependent | src/Node.java:37-66 | A node's set does not depend on the path through which the recursion reached it. |
| SetEvaluator.SortedElems | src/Node.java:32-33 | The enumeration of a result set lists every element of the set and nothing else. |
| SetEvaluator.SortedIncreasing | src/Node.java:32-33 | The enumeration is strictly increasing, which is the order the model fixes. |
| SetEvaluator.SortedLength | src/Node.java:30 | The array has the size of the set. |
| SetEvaluator.SortedNoDuplicates | src/Node.java:32-33 | No element is enumerated twice. |
| SetEvaluator.FinishFresh | src/Node.java:39-62 | Evaluating a node into a newly allocated HashSet and recording its data keeps the memo's invariant. Every evaluated node refers to an allocated set. The set of each node not taken over equals the node's set. Each operator node has data exactly when it has been evaluated, and that data enumerates its set. |
| SetEvaluator.FinishIntersect | src/Node.java:50-57 | An intersection node takes over its first child's HashSet and narrows it with `retainAll`. This keeps the invariant: only the taken-over child's set changes, and every data array, the child's included, stays as it was. |
| SetEvaluator.RecordData | src/Node.java:21-24 | After `calcDataSetsRecursively`, an operator node already holds the enumeration of its set as data. So the second `updateData` stores the same array. |
| SetEvaluator.Evaluator.constructor | src/Node.java:5-13 | The state every node has after parsing: declared lists as data, no operator data and no result set. |
| SetEvaluator.Evaluator.UpdateData | src/Node.java:29-35 | The node's data becomes the enumeration of its result set. Nothing else changes. |
| SetEvaluator.Evaluator.CalcDataSetsRecursively | src/Node.java:37-66 | The method returns the node's set, and the node's HashSet holds it. A node already evaluated changes nothing. Data already set stays, and evaluated nodes keep their HashSet. |
| SetEvaluator.Evaluator.CalcOperator | src/Node.java:41-57 | An operator node's HashSet holds the union or the intersection of its children's sets, and its data is filled. |
| SetEvaluator.Evaluator.CalcDeclared | src/Node.java:59-62 | A node with a declared list gets a fresh HashSet holding the set of its elements. |
| SetEvaluator.Evaluator.UnionOfChildren | src/Node.java:43-47 | The loop adds every child's set in list order. The result is the union over all children. |
| SetEvaluator.Evaluator.IntersectionOfChildren | src/Node.java:48-55 | The loop starts from the first child's set and narrows it by each further child's set. The result is the left fold of intersections over all children. |
| SetEvaluator.Evaluator.Fresh | src/Node.java:39 | A newly allocated HashSet holding the given set becomes the node's. |
| SetEvaluator.Evaluator.TakeOver | src/Node.java:50 | The node's HashSet becomes its first child's object, which then holds the given set. |
| SetEvaluator.Evaluator.GetData | src/Node.java:15-27 | A node with no operator returns its declared array, duplicates and order included. An operator node returns the enumeration of its set. After the call the node holds the returned array as its data, and an operator node has its result set. A call on a node that already has data changes nothing. |
| SetEvaluator.Evaluator.GetDataTwice | src/Node.java:21-26 | Two calls in a row give the same array, the node's `DataOf`, and leave the node holding it as its data. That the repeated call leaves the state unchanged is `GetData`'s own clause for a node that already has data. |
| Renderer.OpTextReadBack | src/PrettyTreeTansducer.java:47-48 | An operator node's label is the letter its line was written with, and the pattern's operator alternative reads the label back as the same operator. |
| Renderer.DataToString | src/PrettyTreeTansducer.java:64-75 | The loop writes `{`, the elements joined by `" ,"`, then `}`. A null array gives `{}`. |
| Renderer.DataTextSeparators | src/PrettyTreeTansducer.java:67-72 | An array of n > 0 elements is written with n − 1 separator commas. The empty array has none. |
| Renderer.DataTextIsOneLine | src/PrettyTreeTansducer.java:64-75 | A formatted array holds no line break. |
| Renderer.LinePrefix | src/PrettyTreeTansducer.java:40-43 | The pre-decrementing counter loop builds `level` copies of `"\|  "`. |
| Renderer.NodeHeader | src/PrettyTreeTansducer.java:45-55 | The node's line is its id, `" : "`, its label, `" -> "`, its formatted data and a line break. The label is the operator for operator nodes and the formatted data otherwise. |
| Renderer.NodeLineIsOneLine | src/PrettyTreeTansducer.java:55 | A node's own line ends in its only line break. |
| Renderer.GetOutputRec | src/PrettyTreeTansducer.java:36-62 | The output is the pre-order rendering `Render` of the tree below the node, over the arrays `getData` gives. Each child's block comes in list order, after the connector line `prefix + "\|\n"` and the marker `prefix + "+- "`. |
| Renderer.AppendChild | src/PrettyTreeTansducer.java:56-59 | One iteration appends exactly the next child's block. |
| Renderer.GetOutputTreeFormatted | src/PrettyTreeTansducer.java:32-34 | The tree is rendered from depth 0. |
| Renderer.PrintTreePretty | src/PrettyTreeTansducer.java:22-30 | The result is null exactly when `parseInput` finds no root, which is exactly when no line is accepted as a root. Otherwise the nodes below the root form a tree and the result is their rendering. |
| Renderer.RenderLines | src/PrettyTreeTansducer.java:36-62 | A rendered tree of n nodes has 2n − 1 line breaks: one per node and one connector line per child. |
| Renderer.ChildrenLines | src/PrettyTreeTansducer.java:56-59 | The blocks of the children contribute two line breaks per node below them. |
| Renderer.RenderEndsWithNewline | src/PrettyTreeTansducer.java:55-61 | A rendered tree ends with a line break, so every one of its lines is terminated. |

## Left out

- File reading (`src/FileReaderImpl.java`) and `main`: I/O only. The model starts from the sequence of lines.
- The diagnostic `System.out.println` calls in `parseInput`: the model only decides which lines are accepted and skipped. The trace and the closing report on a missing root or uninitialised nodes are not modelled.
- `Node.toString`: debug text only.
- Integer width: ids and data values are unbounded naturals. Overflow and the `NumberFormatException` that `Integer.valueOf` throws on a very long digit run are not modelled.
- Regular-expression generality: only the one pattern of line 79 is modelled, with `find` semantics. Numbers are read as the digit run, so leading zeros are accepted.
- SetEvaluator.Evaluator.UpdateData: enumerates the result set in ascending order. Java's `HashSet` order is unspecified, so the model fixes one order. Element set, length and absence of duplicates are proved independently of the order.
- SetEvaluator.Evaluator.CalcDataSetsRecursively: requires that the node's HashSet was not taken over by an intersection parent. Two callers exist, and neither asks for such a node. The node's parent calls it once, while the parent itself is not yet evaluated, so no parent has taken the node's set over yet. `getData` calls it on the node itself only when the node has no data yet (src/Node.java:21-22). Such a node is not yet evaluated, so its set cannot have been taken over either.
- SetEvaluator.Evaluator.CalcOperator: assigns the node's HashSet when the fold is done, instead of allocating it first (line 39) and filling it in place.
  - An intersection is accumulated in a local set and written into the first child's object at the end.
  - The fresh set of line 39 is dropped when an intersection replaces it.
  - No other node can observe the difference while the computation runs.
- Java's null handling:
  - A null `data` array and a null `operation` are represented by the node's `Content`.
  - `dataToString(null)` is `DataToString(None)`.
  - `getData` is only called on nodes reachable from the root, which all have content, so the null paths inside `Node` are not reachable and not modelled.
- Object identity of nodes: a child is referred to by its id in the map rather than by a reference. A placeholder's list object, taken over at line 134, becomes the new node's list value.
