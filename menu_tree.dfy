/** The menu description a client sends to the server, after JSON decoding, and the
    server's debug rendering of it: one indented line per node, in pre-order. */
module MenuTree {

  datatype Option<+T> = None | Some(value: T)

  /** One node of a menu description. A field the JSON object lacks is `None`; a node
      without `items` behaves exactly like one with an empty `items` array, so both
      are the empty sequence here. */
  datatype MenuNode = MenuNode(name: Option<string>, icon: Option<string>, items: seq<MenuNode>)

  /** A node together with the depth at which the debug rendering prints it. */
  datatype Entry = Entry(node: MenuNode, depth: nat)

  /** Number of nodes in the tree rooted at `m`. */
  function NodeCount(m: MenuNode): (r: nat)
    decreases m, 1
  {
    1 + ForestCount(m.items)
  }

  function ForestCount(ms: seq<MenuNode>): (r: nat)
    decreases ms, 0
  {
    if ms == [] then 0 else NodeCount(ms[0]) + ForestCount(ms[1..])
  }

  /** `'  '.repeat(depth)`: two blanks per level. */
  function Indent(depth: nat): (r: string)
    ensures |r| == 2 * depth
    ensures forall i :: 0 <= i < |r| ==> r[i] == ' '
  {
    if depth == 0 then "" else "  " + Indent(depth - 1)
  }

  /** A JavaScript string field used in a condition: a missing or empty string is falsy
      and is replaced by `fallback`. */
  function TextOr(field: Option<string>, fallback: string): (r: string)
    ensures field.Some? && field.value != "" ==> r == field.value
    ensures field.None? || field.value == "" ==> r == fallback
  {
    match field
    case Some(s) => if s != "" then s else fallback
    case None => fallback
  }

  /** The debug line of one node: indentation, the name, then the icon in parentheses. */
  function Line(m: MenuNode, depth: nat): (r: string)
    ensures var title := TextOr(m.name, "No Name");
            var icon := TextOr(m.icon, "No Icon");
            |r| == 2 * depth + |title| + |icon| + 3 &&
            (forall i :: 0 <= i < 2 * depth ==> r[i] == ' ') &&
            r[2 * depth..2 * depth + |title|] == title &&
            r[2 * depth + |title|..2 * depth + |title| + 2] == " (" &&
            r[|r| - 1 - |icon|..|r| - 1] == icon &&
            r[|r| - 1] == ')'
  {
    Indent(depth) + TextOr(m.name, "No Name") + " (" + TextOr(m.icon, "No Icon") + ")"
  }

  /** The lines the debug printer emits for the tree `m` printed at `depth`: the node's
      own line, then each child's lines at `depth + 1`, in order. */
  function DebugLines(m: MenuNode, depth: nat): (r: seq<string>)
    ensures |r| == NodeCount(m)
    ensures r[0] == Line(m, depth)
    decreases m, 1
  {
    [Line(m, depth)] + ForestLines(m.items, depth + 1)
  }

  function ForestLines(ms: seq<MenuNode>, depth: nat): (r: seq<string>)
    ensures |r| == ForestCount(ms)
    decreases ms, 0
  {
    if ms == [] then [] else DebugLines(ms[0], depth) + ForestLines(ms[1..], depth)
  }

  /** The traversal order on its own, without the text of the lines: every node of the
      tree with its depth, parents before their children, siblings left to right. */
  function PreOrder(m: MenuNode, depth: nat): (r: seq<Entry>)
    decreases m, 1
  {
    [Entry(m, depth)] + ForestPreOrder(m.items, depth + 1)
  }

  function ForestPreOrder(ms: seq<MenuNode>, depth: nat): (r: seq<Entry>)
    decreases ms, 0
  {
    if ms == [] then [] else PreOrder(ms[0], depth) + ForestPreOrder(ms[1..], depth)
  }

  /** The pre-order walk visits every node exactly once. */
  lemma {:induction false} PreOrderSize(m: MenuNode, depth: nat)
    ensures |PreOrder(m, depth)| == NodeCount(m)
    decreases m, 1
  {
    ForestPreOrderSize(m.items, depth + 1);
  }

  lemma {:induction false} ForestPreOrderSize(ms: seq<MenuNode>, depth: nat)
    ensures |ForestPreOrder(ms, depth)| == ForestCount(ms)
    decreases ms, 0
  {
    if ms != [] {
      PreOrderSize(ms[0], depth);
      ForestPreOrderSize(ms[1..], depth);
    }
  }

  /** The walk starts at the root, at the given depth, and every later entry lies
      strictly deeper: children are printed at depth + 1 and below. */
  lemma {:induction false} PreOrderDepths(m: MenuNode, depth: nat)
    ensures PreOrder(m, depth)[0] == Entry(m, depth)
    ensures forall k :: 0 < k < |PreOrder(m, depth)| ==> PreOrder(m, depth)[k].depth > depth
    decreases m, 1
  {
    ForestPreOrderDepths(m.items, depth + 1);
  }

  lemma {:induction false} ForestPreOrderDepths(ms: seq<MenuNode>, depth: nat)
    ensures forall k :: 0 <= k < |ForestPreOrder(ms, depth)| ==> ForestPreOrder(ms, depth)[k].depth >= depth
    decreases ms, 0
  {
    if ms != [] {
      PreOrderDepths(ms[0], depth);
      ForestPreOrderDepths(ms[1..], depth);
    }
  }

  /** The k-th debug line is the line of the k-th node of the pre-order walk. */
  lemma {:induction false} DebugLinesFollowPreOrder(m: MenuNode, depth: nat)
    ensures |DebugLines(m, depth)| == |PreOrder(m, depth)|
    ensures forall k :: 0 <= k < |DebugLines(m, depth)| ==>
              DebugLines(m, depth)[k] == Line(PreOrder(m, depth)[k].node, PreOrder(m, depth)[k].depth)
    decreases m, 1
  {
    ForestLinesFollowPreOrder(m.items, depth + 1);
  }

  lemma {:induction false} ForestLinesFollowPreOrder(ms: seq<MenuNode>, depth: nat)
    ensures |ForestLines(ms, depth)| == |ForestPreOrder(ms, depth)|
    ensures forall k :: 0 <= k < |ForestLines(ms, depth)| ==>
              ForestLines(ms, depth)[k] == Line(ForestPreOrder(ms, depth)[k].node, ForestPreOrder(ms, depth)[k].depth)
    decreases ms, 0
  {
    if ms != [] {
      DebugLinesFollowPreOrder(ms[0], depth);
      ForestLinesFollowPreOrder(ms[1..], depth);
    }
  }

  /** The i-th child of a node is visited right after the root and the subtrees of its
      earlier siblings, at one level deeper: sibling order and the child depth of
      `indent + 1` are fixed through node counts alone. */
  lemma ChildAt(m: MenuNode, depth: nat, i: nat)
    requires i < |m.items|
    ensures 1 + ForestCount(m.items[..i]) < |PreOrder(m, depth)|
    ensures PreOrder(m, depth)[1 + ForestCount(m.items[..i])] == Entry(m.items[i], depth + 1)
  {
    ForestChildAt(m.items, depth + 1, i);
  }

  lemma {:induction false} ForestChildAt(ms: seq<MenuNode>, depth: nat, i: nat)
    requires i < |ms|
    ensures ForestCount(ms[..i]) < |ForestPreOrder(ms, depth)|
    ensures ForestPreOrder(ms, depth)[ForestCount(ms[..i])] == Entry(ms[i], depth)
    decreases i
  {
    PreOrderSize(ms[0], depth);
    if i == 0 {
      assert ms[..0] == [];
    } else {
      assert ms[..i][0] == ms[0] && ms[..i][1..] == ms[1..][..i - 1];
      ForestChildAt(ms[1..], depth, i - 1);
    }
  }

  /** The debug line of the i-th child of a node follows the root's line and the lines of
      the earlier siblings' subtrees, and is indented one level deeper. */
  lemma ChildLineAt(m: MenuNode, depth: nat, i: nat)
    requires i < |m.items|
    ensures 1 + ForestCount(m.items[..i]) < |DebugLines(m, depth)|
    ensures DebugLines(m, depth)[1 + ForestCount(m.items[..i])] == Line(m.items[i], depth + 1)
  {
    ChildAt(m, depth, i);
    DebugLinesFollowPreOrder(m, depth);
  }
}
