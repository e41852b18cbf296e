/**
 * `build_tree`: the one-pass, stack-based construction of the TOCNode forest from a flat
 * outline (app.py).
 *
 * The stack holds the chain of open nodes, the synthetic root at the bottom. Nodes are values
 * here: a node is attached as the last child of the node below it when it is popped, rather
 * than at the moment it is pushed, and the nodes still open when the outline ends are closed
 * into the root the same way. The forest that results is the one the source returns.
 */
module TreeBuilder {
  import opened Wrappers
  import opened Toc

  /** `stack[-1]` on the empty stack: the root was popped by the entry at this index. */
  datatype BuildError = IndexError(entry: nat)

  /** The synthetic root `TOCNode(0, "root", None)`; its page is never read and is 0 here. */
  const Root := TocNode(RootLevel, "root", 0, [])

  function Top(stack: seq<TocNode>): TocNode
    requires stack != []
  {
    stack[|stack| - 1]
  }

  /**
   * `stack.pop()`: the top node leaves the stack, complete, and becomes the last child of the
   * node below it. Popping the root leaves the stack empty.
   */
  function Pop(stack: seq<TocNode>): (popped: seq<TocNode>)
    requires stack != []
    ensures |popped| == |stack| - 1
  {
    if |stack| == 1 then []
    else
      var parent := stack[|stack| - 2];
      stack[..|stack| - 2] + [parent.(children := parent.children + [Top(stack)])]
  }

  /**
   * What a pop changes: only the node below the old top, which keeps its own entry and gains the
   * old top as its last child.
   */
  lemma PopEffect(stack: seq<TocNode>)
    requires |stack| >= 2
    ensures Pop(stack)[..|stack| - 2] == stack[..|stack| - 2]
    ensures EntryOf(Top(Pop(stack))) == EntryOf(stack[|stack| - 2])
    ensures Top(Pop(stack)).children == stack[|stack| - 2].children + [Top(stack)]
  {
  }

  /**
   * The invariant of the stack, from the bottom up: the root at the bottom; each open node
   * strictly deeper than the node below it and no deeper than the last child that node has
   * gathered; the children each open node has gathered well nested below it.
   */
  ghost predicate StackShape(stack: seq<TocNode>)
    decreases |stack|
  {
    if |stack| <= 1 then
      |stack| == 1 && stack[0].level == RootLevel && WellNested(stack[0].children, RootLevel)
    else
      var below, top := stack[..|stack| - 1], Top(stack);
      && StackShape(below)
      && Top(below).level < top.level
      && TopChildrenAtLeast(below, top.level)
      && WellNested(top.children, top.level)
  }

  /**
   * The outline the stack stands for: the root's closed children, then each open node with the
   * children it has gathered so far.
   */
  ghost function Pending(stack: seq<TocNode>): seq<Entry>
    requires stack != []
  {
    Flatten(stack[0].children) + Flatten(stack[1..])
  }

  /** The node now on top has gathered no child shallower than `level`. */
  ghost predicate TopChildrenAtLeast(stack: seq<TocNode>, level: int)
    requires stack != []
  {
    Top(stack).children != [] ==> Top(Top(stack).children).level >= level
  }

  /** A node deeper than its new parent and no deeper than its last sibling keeps the nesting. */
  lemma {:induction false} WellNestedSnoc(kids: seq<TocNode>, node: TocNode, parent: int)
    requires WellNested(kids, parent)
    requires node.level > parent && WellNested(node.children, node.level)
    requires kids != [] ==> Top(kids).level >= node.level
    ensures WellNested(kids + [node], parent)
    decreases |kids|
  {
    if kids == [] {
      assert [node][1..] == [];
    } else {
      assert (kids + [node])[1..] == kids[1..] + [node];
      if |kids| > 1 {
        WellNestedSnoc(kids[1..], node, parent);
      } else {
        WellNestedSnoc([], node, parent);
      }
    }
  }

  lemma FlattenGrown(parent: TocNode, top: TocNode)
    ensures Flatten([parent.(children := parent.children + [top])]) == Flatten([parent]) + Flatten([top])
  {
    var parent' := parent.(children := parent.children + [top]);
    FlattenCons([parent']);
    FlattenCons([parent]);
    assert [parent'][1..] == [] == [parent][1..];
    FlattenAppend(parent.children, [top]);
  }

  lemma PopPending(stack: seq<TocNode>)
    requires |stack| >= 2
    ensures Pending(Pop(stack)) == Pending(stack)
  {
    var n := |stack|;
    var parent, top := stack[n - 2], stack[n - 1];
    var parent' := parent.(children := parent.children + [top]);
    var popped := Pop(stack);
    if n == 2 {
      assert popped == [parent'];
      assert stack[1..] == [top];
      FlattenAppend(parent.children, [top]);
    } else {
      var middle := stack[1..n - 2];
      assert popped[0] == stack[0];
      assert popped[1..] == middle + [parent'];
      assert stack[1..] == middle + [parent] + [top];
      FlattenAppend(middle, [parent']);
      FlattenGrown(parent, top);
      FlattenAppend(middle + [parent], [top]);
      FlattenAppend(middle, [parent]);
    }
  }

  /** Every open node is at least as deep as the root. */
  lemma {:induction false} StackTopLevel(stack: seq<TocNode>)
    requires StackShape(stack)
    ensures Top(stack).level >= RootLevel
    decreases |stack|
  {
    if |stack| > 1 {
      StackTopLevel(stack[..|stack| - 1]);
    }
  }

  lemma PopKeepsShape(stack: seq<TocNode>)
    requires StackShape(stack) && |stack| >= 2
    ensures StackShape(Pop(stack))
    ensures Pending(Pop(stack)) == Pending(stack)
    ensures Top(Pop(stack)).children != [] && Top(Top(Pop(stack)).children) == Top(stack)
  {
    var n := |stack|;
    var below, parent, top := stack[..n - 1], stack[n - 2], stack[n - 1];
    var parent' := parent.(children := parent.children + [top]);
    var popped := Pop(stack);
    assert Top(below) == parent;
    WellNestedSnoc(parent.children, top, parent.level);
    if n > 2 {
      assert popped[..n - 2] == stack[..n - 2] == below[..n - 2];
    }
    PopPending(stack);
  }

  lemma PushPending(stack: seq<TocNode>, node: TocNode)
    requires stack != [] && node.children == []
    ensures Pending(stack + [node]) == Pending(stack) + [EntryOf(node)]
  {
    var pushed := stack + [node];
    assert pushed[1..] == stack[1..] + [node];
    FlattenAppend(stack[1..], [node]);
    FlattenCons([node]);
    assert [node][1..] == [];
  }

  /** Pushing the node for entry `k` keeps the invariant and extends the outline by that entry. */
  lemma PushKeepsShape(stack: seq<TocNode>, entries: seq<Entry>, k: nat)
    requires k < |entries|
    requires StackShape(stack) && Pending(stack) == entries[..k]
    requires Top(stack).level < entries[k].level
    requires TopChildrenAtLeast(stack, entries[k].level)
    ensures StackShape(stack + [Leaf(entries[k])])
    ensures Pending(stack + [Leaf(entries[k])]) == entries[..k + 1]
    ensures entries[k].level > RootLevel
  {
    var node := Leaf(entries[k]);
    StackTopLevel(stack);
    assert (stack + [node])[..|stack|] == stack;
    PushPending(stack, node);
    assert entries[..k + 1] == entries[..k] + [EntryOf(node)];
  }

  /**
   * `while stack and stack[-1].level >= level: stack.pop()`: closes every open node that is not
   * shallower than `level`. What is left is empty only when `level` does not exceed the root's.
   */
  method PopDeeper(stack: seq<TocNode>, level: int, ghost done: seq<Entry>) returns (open: seq<TocNode>)
    requires StackShape(stack) && Pending(stack) == done
    requires Top(stack).children == []
    ensures open == [] <==> level <= RootLevel
    ensures open != [] ==> StackShape(open) && Pending(open) == done
    ensures open != [] ==> Top(open).level < level && TopChildrenAtLeast(open, level)
  {
    open := stack;
    while open != [] && Top(open).level >= level
      invariant open == [] ==> level <= RootLevel
      invariant open != [] ==> StackShape(open) && Pending(open) == done
      invariant open != [] ==> TopChildrenAtLeast(open, level)
      decreases |open|
    {
      if |open| >= 2 {
        PopKeepsShape(open);
      } else {
        StackTopLevel(open);
      }
      open := Pop(open);
    }
    if open != [] {
      StackTopLevel(open);
    }
  }

  /**
   * The root's children once the outline is exhausted. In the source every open node is
   * already a child of the node below it; here the open nodes are popped into their parents.
   */
  method CloseAll(stack: seq<TocNode>) returns (forest: seq<TocNode>)
    requires StackShape(stack)
    ensures Flatten(forest) == Pending(stack) && WellNested(forest, RootLevel)
    ensures forest == Outline(Pending(stack))
  {
    var open := stack;
    while |open| > 1
      invariant StackShape(open)
      invariant Pending(open) == Pending(stack)
      decreases |open|
    {
      PopKeepsShape(open);
      open := Pop(open);
    }
    forest := open[0].children;
    assert open[1..] == [];
    WellNestedUnique(forest, RootLevel);
  }

  /**
   * `build_tree(flat_toc)`. With every level at least 1 it returns the forest whose pre-order
   * is the outline and in which every node is deeper than its parent (the root counting as
   * level 0): the reference hierarchy `Outline`. The first entry of level 0 or less pops the
   * root and makes the next `stack[-1]` raise an IndexError.
   */
  method BuildTree(flatToc: seq<Entry>) returns (r: Result<seq<TocNode>, BuildError>)
    ensures r.Ok? <==> forall i :: 0 <= i < |flatToc| ==> flatToc[i].level >= 1
    ensures r.Err? ==> r.error.entry < |flatToc| && flatToc[r.error.entry].level <= 0
    ensures r.Err? ==> forall i :: 0 <= i < r.error.entry ==> flatToc[i].level >= 1
    ensures r.Ok? ==> Flatten(r.value) == flatToc && WellNested(r.value, RootLevel)
    ensures r.Ok? ==> r.value == Outline(flatToc)
  {
    var stack := [Root];
    for k := 0 to |flatToc|
      invariant StackShape(stack)
      invariant Top(stack).children == []
      invariant Pending(stack) == flatToc[..k]
      invariant forall i :: 0 <= i < k ==> flatToc[i].level >= 1
    {
      var node := Leaf(flatToc[k]);
      stack := PopDeeper(stack, node.level, flatToc[..k]);
      if stack == [] {
        return Err(IndexError(k));
      }
      PushKeepsShape(stack, flatToc, k);
      stack := stack + [node];
    }
    assert flatToc[..|flatToc|] == flatToc;
    var forest := CloseAll(stack);
    r := Ok(forest);
  }
}
