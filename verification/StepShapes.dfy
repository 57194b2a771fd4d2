/** What a rebalancing step and the loop come to for the tree (core/node.cpp, core/collection.cpp). */
module StepShapes {
  import opened KeyOrder
  import opened Trees
  import opened Sizing
  import opened Rebalancing

  // ---------------------------------------------------------------- one step

  /** A rotation is undone by the merge of the two nodes between which it rotated. */
  lemma RotationUndone(t: Tree, i: nat, a: Tree, x: Item, b: Tree)
    requires i < |t.items| && i + 1 < |t.kids| && Shifted(t, i, a, x, b)
    ensures MergedTree(PairReplaced(t, i, a, x, b), i + 1) == MergedTree(t, i + 1)
  {
    var u := PairReplaced(t, i, a, x, b);
    assert u.kids[..i] == t.kids[..i] && u.kids[i + 2..] == t.kids[i + 2..];
    assert RemoveAt(u.items, i) == RemoveAt(t.items, i);
  }

  /** The pair of nodes that a step merges. */
  function Merges(k: nat): nat { if k == 0 then 1 else k }

  /** The node that a rotation from the right changes before the merge with the left sibling. */
  function StepSource(o: Limits, t: Tree, k: nat): Tree
    requires |t.kids| == |t.items| + 1
  {
    if k == 0 then t else RightBorrowed(o, t, k)
  }

  /**
   * What a whole step comes to: the merge with the left sibling (for the first child: with the right one). A rotation
   * from the left never leaves a trace, and one from the right leaves one exactly if the child is not the first.
   */
  lemma StepIsMerge(o: Limits, t: Tree, h: nat, k: nat)
    requires Balanced(t, h) && h > 0 && 2 <= |t.kids| && k < |t.kids|
    ensures StepTree(o, t, k) == MergedTree(StepSource(o, t, k), Merges(k))
  {
    if k == 0 {
      if CanSpare(o, t.kids[1].items) {
        LeftRotatedShift(t, h, 0);
        var u := LeftRotated(t, 0);
        RotationUndone(t, 0, u.kids[0], u.items[0], u.kids[1]);
      }
    } else if CanSpare(o, t.kids[k - 1].items) {
      if k + 1 < |t.kids| && CanSpare(o, t.kids[k + 1].items) {
        RotationsCommute(t, h, k);
      } else {
        LeftLeavesNoTrace(t, h, k);
      }
    }
  }

  lemma LeftLeavesNoTrace(t: Tree, h: nat, k: nat)
    requires Balanced(t, h) && h > 0 && 0 < k < |t.kids| && t.kids[k - 1].items != []
    ensures MergedTree(RightRotated(t, k), k) == MergedTree(t, k)
  {
    RightRotatedShift(t, h, k);
    var u := RightRotated(t, k);
    RotationUndone(t, k - 1, u.kids[k - 1], u.items[k - 1], u.kids[k]);
  }

  lemma RotationsCommute(t: Tree, h: nat, k: nat)
    requires Balanced(t, h) && h > 0 && 0 < k && k + 1 < |t.kids|
    requires t.kids[k - 1].items != [] && t.kids[k + 1].items != []
    ensures MergedTree(LeftRotated(RightRotated(t, k), k), k) == MergedTree(LeftRotated(t, k), k)
  {
    var r, u := LeftRotated(t, k), LeftRotated(RightRotated(t, k), k);
    BothShift(t, h, k);
    assert u.kids == r.kids[k - 1 := u.kids[k - 1]][k := u.kids[k]];
    assert u == PairReplaced(r, k - 1, u.kids[k - 1], u.items[k - 1], u.kids[k]);
    RotationUndone(r, k - 1, u.kids[k - 1], u.items[k - 1], u.kids[k]);
  }

  /** What the rotation from the left does before the other one, it does after it too. */
  lemma BothShift(t: Tree, h: nat, k: nat)
    requires Balanced(t, h) && h > 0 && 0 < k && k + 1 < |t.kids|
    requires t.kids[k - 1].items != [] && t.kids[k + 1].items != []
    ensures var r, u := LeftRotated(t, k), LeftRotated(RightRotated(t, k), k);
            Shifted(r, k - 1, u.kids[k - 1], u.items[k - 1], u.kids[k])
  {
    var a, b, c := t.kids[k - 1], t.kids[k], t.kids[k + 1];
    assert Balanced(a, h - 1) && Balanced(b, h - 1) && Balanced(c, h - 1);
    var r, u := LeftRotated(t, k), LeftRotated(RightRotated(t, k), k);
    assert u.kids[k - 1].items + [u.items[k - 1]] + u.kids[k].items == a.items + [t.items[k - 1]] + r.kids[k].items by {
      SameAfterBoth(a.items, [t.items[k - 1]], b.items, [t.items[k]]);
    }
    assert u.kids[k - 1].kids + u.kids[k].kids == a.kids + r.kids[k].kids by {
      if b.kids != [] {
        SameAfterBoth(a.kids, [], b.kids, [c.kids[0]]);
      }
    }
  }

  /** The sequence that the left sibling and the child make up, whatever has been handed over. */
  lemma SameAfterBoth<T>(a: seq<T>, s: seq<T>, b: seq<T>, z: seq<T>)
    requires a != []
    ensures a[..|a| - 1] + [a[|a| - 1]] + ((s + b) + z) == a + s + (b + z)
    ensures a[..|a| - 1] + (([a[|a| - 1]] + b) + z) == a + (b + z)
  {
  }

  /** The node that a merge makes of children j - 1 and j. */
  function MergedNode(t: Tree, j: nat): Tree
    requires 0 < j <= |t.items| && j < |t.kids|
  {
    MergedTree(t, j).kids[j - 1]
  }

  /** A step looks at the pages and items of child k only through its merged form, so its own items do not matter. */
  lemma StepItems(o: Limits, t: Tree, h: nat, k: nat, v: Tree)
    requires Balanced(t, h) && h > 0 && 2 <= |t.kids| && k < |t.kids|
    requires Balanced(v, h - 1)
    ensures Balanced(t.(kids := t.kids[k := v]), h)
    ensures StepTree(o, t.(kids := t.kids[k := v]), k).items == RemoveAt(StepSource(o, t, k).items, Merges(k) - 1)
  {
    var w := t.(kids := t.kids[k := v]);
    assert AllBalanced(w.kids, h - 1);
    StepIsMerge(o, w, h, k);
  }

  // ---------------------------------------------------------------- the loop

  /** The items of the node t after the step at it, if there is one. */
  function ItemsLeft(o: Limits, t: Tree, path: seq<nat>): seq<Item>
    requires IsPath(t, path)
  {
    if ChildUnder(o, t, path) && 2 <= |t.kids| == |t.items| + 1 then
      RemoveAt(StepSource(o, t, path[0]).items, Merges(path[0]) - 1)
    else t.items
  }

  lemma {:induction false} LoopKeepsShape(o: Limits, t: Tree, h: nat, path: seq<nat>)
    requires Balanced(t, h) && IsPath(t, path) && SiblingsExist(o, t, path)
    ensures Balanced(LoopTree(o, t, path), h) && LoopTree(o, t, path).items == ItemsLeft(o, t, path)
    decreases |path|
  {
    if path != [] {
      var k, kid, q := path[0], t.kids[path[0]], path[1..];
      assert Balanced(kid, h - 1);
      LoopKeepsShape(o, kid, h - 1, q);
      var v := LoopTree(o, kid, q);
      var w := t.(kids := t.kids[k := v]);
      assert AllBalanced(w.kids, h - 1);
      if Under(o, kid.items) {
        StepItems(o, t, h, k, v);
        StepKeepsShape(o, w, h, k);
      }
    }
  }

  lemma StepKeepsShape(o: Limits, t: Tree, h: nat, k: nat)
    requires Balanced(t, h) && h > 0 && 2 <= |t.kids| && k < |t.kids|
    ensures Balanced(StepTree(o, t, k), h)
  {
    StepIsMerge(o, t, h, k);
    if k != 0 && k + 1 < |t.kids| && CanSpare(o, t.kids[k + 1].items) {
      var u := LeftRotated(t, k);
      LeftRotatedShift(t, h, k);
      ShiftKeeps(t, h, k, u.kids[k], u.items[k], u.kids[k + 1]);
      MergeKeeps(u, h, k);
    } else {
      MergeKeeps(t, h, Merges(k));
    }
  }
}
