/** The search for a key, and what it means for the in-order sequence (core/node.cpp). */
module Lookup {
  import opened KeyOrder
  import opened Trees

  /** The first index whose key is not smaller than the given one. */
  function Rank(items: seq<Item>, key: Bytes): (r: nat)
    ensures r <= |items|
    ensures forall i :: 0 <= i < r ==> Less(items[i].key, key)
    ensures r < |items| ==> !Less(items[r].key, key)
  {
    if items == [] || !Less(items[0].key, key) then 0 else 1 + Rank(items[1..], key)
  }

  predicate HasAt(items: seq<Item>, key: Bytes, r: nat) {
    r < |items| && items[r].key == key
  }

  /** How many of the items have a smaller key. */
  function CountSmaller(items: seq<Item>, key: Bytes): nat {
    if items == [] then 0 else (if Less(items[0].key, key) then 1 else 0) + CountSmaller(items[1..], key)
  }

  /** On a sorted node the rank is the number of smaller keys, and it decides whether the key is there. */
  lemma {:induction false} RankIsCount(items: seq<Item>, key: Bytes)
    requires Sorted(items)
    ensures Rank(items, key) == CountSmaller(items, key)
    ensures HasAt(items, key, Rank(items, key)) <==> HasKey(items, key)
  {
    if items != [] {
      var first, rest := items[0], items[1..];
      LessTrichotomy(first.key, key);
      assert forall i :: 1 <= i < |items| ==> items[i] == rest[i - 1];
      RankIsCount(rest, key);
      if Less(first.key, key) {
        assert HasKey(items, key) <==> HasKey(rest, key) by {
          if HasKey(rest, key) {
            var i :| 0 <= i < |rest| && rest[i].key == key;
            assert items[i + 1].key == key;
          }
        }
      } else {
        NoneSmaller(rest, first.key, key);
      }
    }
  }

  /** After an item that is not smaller than the key, no item is smaller or, unless it is that one, equal. */
  lemma {:induction false} NoneSmaller(rest: seq<Item>, first: Bytes, key: Bytes)
    requires AllAbove(first, rest) && !Less(first, key)
    ensures CountSmaller(rest, key) == 0 && !HasKey(rest, key)
  {
    if rest != [] {
      LessTrichotomy(first, key);
      if first != key {
        LessTransitive(key, first, rest[0].key);
      }
      LessTrichotomy(key, rest[0].key);
      assert AllAbove(first, rest[1..]);
      NoneSmaller(rest[1..], first, key);
      assert forall i :: 1 <= i < |rest| ==> rest[i] == rest[1..][i - 1];
    }
  }

  /** A search's end: the child indexes to the last node looked at, the index there, and success. */
  datatype Spot = Spot(path: seq<nat>, index: nat, found: bool)

  function Search(t: Tree, key: Bytes): (s: Spot)
    ensures IsPath(t, s.path)
    ensures s.index <= |Sub(t, s.path).items|
    ensures s.found <==> HasAt(Sub(t, s.path).items, key, s.index)
  {
    var r := Rank(t.items, key);
    if HasAt(t.items, key, r) then Spot([], r, true)
    else if r >= |t.kids| then Spot([], r, false)
    else
      var s := Search(t.kids[r], key);
      assert ([r] + s.path)[1..] == s.path;
      Spot([r] + s.path, s.index, s.found)
  }

  /**
   * Where the search turns, in any tree: at every node it goes on to the child before the first key that is not
   * smaller, if that key is not equal.
   */
  lemma {:induction false} SearchTurns(t: Tree, key: Bytes, i: nat)
    requires i < |Search(t, key).path|
    ensures var path := Search(t, key).path;
            && IsPath(t, path[..i])
            && var x, k := Sub(t, path[..i]), path[i];
               && k < |x.kids| && k <= |x.items| && (forall j :: 0 <= j < k ==> Less(x.items[j].key, key))
               && (k < |x.items| ==> !Less(x.items[k].key, key) && x.items[k].key != key)
    decreases i
  {
    if i > 0 {
      var path := Search(t, key).path;
      SearchTurns(t.kids[path[0]], key, i - 1);
      assert path[1..][..i - 1] == path[..i][1..];
    }
  }

  /** Where the search ends, in any tree: at the first key that is not smaller, if it is equal or there is no child. */
  lemma {:induction false} SearchEnds(t: Tree, key: Bytes)
    ensures var s := Search(t, key);
            var x := Sub(t, s.path);
            && (forall j :: 0 <= j < s.index ==> Less(x.items[j].key, key))
            && (s.index < |x.items| ==> !Less(x.items[s.index].key, key))
            && (s.found <==> s.index < |x.items| && x.items[s.index].key == key)
            && (!s.found ==> |x.kids| <= s.index)
  {
    var k := Rank(t.items, key);
    if !HasAt(t.items, key, k) && k < |t.kids| {
      SearchEnds(t.kids[k], key);
      assert Search(t, key).path[1..] == Search(t.kids[k], key).path;
    }
  }

  /** Where item `index` of a node stands in the in-order sequence of the tree below that node. */
  function LocalPosition(t: Tree, index: nat): nat
    requires index <= |t.items|
  {
    if index < |t.kids| then |Before(t, index)| + |InOrder(t.kids[index])| else index
  }

  /** Where item `index` of the node at the end of the path stands in the in-order sequence. */
  function Position(t: Tree, path: seq<nat>, index: nat): nat
    requires IsPath(t, path) && index <= |Sub(t, path).items|
  {
    |LeftOf(t, path)| + LocalPosition(Sub(t, path), index)
  }

  /** The items of a node follow one another in the in-order sequence. */
  lemma NodeItemPosition(t: Tree, h: nat, i: nat)
    requires Balanced(t, h) && i < |t.items|
    ensures Position(t, [], i) < |InOrder(t)| && InOrder(t)[Position(t, [], i)] == t.items[i]
  {
    if h > 0 {
      AtChild(t, i);
    }
  }

  /** Everything before child k that is not the separator before it is smaller than that separator. */
  lemma BeforeEndsWithSeparator(t: Tree, k: nat)
    requires 0 < k <= |t.items| && |t.kids| == |t.items| + 1
    ensures Before(t, k) != [] && Before(t, k)[|Before(t, k)| - 1] == t.items[k - 1]
  {
    assert t.kids[..k] == t.kids[..k - 1] + [t.kids[k - 1]] && t.items[..k] == t.items[..k - 1] + [t.items[k - 1]];
    WeaveAppend(t.kids[..k - 1], t.items[..k - 1], [t.kids[k - 1]], [t.items[k - 1]]);
    assert Weave([t.kids[k - 1]], [t.items[k - 1]]) == InOrder(t.kids[k - 1]) + [t.items[k - 1]] + Weave([], []);
  }

  predicate AllBelow(s: seq<Item>, key: Bytes) {
    forall i :: 0 <= i < |s| ==> Less(s[i].key, key)
  }

  predicate AllAbove(key: Bytes, s: seq<Item>) {
    forall i :: 0 <= i < |s| ==> Less(key, s[i].key)
  }

  lemma SortedParts(p: seq<Item>, x: seq<Item>, s: seq<Item>)
    requires Sorted(p + x + s)
    ensures Sorted(p) && Sorted(x) && Sorted(s)
  {
    var all := p + x + s;
    assert forall i :: 0 <= i < |p| ==> p[i] == all[i];
    assert forall i :: 0 <= i < |x| ==> x[i] == all[|p| + i];
    assert forall i :: 0 <= i < |s| ==> s[i] == all[|p| + |x| + i];
  }

  /** Sorted sequences split at a key: left of child k everything is smaller, right of it larger. */
  lemma SeparatorsBound(t: Tree, key: Bytes)
    requires |t.kids| == |t.items| + 1 && Sorted(InOrder(t))
    requires !HasAt(t.items, key, Rank(t.items, key))
    ensures var k := Rank(t.items, key);
            AllBelow(Before(t, k), key) && AllAbove(key, After(t, k)) && Sorted(InOrder(t.kids[k]))
  {
    var k := Rank(t.items, key);
    AtChild(t, k);
    var p, x, s := Before(t, k), InOrder(t.kids[k]), After(t, k);
    var all := InOrder(t);
    assert all == p + x + s;
    SortedParts(p, x, s);
    if k > 0 {
      BeforeEndsWithSeparator(t, k);
      forall i | 0 <= i < |p|
        ensures Less(p[i].key, key)
      {
        if i < |p| - 1 {
          LessTransitive(p[i].key, p[|p| - 1].key, key);
        }
      }
    }
    if k < |t.items| {
      LessTrichotomy(t.items[k].key, key);
      forall i | 0 <= i < |s|
        ensures Less(key, s[i].key)
      {
        if i > 0 {
          LessTransitive(key, s[0].key, s[i].key);
        }
      }
    }
  }

  /** The spot is the item with the key, or the key's place among all items. */
  ghost predicate Exact(t: Tree, h: nat, key: Bytes, s: Spot)
    requires IsPath(t, s.path) && s.index <= |Sub(t, s.path).items|
    requires s.found ==> HasAt(Sub(t, s.path).items, key, s.index)
  {
    var all, g := InOrder(t), Position(t, s.path, s.index);
    && |s.path| <= h && (!s.found ==> |s.path| == h)
    && g <= |all|
    && (s.found ==> g < |all| && all[g] == Sub(t, s.path).items[s.index] && all[g].key == key)
    && (!s.found ==> IsPlace(all, g, key))
  }

  /** Everything before g is smaller than the key, everything from g on is larger. */
  predicate IsPlace(all: seq<Item>, g: nat, key: Bytes) {
    && (forall i :: 0 <= i < |all| && i < g ==> Less(all[i].key, key))
    && (forall i :: g <= i < |all| ==> Less(key, all[i].key))
  }

  lemma {:induction false} SearchIsExact(t: Tree, h: nat, key: Bytes)
    requires Balanced(t, h) && Sorted(InOrder(t))
    ensures Exact(t, h, key, Search(t, key))
  {
    var k := Rank(t.items, key);
    if HasAt(t.items, key, k) {
      NodeItemPosition(t, h, k);
    } else if h == 0 {
      assert InOrder(t) == t.items;
      RankIsPlace(t.items, key);
    } else {
      SeparatorsBound(t, key);
      assert Balanced(t.kids[k], h - 1);
      SearchIsExact(t.kids[k], h - 1, key);
      ExactAbove(t, h, key, k, Search(t.kids[k], key));
    }
  }

  lemma RankIsPlace(items: seq<Item>, key: Bytes)
    requires Sorted(items) && !HasAt(items, key, Rank(items, key))
    ensures IsPlace(items, Rank(items, key), key)
  {
    var k := Rank(items, key);
    forall i | k <= i < |items|
      ensures Less(key, items[i].key)
    {
      LessTrichotomy(items[k].key, key);
      if i > k {
        LessTransitive(key, items[k].key, items[i].key);
      }
    }
  }

  /** A spot that is exact in child k is exact in the tree, when the separators keep the other items away. */
  lemma ExactAbove(t: Tree, h: nat, key: Bytes, k: nat, s: Spot)
    requires Balanced(t, h) && h > 0 && k <= |t.items|
    requires IsPath(t.kids[k], s.path) && s.index <= |Sub(t.kids[k], s.path).items|
    requires s.found ==> HasAt(Sub(t.kids[k], s.path).items, key, s.index)
    requires Exact(t.kids[k], h - 1, key, s)
    requires AllBelow(Before(t, k), key) && AllAbove(key, After(t, k))
    ensures ([k] + s.path)[1..] == s.path
    ensures Exact(t, h, key, Spot([k] + s.path, s.index, s.found))
  {
    assert ([k] + s.path)[1..] == s.path;
    AtChild(t, k);
    var p, x, a, g := Before(t, k), InOrder(t.kids[k]), After(t, k), Position(t.kids[k], s.path, s.index);
    if s.found {
      ItemInContext(p, x, a, g);
    } else {
      PlaceInContext(p, x, a, g, key);
    }
  }

  lemma ItemInContext(p: seq<Item>, x: seq<Item>, a: seq<Item>, g: nat)
    requires g < |x|
    ensures (p + x + a)[|p| + g] == x[g]
  {
  }

  /** A key's place in the middle part is its place in the whole, when the outer parts keep their sides. */
  lemma PlaceInContext(p: seq<Item>, x: seq<Item>, a: seq<Item>, g: nat, key: Bytes)
    requires g <= |x|
    requires AllBelow(p, key) && AllAbove(key, a)
    requires IsPlace(x, g, key)
    ensures IsPlace(p + x + a, |p| + g, key)
  {
  }

  predicate HasKey(s: seq<Item>, key: Bytes) {
    exists i :: 0 <= i < |s| && s[i].key == key
  }

  /** On a valid tree a search succeeds exactly for the keys the tree holds. */
  lemma SearchFindsKeys(t: Tree, h: nat, key: Bytes)
    requires Balanced(t, h) && Sorted(InOrder(t))
    ensures Search(t, key).found <==> HasKey(InOrder(t), key)
  {
    SearchIsExact(t, h, key);
    if !Search(t, key).found && HasKey(InOrder(t), key) {
      var i :| 0 <= i < |InOrder(t)| && InOrder(t)[i].key == key;
      LessTrichotomy(key, key);
    }
  }
}
