/** The program's classes: the data access layer, nodes held in memory, and the collection. */
module BTree {
  import opened KeyOrder
  import opened Trees
  import opened Sizing
  import opened Freelists
  import opened Store
  import opened Lookup
  import opened Collections
  import opened Splitting
  import opened Putting
  import opened StaleCopies
  import opened Removing
  import opened Runs
  import opened NodeCodec
  import opened PageFiles
  import opened PageFit
  import opened RemovalFit
  import FreelistCodec

  /**
   * The database file with its allocator (core/data_access_layer.h). `pages` is what the bytes mean: the node
   * that each written page holds.
   */
  class DataAccessLayer {
    const options: Options
    const limits: Limits  // the thresholds, which the program computes from the options at each use
    const freelist: Freelist
    var file: seq<byte>
    ghost var pages: map<nat, Body>
    ghost var writes: seq<Copy>

    ghost function State(): Db
      reads this, freelist
    {
      Db(limits, pages, freelist.State(), writes)
    }

    /** The file holds the nodes; and page number 0 stands for "no page yet", so it is never free. */
    ghost predicate Valid()
      reads this, freelist
    {
      0 !in freelist.releasedPages && Mirrors(file, options.pageSize, pages)
    }

    /** The store is what its writes have made of it, and every one of them has fitted its page. */
    ghost predicate Fitting()
      reads this, freelist
    {
      PageFit.Fitting(options.pageSize, State())
    }

    /**
     * A new database, as after its initialisation. The free list is written before the first node gets its page,
     * and nothing writes it again.
     */
    constructor (options: Options)
      requires Fits(options.pageSize, Body([], []))
      ensures this.options == options && limits == Thresholds(options) && fresh(freelist) && Valid()
      ensures State() == NewDatabase(Thresholds(options)).db && Fitting()
      ensures HoldsFreelist(file, options.pageSize, 1, Free(1, []))
      ensures limits.min == options.minFill * options.pageSize as real
      ensures limits.max == options.maxFill * options.pageSize as real
    {
      this.options := options;
      limits := Thresholds(options);
      freelist := new Freelist(0, []);
      file := [];
      pages := map[];
      writes := [];
      new;
      var freelistPage := freelist.GetNextPage();
      FirstFreelistFits();
      WriteFreelist(freelistPage);
      ghost var before := file;
      ghost var page := WriteEmptyNode();
      FreelistKept(before, file, options.pageSize, freelistPage, page, Free(1, []));
    }

    /** An empty node on the allocator's next page. */
    method WriteEmptyNode() returns (ghost page: nat)
      requires Valid() && Fits(options.pageSize, Body([], []))
      modifies this, freelist
      ensures Valid() && (freelist.State(), page) == NextPage(old(freelist.State()))
      ensures State() == Write(old(State()).(free := freelist.State()), Copy(page, Body([], [])))
      ensures KeepsOthers(old(file), file, options.pageSize, page)
    {
      var node := new Node(this, 0, [], []);
      WriteNode(node);
      page := node.page;
    }

    /** Writes the free list to a page that holds no node. */
    method WriteFreelist(page: nat)
      requires Valid() && page !in pages && FreelistCodec.AllPageNums(freelist.releasedPages)
      requires |FreelistCodec.FreelistBytes(freelist.State())| <= options.pageSize
      modifies this`file
      ensures Valid() && HoldsFreelist(file, options.pageSize, page, freelist.State())
      ensures KeepsOthers(old(file), file, options.pageSize, page)
    {
      var data := FreelistCodec.Serialize(freelist);
      var buffer := ToPage(data);
      FreelistWritten(file, options.pageSize, pages, page, freelist.State(), buffer[..]);
      WritePage(page, buffer);
    }

    /** An empty page with the data at its start. */
    method ToPage(data: array<byte>) returns (buffer: array<byte>)
      requires data.Length <= options.pageSize
      ensures fresh(buffer) && buffer.Length == options.pageSize && data[..] <= buffer[..]
    {
      buffer := new byte[options.pageSize](_ => 0);
      for i := 0 to data.Length
        invariant buffer[..i] == data[..i]
      {
        buffer[i] := data[i];
      }
      assert buffer[..][..data.Length] == data[..data.Length] == data[..];
    }

    /** Reads a free list back, as far as its two-byte numbers carry it. */
    method ReadFreelist(page: nat, ghost f: Free) returns (r: Freelist)
      requires HoldsFreelist(file, options.pageSize, page, f) && FreelistCodec.AllPageNums(f.released)
      ensures fresh(r) && r.State() == FreelistCodec.Survivor(f)
    {
      var data := ReadPage(page);
      r := FreelistCodec.Deserialize(data.value, f);
    }

    method WritePage(page: nat, data: array<byte>)
      requires data.Length == options.pageSize
      modifies this`file
      ensures file == WriteAt(old(file), page * options.pageSize, data[..])
    {
      file := WriteAt(file, page * options.pageSize, data[..]);
    }

    /** The bytes of the page, or nothing if the file ends before it. */
    method ReadPage(page: nat) returns (data: Option<array<byte>>)
      ensures var at, size := page * options.pageSize, options.pageSize;
              if |file| < at + size then data == None
              else data.Some? && fresh(data.value) && data.value[..] == file[at..at + size]
    {
      var at, size := page * options.pageSize, options.pageSize;
      if |file| < at + size {
        return None;
      }
      var bytes := file[at..at + size];
      var buffer := new byte[size](i requires 0 <= i < size => bytes[i]);
      assert buffer[..] == bytes;
      data := Some(buffer);
    }

    /** Reads a page and decodes it. */
    method GetNode(page: nat) returns (node: Node)
      requires Valid() && page in pages
      ensures fresh(node) && node.dal == this && node.Val() == Copy(page, pages[page])
    {
      assert HoldsPage(file, options.pageSize, page, pages[page]);
      var data := ReadPage(page);
      var body := Deserialize(data.value, pages[page]);
      node := new Node(this, page, body.items, body.children);
    }

    /** Encodes the node and writes its page; a node without a page gets one first. Other pages stay as they are. */
    method WriteNode(node: Node)
      requires Valid() && HasChildren(node.Val().body) && Fits(options.pageSize, AsRead(node.Val().body))
      modifies this, freelist, node`page
      ensures Valid()
      ensures old(node.page) != 0 ==> node.page == old(node.page)
                                      && State() == Write(old(State()), Copy(node.page, AsRead(node.Val().body)))
      ensures old(node.page) == 0 ==>
                && (freelist.State(), node.page) == NextPage(old(freelist.State()))
                && State() == Write(old(State()).(free := freelist.State()), Copy(node.page, AsRead(node.Val().body)))
      ensures KeepsOthers(old(file), file, options.pageSize, node.page)
    {
      if node.page == 0 {
        var page := freelist.GetNextPage();
        node.page := page;
      }
      var data := Serialize(Body(node.items, node.children), options.pageSize);
      ghost var body := AsRead(Body(node.items, node.children));
      WriteMirrors(file, options.pageSize, pages, node.page, data[..], body);
      WriteKeepsOthers(file, options.pageSize, node.page, data[..]);
      WritePage(node.page, data);
      pages := pages[node.page := body];
      writes := writes + [Copy(node.page, body)];
    }

    /** Writes a node that has its page, and is read back as it is. */
    method WriteBack(node: Node)
      requires Valid() && node.page != 0 && Fits(options.pageSize, node.Val().body)
      modifies this, freelist, node`page
      ensures Valid() && node.page == old(node.page) && State() == Write(old(State()), node.Val())
    {
      WriteNode(node);
    }

    /** The writes of a rotation, one after the other. */
    method WriteThree(x: Node, y: Node, z: Node)
      requires Valid() && x.page != 0 && y.page != 0 && z.page != 0
      requires AllFit(options.pageSize, Write(Write(Write(State(), x.Val()), y.Val()), z.Val()).writes)
      modifies this, freelist, x`page, y`page, z`page
      ensures Valid() && x.Val() == old(x.Val()) && y.Val() == old(y.Val()) && z.Val() == old(z.Val())
      ensures State() == Write(Write(Write(old(State()), x.Val()), y.Val()), z.Val())
    {
      ThreeWritesFit(options.pageSize, State(), x.Val(), y.Val(), z.Val());
      WriteBack(x);
      WriteBack(y);
      WriteBack(z);
    }

    method NewNode(items: seq<Item>, children: seq<nat>) returns (node: Node)
      requires Valid()
      modifies freelist
      ensures Valid() && fresh(node) && node.dal == this && node.page != 0
      ensures (freelist.State(), node.page) == NextPage(old(freelist.State()))
      ensures node.Val() == Copy(node.page, Body(items, children))
    {
      var page := freelist.GetNextPage();
      node := new Node(this, page, items, children);
    }

    method DeleteNode(page: nat)
      requires Valid() && page != 0
      modifies freelist
      ensures Valid() && freelist.State() == ReleasePage(old(freelist.State()), page)
    {
      freelist.Release(page);
    }

    /** The least proper prefix of the node's items that is above the minimum. */
    method GetSplitIndex(node: Node) returns (s: int)
      ensures s == SplitIndex(limits, node.items)
      ensures s == -1 <==>
              var n := |node.items|;
              n < 2 || (3 + |AllBytes(node.items[..n - 1])| + 8 * (n - 1)) as real <= limits.min
      ensures s != -1 ==>
              && 0 < s < |node.items| && (3 + |AllBytes(node.items[..s])| + 8 * s) as real > limits.min
              && forall j :: 0 < j < s ==> (3 + |AllBytes(node.items[..j])| + 8 * j) as real <= limits.min
    {
      SplitIndexInBytes(limits, node.items);
      var size := HEADER_SIZE;
      var items := node.items;
      for i := 0 to |items|
        invariant size == PrefixSize(items[..i])
        invariant SplitIndex(limits, items) == SplitFrom(limits, items, i)
      {
        assert items[..i + 1][..i] == items[..i];
        size := size + |items[i].key| + |items[i].value| + PAGE_NUM_SIZE;
        if size as real > limits.min && i < |items| - 1 {
          return i + 1;
        }
      }
      return -1;
    }
  }

  /** A node held in memory (core/node.h): a copy of a page, changed in place and written back. */
  class Node {
    const dal: DataAccessLayer
    var page: nat
    var items: seq<Item>
    var children: seq<nat>

    function Val(): Copy
      reads this
    {
      Copy(page, Body(items, children))
    }

    constructor (dal: DataAccessLayer, page: nat, items: seq<Item>, children: seq<nat>)
      ensures this.dal == dal && Val() == Copy(page, Body(items, children))
    {
      this.dal, this.page, this.items, this.children := dal, page, items, children;
    }

    /** The copy that an assignment of nodes makes. */
    method Clone() returns (node: Node)
      ensures fresh(node) && node.dal == dal && node.Val() == Val()
    {
      node := new Node(dal, page, items, children);
    }

    predicate IsLeaf()
      reads this
    {
      children == []
    }

    method Size() returns (size: nat)
      ensures size == NodeSize(items) == 11 + |AllBytes(items)|
    {
      size := HEADER_SIZE + PAGE_NUM_SIZE;
      for i := 0 to |items|
        invariant size == HEADER_SIZE + PAGE_NUM_SIZE + Payload(items[..i])
      {
        assert items[..i + 1][..i] == items[..i];
        size := size + |items[i].key| + |items[i].value|;
      }
      assert items[..|items|] == items;
      PayloadIsBytes(items);
    }

    method IsOverPopulated() returns (over: bool)
      ensures over <==> Over(dal.limits, items)
      ensures over <==> (11 + |AllBytes(items)|) as real > dal.limits.max
    {
      var size := Size();
      over := size as real > dal.limits.max;
    }

    method IsUnderPopulated() returns (under: bool)
      ensures under <==> Under(dal.limits, items)
      ensures under <==> (11 + |AllBytes(items)|) as real < dal.limits.min
    {
      var size := Size();
      under := (size as real) < dal.limits.min;
    }

    method CanSpareAnElement() returns (spare: bool)
      ensures spare <==> CanSpare(dal.limits, items)
      ensures spare <==>
              var n := |items|;
              n >= 2 && (3 + |AllBytes(items[..n - 1])| + 8 * (n - 1)) as real > dal.limits.min
    {
      var s := dal.GetSplitIndex(this);
      spare := s != -1;
    }

    /** The exact rank of the key among the node's keys, and whether it is there. */
    method FindKeyInNode(key: Bytes) returns (found: bool, index: nat)
      ensures index == Rank(items, key) && (found <==> HasAt(items, key, index))
      ensures index <= |items| && (found <==> index < |items| && items[index].key == key)
      ensures forall i :: 0 <= i < index ==> Less(items[i].key, key)
      ensures index < |items| ==> !Less(items[index].key, key)
    {
      for i := 0 to |items|
        invariant Rank(items, key) == i + Rank(items[i..], key)
      {
        assert items[i..][1..] == items[i + 1..];
        LessTrichotomy(items[i].key, key);
        var cmp := BytesCmp(items[i].key, key);
        if cmp == 0 {
          return true, i;
        }
        if cmp == 1 {
          return false, i;
        }
      }
      return false, |items|;
    }

    /** What a search answers: nothing for an absent key that was expected, otherwise the node and index of the spot. */
    static ghost predicate EndsAt(dal: DataAccessLayer, index: int, last: Node?, s: Spot, x: Tree, exact: bool)
      reads last
    {
      if !s.found && exact then index == -1 && last == null
      else index == s.index && last != null && last.dal == dal && last.Val() == CopyOf(x)
    }

    /**
     * Walks down from `node`, whose subtree is t, and collects the child indexes. A key that is not there gives
     * no node if it is expected (`exact`), and the leaf where it belongs otherwise.
     */
    static method FindKeyHelper(node: Node, key: Bytes, exact: bool, indexes: seq<nat>, ghost t: Tree, ghost h: nat,
                                ghost s: Spot, ghost x: Tree)
      returns (index: int, last: Node?, all: seq<nat>)
      requires node.dal.Valid() && Stored(t, node.dal.pages) && Balanced(t, h) && node.Val() == CopyOf(t)
      requires s == Search(t, key) && x == Sub(t, s.path)
      ensures all == indexes + s.path
      ensures EndsAt(node.dal, index, last, s, x, exact)
      ensures last == null || last == node || fresh(last)
      decreases t
    {
      var found, rank := node.FindKeyInNode(key);
      ghost var below := SearchStep(t, h, key, node.dal.pages);
      if found {
        return rank, node, indexes;
      }
      if node.IsLeaf() {
        if exact {
          return -1, null, indexes;
        }
        return rank, node, indexes;
      }
      var child := node.dal.GetNode(node.children[rank]);
      index, last, all := FindKeyHelper(child, key, exact, indexes + [rank], t.kids[rank], h - 1, below, x);
      LongerPath(indexes, rank, below.path);
    }

    /** The index list starts with a 0 for the root. */
    method FindKey(key: Bytes, exact: bool, ghost t: Tree, ghost h: nat)
      returns (index: int, last: Node?, indexes: seq<nat>)
      requires dal.Valid() && Stored(t, dal.pages) && Balanced(t, h) && Val() == CopyOf(t)
      ensures indexes == [0] + Search(t, key).path
      ensures EndsAt(dal, index, last, Search(t, key), Sub(t, Search(t, key).path), exact)
      ensures last == null || last == this || fresh(last)
    {
      index, last, indexes := FindKeyHelper(this, key, exact, [0], t, h, Search(t, key), Sub(t, Search(t, key).path));
    }

    method AddItem(item: Item, at: nat)
      requires at <= |items|
      modifies this`items
      ensures items == InsertAt(old(items), at, item)
    {
      if at == |items| {
        items := items + [item];
      } else {
        items := items[..at] + [item] + items[at..];
      }
    }

    /** A child pointer at the end is appended, any other one is inserted. */
    method AddChild(child: nat, at: nat)
      requires at <= |children|
      modifies this`children
      ensures children == InsertAt(old(children), at, child)
    {
      if |children| == at {
        children := children + [child];
      } else {
        children := children[..at] + [child] + children[at..];
      }
    }

    /** The right half of a leaf goes to a new page. */
    static method SplitLeaf(dal: DataAccessLayer, node: Node, s: nat) returns (right: Node)
      requires dal.Valid() && s < |node.items| && node.IsLeaf()
      requires Fits(dal.options.pageSize, RightHalf(node.Val().body, s))
      modifies dal, dal.freelist, node`items
      ensures dal.Valid() && fresh(right) && right.page == NextPage(old(dal.freelist.State())).1
      ensures dal.State() == Write(old(dal.State()).(free := NextPage(old(dal.freelist.State())).0),
                                   Copy(right.page, RightHalf(old(node.Val()).body, s)))
      ensures node.items == old(node.items)[..s]
    {
      right := dal.NewNode(node.items[s + 1..], []);
      dal.WriteBack(right);
      node.items := node.items[..s];
    }

    /** The right half of an inner node, with its children, goes to a new page. */
    static method SplitInternal(dal: DataAccessLayer, node: Node, s: nat) returns (right: Node)
      requires dal.Valid() && s < |node.items| && s < |node.children|
      requires Fits(dal.options.pageSize, RightHalf(node.Val().body, s))
      modifies dal, dal.freelist, node`items, node`children
      ensures dal.Valid() && fresh(right) && right.page == NextPage(old(dal.freelist.State())).1
      ensures dal.State() == Write(old(dal.State()).(free := NextPage(old(dal.freelist.State())).0),
                                   Copy(right.page, RightHalf(old(node.Val()).body, s)))
      ensures node.items == old(node.items)[..s] && node.children == old(node.children)[..s + 1]
    {
      right := dal.NewNode(node.items[s + 1..], node.children[s + 1..]);
      dal.WriteBack(right);
      node.items := node.items[..s];
      node.children := node.children[..s + 1];
    }

    /** What follows item s goes to a new page. */
    static method SplitOff(dal: DataAccessLayer, node: Node, s: nat) returns (right: Node)
      requires dal.Valid() && s < |node.items| && (node.children == [] || s < |node.children|)
      requires Fits(dal.options.pageSize, RightHalf(node.Val().body, s))
      modifies dal, dal.freelist, node`items, node`children
      ensures dal.Valid() && fresh(right) && right.page == NextPage(old(dal.freelist.State())).1
      ensures dal.State() == Write(old(dal.State()).(free := NextPage(old(dal.freelist.State())).0),
                                   Copy(right.page, RightHalf(old(node.Val()).body, s)))
      ensures node.Val().body == LeftHalf(old(node.Val()).body, s)
    {
      if node.IsLeaf() {
        right := SplitLeaf(dal, node, s);
      } else {
        right := SplitInternal(dal, node, s);
      }
    }

    /** Splits `node`, child k of this node. */
    method Split(node: Node, k: nat)
      requires dal.Valid() && node.dal == dal && node != this && page != 0 && node.page != 0
      requires CanSplit(dal.limits, node.Val().body) && k <= |items| && k < |children|
      requires AllFit(dal.options.pageSize, SplitStep(dal.State(), Val(), node.Val(), k).writes)
      modifies dal, dal.freelist, this, node
      ensures dal.Valid() && page == old(page) && node.page == old(node.page)
      ensures dal.State() == SplitStep(old(dal.State()), old(Val()), old(node.Val()), k)
      ensures var s := SplitIndex(dal.limits, old(node.items));
              && Val().body == Adopt(old(Val()).body, k, old(node.items)[s], NextPage(old(dal.freelist.State())).1)
              && node.Val().body == LeftHalf(old(node.Val()).body, s)
    {
      SplitFits(dal.options.pageSize, dal.State(), Val(), node.Val(), k);
      var s := dal.GetSplitIndex(node);
      var middle := node.items[s];
      var right := SplitOff(dal, node, s);
      AddItem(middle, k);
      AddChild(right.page, k + 1);
      assert Val() == Copy(old(page), Adopt(old(Val()).body, k, middle, right.page));
      dal.WriteBack(this);
      assert node.Val() == Copy(old(node.page), LeftHalf(old(node.Val()).body, s));
      dal.WriteBack(node);
    }

    method RemoveItemFromLeaf(index: nat)
      requires dal.Valid() && index < |items| && page != 0
      requires Fits(dal.options.pageSize, Body(RemoveAt(items, index), children))
      modifies dal, dal.freelist, this
      ensures dal.Valid()
      ensures dal.State() == Write(old(dal.State()), Copy(old(page), Body(RemoveAt(old(items), index), old(children))))
    {
      items := items[..index] + items[index + 1..];
      dal.WriteBack(this);
    }

    /**
     * Replaces item `index` by its predecessor, the last item of the rightmost leaf below child `index`, and takes
     * it out there. The descent ends because every step is one level down.
     */
    method RemoveItemFromInternal(index: nat, ghost t: Tree, ghost h: nat) returns (affected: seq<nat>)
      requires dal.Valid() && page != 0 && 0 !in Bag(t)
      requires Stored(t, dal.pages) && Balanced(t, h) && Val() == CopyOf(t)
      requires index < |t.items| && t.kids != [] && HasPredecessor(t, index)
      requires AllFit(dal.options.pageSize, DeleteWrites(dal.State(), t, index).writes)
      modifies dal, dal.freelist, this
      ensures dal.Valid() && affected == LocalPath(t, index)
      ensures dal.State() == DeleteWrites(old(dal.State()), t, index)
    {
      ghost var kid := t.kids[index];
      ghost var leaf, parent := CopyOf(PoppedLeaf(kid)), CopyOf(Shrunk(t, index));
      DeletionFits(dal.options.pageSize, dal.State(), t, index);
      assert |Pages(t.kids)| == |t.kids| && Stored(kid, dal.pages) && Balanced(kid, h - 1);
      var node, down := RightmostLeaf(dal, children[index], kid, h - 1);
      affected := [index] + down;
      items := items[index := node.items[|node.items| - 1]];
      node.items := node.items[..|node.items| - 1];
      assert node.Val() == leaf && Val() == parent;
      dal.WriteBack(node);
      dal.WriteBack(this);
    }

    /** Descends along last children, collecting their indexes; every step is one level down. */
    static method RightmostLeaf(dal: DataAccessLayer, page: nat, ghost kid: Tree, ghost h: nat)
      returns (node: Node, affected: seq<nat>)
      requires dal.Valid() && Stored(kid, dal.pages) && Balanced(kid, h) && kid.page == page
      ensures affected == LastPath(kid) && IsPath(kid, LastPath(kid))
      ensures fresh(node) && node.dal == dal && node.Val() == CopyOf(Sub(kid, LastPath(kid)))
      ensures Sub(kid, LastPath(kid)).kids == []
    {
      LastPathIsRightmost(kid, h);
      affected := [];
      ghost var cur, height := kid, h;
      assert affected + LastPath(cur) == LastPath(kid);
      node := dal.GetNode(page);
      while !node.IsLeaf()
        modifies {}
        invariant fresh(node) && node.dal == dal && node.Val() == CopyOf(cur)
        invariant OnTheWay(kid, cur, height, affected, dal.pages)
        decreases height
      {
        ghost var next := StepDown(kid, cur, height, affected, dal.pages);
        var last: nat := |node.children| - 1;
        node := dal.GetNode(node.children[last]);
        affected := affected + [last];
        cur, height := next, height - 1;
      }
      LeafReached(cur);
    }

    /** One item from the left sibling, through the parent. */
    method RotateRight(a: Node, p: Node, b: Node, k: nat)
      requires a != p && p != b && a != b
      requires a.items != [] && (if k == 0 then 0 else k - 1) < |p.items|
      modifies a, p, b
      ensures a.page == old(a.page) && p.page == old(p.page) && b.page == old(b.page)
      ensures (a.Val().body, p.Val().body, b.Val().body)
           == Store.RotateRight(old(a.Val()).body, old(p.Val()).body, old(b.Val()).body, k)
    {
      var item := a.items[|a.items| - 1];
      a.items := a.items[..|a.items| - 1];
      var at := if k == 0 then 0 else k - 1;
      var separator := p.items[at];
      p.items := p.items[at := item];
      b.items := [separator] + b.items;
      if !a.IsLeaf() {
        var child := a.children[|a.children| - 1];
        a.children := a.children[..|a.children| - 1];
        b.children := [child] + b.children;
      }
    }

    /** One item from the right sibling, through the parent. */
    method RotateLeft(a: Node, p: Node, b: Node, k: nat)
      requires a != p && p != b && a != b
      requires b.items != [] && p.items != [] && k <= |p.items|
      modifies a, p, b
      ensures a.page == old(a.page) && p.page == old(p.page) && b.page == old(b.page)
      ensures (a.Val().body, p.Val().body, b.Val().body)
           == Store.RotateLeft(old(a.Val()).body, old(p.Val()).body, old(b.Val()).body, k)
    {
      var item := b.items[0];
      b.items := b.items[1..];
      var at := if k == |p.items| then |p.items| - 1 else k;
      var separator := p.items[at];
      p.items := p.items[at := item];
      a.items := a.items + [separator];
      if !b.IsLeaf() {
        var child := b.children[0];
        b.children := b.children[1..];
        a.children := a.children + [child];
      }
    }

    /** Appends child j, held as b, to child j - 1, and frees its page. */
    method Merge(b: Node, j: nat)
      requires dal.Valid() && b != this && page != 0 && b.page != 0
      requires 0 < j < |children| && j <= |items| && children[j - 1] in dal.pages && children[j - 1] != 0
      requires AllFit(dal.options.pageSize, MergeStep(dal.State(), Val(), b.Val(), j).writes)
      modifies dal, dal.freelist, this
      ensures dal.Valid() && dal.State() == MergeStep(old(dal.State()), old(Val()), old(b.Val()), j)
    {
      MergeFits(dal.options.pageSize, dal.State(), Val(), b.Val(), j);
      var node := dal.GetNode(children[j - 1]);
      var separator := items[j - 1];
      items := items[..j - 1] + items[j..];
      node.items := node.items + [separator];
      node.items := node.items + b.items;
      children := children[..j] + children[j + 1..];
      if !node.IsLeaf() {
        node.children := node.children + b.children;
      }
      dal.WriteBack(node);
      dal.WriteBack(this);
      dal.DeleteNode(b.page);
    }

    /** The first half of a rebalancing step, on a copy p of the parent. */
    method BorrowFromLeft(p: Node, node: Node, k: nat)
      requires dal.Valid() && p.dal == dal && node.dal == dal && node != p && p.page != 0 && 0 !in p.children
      requires CanRebalance(dal.State(), p.Val().body, node.page, k)
      requires AllFit(dal.options.pageSize, BorrowLeft(dal.State(), p.Val(), node.Val(), k).0.writes)
      modifies dal, dal.freelist, p, node
      ensures dal.Valid()
      ensures (dal.State(), p.Val(), node.Val()) == BorrowLeft(old(dal.State()), old(p.Val()), old(node.Val()), k)
    {
      if k != 0 {
        var left := dal.GetNode(p.children[k - 1]);
        var spare := left.CanSpareAnElement();
        if spare {
          RotateRight(left, p, node, k);
          dal.WriteThree(left, p, node);
        }
      }
    }

    /** The second half, on the copies as the first half has left them. */
    method BorrowFromRight(p: Node, node: Node, k: nat)
      requires dal.Valid() && p.dal == dal && node.dal == dal && node != p && p.page != 0 && 0 !in p.children
      requires CanRebalance(dal.State(), p.Val().body, node.page, k)
      requires AllFit(dal.options.pageSize, BorrowRight(dal.State(), p.Val(), node.Val(), k).0.writes)
      modifies dal, dal.freelist, p, node
      ensures dal.Valid()
      ensures (dal.State(), p.Val(), node.Val()) == BorrowRight(old(dal.State()), old(p.Val()), old(node.Val()), k)
    {
      if k != |p.children| - 1 {
        var right := dal.GetNode(p.children[k + 1]);
        var spare := right.CanSpareAnElement();
        if spare {
          RotateLeft(node, p, right, k);
          dal.WriteThree(node, p, right);
        }
      }
    }

    /** One rebalancing step: rotations as far as the siblings can spare items, and always a merge. */
    method RebalanceRemove(node: Node, k: nat)
      requires dal.Valid() && node.dal == dal && node != this && page != 0 && 0 !in children
      requires CanRebalance(dal.State(), Val().body, node.page, k)
      requires AllFit(dal.options.pageSize, RebalanceStep(dal.State(), Val(), node.Val(), k).writes)
      modifies dal, dal.freelist, node
      ensures dal.Valid() && dal.State() == RebalanceStep(old(dal.State()), old(Val()), old(node.Val()), k)
    {
      RebalanceFits(dal.options.pageSize, dal.State(), Val(), node.Val(), k);
      var p := Clone();
      BorrowFromLeft(p, node, k);
      BorrowFromRight(p, node, k);
      if k == 0 {
        var right := dal.GetNode(children[1]);
        p.Merge(right, 1);
      } else {
        p.Merge(node, k);
      }
    }
  }

  /** A collection of items under a root page (core/collection.h). */
  class Collection {
    const dal: DataAccessLayer
    var root: nat

    ghost function State(): Coll
      reads this, dal, dal.freelist
    {
      Coll(dal.State(), root)
    }

    constructor (dal: DataAccessLayer, root: nat)
      ensures this.dal == dal && this.root == root
    {
      this.dal, this.root := dal, root;
    }

    /** Look-up: the item with the key if there is one. */
    method Find(key: Bytes) returns (r: Option<Item>)
      requires dal.Valid() && IsValid(State()) && root != 0
      ensures r == Found(TreeOf(State()), key)
      ensures forall x :: r == Some(x) <==> x in InOrder(TreeOf(State())) && x.key == key
    {
      ghost var t := TreeOf(State());
      var node := dal.GetNode(root);
      var index, last, indexes := node.FindKey(key, true, t, Height(t));
      forall x
        ensures Found(t, key) == Some(x) <==> x in InOrder(t) && x.key == key
      {
        FindIsLookup(State(), t, key, x);
      }
      if index == -1 {
        return None;
      }
      return Some(last.items[index]);
    }

    /** Copies of the nodes along the index list, root first. */
    method GetNodes(indexes: seq<nat>, ghost t: Tree) returns (nodes: seq<Node>)
      requires dal.Valid() && indexes != [] && IsPath(t, indexes[1..]) && t.page == root && Stored(t, dal.pages)
      ensures |nodes| == |indexes| && (forall i :: 0 <= i < |nodes| ==> fresh(nodes[i]) && nodes[i].dal == dal)
      ensures forall i, j :: 0 <= i < j < |nodes| ==> nodes[i] != nodes[j]
      ensures forall i :: 0 <= i < |nodes| ==> nodes[i].Val() == Along(t, indexes[1..])[i]
    {
      var child := dal.GetNode(root);
      nodes := [child];
      ghost var path := indexes[1..];
      for i := 1 to |indexes|
        invariant |nodes| == i && (forall j :: 0 <= j < i ==> fresh(nodes[j]) && nodes[j].dal == dal)
        invariant forall j, l :: 0 <= j < l < i ==> nodes[j] != nodes[l]
        invariant forall j :: 0 <= j < i ==> nodes[j].Val() == Along(t, path)[j]
        invariant child == nodes[i - 1]
      {
        AlongNext(t, path, i - 1, dal.pages);
        child := dal.GetNode(child.children[indexes[i]]);
        nodes := nodes + [child];
      }
    }

    /**
     * Insertion. The item is put into the node where the search for its key ends; then every over-populated node
     * on the path is split, bottom up, from the copies taken before; then the root.
     */
    method Put(key: Bytes, value: Bytes)
      requires dal.Valid() && dal.Fitting() && IsValid(State()) && CanPut(State(), TreeOf(State()), Item(key, value))
      requires PutFits(dal.options.pageSize, State(), TreeOf(State()), Item(key, value))
      modifies this, dal, dal.freelist
      ensures dal.Valid() && dal.Fitting() && State() == PutState(old(State()), old(TreeOf(State())), Item(key, value))
      ensures var t, item := old(TreeOf(State())), Item(key, value);
              !HasKey(InOrder(t), key) ==>
                && IsValid(State()) && PlaceOf(t, key) <= |InOrder(t)|
                && Remains(InOrder(TreeOf(State())), InsertAt(InOrder(t), PlaceOf(t, key), item),
                           Crowded(old(State()), t, item))
    {
      ghost var c, t := State(), TreeOf(State());
      var item := Item(key, value);
      PutReady(dal.options.pageSize, c, t, item);
      NoPageZero(c, t);
      if root == 0 {
        PutFirst(item, t);
      } else {
        PutBelowRoot(item, t);
      }
    }

    /** The first item makes the first root. */
    method PutFirst(item: Item, ghost t: Tree)
      requires root == 0 && dal.Valid() && CanPut(State(), t, item)
      requires AllFit(dal.options.pageSize, PutState(State(), t, item).db.writes)
      modifies this, dal, dal.freelist
      ensures dal.Valid() && State() == PutState(old(State()), t, item)
    {
      var first := dal.NewNode([item], []);
      WriteFits(dal.options.pageSize, dal.State(), first.Val());
      dal.WriteBack(first);
      root := first.page;
    }

    method PutBelowRoot(item: Item, ghost t: Tree)
      requires root != 0 && dal.Valid() && Collections.Valid(State(), t) && 0 !in Bag(t) && CanPut(State(), t, item)
      requires AllFit(dal.options.pageSize, PutState(State(), t, item).db.writes)
      modifies this, dal, dal.freelist
      ensures dal.Valid() && State() == PutState(old(State()), t, item)
    {
      ghost var s, t1 := Search(t, item.key), Inserted(t, Search(t, item.key), item);
      PutWritesFit(dal.options.pageSize, State(), t, item);
      var indexes := PutIntoNode(item, t);
      SplitPath(indexes, t1);
    }

    /** Splits what has to be split along the path, and then the root. */
    method SplitPath(indexes: seq<nat>, ghost t: Tree)
      requires dal.Valid() && root != 0 && t.page == root && Stored(t, dal.pages) && 0 !in Bag(t)
      requires indexes != [] && IsPath(t, indexes[1..]) && SplitsExist(dal.limits, Along(t, indexes[1..]))
      requires CanSplitUp(dal.limits, Along(t, indexes[1..]), indexes[1..])
      requires AllFit(dal.options.pageSize, SplitUp(dal.State(), Along(t, indexes[1..]), indexes[1..]).writes)
      requires Over(dal.limits, t.items) ==>
                 && CanSplit(dal.limits, BodyOf(t))
                 && AllFit(dal.options.pageSize,
                           GrowRoot(SplitUp(dal.State(), Along(t, indexes[1..]), indexes[1..]), CopyOf(t)).db.writes)
      modifies this, dal, dal.freelist
      ensures dal.Valid()
      ensures State() == var e := SplitUp(old(dal.State()), Along(t, indexes[1..]), indexes[1..]);
                         if Over(dal.limits, t.items) then GrowRoot(e, CopyOf(t)) else Coll(e, old(root))
    {
      var ancestors := GetNodes(indexes, t);
      SplitAncestors(ancestors, indexes, t);
      GrowIfNeeded(ancestors[0], t);
    }

    /** Finds the item's node and puts it in, at the place the search gave; answers the path to the node. */
    method PutIntoNode(item: Item, ghost t: Tree) returns (indexes: seq<nat>)
      requires root != 0 && dal.Valid() && Collections.Valid(State(), t) && 0 !in Bag(t)
      requires Fits(dal.options.pageSize, BodyOf(Grown(t, Search(t, item.key), item)))
      modifies dal, dal.freelist
      ensures dal.Valid() && indexes == [0] + Search(t, item.key).path && indexes[1..] == Search(t, item.key).path
      ensures var s := Search(t, item.key);
              && dal.State() == Write(old(dal.State()), CopyOf(Grown(t, s, item)))
              && Stored(Inserted(t, s, item), dal.pages) && Inserted(t, s, item).page == root
              && 0 !in Bag(Inserted(t, s, item))
    {
      ghost var s := Search(t, item.key);
      PlaceIsReady(State(), t, s, item);
      var index, last;
      index, last, indexes := FindForPut(item.key, t, Height(t), s);
      PutAt(last, index, item, Sub(t, s.path), Height(t) - |s.path|);
    }

    method FindForPut(key: Bytes, ghost t: Tree, ghost h: nat, ghost s: Spot)
      returns (index: nat, last: Node, indexes: seq<nat>)
      requires dal.Valid() && t.page == root && Stored(t, dal.pages) && Balanced(t, h) && s == Search(t, key)
      ensures indexes == [0] + s.path && indexes[1..] == s.path && index == s.index
      ensures fresh(last) && last.dal == dal && last.Val() == CopyOf(Sub(t, s.path))
    {
      var node := dal.GetNode(root);
      index, last, indexes := node.FindKey(key, false, t, h);
    }

    /** Both branches insert: a key that is there already is not overwritten. */
    method PutAt(last: Node, index: nat, item: Item, ghost x: Tree, ghost h: nat)
      requires dal.Valid() && last.dal == dal && last.Val() == CopyOf(x) && last.page != 0 && Balanced(x, h)
      requires index <= |x.items| && Fits(dal.options.pageSize, BodyOf(GrownNode(x, index, item)))
      modifies dal, dal.freelist, last
      ensures dal.Valid() && dal.State() == Write(old(dal.State()), CopyOf(GrownNode(x, index, item)))
    {
      GrownIsAsRead(dal.options.pageSize, x, h, index, item);
      // the key has been moved out of its parameter, so existing keys are compared with the empty one
      var same := false;
      if 0 < |last.items| && index < |last.items| {
        var cmp := BytesCmp(last.items[index].key, []);
        same := cmp == 0;
      }
      if same {
        last.items := last.items[..index] + [item] + last.items[index..];
      } else {
        last.AddItem(item, index);
      }
      assert last.Val() == Copy(x.page, Body(InsertAt(x.items, index, item), Pages(x.kids)));
      dal.WriteNode(last);
    }

    /** The split loop: from the last node but one up to the root, on copies of the nodes. */
    method SplitAncestors(ancestors: seq<Node>, indexes: seq<nat>, ghost t: Tree)
      requires dal.Valid() && |ancestors| == |indexes| > 0 && IsPath(t, indexes[1..]) && 0 !in Bag(t)
      requires CanSplitUp(dal.limits, Along(t, indexes[1..]), indexes[1..])
      requires AllFit(dal.options.pageSize, SplitUp(dal.State(), Along(t, indexes[1..]), indexes[1..]).writes)
      requires forall i :: 0 <= i < |ancestors| ==>
                 ancestors[i].dal == dal && ancestors[i].Val() == Along(t, indexes[1..])[i]
      modifies dal, dal.freelist
      ensures dal.Valid()
      ensures dal.State() == SplitUp(old(dal.State()), Along(t, indexes[1..]), indexes[1..])
    {
      ghost var anc, path, d := Along(t, indexes[1..]), indexes[1..], dal.State();
      CanSplitSuffix(d.lim, anc, path, |path|);
      for i := |ancestors| - 1 downto 0
        invariant dal.Valid() && CanSplitUp(d.lim, anc[i..], path[i..])
        invariant dal.State() == SplitUp(d, anc[i..], path[i..])
      {
        assert indexes[i + 1] == path[i];
        SplitAt(ancestors[i], ancestors[i + 1], indexes[i + 1], d, t, path, i);
      }
      assert anc[0..] == anc && path[0..] == path;
    }

    /** One iteration takes the loop from the part of the path below node i to the part from it on. */
    method SplitAt(parent: Node, child: Node, k: nat, ghost d: Db, ghost t: Tree, ghost path: seq<nat>, ghost i: nat)
      requires dal.Valid() && parent.dal == dal && child.dal == dal && i < |path| && k == path[i] && d.lim == dal.limits
      requires IsPath(t, path) && 0 !in Bag(t) && CanSplitUp(d.lim, Along(t, path), path)
      requires parent.Val() == Along(t, path)[i] && child.Val() == Along(t, path)[i + 1]
      requires AllFit(dal.options.pageSize, SplitUp(d, Along(t, path), path).writes)
      requires CanSplitUp(d.lim, Along(t, path)[i + 1..], path[i + 1..])
      requires dal.State() == SplitUp(d, Along(t, path)[i + 1..], path[i + 1..])
      modifies dal, dal.freelist
      ensures dal.Valid() && CanSplitUp(d.lim, Along(t, path)[i..], path[i..])
      ensures dal.State() == SplitUp(d, Along(t, path)[i..], path[i..])
    {
      SplitSuffix(d, Along(t, path), path, i);
      SplitUpFits(dal.options.pageSize, d, Along(t, path), path, i);
      PagesAlongAreUsed(t, path, i);
      PagesAlongAreUsed(t, path, i + 1);
      SplitIfOver(parent, child, k);
    }

    /** One iteration of the split loop, on copies of the two nodes. */
    method SplitIfOver(parent: Node, child: Node, k: nat)
      requires dal.Valid() && parent.dal == dal && child.dal == dal && parent.page != 0 && child.page != 0
      requires k <= |parent.items| && k < |parent.children|
      requires Over(dal.limits, child.items) ==>
                 && CanSplit(dal.limits, child.Val().body)
                 && AllFit(dal.options.pageSize, SplitStep(dal.State(), parent.Val(), child.Val(), k).writes)
      modifies dal, dal.freelist
      ensures dal.Valid()
      ensures Over(dal.limits, child.items) ==> dal.State() == SplitStep(old(dal.State()), parent.Val(), child.Val(), k)
      ensures !Over(dal.limits, child.items) ==> dal.State() == old(dal.State())
    {
      var previous := parent.Clone();
      var node := child.Clone();
      var over := node.IsOverPopulated();
      if over {
        previous.Split(node, k);
      }
    }

    /** The tree grows at the root: a new root takes the old one as its child and splits it. */
    method GrowIfNeeded(rootNode: Node, ghost t: Tree)
      requires dal.Valid() && rootNode.dal == dal && rootNode.Val() == CopyOf(t) && t.page == root && root != 0
      requires Over(dal.limits, t.items) ==>
                 && CanSplit(dal.limits, BodyOf(t))
                 && AllFit(dal.options.pageSize, GrowRoot(dal.State(), CopyOf(t)).db.writes)
      modifies this, dal, dal.freelist, rootNode
      ensures dal.Valid()
      ensures State() == if Over(dal.limits, t.items) then GrowRoot(old(dal.State()), CopyOf(t))
                         else Coll(old(dal.State()), old(root))
    {
      var over := rootNode.IsOverPopulated();
      if over {
        GrowFits(dal.options.pageSize, dal.State(), CopyOf(t));
        var newRoot := dal.NewNode([], [rootNode.page]);
        newRoot.Split(rootNode, 0);
        dal.WriteBack(newRoot);
        root := newRoot.page;
      }
    }

    /**
     * Removal. The item is taken out of its node, or replaced by its predecessor; then every under-populated node
     * on the path is rebalanced, bottom up, from the copies taken before; then a root without items is dropped.
     */
    method Remove(key: Bytes) returns (removed: bool)
      requires dal.Valid() && dal.Fitting() && IsValid(State()) && CanRemove(State(), TreeOf(State()), key)
      requires RemoveFits(dal.options.pageSize, State(), TreeOf(State()), key)
      modifies this, dal, dal.freelist
      ensures dal.Valid() && dal.Fitting() && State() == RemoveState(old(State()), old(TreeOf(State())), key)
      ensures removed <==> HasKey(old(InOrder(TreeOf(State()))), key)
      ensures !removed ==> State() == old(State())
      ensures var t := old(TreeOf(State()));
              removed && !Clashes(old(State()), t, key) ==>
                && IsValid(State()) && PlaceOf(t, key) < |InOrder(t)|
                && InOrder(TreeOf(State())) == RemoveAt(InOrder(t), PlaceOf(t, key))
    {
      ghost var c, t := State(), TreeOf(State());
      RemoveReady(dal.options.pageSize, c, t, key);
      NoPageZero(c, t);
      removed := RemoveFromTree(key, t);
    }

    method RemoveFromTree(key: Bytes, ghost t: Tree) returns (removed: bool)
      requires dal.Valid() && Collections.Valid(State(), t) && 0 !in Bag(t) && CanRemove(State(), t, key)
      requires AllFit(dal.options.pageSize, RemoveState(State(), t, key).db.writes)
      modifies this, dal, dal.freelist
      ensures removed <==> Search(t, key).found
      ensures dal.Valid() && State() == RemoveState(old(State()), t, key)
    {
      ghost var c, s := State(), Search(t, key);
      RemoveWritesFit(dal.options.pageSize, c, t, key);
      if s.found {
        RemoveIsDefined(c, t, key);
      }
      var indexes;
      removed, indexes := RemoveFromNode(key, t);
      if !removed {
        return;
      }
      ghost var t1 := Deleted(t, s);
      RebalancePath(indexes, t1);
    }

    /** Rebalances along the path; a root whose copy has no items gives way to its only child. */
    method RebalancePath(indexes: seq<nat>, ghost t: Tree)
      requires dal.Valid() && t.page == root && Stored(t, dal.pages) && 0 !in Bag(t)
      requires indexes != [] && IsPath(t, indexes[1..]) && (t.kids != [] ==> indexes[1..] != [])
      requires CanRebalanceUp(dal.State(), Along(t, indexes[1..]), indexes[1..])
      requires AllFit(dal.options.pageSize, RebalanceUp(dal.State(), Along(t, indexes[1..]), indexes[1..]).writes)
      modifies this, dal, dal.freelist
      ensures dal.Valid()
      ensures State() == Coll(RebalanceUp(old(dal.State()), Along(t, indexes[1..]), indexes[1..]),
                              RootAfter(t, indexes[1..]))
    {
      var ancestors := GetNodes(indexes, t);
      RebalanceAncestors(ancestors, indexes, t);
      assert Pages(t.kids) == [] <==> t.kids == [];
      if ancestors[0].items == [] && ancestors[0].children != [] {
        root := ancestors[1].page;
      }
    }

    /** Takes the item out of its node; answers the path down to the node that lost an item. */
    method RemoveFromNode(key: Bytes, ghost t: Tree) returns (found: bool, indexes: seq<nat>)
      requires dal.Valid() && Collections.Valid(State(), t) && 0 !in Bag(t) && root != 0
      requires var s := Search(t, key);
               s.found ==>
                 && HasPredecessor(Sub(t, s.path), s.index)
                 && AllFit(dal.options.pageSize, DeleteWrites(dal.State(), Sub(t, s.path), s.index).writes)
      modifies dal, dal.freelist
      ensures dal.Valid() && (found <==> Search(t, key).found)
      ensures !found ==> dal.State() == old(dal.State())
      ensures found ==>
                var s := Search(t, key);
                && indexes == [0] + FullPath(t, s) && indexes[1..] == FullPath(t, s)
                && dal.State() == DeleteWrites(old(dal.State()), Sub(t, s.path), s.index)
    {
      ghost var s := Search(t, key);
      SubInUse(State(), t, s.path);
      found, indexes := RemoveAtSpot(key, t, Height(t), s, Sub(t, s.path));
    }

    method RemoveAtSpot(key: Bytes, ghost t: Tree, ghost h: nat, ghost s: Spot, ghost x: Tree)
      returns (found: bool, indexes: seq<nat>)
      requires dal.Valid() && t.page == root && Stored(t, dal.pages) && Balanced(t, h)
      requires s == Search(t, key) && x == Sub(t, s.path) && |s.path| <= h
      requires Stored(x, dal.pages) && Balanced(x, h - |s.path|) && 0 !in Bag(x)
      requires s.found ==>
                 && HasPredecessor(x, s.index)
                 && AllFit(dal.options.pageSize, DeleteWrites(dal.State(), x, s.index).writes)
      modifies dal, dal.freelist
      ensures dal.Valid() && (found <==> s.found)
      ensures !found ==> dal.State() == old(dal.State())
      ensures found ==> indexes == [0] + (s.path + LocalPath(x, s.index))
      ensures found ==> dal.State() == DeleteWrites(old(dal.State()), x, s.index)
    {
      var index, last;
      index, last, indexes := FindForRemoval(key, t, h, s);
      found := index != -1;
      if found {
        assert last.Val() == CopyOf(x) && index == s.index;
        var affected := RemoveFrom(last, index, x, h - |s.path|);
        Joins([0], s.path, affected);
        indexes := indexes + affected;
      }
    }

    method FindForRemoval(key: Bytes, ghost t: Tree, ghost h: nat, ghost s: Spot)
      returns (index: int, last: Node?, indexes: seq<nat>)
      requires dal.Valid() && t.page == root && Stored(t, dal.pages) && Balanced(t, h) && s == Search(t, key)
      ensures indexes == [0] + s.path && Node.EndsAt(dal, index, last, s, Sub(t, s.path), true)
      ensures (index == -1 <==> !s.found) && (last != null ==> fresh(last))
    {
      var node := dal.GetNode(root);
      index, last, indexes := node.FindKey(key, true, t, h);
    }

    /** Removal from the node found: from a leaf directly, otherwise by way of the predecessor. */
    method RemoveFrom(node: Node, index: nat, ghost x: Tree, ghost h: nat) returns (affected: seq<nat>)
      requires dal.Valid() && node.dal == dal && node.Val() == CopyOf(x) && 0 !in Bag(x)
      requires Stored(x, dal.pages) && Balanced(x, h) && index < |x.items| && HasPredecessor(x, index)
      requires AllFit(dal.options.pageSize, DeleteWrites(dal.State(), x, index).writes)
      modifies dal, dal.freelist, node
      ensures dal.Valid() && affected == LocalPath(x, index)
      ensures dal.State() == DeleteWrites(old(dal.State()), x, index)
    {
      assert |Pages(x.kids)| == |x.kids|;
      assert x.page in Bag(x);
      if node.IsLeaf() {
        WriteFits(dal.options.pageSize, dal.State(), CopyOf(Shrunk(x, index)));
        node.RemoveItemFromLeaf(index);
        affected := [];
      } else {
        affected := node.RemoveItemFromInternal(index, x, h);
      }
    }

    /** One iteration of the rebalancing loop, on copies of the two nodes. */
    method RebalanceIfUnder(parent: Node, child: Node, k: nat)
      requires dal.Valid() && parent.dal == dal && child.dal == dal && parent.page != 0 && 0 !in parent.children
      requires Under(dal.limits, child.items) ==>
                 && CanRebalance(dal.State(), parent.Val().body, child.page, k)
                 && AllFit(dal.options.pageSize, RebalanceStep(dal.State(), parent.Val(), child.Val(), k).writes)
      modifies dal, dal.freelist
      ensures dal.Valid()
      ensures Under(dal.limits, child.items) ==>
                dal.State() == RebalanceStep(old(dal.State()), parent.Val(), child.Val(), k)
      ensures !Under(dal.limits, child.items) ==> dal.State() == old(dal.State())
    {
      var pnode := parent.Clone();
      var node := child.Clone();
      var under := node.IsUnderPopulated();
      if under {
        pnode.RebalanceRemove(node, k);
      }
    }

    /** The rebalancing loop: from the last node but one up to the root, on copies of the nodes. */
    method RebalanceAncestors(ancestors: seq<Node>, indexes: seq<nat>, ghost t: Tree)
      requires dal.Valid() && |ancestors| == |indexes| > 0 && IsPath(t, indexes[1..]) && 0 !in Bag(t)
      requires CanRebalanceUp(dal.State(), Along(t, indexes[1..]), indexes[1..])
      requires AllFit(dal.options.pageSize, RebalanceUp(dal.State(), Along(t, indexes[1..]), indexes[1..]).writes)
      requires forall i :: 0 <= i < |ancestors| ==>
                 ancestors[i].dal == dal && ancestors[i].Val() == Along(t, indexes[1..])[i]
      modifies dal, dal.freelist
      ensures dal.Valid() && dal.State() == RebalanceUp(old(dal.State()), Along(t, indexes[1..]), indexes[1..])
    {
      ghost var anc, path, d := Along(t, indexes[1..]), indexes[1..], dal.State();
      CanRebalanceSuffix(d, anc, path, |path|);
      for i := |ancestors| - 1 downto 0
        invariant dal.Valid() && CanRebalanceUp(d, anc[i..], path[i..])
        invariant dal.State() == RebalanceUp(d, anc[i..], path[i..])
      {
        RebalanceSuffix(d, anc, path, i);
        RebalanceUpFits(dal.options.pageSize, d, anc, path, i);
        PagesAlongAreUsed(t, path, i);
        PagesAlongAreUsed(t, path, i + 1);
        RebalanceIfUnder(ancestors[i], ancestors[i + 1], indexes[i + 1]);
      }
      assert anc[0..] == anc && path[0..] == path;
    }
  }

  /** The page starts with the bytes of the free list. */
  predicate HoldsFreelist(file: seq<byte>, size: nat, page: nat, f: Free) {
    page * size + size <= |file| && FreelistCodec.FreelistBytes(f) <= file[page * size..page * size + size]
  }

  lemma FreelistWritten(file: seq<byte>, size: nat, pages: map<nat, Body>, page: nat, f: Free, data: seq<byte>)
    requires Mirrors(file, size, pages) && page !in pages && |data| == size && FreelistCodec.FreelistBytes(f) <= data
    ensures var r := WriteAt(file, page * size, data);
            Mirrors(r, size, pages) && HoldsFreelist(r, size, page, f) && KeepsOthers(file, r, size, page)
  {
    WriteKeepsMirrors(file, size, pages, page, data);
    WriteKeepsOthers(file, size, page, data);
    WriteAtReads(file, page * size, data);
  }

  lemma FreelistKept(before: seq<byte>, after: seq<byte>, size: nat, page: nat, written: nat, f: Free)
    requires HoldsFreelist(before, size, page, f) && KeepsOthers(before, after, size, written) && page != written
    ensures HoldsFreelist(after, size, page, f)
  {
    assert SamePage(before, after, size, page);
  }

  lemma FirstFreelistFits()
    ensures |FreelistCodec.FreelistBytes(Free(1, []))| == 4
  {
  }

  /** The iteration at i of the split loop. */
  lemma SplitSuffix(d: Db, anc: seq<Copy>, path: seq<nat>, i: nat)
    requires |anc| == |path| + 1 && CanSplitUp(d.lim, anc, path) && i < |path|
    ensures CanSplitUp(d.lim, anc[i..], path[i..]) && CanSplitUp(d.lim, anc[i + 1..], path[i + 1..])
    ensures path[i] <= |anc[i].body.items| && path[i] < |anc[i].body.children|
    ensures Over(d.lim, anc[i + 1].body.items) ==> CanSplit(d.lim, anc[i + 1].body)
    ensures SplitUp(d, anc[i..], path[i..])
         == var e := SplitUp(d, anc[i + 1..], path[i + 1..]);
            if Over(d.lim, anc[i + 1].body.items) then SplitStep(e, anc[i], anc[i + 1], path[i]) else e
  {
    CanSplitSuffix(d.lim, anc, path, i);
    assert anc[i..][1..] == anc[i + 1..] && path[i..][1..] == path[i + 1..];
  }

  /** The iteration at i of the rebalancing loop. */
  lemma RebalanceSuffix(d: Db, anc: seq<Copy>, path: seq<nat>, i: nat)
    requires |anc| == |path| + 1 && CanRebalanceUp(d, anc, path) && i < |path|
    ensures CanRebalanceUp(d, anc[i..], path[i..]) && CanRebalanceUp(d, anc[i + 1..], path[i + 1..])
    ensures var e := RebalanceUp(d, anc[i + 1..], path[i + 1..]);
            && (Under(d.lim, anc[i + 1].body.items) ==> CanRebalance(e, anc[i].body, anc[i + 1].page, path[i]))
            && RebalanceUp(d, anc[i..], path[i..])
               == if Under(d.lim, anc[i + 1].body.items) then RebalanceStep(e, anc[i], anc[i + 1], path[i]) else e
  {
    CanRebalanceSuffix(d, anc, path, i);
    assert anc[i..][1..] == anc[i + 1..] && path[i..][1..] == path[i + 1..];
  }

  /** The next node along a path is stored where the child pointer says. */
  lemma {:induction false} AlongNext(t: Tree, path: seq<nat>, i: nat, pages: map<nat, Body>)
    requires IsPath(t, path) && i < |path| && Stored(t, pages)
    ensures path[i] < |Along(t, path)[i].body.children|
    ensures var p := Along(t, path)[i].body.children[path[i]];
            p in pages && Along(t, path)[i + 1] == Copy(p, pages[p])
    decreases i
  {
    var kid := t.kids[path[0]];
    assert |Pages(t.kids)| == |t.kids| && Stored(kid, pages);
    if i > 0 {
      AlongNext(kid, path[1..], i - 1, pages);
    } else {
      assert Along(t, path)[1] == Along(kid, path[1..])[0];
    }
  }

  /** A search ends at t, or goes on in the child of the key's rank. */
  lemma SearchStep(t: Tree, h: nat, key: Bytes, pages: map<nat, Body>) returns (below: Spot)
    requires Stored(t, pages) && Balanced(t, h)
    ensures (Pages(t.kids) == [] <==> t.kids == []) && |Pages(t.kids)| == |t.kids|
    ensures var r := Rank(t.items, key);
            if HasAt(t.items, key, r) || t.kids == [] then
              Search(t, key) == Spot([], r, HasAt(t.items, key, r)) && Sub(t, []) == t
            else
              && r < |t.kids| && Pages(t.kids)[r] == t.kids[r].page
              && Stored(t.kids[r], pages) && Balanced(t.kids[r], h - 1)
              && below == Search(t.kids[r], key)
              && Search(t, key) == Spot([r] + below.path, below.index, below.found)
              && Sub(t, [r] + below.path) == Sub(t.kids[r], below.path)
  {
    var r := Rank(t.items, key);
    assert Balanced(t, h) && (h == 0 <==> t.kids == []);
    if !HasAt(t.items, key, r) && t.kids != [] {
      assert Stored(t.kids[r], pages) && Balanced(t.kids[r], h - 1);
      below := Search(t.kids[r], key);
      assert ([r] + below.path)[1..] == below.path;
    } else {
      below := Spot([], 0, false);
    }
  }

  lemma LongerPath(indexes: seq<nat>, k: nat, path: seq<nat>)
    ensures (indexes + [k]) + path == indexes + ([k] + path)
  {
  }

  lemma {:induction false} CanRebalanceSuffix(d: Db, anc: seq<Copy>, path: seq<nat>, i: nat)
    requires |anc| == |path| + 1 && CanRebalanceUp(d, anc, path) && i <= |path|
    ensures CanRebalanceUp(d, anc[i..], path[i..])
    decreases i
  {
    if i > 0 {
      assert anc[1..][i - 1..] == anc[i..] && path[1..][i - 1..] == path[i..];
      CanRebalanceSuffix(d, anc[1..], path[1..], i - 1);
    } else {
      assert anc[0..] == anc && path[0..] == path;
    }
  }

  /** What is known before an insertion: its writes fit, and what they make of a collection without the key. */
  lemma PutReady(size: nat, c: Coll, t: Tree, item: Item)
    requires Valid(c, t) && CanPut(c, t, item) && Fitting(size, c.db) && PutFits(size, c, t, item)
    ensures AllFit(size, PutState(c, t, item).db.writes) && Fitting(size, PutState(c, t, item).db)
    ensures !HasKey(InOrder(t), item.key) ==>
              && IsValid(PutState(c, t, item)) && PlaceOf(t, item.key) <= |InOrder(t)|
              && Remains(InOrder(TreeOf(PutState(c, t, item))), InsertAt(InOrder(t), PlaceOf(t, item.key), item),
                         Crowded(c, t, item))
  {
    if !HasKey(InOrder(t), item.key) {
      PutMeaning(c, t, item);
    }
    PutFitsIff(size, c, t, item);
    FittingAfter(size, c.db, PutState(c, t, item).db);
  }

  /** The same before a removal. */
  lemma RemoveReady(size: nat, c: Coll, t: Tree, key: Bytes)
    requires Valid(c, t) && CanRemove(c, t, key) && Fitting(size, c.db) && RemoveFits(size, c, t, key)
    ensures AllFit(size, RemoveState(c, t, key).db.writes) && Fitting(size, RemoveState(c, t, key).db)
    ensures Search(t, key).found <==> HasKey(InOrder(t), key)
    ensures HasKey(InOrder(t), key) && !Clashes(c, t, key) ==>
              && IsValid(RemoveState(c, t, key)) && PlaceOf(t, key) < |InOrder(t)|
              && InOrder(TreeOf(RemoveState(c, t, key))) == RemoveAt(InOrder(t), PlaceOf(t, key))
  {
    SearchFindsKeys(t, Height(t), key);
    if HasKey(InOrder(t), key) && !Clashes(c, t, key) {
      RemoveMeaning(c, t, key);
    }
    RemoveFitsIff(size, c, t, key);
    FittingAfter(size, c.db, RemoveState(c, t, key).db);
  }

  /** A node with an item more is read back with its last child twice, if it has children. */
  lemma GrownIsAsRead(size: nat, x: Tree, h: nat, index: nat, item: Item)
    requires Balanced(x, h) && index <= |x.items| && Fits(size, BodyOf(GrownNode(x, index, item)))
    ensures var b := Body(InsertAt(x.items, index, item), Pages(x.kids));
            HasChildren(b) && AsRead(b) == BodyOf(GrownNode(x, index, item))
  {
    var b, g := Body(InsertAt(x.items, index, item), Pages(x.kids)), BodyOf(GrownNode(x, index, item));
    assert CutLength(|b.items|, 2) == |b.items|;
    AsReadIsWritten(b);
    forall i | 0 <= i < |b.items|
      ensures AsRead(b).items[i] == g.items[i]
    {
      assert ShortItem(g.items[i]);
      CutIsShort(b.items[i]);
    }
    if h > 0 {
      assert g.children == Pages(x.kids) + [x.kids[|x.kids| - 1].page];
    }
    assert AsRead(b).items == g.items && AsRead(b).children == g.children;
  }

  /** An insertion writes the node of the item, then what the splits write, then what a new root writes. */
  lemma PutWritesFit(size: nat, c: Coll, t: Tree, item: Item)
    requires c.root != 0 && CanPut(c, t, item) && AllFit(size, PutState(c, t, item).db.writes)
    ensures var s, d := Search(t, item.key), Write(c.db, CopyOf(Grown(t, Search(t, item.key), item)));
            var t1 := Inserted(t, s, item);
            && Fits(size, BodyOf(Grown(t, s, item)))
            && CanSplitUp(c.db.lim, Along(t1, s.path), s.path)
            && AllFit(size, SplitUp(d, Along(t1, s.path), s.path).writes)
            && (Over(c.db.lim, t1.items) ==>
                  && CanSplit(c.db.lim, BodyOf(t1))
                  && AllFit(size, GrowRoot(SplitUp(d, Along(t1, s.path), s.path), CopyOf(t1)).db.writes))
  {
    var s := Search(t, item.key);
    var t1, d := Inserted(t, s, item), Write(c.db, CopyOf(Grown(t, s, item)));
    SplitsCanGoUp(c.db.lim, t1, s.path);
    var e := SplitUp(d, Along(t1, s.path), s.path);
    AllFitBefore(size, e.writes, PutState(c, t, item).db.writes);
    AllFitBefore(size, d.writes, e.writes);
    WriteFits(size, c.db, CopyOf(Grown(t, s, item)));
  }

  lemma GrowFits(size: nat, db: Db, r: Copy)
    requires CanSplit(db.lim, r.body) && AllFit(size, GrowRoot(db, r).db.writes)
    ensures var (free, n) := NextPage(db.free);
            var q, top := NextPage(free).1, Body([], [r.page]);
            && AllFit(size, SplitStep(db.(free := free), Copy(n, top), r, 0).writes)
            && Fits(size, Adopt(top, 0, r.body.items[SplitIndex(db.lim, r.body.items)], q))
  {
    var (free, n) := NextPage(db.free);
    var q, top := NextPage(free).1, Body([], [r.page]);
    WriteFits(size, SplitStep(db.(free := free), Copy(n, top), r, 0),
              Copy(n, Adopt(top, 0, r.body.items[SplitIndex(db.lim, r.body.items)], q)));
  }

  lemma RemoveWritesFit(size: nat, c: Coll, t: Tree, key: Bytes)
    requires Valid(c, t) && CanRemove(c, t, key) && AllFit(size, RemoveState(c, t, key).db.writes)
    ensures var s := Search(t, key);
            s.found ==> AllFit(size, DeleteWrites(c.db, Sub(t, s.path), s.index).writes)
  {
    var s := Search(t, key);
    if s.found {
      AllFitBefore(size, DeleteWrites(c.db, Sub(t, s.path), s.index).writes, RemoveState(c, t, key).db.writes);
    }
  }

  /** The node `cur` is on the way from `kid` to its rightmost leaf, and `affected` leads there. */
  ghost predicate OnTheWay(kid: Tree, cur: Tree, height: nat, affected: seq<nat>, pages: map<nat, Body>) {
    && Stored(cur, pages) && Balanced(cur, height)
    && affected + LastPath(cur) == LastPath(kid)
    && IsPath(cur, LastPath(cur)) && IsPath(kid, LastPath(kid)) && Sub(cur, LastPath(cur)) == Sub(kid, LastPath(kid))
  }

  /** One step down along last children. */
  lemma StepDown(kid: Tree, t: Tree, h: nat, affected: seq<nat>, pages: map<nat, Body>) returns (next: Tree)
    requires OnTheWay(kid, t, h, affected, pages) && Pages(t.kids) != []
    ensures h > 0 && |Pages(t.kids)| > 0 && Pages(t.kids)[|Pages(t.kids)| - 1] == next.page
    ensures next.page in pages && Copy(next.page, pages[next.page]) == CopyOf(next)
    ensures OnTheWay(kid, next, h - 1, affected + [|Pages(t.kids)| - 1], pages)
  {
    next := t.kids[|t.kids| - 1];
    assert Stored(next, pages) && Balanced(next, h - 1);
    assert LastPath(t)[1..] == LastPath(next);
    assert affected + LastPath(t) == (affected + [|t.kids| - 1]) + LastPath(next);
  }

  lemma LeafReached(t: Tree)
    requires Pages(t.kids) == []
    ensures t.kids == [] && LastPath(t) == [] && Sub(t, []) == t
  {
    assert |Pages(t.kids)| == |t.kids|;
  }

  lemma Joins(a: seq<nat>, b: seq<nat>, c: seq<nat>)
    ensures (a + b) + c == a + (b + c)
  {
  }

  /** What the deletion from an inner node writes. */
  lemma DeletionFits(size: nat, db: Db, t: Tree, index: nat)
    requires 0 !in Bag(t) && index < |t.items| && t.kids != [] && HasPredecessor(t, index)
    requires AllFit(size, DeleteWrites(db, t, index).writes)
    ensures var leaf, parent := CopyOf(PoppedLeaf(t.kids[index])), CopyOf(Shrunk(t, index));
            && DeleteWrites(db, t, index) == Write(Write(db, leaf), parent)
            && Fits(size, leaf.body) && Fits(size, parent.body) && leaf.page != 0
            && parent.body.children == Pages(t.kids)
  {
    TwoWritesFit(size, db, CopyOf(PoppedLeaf(t.kids[index])), CopyOf(Shrunk(t, index)));
    LeafIsUsed(t, index);
    SamePages(t, index);
  }

  lemma SamePages(t: Tree, index: nat)
    requires index < |t.items| && t.kids != [] && HasPredecessor(t, index)
    ensures Pages(Shrunk(t, index).kids) == Pages(t.kids)
  {
  }

  lemma TwoWritesFit(size: nat, db: Db, x: Copy, y: Copy)
    requires AllFit(size, Write(Write(db, x), y).writes)
    ensures Fits(size, x.body) && Fits(size, y.body)
  {
    WriteFits(size, Write(db, x), y);
    WriteFits(size, db, x);
  }

  lemma NoPageZero(c: Coll, t: Tree)
    requires Valid(c, t)
    ensures 0 !in c.db.free.released && (c.root != 0 ==> 0 !in Bag(t))
  {
    var used := if c.root == 0 then multiset{} else Bag(t);
    assert 0 !in used + multiset(c.db.free.released);
  }

  /** The node that gets the item is in use, and the tree with the item is stored once it is written. */
  lemma PlaceIsReady(c: Coll, t: Tree, s: Spot, item: Item)
    requires Valid(c, t) && c.root != 0 && 0 !in Bag(t) && s == Search(t, item.key)
    ensures var x := Sub(t, s.path);
            x.page != 0 && |s.path| <= Height(t) && Balanced(x, Height(t) - |s.path|)
    ensures var t1 := Inserted(t, s, item);
            && Stored(t1, Write(c.db, CopyOf(Grown(t, s, item))).pages) && t1.page == t.page && 0 !in Bag(t1)
  {
    SafeIsDistinct(c.db.free, Bag(t));
    InsertedStored(c.db, t, s, item);
    SubInUse(c, t, s.path);
    NodeOnPathIsUsed(t, s.path);
  }

  /** What a removal needs to know of the node it changes. */
  lemma SubInUse(c: Coll, t: Tree, path: seq<nat>)
    requires Valid(c, t) && c.root != 0 && 0 !in Bag(t) && IsPath(t, path)
    ensures |path| <= Height(t) && Balanced(Sub(t, path), Height(t) - |path|)
    ensures Stored(Sub(t, path), c.db.pages) && 0 !in Bag(Sub(t, path))
  {
    SafeIsDistinct(c.db.free, Bag(t));
    SubStored(t, path, c.db.pages);
    SubShape(t, Height(t), path);
    assert 0 !in Bag(Sub(t, path)) by {
      ZeroBelow(t, path);
    }
  }

  lemma {:induction false} ZeroBelow(t: Tree, path: seq<nat>)
    requires 0 !in Bag(t) && IsPath(t, path)
    ensures 0 !in Bag(Sub(t, path))
    decreases |path|
  {
    if path != [] {
      BagAt(t.kids, path[0]);
      ZeroBelow(t.kids[path[0]], path[1..]);
    }
  }

  lemma NodeOnPathIsUsed(t: Tree, path: seq<nat>)
    requires IsPath(t, path) && 0 !in Bag(t)
    ensures Sub(t, path).page != 0
  {
    GraftBag(t, path, t);
    assert Sub(t, path).page in Bag(Sub(t, path));
  }

  lemma {:induction false} PagesAlongAreUsed(t: Tree, path: seq<nat>, i: nat)
    requires IsPath(t, path) && i <= |path| && 0 !in Bag(t)
    ensures Along(t, path)[i].page != 0
    ensures Along(t, path)[i].page in Bag(t) && 0 !in Along(t, path)[i].body.children
    decreases |path|
  {
    if i > 0 {
      BagAt(t.kids, path[0]);
      PagesAlongAreUsed(t.kids[path[0]], path[1..], i - 1);
    } else {
      forall k | 0 <= k < |t.kids|
        ensures Pages(t.kids)[k] != 0
      {
        PageInBagAll(t.kids, k);
      }
    }
  }

  lemma {:induction false} CanSplitSuffix(o: Limits, anc: seq<Copy>, path: seq<nat>, i: nat)
    requires |anc| == |path| + 1 && CanSplitUp(o, anc, path) && i <= |path|
    ensures CanSplitUp(o, anc[i..], path[i..])
    decreases i
  {
    if i > 0 {
      assert anc[1..][i - 1..] == anc[i..] && path[1..][i - 1..] == path[i..];
      CanSplitSuffix(o, anc[1..], path[1..], i - 1);
    } else {
      assert anc[0..] == anc && path[0..] == path;
    }
  }

  /** The predecessor's leaf has a page of the tree. */
  lemma LeafIsUsed(t: Tree, index: nat)
    requires 0 !in Bag(t) && index < |t.kids| && IsPath(t.kids[index], LastPath(t.kids[index]))
    ensures Sub(t.kids[index], LastPath(t.kids[index])).page != 0
  {
    LeafPageBelow(t.kids[index]);
    BagAt(t.kids, index);
  }
}
