/** What the operations do to the page store: each step as a function of the state before it. */
module Store {
  import opened KeyOrder
  import opened Trees
  import opened Sizing
  import opened Freelists

  /** The page store, the allocator, and every page write so far. */
  datatype Db = Db(lim: Limits, pages: map<nat, Body>, free: Free, writes: seq<Copy>)

  /** The store that a list of writes leaves behind. */
  function Replay(writes: seq<Copy>): map<nat, Body> {
    if writes == [] then map[]
    else var c := writes[|writes| - 1]; Replay(writes[..|writes| - 1])[c.page := c.body]
  }

  predicate Logged(db: Db) { db.pages == Replay(db.writes) }

  /** Steps only add writes, and the store stays what the writes have made of it. */
  predicate Extends(db: Db, r: Db) {
    r.lim == db.lim && db.writes <= r.writes && (Logged(db) ==> Logged(r))
  }

  function Write(db: Db, c: Copy): (r: Db)
    ensures Extends(db, r)
  {
    assert (db.writes + [c])[..|db.writes|] == db.writes;
    db.(pages := db.pages[c.page := c.body], writes := db.writes + [c])
  }

  // ---------------------------------------------------------------- split

  /** The right half of a split body: what follows the middle item s. */
  function RightHalf(b: Body, s: nat): Body
    requires s < |b.items| && (b.children == [] || s < |b.children|)
  {
    Body(b.items[s + 1..], if b.children == [] then [] else b.children[s + 1..])
  }

  function LeftHalf(b: Body, s: nat): Body
    requires s < |b.items| && (b.children == [] || s < |b.children|)
  {
    Body(b.items[..s], if b.children == [] then [] else b.children[..s + 1])
  }

  /** The parent after it takes the middle item and the new right sibling of child k. */
  function Adopt(p: Body, k: nat, middle: Item, right: nat): Body
    requires k <= |p.items| && k < |p.children|
  {
    Body(InsertAt(p.items, k, middle), InsertAt(p.children, k + 1, right))
  }

  /** A split index exists, and the children reach past it. */
  predicate CanSplit(o: Limits, b: Body) {
    var s := SplitIndex(o, b.items);
    s != -1 && (b.children == [] || s < |b.children|)
  }

  /** Splits the node c, child k of p, as the copies p and c have it. */
  function SplitStep(db: Db, p: Copy, c: Copy, k: nat): (r: Db)
    requires CanSplit(db.lim, c.body) && k <= |p.body.items| && k < |p.body.children|
    ensures Extends(db, r)
  {
    var s := SplitIndex(db.lim, c.body.items);
    var (free, q) := NextPage(db.free);
    var d := Write(db.(free := free), Copy(q, RightHalf(c.body, s)));
    var e := Write(d, Copy(p.page, Adopt(p.body, k, c.body.items[s], q)));
    Write(e, Copy(c.page, LeftHalf(c.body, s)))
  }

  /** Every over-populated copy below the first can be split into the one above it. */
  predicate CanSplitUp(o: Limits, anc: seq<Copy>, path: seq<nat>)
    requires |anc| == |path| + 1
  {
    path == []
    || (&& CanSplitUp(o, anc[1..], path[1..])
        && path[0] <= |anc[0].body.items| && path[0] < |anc[0].body.children|
        && (Over(o, anc[1].body.items) ==> CanSplit(o, anc[1].body)))
  }

  /** The split loop: bottom up along the path, every step on the copies taken before the loop. */
  function SplitUp(db: Db, anc: seq<Copy>, path: seq<nat>): (r: Db)
    requires |anc| == |path| + 1 && CanSplitUp(db.lim, anc, path)
    ensures Extends(db, r)
  {
    if path == [] then db
    else
      var d := SplitUp(db, anc[1..], path[1..]);
      if Over(db.lim, anc[1].body.items) then SplitStep(d, anc[0], anc[1], path[0]) else d
  }

  // ---------------------------------------------------------------- rotations and merge

  /** The last item of a moves up, the separator moves down to the front of b. */
  function RotateRight(a: Body, p: Body, b: Body, k: nat): (r: (Body, Body, Body))
    requires a.items != [] && (if k == 0 then 0 else k - 1) < |p.items|
  {
    var i := if k == 0 then 0 else k - 1;
    var n := |a.items| - 1;
    var m := |a.children| - 1;
    if a.children == [] then
      (Body(a.items[..n], []), Body(p.items[i := a.items[n]], p.children), Body([p.items[i]] + b.items, b.children))
    else
      (Body(a.items[..n], a.children[..m]), Body(p.items[i := a.items[n]], p.children),
       Body([p.items[i]] + b.items, [a.children[m]] + b.children))
  }

  /** The first item of b moves up, the separator moves down to the end of a. */
  function RotateLeft(a: Body, p: Body, b: Body, k: nat): (r: (Body, Body, Body))
    requires b.items != [] && p.items != [] && k <= |p.items|
  {
    var i := if k == |p.items| then |p.items| - 1 else k;
    if b.children == [] then
      (Body(a.items + [p.items[i]], a.children), Body(p.items[i := b.items[0]], p.children), Body(b.items[1..], []))
    else
      (Body(a.items + [p.items[i]], a.children + [b.children[0]]), Body(p.items[i := b.items[0]], p.children),
       Body(b.items[1..], b.children[1..]))
  }

  /** What the source reads in one rebalancing step is there to be read. */
  predicate CanRebalance(db: Db, p: Body, u: nat, k: nat) {
    && |p.children| == |p.items| + 1 && 2 <= |p.children|
    && k < |p.children| && p.children[k] == u
    && (forall i :: k - 1 <= i <= k + 1 && 0 <= i < |p.children| ==> p.children[i] in db.pages)
  }

  /** Rotation from the left sibling, when there is one that can spare an item. */
  function BorrowLeft(db: Db, p: Copy, u: Copy, k: nat): (r: (Db, Copy, Copy))
    requires CanRebalance(db, p.body, u.page, k)
    ensures r.1.page == p.page && r.2.page == u.page
    ensures r.1.body.children == p.body.children
    ensures CanRebalance(r.0, r.1.body, u.page, k)
    ensures r.0.free == db.free && Extends(db, r.0)
  {
    if k != 0 && CanSpare(db.lim, db.pages[p.body.children[k - 1]].items) then
      var a := p.body.children[k - 1];
      var (a', p', u') := RotateRight(db.pages[a], p.body, u.body, k);
      var r := (Write(Write(Write(db, Copy(a, a')), Copy(p.page, p')), Copy(u.page, u')), Copy(p.page, p'),
                Copy(u.page, u'));
      r
    else (db, p, u)
  }

  /** Rotation from the right sibling, when there is one that can spare an item. */
  function BorrowRight(db: Db, p: Copy, u: Copy, k: nat): (r: (Db, Copy, Copy))
    requires CanRebalance(db, p.body, u.page, k)
    ensures r.1.page == p.page && r.2.page == u.page
    ensures r.1.body.children == p.body.children
    ensures CanRebalance(r.0, r.1.body, u.page, k)
    ensures r.0.free == db.free && Extends(db, r.0)
  {
    if k != |p.body.children| - 1 && CanSpare(db.lim, db.pages[p.body.children[k + 1]].items) then
      var c := p.body.children[k + 1];
      var (u', p', c') := RotateLeft(u.body, p.body, db.pages[c], k);
      (Write(Write(Write(db, Copy(u.page, u')), Copy(p.page, p')), Copy(c, c')), Copy(p.page, p'), Copy(u.page, u'))
    else (db, p, u)
  }

  /** Child j of p, given as the copy b, is appended to child j - 1 with the item between them. */
  function MergeStep(db: Db, p: Copy, b: Copy, j: nat): (r: Db)
    requires 0 < j < |p.body.children| && j <= |p.body.items| && p.body.children[j - 1] in db.pages
    ensures r.free == ReleasePage(db.free, b.page) && Extends(db, r)
  {
    var a := p.body.children[j - 1];
    var n := db.pages[a];
    var merged := Body(n.items + [p.body.items[j - 1]] + b.body.items,
                       if n.children == [] then [] else n.children + b.body.children);
    var p' := Body(RemoveAt(p.body.items, j - 1), RemoveAt(p.body.children, j));
    var d := Write(Write(db, Copy(a, merged)), Copy(p.page, p'));
    d.(free := ReleasePage(d.free, b.page))
  }

  /** One rebalancing step: both rotations if possible, and then always a merge. */
  function RebalanceStep(db: Db, p: Copy, u: Copy, k: nat): (r: Db)
    requires CanRebalance(db, p.body, u.page, k)
    ensures Extends(db, r)
    ensures r.free == ReleasePage(db.free, p.body.children[if k == 0 then 1 else k])
  {
    var (d, p1, u1) := BorrowLeft(db, p, u, k);
    var (e, p2, u2) := BorrowRight(d, p1, u1, k);
    if k == 0 then MergeStep(e, p2, Copy(p.body.children[1], e.pages[p.body.children[1]]), 1)
    else MergeStep(e, p2, u2, k)
  }

  /** Every step of the rebalancing loop finds what it reads. */
  predicate CanRebalanceUp(db: Db, anc: seq<Copy>, path: seq<nat>)
    requires |anc| == |path| + 1
    decreases |path|, 0
  {
    path == []
    || (&& CanRebalanceUp(db, anc[1..], path[1..])
        && (Under(db.lim, anc[1].body.items) ==>
              CanRebalance(RebalanceUp(db, anc[1..], path[1..]), anc[0].body, anc[1].page, path[0])))
  }

  /** The rebalancing loop: bottom up along the path, every step on the copies taken before the loop. */
  function RebalanceUp(db: Db, anc: seq<Copy>, path: seq<nat>): (r: Db)
    requires |anc| == |path| + 1 && CanRebalanceUp(db, anc, path)
    ensures Extends(db, r)
    decreases |path|, 1
  {
    if path == [] then db
    else
      var d := RebalanceUp(db, anc[1..], path[1..]);
      if Under(db.lim, anc[1].body.items) then RebalanceStep(d, anc[0], anc[1], path[0]) else d
  }
}
