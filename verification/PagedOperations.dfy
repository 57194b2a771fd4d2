/**
 * The operations on pages of a given size: the exact conditions once more, with the room that pages have
 * (core/collection.cpp, core/node.h).
 */
module PagedOperations {
  import opened KeyOrder
  import opened Trees
  import opened Sizing
  import opened Store
  import opened Lookup
  import opened Collections
  import opened Putting
  import opened Removing
  import opened Runs
  import opened NodeCodec
  import opened PageFiles
  import opened PageFit
  import opened InsertionRoom
  import opened RemovalFit
  import opened RemovalRoom
  import opened RemovalImages

  /** In order, and every node of the collection fits its page. */
  ghost predicate ValidOn(size: nat, c: Coll, t: Tree) {
    Valid(c, t) && (c.root != 0 ==> TreeFits(size, t))
  }

  /**
   * Exactly when `put` on pages of this size inserts its item at the key's place and leaves nodes that fit, without
   * reading one that does not.
   */
  lemma PutOnPagesIff(size: nat, c: Coll, t: Tree, item: Item)
    requires ValidOn(size, c, t) && CanPut(c, t, item)
    ensures PlaceOf(t, item.key) <= |InOrder(t)|
    ensures (exists u :: ValidOn(size, PutState(c, t, item), u)
                         && InOrder(u) == InsertAt(InOrder(t), PlaceOf(t, item.key), item))
            && PutReads(size, c, t, item)
            <==> !HasKey(InOrder(t), item.key) && !Crowded(c, t, item) && PutFits(size, c, t, item)
  {
    PutRoomIff(size, c, t, item);
    var r, items := PutState(c, t, item), InsertAt(InOrder(t), PlaceOf(t, item.key), item);
    forall u | Valid(r, u) && InOrder(u) == items
      ensures r.root != 0
    {
      assert items != [] && InOrder(NO_TREE) == [];
    }
  }

  /** What an operation has written. */
  function NewImages(before: Db, after: Db): seq<Copy>
    requires |before.writes| <= |after.writes|
  {
    after.writes[|before.writes|..]
  }

  /**
   * Exactly when `remove` of a key that is there, on pages of this size, takes out exactly its item and leaves nodes
   * that fit, without reading one that does not or writing outside a buffer.
   */
  lemma RemoveOnPagesIff(size: nat, c: Coll, t: Tree, key: Bytes)
    requires ValidOn(size, c, t) && CanRemove(c, t, key) && HasKey(InOrder(t), key)
    ensures PlaceOf(t, key) < |InOrder(t)| && Search(t, key).found
    ensures (exists u :: ValidOn(size, RemoveState(c, t, key), u)
                         && InOrder(u) == RemoveAt(InOrder(t), PlaceOf(t, key)))
            && RemoveReads(size, c, t, key)
            && AllInBuffer(size, NewImages(c.db, RemoveState(c, t, key).db))
            <==> !Clashes(c, t, key) && RemoveHasRoom(size, c, t, key) && StaysInside(size, c, t, key)
  {
    RemoveReadsIff(size, c, t, key);
    RemoveLeavesRoot(c, t, key);
    if !Clashes(c, t, key) && RemoveHasRoom(size, c, t, key) {
      StaysInsideIff(size, c, t, key);
      assert NewImages(c.db, RemoveState(c, t, key).db) == RemoveImages(c, t, key);
    }
  }

  lemma RemoveLeavesRoot(c: Coll, t: Tree, key: Bytes)
    requires Valid(c, t) && CanRemove(c, t, key)
    ensures RemoveState(c, t, key).root != 0
  {
    var s := Search(t, key);
    if s.found {
      RemoveIsDefined(c, t, key);
      KidPageIsUsed(c, t, Deleted(t, s), FullPath(t, s));
      assert t.page == c.root;
    }
  }

  // ---------------------------------------------------------------- runs

  /** The operation has the room that it needs. */
  ghost predicate HasRoom(size: nat, c: Coll, op: Op)
    requires Allowed(c, op)
  {
    match op
    case Put(item) => PutFits(size, c, TreeOf(c), item)
    case Remove(key) =>
      Search(TreeOf(c), key).found ==> RemoveHasRoom(size, c, TreeOf(c), key) && StaysInside(size, c, TreeOf(c), key)
  }

  /** The first n operations have. */
  ghost predicate AlwaysRoom(size: nat, states: seq<Coll>, ops: seq<Op>, n: nat)
    requires IsRun(states, ops) && n <= |ops|
  {
    n == 0 || (AlwaysRoom(size, states, ops, n - 1) && HasRoom(size, states[n - 1], ops[n - 1]))
  }

  ghost predicate IsRunOn(size: nat, states: seq<Coll>, ops: seq<Op>) {
    IsRun(states, ops) && AlwaysRoom(size, states, ops, |ops|)
  }

  /** Valid, and every node fits its page. */
  ghost predicate OnPages(size: nat, c: Coll) {
    IsValid(c) && ValidOn(size, c, TreeOf(c))
  }

  /** An allowed operation with room leaves nodes that fit. */
  lemma StepStaysOnPages(size: nat, c: Coll, op: Op)
    requires Allowed(c, op) && OnPages(size, c) && HasRoom(size, c, op)
    ensures OnPages(size, Next(c, op))
  {
    var t, r := TreeOf(c), Next(c, op);
    match op
    case Put(item) =>
      PutOnPagesIff(size, c, t, item);
      var u :| ValidOn(size, r, u);
      TreeOfIs(r, u);
    case Remove(key) =>
      SearchFindsKeys(t, Height(t), key);
      if Search(t, key).found {
        RemoveOnPagesIff(size, c, t, key);
        var u :| ValidOn(size, r, u);
        TreeOfIs(r, u);
      }
  }

  lemma {:induction false} RunStaysOnPages(size: nat, states: seq<Coll>, ops: seq<Op>, n: nat)
    requires IsRun(states, ops) && n <= |ops| && AlwaysRoom(size, states, ops, n) && OnPages(size, states[0])
    ensures OnPages(size, states[n])
    decreases n
  {
    if n > 0 {
      RunStaysOnPages(size, states, ops, n - 1);
      assert states[n - 1 + 1] == Next(states[n - 1], ops[n - 1]);
      StepStaysOnPages(size, states[n - 1], ops[n - 1]);
    }
  }

  /**
   * A run on pages of this size in which every operation has its room does to the collection what it does to a map, and
   * leaves nodes that fit.
   */
  lemma RunOnPagesRefinesMap(size: nat, states: seq<Coll>, ops: seq<Op>)
    requires IsRunOn(size, states, ops) && OnPages(size, states[0])
    ensures OnPages(size, states[|ops|]) && Meaning(states[|ops|]) == ApplyAll(Meaning(states[0]), ops)
  {
    RunRefinesMap(states, ops);
    RunStaysOnPages(size, states, ops, |ops|);
  }

  // ---------------------------------------------------------------- room for everything

  /** Everything that the operation writes fits, also what is written over before anybody reads it. */
  ghost predicate WritesFit(size: nat, c: Coll, op: Op)
    requires Allowed(c, op)
  {
    match op
    case Put(item) => PutFits(size, c, TreeOf(c), item)
    case Remove(key) => RemoveFits(size, c, TreeOf(c), key)
  }

  /** The first n operations do. */
  ghost predicate AlwaysFit(size: nat, states: seq<Coll>, ops: seq<Op>, n: nat)
    requires IsRun(states, ops) && n <= |ops|
  {
    n == 0 || (AlwaysFit(size, states, ops, n - 1) && WritesFit(size, states[n - 1], ops[n - 1]))
  }

  lemma OperationFitsIff(size: nat, c: Coll, op: Op)
    requires Allowed(c, op)
    ensures Logged(c.db) ==> Logged(Next(c, op).db)
    ensures Logged(c.db) ==> (Fitting(size, Next(c, op).db) <==> Fitting(size, c.db) && WritesFit(size, c, op))
  {
    var r := Next(c, op);
    assert Extends(c.db, r.db);
    if AllFit(size, r.db.writes) {
      AllFitBefore(size, c.db.writes, r.db.writes);
    }
    if Fitting(size, c.db) {
      FittingAfter(size, c.db, r.db);
      match op
      case Put(item) => PutFitsIff(size, c, TreeOf(c), item);
      case Remove(key) => RemoveFitsIff(size, c, TreeOf(c), key);
    }
  }

  /** In a run, everything written so far fits exactly if everything that every operation so far has written does. */
  lemma {:induction false} RunFitsIff(size: nat, states: seq<Coll>, ops: seq<Op>, n: nat)
    requires IsRun(states, ops) && Fitting(size, states[0].db) && n <= |ops|
    ensures Logged(states[n].db) && (Fitting(size, states[n].db) <==> AlwaysFit(size, states, ops, n))
    decreases n
  {
    if n > 0 {
      RunFitsIff(size, states, ops, n - 1);
      OneMoreFits(size, states, ops, n - 1);
    }
  }

  lemma OneMoreFits(size: nat, states: seq<Coll>, ops: seq<Op>, i: nat)
    requires IsRun(states, ops) && i < |ops| && Logged(states[i].db)
    ensures Logged(states[i + 1].db)
    ensures Fitting(size, states[i + 1].db) <==> Fitting(size, states[i].db) && WritesFit(size, states[i], ops[i])
  {
    assert states[i + 1] == Next(states[i], ops[i]);
    OperationFitsIff(size, states[i], ops[i]);
  }

  /** Where everything written so far fits, every node of the collection does. */
  lemma FittingIsOnPages(size: nat, c: Coll, t: Tree)
    requires Valid(c, t) && Fitting(size, c.db)
    ensures ValidOn(size, c, t)
  {
    if c.root != 0 {
      FittingPages(size, c.db);
      StoredTreeFits(size, t, c.db.pages);
    }
  }

  /** Room for everything is room. */
  lemma WritesFitIsRoom(size: nat, c: Coll, op: Op)
    requires Allowed(c, op) && ValidOn(size, c, TreeOf(c)) && WritesFit(size, c, op)
    ensures HasRoom(size, c, op)
  {
    match op
    case Put(item) =>
    case Remove(key) =>
      if Search(TreeOf(c), key).found {
        RemoveFitsIsRoom(size, c, TreeOf(c), key);
      }
  }

  /** Where everything written fits, every operation has had its room. */
  lemma {:induction false} RunFitsHasRoom(size: nat, states: seq<Coll>, ops: seq<Op>, n: nat)
    requires IsRun(states, ops) && n <= |ops| && Fitting(size, states[0].db) && AlwaysFit(size, states, ops, n)
    ensures AlwaysRoom(size, states, ops, n)
    decreases n
  {
    if n > 0 {
      RunFitsHasRoom(size, states, ops, n - 1);
      RunFitsIff(size, states, ops, n - 1);
      FittingIsOnPages(size, states[n - 1], TreeOf(states[n - 1]));
      WritesFitIsRoom(size, states[n - 1], ops[n - 1]);
    }
  }

  lemma NewDatabaseFits(size: nat, limits: Limits)
    requires Fits(size, Body([], []))
    ensures Fitting(size, NewDatabase(limits).db)
  {
    assert NewDatabase(limits).db.writes == [Copy(2, Body([], []))];
  }
}
