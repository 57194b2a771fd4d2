/** The database file: page p occupies the bytes from p times the page size (core/data_access_layer.cpp). */
module PageFiles {
  import opened KeyOrder
  import opened Trees
  import opened Sizing
  import opened Freelists
  import opened Endian
  import opened NodeCodec
  import opened Store

  function Zeros(n: nat): (z: seq<byte>)
    ensures |z| == n
  {
    seq(n, _ => 0)
  }

  /** Writing past the end makes the file longer; a gap reads as zeros. */
  function WriteAt(file: seq<byte>, at: nat, bs: seq<byte>): (r: seq<byte>)
    ensures |r| == if |file| < at + |bs| then at + |bs| else |file|
  {
    var long := if |file| < at + |bs| then file + Zeros(at + |bs| - |file|) else file;
    Splice(long, at, bs)
  }

  /** Every byte of the file after a write: the written bytes, what stood there before, and zeros in a gap. */
  lemma WriteAtIs(file: seq<byte>, at: nat, bs: seq<byte>)
    ensures var r := WriteAt(file, at, bs);
            && |r| == (if |file| < at + |bs| then at + |bs| else |file|)
            && forall i :: 0 <= i < |r| ==>
                 r[i] == if at <= i < at + |bs| then bs[i - at] else if i < |file| then file[i] else 0
  {
  }

  /** The page is inside the file and holds the node. */
  predicate HoldsPage(file: seq<byte>, size: nat, p: nat, b: Body) {
    p * size + size <= |file| && Layout(file[p * size..p * size + size], b)
  }

  /** The bytes refine a map from page numbers to nodes. */
  ghost predicate Mirrors(file: seq<byte>, size: nat, pages: map<nat, Body>) {
    forall p {:trigger HoldsPage(file, size, p, pages[p])} :: p in pages ==> HoldsPage(file, size, p, pages[p])
  }

  /** Different pages do not overlap. */
  lemma PagesDisjoint(p: nat, q: nat, size: nat)
    requires p < q
    ensures p * size + size <= q * size
  {
    assert (q - p - 1) * size >= 0;
    assert q * size == p * size + size + (q - p - 1) * size;
  }

  lemma PagesApart(p: nat, q: nat, size: nat)
    requires p != q
    ensures q * size + size <= p * size || p * size + size <= q * size
  {
    if q < p {
      PagesDisjoint(q, p, size);
    } else {
      PagesDisjoint(p, q, size);
    }
  }

  lemma WriteAtReads(file: seq<byte>, at: nat, bs: seq<byte>)
    ensures WriteAt(file, at, bs)[at..at + |bs|] == bs
  {
  }

  lemma WriteAtKeeps(file: seq<byte>, at: nat, bs: seq<byte>, from: nat, to: nat)
    requires from <= to <= |file| && (to <= at || at + |bs| <= from)
    ensures WriteAt(file, at, bs)[from..to] == file[from..to]
  {
    var r := WriteAt(file, at, bs);
    forall i | from <= i < to
      ensures r[i] == file[i]
    {
    }
  }

  lemma WrittenHolds(file: seq<byte>, size: nat, p: nat, data: seq<byte>, b: Body)
    requires |data| == size && Layout(data, b)
    ensures HoldsPage(WriteAt(file, p * size, data), size, p, b)
  {
    WriteAtReads(file, p * size, data);
  }

  predicate SamePage(before: seq<byte>, after: seq<byte>, size: nat, q: nat) {
    q * size + size <= |before| ==>
      q * size + size <= |after| && after[q * size..q * size + size] == before[q * size..q * size + size]
  }

  lemma SamePageHolds(before: seq<byte>, after: seq<byte>, size: nat, q: nat, b: Body)
    requires HoldsPage(before, size, q, b) && SamePage(before, after, size, q)
    ensures HoldsPage(after, size, q, b)
  {
  }

  /** Every page but p reads as before. */
  ghost predicate KeepsOthers(before: seq<byte>, after: seq<byte>, size: nat, p: nat) {
    forall q: nat {:trigger SamePage(before, after, size, q)} :: q != p ==> SamePage(before, after, size, q)
  }

  lemma WriteKeepsOthers(file: seq<byte>, size: nat, p: nat, data: seq<byte>)
    requires |data| == size
    ensures KeepsOthers(file, WriteAt(file, p * size, data), size, p)
  {
    forall q: nat | q != p
      ensures SamePage(file, WriteAt(file, p * size, data), size, q)
    {
      if q * size + size <= |file| {
        PagesApart(p, q, size);
        WriteAtKeeps(file, p * size, data, q * size, q * size + size);
      }
    }
  }

  /** With one page holding its node and all others as they were, the file mirrors the new map. */
  lemma MirrorsWith(before: seq<byte>, after: seq<byte>, size: nat, pages: map<nat, Body>, p: nat, b: Body)
    requires Mirrors(before, size, pages) && KeepsOthers(before, after, size, p) && HoldsPage(after, size, p, b)
    ensures Mirrors(after, size, pages[p := b])
  {
    var now := pages[p := b];
    forall q | q in now
      ensures HoldsPage(after, size, q, now[q])
    {
      if q != p {
        assert HoldsPage(before, size, q, pages[q]);
        SamePageHolds(before, after, size, q, pages[q]);
      }
    }
  }

  /** Writing one page gives that page its node and leaves every other page as it was. */
  lemma WriteMirrors(file: seq<byte>, size: nat, pages: map<nat, Body>, p: nat, data: seq<byte>, b: Body)
    requires Mirrors(file, size, pages) && |data| == size && Layout(data, b)
    ensures Mirrors(WriteAt(file, p * size, data), size, pages[p := b])
  {
    WrittenHolds(file, size, p, data, b);
    WriteKeepsOthers(file, size, p, data);
    MirrorsWith(file, WriteAt(file, p * size, data), size, pages, p, b);
  }

  /** A page that holds no node can be written without touching one. */
  lemma WriteKeepsMirrors(file: seq<byte>, size: nat, pages: map<nat, Body>, p: nat, data: seq<byte>)
    requires Mirrors(file, size, pages) && |data| == size && p !in pages
    ensures Mirrors(WriteAt(file, p * size, data), size, pages)
  {
    var r := WriteAt(file, p * size, data);
    WriteKeepsOthers(file, size, p, data);
    forall q | q in pages
      ensures HoldsPage(r, size, q, pages[q])
    {
      assert HoldsPage(file, size, q, pages[q]);
      SamePageHolds(file, r, size, q, pages[q]);
    }
  }

  // ---------------------------------------------------------------- any sequence of page writes

  /** One write of a page: the bytes, and the node they are meant to hold. */
  datatype PageWrite = PageWrite(page: nat, data: seq<byte>, body: Body)

  predicate GoodWrites(size: nat, ws: seq<PageWrite>) {
    forall i {:trigger ws[i]} :: 0 <= i < |ws| ==> |ws[i].data| == size && Layout(ws[i].data, ws[i].body)
  }

  /** The file after all writes, and what it should mean. */
  function FileAfter(file: seq<byte>, size: nat, ws: seq<PageWrite>): seq<byte> {
    if ws == [] then file
    else var w := ws[|ws| - 1]; WriteAt(FileAfter(file, size, ws[..|ws| - 1]), w.page * size, w.data)
  }

  function PagesAfter(pages: map<nat, Body>, ws: seq<PageWrite>): map<nat, Body> {
    if ws == [] then pages else var w := ws[|ws| - 1]; PagesAfter(pages, ws[..|ws| - 1])[w.page := w.body]
  }

  /** Over any sequence of writes the bytes refine the map from page numbers to nodes. */
  lemma {:induction false} WritesMirror(file: seq<byte>, size: nat, pages: map<nat, Body>, ws: seq<PageWrite>)
    requires Mirrors(file, size, pages) && GoodWrites(size, ws)
    ensures Mirrors(FileAfter(file, size, ws), size, PagesAfter(pages, ws))
  {
    if ws != [] {
      var front, w := ws[..|ws| - 1], ws[|ws| - 1];
      assert forall i {:trigger front[i]} :: 0 <= i < |front| ==> front[i] == ws[i];
      WritesMirror(file, size, pages, front);
      WriteMirrors(FileAfter(file, size, front), size, PagesAfter(pages, front), w.page, w.data, w.body);
    }
  }

  /** All writes are of nodes that fit a page. */
  predicate AllFit(size: nat, writes: seq<Copy>) {
    forall i {:trigger Fits(size, writes[i].body)} :: 0 <= i < |writes| ==> Fits(size, writes[i].body)
  }

  lemma AllFitBefore(size: nat, writes: seq<Copy>, more: seq<Copy>)
    requires writes <= more && AllFit(size, more)
    ensures AllFit(size, writes)
  {
    forall i | 0 <= i < |writes|
      ensures Fits(size, writes[i].body)
    {
      assert writes[i] == more[i] && Fits(size, more[i].body);
    }
  }

  // ---------------------------------------------------------------- what each step writes

  lemma WriteFits(size: nat, db: Db, c: Copy)
    requires AllFit(size, Write(db, c).writes)
    ensures Fits(size, c.body) && AllFit(size, db.writes)
  {
    var writes := Write(db, c).writes;
    assert writes[|writes| - 1] == c && Fits(size, writes[|writes| - 1].body);
    AllFitBefore(size, db.writes, writes);
  }

  lemma SplitFits(size: nat, db: Db, p: Copy, c: Copy, k: nat)
    requires CanSplit(db.lim, c.body) && k <= |p.body.items| && k < |p.body.children|
    requires AllFit(size, SplitStep(db, p, c, k).writes)
    ensures var s, q := SplitIndex(db.lim, c.body.items), NextPage(db.free).1;
            && Fits(size, RightHalf(c.body, s)) && Fits(size, LeftHalf(c.body, s))
            && Fits(size, Adopt(p.body, k, c.body.items[s], q))
  {
    var s := SplitIndex(db.lim, c.body.items);
    var (free, q) := NextPage(db.free);
    var d := Write(db.(free := free), Copy(q, RightHalf(c.body, s)));
    var e := Write(d, Copy(p.page, Adopt(p.body, k, c.body.items[s], q)));
    WriteFits(size, e, Copy(c.page, LeftHalf(c.body, s)));
    WriteFits(size, d, Copy(p.page, Adopt(p.body, k, c.body.items[s], q)));
    WriteFits(size, db.(free := free), Copy(q, RightHalf(c.body, s)));
  }

  /** Three writes in a row. */
  lemma ThreeWritesFit(size: nat, db: Db, x: Copy, y: Copy, z: Copy)
    requires AllFit(size, Write(Write(Write(db, x), y), z).writes)
    ensures Fits(size, x.body) && Fits(size, y.body) && Fits(size, z.body)
  {
    WriteFits(size, Write(Write(db, x), y), z);
    WriteFits(size, Write(db, x), y);
    WriteFits(size, db, x);
  }

  lemma MergeFits(size: nat, db: Db, p: Copy, b: Copy, j: nat)
    requires 0 < j < |p.body.children| && j <= |p.body.items| && p.body.children[j - 1] in db.pages
    requires AllFit(size, MergeStep(db, p, b, j).writes)
    ensures var n := db.pages[p.body.children[j - 1]];
            && Fits(size, Body(n.items + [p.body.items[j - 1]] + b.body.items,
                               if n.children == [] then [] else n.children + b.body.children))
            && Fits(size, Body(RemoveAt(p.body.items, j - 1), RemoveAt(p.body.children, j)))
  {
    var a := p.body.children[j - 1];
    var n := db.pages[a];
    var merged := Copy(a, Body(n.items + [p.body.items[j - 1]] + b.body.items,
                               if n.children == [] then [] else n.children + b.body.children));
    var parent := Copy(p.page, Body(RemoveAt(p.body.items, j - 1), RemoveAt(p.body.children, j)));
    WriteFits(size, Write(db, merged), parent);
    WriteFits(size, db, merged);
  }

  /** The writes of the rotations come before those of the merge. */
  lemma RebalanceFits(size: nat, db: Db, p: Copy, u: Copy, k: nat)
    requires CanRebalance(db, p.body, u.page, k) && AllFit(size, RebalanceStep(db, p, u, k).writes)
    ensures var (d, p1, u1) := BorrowLeft(db, p, u, k);
            AllFit(size, d.writes) && AllFit(size, BorrowRight(d, p1, u1, k).0.writes)
  {
    var (d, p1, u1) := BorrowLeft(db, p, u, k);
    var (e, p2, u2) := BorrowRight(d, p1, u1, k);
    AllFitBefore(size, e.writes, RebalanceStep(db, p, u, k).writes);
    AllFitBefore(size, d.writes, e.writes);
  }

  /** What the loop writes below level i comes before what it writes there. */
  lemma {:induction false} SplitUpFits(size: nat, db: Db, anc: seq<Copy>, path: seq<nat>, i: nat)
    requires |anc| == |path| + 1 && CanSplitUp(db.lim, anc, path) && i <= |path|
    requires CanSplitUp(db.lim, anc[i..], path[i..]) && AllFit(size, SplitUp(db, anc, path).writes)
    ensures AllFit(size, SplitUp(db, anc[i..], path[i..]).writes)
    decreases i
  {
    if i == 0 {
      assert anc[0..] == anc && path[0..] == path;
    } else {
      assert anc[1..][i - 1..] == anc[i..] && path[1..][i - 1..] == path[i..];
      AllFitBefore(size, SplitUp(db, anc[1..], path[1..]).writes, SplitUp(db, anc, path).writes);
      SplitUpFits(size, db, anc[1..], path[1..], i - 1);
    }
  }

  lemma {:induction false} RebalanceUpFits(size: nat, db: Db, anc: seq<Copy>, path: seq<nat>, i: nat)
    requires |anc| == |path| + 1 && CanRebalanceUp(db, anc, path) && i <= |path|
    requires CanRebalanceUp(db, anc[i..], path[i..]) && AllFit(size, RebalanceUp(db, anc, path).writes)
    ensures AllFit(size, RebalanceUp(db, anc[i..], path[i..]).writes)
    decreases i
  {
    if i == 0 {
      assert anc[0..] == anc && path[0..] == path;
    } else {
      assert anc[1..][i - 1..] == anc[i..] && path[1..][i - 1..] == path[i..];
      AllFitBefore(size, RebalanceUp(db, anc[1..], path[1..]).writes, RebalanceUp(db, anc, path).writes);
      RebalanceUpFits(size, db, anc[1..], path[1..], i - 1);
    }
  }
}
