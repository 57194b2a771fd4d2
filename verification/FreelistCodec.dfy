/** The free list as bytes, and what a free list that went through them still does (core/freelist.h). */
module FreelistCodec {
  import opened KeyOrder
  import opened Sizing
  import opened Freelists
  import opened Endian
  import opened ByteNumbers
  import opened Streams

  /** The maximum page and the number of free pages are written with two bytes each. */
  const COUNT_SIZE := 2

  function PageBytes(pages: seq<nat>): (bs: seq<byte>)
    ensures |bs| == PAGE_NUM_SIZE * |pages|
  {
    if pages == [] then [] else PageBytes(pages[..|pages| - 1]) + LittleBytes(pages[|pages| - 1], PAGE_NUM_SIZE)
  }

  /** The bytes after the first n free pages are written. */
  function BytesUpTo(f: Free, n: nat): (bs: seq<byte>)
    requires n <= |f.released|
    ensures |bs| == 2 * COUNT_SIZE + PAGE_NUM_SIZE * n
  {
    LittleBytes(Truncated(f.maxPage, COUNT_SIZE), COUNT_SIZE)
    + LittleBytes(Truncated(|f.released|, COUNT_SIZE), COUNT_SIZE)
    + PageBytes(f.released[..n])
  }

  function FreelistBytes(f: Free): seq<byte> { BytesUpTo(f, |f.released|) }

  /** The format: the maximum and the count, cut to two bytes, and then eight bytes for every free page. */
  lemma FreelistBytesAre(f: Free)
    ensures var bs := FreelistBytes(f);
            && |bs| == 4 + 8 * |f.released|
            && NumberIs(bs, 0, 2, f.maxPage % 65536) && NumberIs(bs, 2, 2, |f.released| % 65536)
            && forall i :: 0 <= i < |f.released| ==> NumberIs(bs, 4 + 8 * i, 8, f.released[i])
  {
    var bs := FreelistBytes(f);
    CutIsLess(f.maxPage);
    CutIsLess(|f.released|);
    CountsAt(f, bs);
    NumberIsBytes(bs, 0, 2, f.maxPage % 65536);
    NumberIsBytes(bs, 2, 2, |f.released| % 65536);
    forall i | 0 <= i < |f.released|
      ensures NumberIs(bs, 4 + 8 * i, 8, f.released[i])
    {
      NumberAt(f, bs, i);
      NumberIsBytes(bs, 4 + 8 * i, 8, f.released[i]);
    }
  }

  /** Page numbers have eight bytes. */
  predicate AllPageNums(pages: seq<nat>) {
    forall i :: 0 <= i < |pages| ==> pages[i] < Pow256(PAGE_NUM_SIZE)
  }

  // ---------------------------------------------------------------- writing and reading

  /** Splicing in the next bytes makes the written part longer by them. */
  lemma SpliceNext(before: seq<byte>, at: nat, bs: seq<byte>)
    requires at + |bs| <= |before|
    ensures Splice(before, at, bs)[..at + |bs|] == before[..at] + bs
  {
  }

  method Serialize(f: Freelist) returns (buffer: array<byte>)
    requires AllPageNums(f.State().released)
    ensures fresh(buffer) && buffer[..] == FreelistBytes(f.State())
  {
    var maxPage := Truncated(f.maxPage, COUNT_SIZE);
    var count := Truncated(|f.releasedPages|, COUNT_SIZE);
    buffer := new byte[2 * COUNT_SIZE + PAGE_NUM_SIZE * |f.releasedPages|](_ => 0);
    var stream := new StreamWriter(Little, buffer, 0, buffer.Length);
    ghost var state := f.State();
    WriteNumber(stream, maxPage, COUNT_SIZE);
    WriteNumber(stream, count, COUNT_SIZE);
    assert state.released[..0] == [];
    for i := 0 to |f.releasedPages|
      invariant stream.Valid() && stream.position == 2 * COUNT_SIZE + PAGE_NUM_SIZE * i
      invariant buffer[..stream.position] == BytesUpTo(state, i)
    {
      OnePageMore(state, i);
      WriteNumber(stream, f.releasedPages[i], PAGE_NUM_SIZE);
    }
    assert buffer[..buffer.Length] == buffer[..];
  }

  /** The next number in a stream over a whole buffer. */
  method WriteNumber(stream: StreamWriter, v: nat, width: nat)
    requires stream.Valid() && stream.order == Little && stream.start == 0 && 1 <= width <= stream.RemainingSize()
    requires v < Pow256(width)
    modifies stream`position, stream.data
    ensures stream.Valid() && stream.position == old(stream.position) + width
    ensures stream.data[..stream.position] == old(stream.data[..stream.position]) + LittleBytes(v, width)
  {
    ghost var before, at := stream.data[..], stream.position;
    assert before[..at] == stream.data[..at];
    stream.WriteBytes(v, width);
    SpliceNext(before, at, LittleBytes(v, width));
    assert stream.data[..][..at + width] == stream.data[..at + width];
  }

  lemma OnePageMore(f: Free, i: nat)
    requires i < |f.released|
    ensures BytesUpTo(f, i + 1) == BytesUpTo(f, i) + LittleBytes(f.released[i], PAGE_NUM_SIZE)
  {
    assert f.released[..i + 1][..i] == f.released[..i];
  }

  /**
   * What comes back of a free list: numbers modulo two bytes, and as many of the first pages as the count still says.
   */
  function Survivor(f: Free): (r: Free)
    ensures r.maxPage == f.maxPage % 65536 && r.released == f.released[..|f.released| % 65536]
    ensures r == f <==> f.maxPage < Pow256(COUNT_SIZE) && |f.released| < Pow256(COUNT_SIZE)
  {
    CutIsLess(f.maxPage);
    CutIsLess(|f.released|);
    Free(Truncated(f.maxPage, COUNT_SIZE), f.released[..Truncated(|f.released|, COUNT_SIZE)])
  }

  lemma CutIsLess(n: nat)
    ensures Truncated(n, COUNT_SIZE) <= n && (Truncated(n, COUNT_SIZE) == n <==> n < Pow256(COUNT_SIZE))
    ensures Pow256(COUNT_SIZE) == 65536 && Truncated(n, COUNT_SIZE) == n % 65536
  {
    assert Pow256(1) == 256 && Pow256(2) == 65536;
  }

  lemma {:induction false} PageBytesAt(pages: seq<nat>, i: nat)
    requires i < |pages|
    ensures PageBytes(pages)[PAGE_NUM_SIZE * i..PAGE_NUM_SIZE * i + PAGE_NUM_SIZE]
            == LittleBytes(pages[i], PAGE_NUM_SIZE)
  {
    if i < |pages| - 1 {
      PageBytesAt(pages[..|pages| - 1], i);
    }
  }

  /** The bytes of one number in a buffer that starts with those of the free list. */
  lemma NumberAt(f: Free, data: seq<byte>, i: nat)
    requires FreelistBytes(f) <= data && i < |f.released|
    ensures var at := 2 * COUNT_SIZE + PAGE_NUM_SIZE * i;
            at + PAGE_NUM_SIZE <= |data| && data[at..at + PAGE_NUM_SIZE] == LittleBytes(f.released[i], PAGE_NUM_SIZE)
  {
    var at := 2 * COUNT_SIZE + PAGE_NUM_SIZE * i;
    assert f.released[..|f.released|] == f.released;
    PageBytesAt(f.released, i);
    assert data[at..at + PAGE_NUM_SIZE] == FreelistBytes(f)[at..at + PAGE_NUM_SIZE];
  }

  lemma CountsAt(f: Free, data: seq<byte>)
    requires FreelistBytes(f) <= data
    ensures data[..COUNT_SIZE] == LittleBytes(Truncated(f.maxPage, COUNT_SIZE), COUNT_SIZE)
    ensures data[COUNT_SIZE..2 * COUNT_SIZE] == LittleBytes(Truncated(|f.released|, COUNT_SIZE), COUNT_SIZE)
  {
    assert data[..COUNT_SIZE] == FreelistBytes(f)[..COUNT_SIZE];
    assert data[COUNT_SIZE..2 * COUNT_SIZE] == FreelistBytes(f)[COUNT_SIZE..2 * COUNT_SIZE];
  }

  /** Reads a buffer that starts with a free list, whatever follows. */
  method Deserialize(buffer: array<byte>, ghost f: Free) returns (r: Freelist)
    requires FreelistBytes(f) <= buffer[..] && AllPageNums(f.released)
    ensures fresh(r) && r.State() == Survivor(f)
  {
    CountsAt(f, buffer[..]);
    CutIsLess(|f.released|);
    var stream := new StreamReader(Little, buffer, 0, buffer.Length);
    var maxPage := ReadNumber(stream, COUNT_SIZE, Truncated(f.maxPage, COUNT_SIZE));
    var count := ReadNumber(stream, COUNT_SIZE, Truncated(|f.released|, COUNT_SIZE));
    var pages: seq<nat> := [];
    for i := 0 to count
      invariant stream.Valid() && stream.position == 2 * COUNT_SIZE + PAGE_NUM_SIZE * i
      invariant pages == f.released[..i]
    {
      assert f.released[i] < Pow256(PAGE_NUM_SIZE);
      assert f.released[..i + 1] == f.released[..i] + [f.released[i]];
      NumberAt(f, buffer[..], i);
      var page := ReadNumber(stream, PAGE_NUM_SIZE, f.released[i]);
      pages := pages + [page];
    }
    r := new Freelist(maxPage, pages);
  }

  /** The next number in a stream over a whole buffer. */
  method ReadNumber(stream: StreamReader, width: nat, ghost v: nat) returns (r: nat)
    requires stream.Valid() && stream.order == Little && stream.start == 0 && 1 <= width <= stream.RemainingSize()
    requires v < Pow256(width) && stream.data[..][stream.position..stream.position + width] == LittleBytes(v, width)
    modifies stream`position
    ensures stream.Valid() && stream.position == old(stream.position) + width
    ensures r == v
  {
    LittleRoundTrip(v, width);
    var at := stream.position;
    assert stream.data[at..at + width] == stream.data[..][at..at + width];
    r := stream.ReadBytes(width);
  }

  // ---------------------------------------------------------------- what the survivor answers

  datatype Request = Allocate | Release(page: nat)

  /** The page numbers an allocator gives out over a sequence of requests. */
  function Answers(f: Free, requests: seq<Request>): seq<nat>
    decreases |requests|
  {
    if requests == [] then []
    else match requests[0]
      case Allocate => [NextPage(f).1] + Answers(NextPage(f).0, requests[1..])
      case Release(page) => Answers(ReleasePage(f, page), requests[1..])
  }

  /** No sequence of requests tells the two apart. */
  ghost predicate Alike(f: Free, g: Free) {
    forall requests :: Answers(f, requests) == Answers(g, requests)
  }

  /** The answer to the allocation number i, if nothing but allocations follow. */
  function Nth(f: Free, i: nat): nat
    decreases i
  {
    if i == 0 then NextPage(f).1 else Nth(NextPage(f).0, i - 1)
  }

  /** First the free pages, the last one first; then new ones. */
  function NthOf(f: Free, i: nat): nat {
    if i < |f.released| then f.released[|f.released| - 1 - i] else f.maxPage + 1 + (i - |f.released|)
  }

  lemma {:induction false} NthIs(f: Free, i: nat)
    ensures Nth(f, i) == NthOf(f, i)
    decreases i
  {
    if i > 0 {
      NthIs(NextPage(f).0, i - 1);
    }
  }

  ghost predicate SameNth(f: Free, g: Free) {
    forall i: nat :: Nth(f, i) == Nth(g, i)
  }

  lemma {:induction false} SameNthIsAlike(f: Free, g: Free, requests: seq<Request>)
    requires SameNth(f, g)
    ensures Answers(f, requests) == Answers(g, requests)
    decreases |requests|
  {
    if requests != [] {
      match requests[0]
      case Allocate =>
        assert Nth(f, 0) == Nth(g, 0);
        forall i: nat
          ensures Nth(NextPage(f).0, i) == Nth(NextPage(g).0, i)
        {
          assert Nth(f, i + 1) == Nth(g, i + 1);
        }
        SameNthIsAlike(NextPage(f).0, NextPage(g).0, requests[1..]);
      case Release(page) =>
        forall i: nat
          ensures Nth(ReleasePage(f, page), i) == Nth(ReleasePage(g, page), i)
        {
          NthAfterRelease(f, page, i);
          NthAfterRelease(g, page, i);
          assert i > 0 ==> Nth(f, i - 1) == Nth(g, i - 1);
        }
        SameNthIsAlike(ReleasePage(f, page), ReleasePage(g, page), requests[1..]);
    }
  }

  lemma NthAfterRelease(f: Free, page: nat, i: nat)
    ensures Nth(ReleasePage(f, page), i) == if i == 0 then page else Nth(f, i - 1)
  {
    assert NextPage(ReleasePage(f, page)).0 == f;
  }

  function Allocations(n: nat): seq<Request> {
    if n == 0 then [] else [Allocate] + Allocations(n - 1)
  }

  lemma {:induction false} AnswersToAllocations(f: Free, n: nat, i: nat)
    requires i < n
    ensures i < |Answers(f, Allocations(n))| && Answers(f, Allocations(n))[i] == Nth(f, i)
    decreases n
  {
    assert Allocations(n)[1..] == Allocations(n - 1);
    assert Answers(f, Allocations(n)) == [NextPage(f).1] + Answers(NextPage(f).0, Allocations(n - 1));
    if i > 0 {
      AnswersToAllocations(NextPage(f).0, n - 1, i - 1);
    }
  }

  lemma AlikeIsSameNth(f: Free, g: Free)
    ensures Alike(f, g) <==> SameNth(f, g)
  {
    if Alike(f, g) {
      forall i: nat
        ensures Nth(f, i) == Nth(g, i)
      {
        AnswersToAllocations(f, i + 1, i);
        AnswersToAllocations(g, i + 1, i);
        assert Answers(f, Allocations(i + 1)) == Answers(g, Allocations(i + 1));
      }
    }
    if SameNth(f, g) {
      forall requests
        ensures Answers(f, requests) == Answers(g, requests)
      {
        SameNthIsAlike(f, g, requests);
      }
    }
  }

  /** The free pages are the last pages given out, newest first: as if they had never been given out. */
  predicate IsTail(f: Free) {
    |f.released| <= f.maxPage && forall i :: 0 <= i < |f.released| ==> f.released[i] == f.maxPage - i
  }

  /** Nothing is lost, or only pages that a smaller maximum gives out again in the same order. */
  predicate Harmless(f: Free) {
    || (f.maxPage < Pow256(COUNT_SIZE) && |f.released| < Pow256(COUNT_SIZE))
    || (IsTail(f) && |f.released| % Pow256(COUNT_SIZE) == 0 && f.maxPage - |f.released| < Pow256(COUNT_SIZE))
  }

  /** Exactly when an allocator that went through its page answers every later sequence of requests as before. */
  lemma SurvivorIsAlikeIff(f: Free)
    requires forall i, j :: 0 <= i < j < |f.released| ==> f.released[i] != f.released[j]
    ensures Alike(Survivor(f), f) <==> Harmless(f)
  {
    var g := Survivor(f);
    AlikeIsSameNth(g, f);
    CutIsLess(f.maxPage);
    CutIsLess(|f.released|);
    if Harmless(f) && g != f {
      TailIsAlike(f);
    }
    if SameNth(g, f) && g != f {
      AlikeIsTail(f);
    }
  }

  lemma TailIsAlike(f: Free)
    requires IsTail(f) && |f.released| % 65536 == 0 && f.maxPage - |f.released| < 65536
    ensures SameNth(Survivor(f), f)
  {
    CutIsLess(f.maxPage);
    CutIsLess(|f.released|);
    var g := Survivor(f);
    WholeMultiple(f.maxPage - |f.released|, |f.released|);
    assert g == Free(f.maxPage - |f.released|, []);
    forall i: nat
      ensures Nth(g, i) == Nth(f, i)
    {
      NthIs(f, i);
      NthIs(g, i);
    }
  }

  lemma WholeMultiple(r: nat, n: nat)
    requires r < 65536 && n % 65536 == 0
    ensures (r + n) % 65536 == r
  {
  }

  lemma AlikeIsTail(f: Free)
    requires forall i, j :: 0 <= i < j < |f.released| ==> f.released[i] != f.released[j]
    requires SameNth(Survivor(f), f) && Survivor(f) != f
    ensures IsTail(f) && |f.released| % 65536 == 0 && f.maxPage - |f.released| < 65536
  {
    CutIsLess(f.maxPage);
    CutIsLess(|f.released|);
    var g, n := Survivor(f), |f.released|;
    SameNthOf(g, f, 0);
    SameNthOf(g, f, n);
    assert |g.released| == n ==> g.released == f.released;
    assert g.released == [];
    forall i | 0 <= i < n
      ensures f.released[i] == f.maxPage - i
    {
      SameNthOf(g, f, n - 1 - i);
    }
  }

  lemma SameNthOf(f: Free, g: Free, i: nat)
    requires SameNth(f, g)
    ensures NthOf(f, i) == NthOf(g, i)
  {
    assert Nth(f, i) == Nth(g, i);
    NthIs(f, i);
    NthIs(g, i);
  }
}
