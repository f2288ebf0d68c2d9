/** The chunked buffer that the archive allocates from and only frees as a whole (Buffer.h). */
module MemBufs {
  import opened PtrArrays

  ghost predicate Apart(p: Ptr, n: nat, q: Ptr, m: nat) {
    p + n <= q || q + m <= p
  }

  /** The C heap: which blocks are allocated, and how large they are. */
  class Memory {
    var live: map<Ptr, nat>

    ghost predicate Valid()
      reads this
    {
      && (forall p :: p in live ==> p > NULL)
      && forall p, q {:trigger Apart(p, live[p], q, live[q])} ::
          p in live && q in live && p != q ==> Apart(p, live[p], q, live[q])
    }

    /** The C function malloc: a block apart from all others, or NULL. */
    method Allocate(size: nat) returns (p: Ptr)
      requires Valid()
      modifies this
      ensures Valid()
      ensures p == NULL ==> live == old(live)
      ensures p != NULL ==> p > NULL && p !in old(live) && live == old(live)[p := size]
    {
      p := *;
      if p <= NULL || p in live || exists q | q in live :: !(p + size <= q || q + live[q] <= p) {
        return NULL;
      }
      live := live[p := size];
    }

    /** The C function free: no block is freed twice. */
    method Free(p: Ptr)
      requires Valid() && (p == NULL || p in live)
      modifies this
      ensures Valid() && live == old(live) - {p}
    {
      live := live - {p};
    }
  }

  /** The size that is asked for after size n could not be had. */
  function NextSize(n: nat): nat {
    n / 5 * 4 + 1
  }

  /** It is four fifths of n, one more than a multiple of four. */
  lemma FourFifths(n: nat, k: nat)
    ensures NextSize(n) == 4 * k + 1 <==> 5 * k <= n < 5 * (k + 1)
  {
  }

  /** The size asked for after k failures. */
  function SizeAfter(n: nat, k: nat): nat
    decreases k
  {
    if k == 0 then n else SizeAfter(NextSize(n), k - 1)
  }

  lemma {:induction false} OneMoreTry(n: nat, k: nat)
    ensures SizeAfter(n, k + 1) == NextSize(SizeAfter(n, k))
    decreases k
  {
    if k > 0 {
      OneMoreTry(NextSize(n), k - 1);
    }
  }

  /** When asking for less and less, from size down to minSize, comes to an end: the sizes from five on
      fall to five and stay there, those from two to four fall to one, and so does zero. */
  predicate ComesToAnEnd(size: nat, minSize: nat) {
    minSize > 5 || 1 < minSize <= size < 5
  }

  lemma {:induction false} EndsExactly(size: nat, minSize: nat)
    requires minSize <= size
    ensures (exists k: nat :: SizeAfter(size, k) < minSize) <==> ComesToAnEnd(size, minSize)
  {
    if ComesToAnEnd(size, minSize) {
      var k := SizesFall(size, minSize);
    } else {
      forall k: nat
        ensures SizeAfter(size, k) >= minSize
      {
        SizesStay(size, minSize, k);
      }
    }
  }

  lemma {:induction false} SizesFall(size: nat, minSize: nat) returns (k: nat)
    requires minSize > 5 || 1 < minSize <= size < 5
    ensures SizeAfter(size, k) < minSize
    decreases size
  {
    if size < minSize {
      k := 0;
    } else if size < 5 {
      k := 1;
      assert SizeAfter(size, 1) == SizeAfter(1, 0);
    } else {
      k := SizesFall(NextSize(size), minSize);
      k := k + 1;
    }
  }

  lemma {:induction false} SizesStay(size: nat, minSize: nat, k: nat)
    requires minSize <= size && !ComesToAnEnd(size, minSize)
    ensures SizeAfter(size, k) >= minSize
    decreases k
  {
    if k > 0 {
      SizesStay(NextSize(size), minSize, k - 1);
    }
  }

  /** Ask for less and less as long as it is not less than minSize, or than size if that is smaller. */
  method Malloc(memory: Memory, size: nat, minSize: nat) returns (buf: Ptr, allocSize: nat)
    requires memory.Valid() && ComesToAnEnd(size, Min(size, minSize))
    modifies memory
    ensures memory.Valid()
    ensures buf == NULL ==> memory.live == old(memory.live)
    ensures buf != NULL ==> buf > NULL && buf !in old(memory.live) && memory.live == old(memory.live)[buf := allocSize]
    ensures buf != NULL ==> Min(size, minSize) <= allocSize <= size
    ensures exists k: nat :: allocSize == SizeAfter(size, k)
  {
    assert SizeAfter(size, 0) == size;
    hide SizeAfter, Memory.Valid;
    var least := Min(size, minSize);
    allocSize := size;
    buf := NULL;
    ghost var tries: nat := 0;
    while allocSize >= least
      invariant allocSize == SizeAfter(size, tries)
      invariant memory.Valid() && allocSize <= size && memory.live == old(memory.live) && buf == NULL
      decreases allocSize
    {
      buf := memory.Allocate(allocSize);
      if buf != NULL {
        return;
      }
      OneMoreTry(size, tries);
      allocSize, tries := NextSize(allocSize), tries + 1;
    }
  }

  /** Asking for no less than n bytes comes to an end whatever the heap answers. */
  predicate Obtainable(n: nat) {
    ComesToAnEnd(n, n)
  }

  function Min(a: nat, b: nat): nat { if a < b then a else b }

  function Max(a: nat, b: nat): nat { if a > b then a else b }

  datatype Chunk = Chunk(buf: Ptr, size: nat, used: nat)

  const NO_CHUNK := Chunk(NULL, 0, 0)

  /** A block handed out: the chunk it lies in and the addresses it takes. */
  datatype Block = Block(chunk: nat, at: Ptr, size: nat)

  function Sum(c: seq<Chunk>, f: Chunk -> nat): nat {
    if c == [] then 0 else Sum(c[..|c| - 1], f) + f(c[|c| - 1])
  }

  lemma {:induction false} SumUpdate(c: seq<Chunk>, f: Chunk -> nat, k: nat, x: Chunk)
    requires k < |c|
    ensures Sum(c[k := x], f) == Sum(c, f) - f(c[k]) + f(x)
  {
    var front := c[..|c| - 1];
    if k == |c| - 1 {
      assert c[k := x][..|c| - 1] == front;
    } else {
      assert c[k := x][..|c| - 1] == front[k := x];
      SumUpdate(front, f, k, x);
    }
  }

  lemma {:induction false} SumBlank(c: seq<Chunk>, f: Chunk -> nat)
    requires f(NO_CHUNK) == 0 && forall k :: 0 <= k < |c| ==> c[k] == NO_CHUNK
    ensures Sum(c, f) == 0
  {
    if c != [] {
      SumBlank(c[..|c| - 1], f);
    }
  }

  lemma {:induction false} SumFirst(c: seq<Chunk>, f: Chunk -> nat)
    requires |c| > 0 && f(NO_CHUNK) == 0 && forall k :: 0 < k < |c| ==> c[k] == NO_CHUNK
    ensures Sum(c, f) == f(c[0])
  {
    if |c| > 1 {
      SumFirst(c[..|c| - 1], f);
    } else {
      assert Sum(c[..0], f) == 0;
    }
  }

  const SIZE := (c: Chunk) => c.size
  const USED := (c: Chunk) => c.used

  /** The chunks up to the current one are allocated, each from a block of its own, and the others
      are blank. The chunk at `end`, if there is one, could not be allocated. */
  ghost predicate Chunked(c: seq<Chunk>, cur: nat, end: nat, live: map<Ptr, nat>) {
    && end <= |c| && cur <= end + 1
    && (forall k {:trigger c[k]} :: 0 <= k < |c| ==>
          && c[k].used <= c[k].size
          && (k < cur && k < end ==> c[k].buf != NULL)
          && (k > cur || k >= end || c[k].buf == NULL ==> c[k] == NO_CHUNK)
          && (c[k].buf != NULL ==> c[k].buf > NULL && c[k].buf in live && live[c[k].buf] == c[k].size))
    && (forall j, k :: 0 <= j < k < |c| && c[j].buf != NULL ==> c[j].buf != c[k].buf)
  }

  /** Every block lies in the used part of its chunk, and a later one after an earlier one. */
  ghost predicate Placed(c: seq<Chunk>, blocks: seq<Block>) {
    && (forall b {:trigger blocks[b]} :: 0 <= b < |blocks| ==>
          && blocks[b].chunk < |c| && c[blocks[b].chunk].buf != NULL
          && c[blocks[b].chunk].buf <= blocks[b].at
          && blocks[b].at + blocks[b].size <= c[blocks[b].chunk].buf + c[blocks[b].chunk].used)
    && (forall a, b :: 0 <= a < b < |blocks| && blocks[a].chunk == blocks[b].chunk ==>
          blocks[a].at + blocks[a].size <= blocks[b].at)
  }

  lemma NoBlocks(c: seq<Chunk>, blocks: seq<Block>)
    requires c == [] && Placed(c, blocks)
    ensures blocks == [] && Sum(c, USED) == 0
  {
    assert |blocks| == 0 || blocks[0].chunk < |c|;
  }

  /** Any two blocks are apart, and each lies within the C block of its chunk. */
  lemma BlocksApart(c: seq<Chunk>, cur: nat, end: nat, memory: Memory, blocks: seq<Block>, a: nat, b: nat)
    requires memory.Valid() && Chunked(c, cur, end, memory.live) && Placed(c, blocks) && a < b < |blocks|
    ensures Apart(blocks[a].at, blocks[a].size, blocks[b].at, blocks[b].size)
    ensures c[blocks[a].chunk].buf <= blocks[a].at
    ensures blocks[a].at + blocks[a].size <= c[blocks[a].chunk].buf + memory.live[c[blocks[a].chunk].buf]
  {
    var p, q := c[blocks[a].chunk].buf, c[blocks[b].chunk].buf;
    if p != q {
      assert Apart(p, memory.live[p], q, memory.live[q]);
    }
  }

  /** The heap blocks that the chunks consist of. */
  ghost function Owned(c: seq<Chunk>): set<Ptr> {
    if c == [] then {} else Owned(c[..|c| - 1]) + OwnedOne(c[|c| - 1])
  }

  ghost function OwnedOne(x: Chunk): set<Ptr> {
    if x.buf == NULL then {} else {x.buf}
  }

  /** What the heap holds for others. */
  ghost function Others(c: seq<Chunk>, live: map<Ptr, nat>): map<Ptr, nat> {
    live - Owned(c)
  }

  lemma {:induction false} OwnedUpdate(c: seq<Chunk>, k: nat, x: Chunk)
    requires k < |c| && (c[k].buf == NULL || c[k].buf == x.buf)
    ensures Owned(c[k := x]) == Owned(c) + OwnedOne(x)
  {
    var front := c[..|c| - 1];
    if k == |c| - 1 {
      assert c[k := x][..|c| - 1] == front;
    } else {
      assert c[k := x][..|c| - 1] == front[k := x];
      OwnedUpdate(front, k, x);
    }
  }

  lemma {:induction false} OwnedHas(c: seq<Chunk>, k: nat)
    requires k < |c|
    ensures OwnedOne(c[k]) <= Owned(c)
  {
    if k < |c| - 1 {
      OwnedHas(c[..|c| - 1], k);
    }
  }

  lemma {:induction false} OwnedPlus(c: seq<Chunk>, d: seq<Chunk>)
    ensures Owned(c + d) == Owned(c) + Owned(d)
  {
    if d == [] {
      assert c + d == c;
    } else {
      assert (c + d)[..|c + d| - 1] == c + d[..|d| - 1];
      OwnedPlus(c, d[..|d| - 1]);
    }
  }

  lemma {:induction false} OwnedBlank(c: seq<Chunk>)
    requires forall k :: 0 <= k < |c| ==> c[k] == NO_CHUNK
    ensures Owned(c) == {}
  {
    if c != [] {
      OwnedBlank(c[..|c| - 1]);
    }
  }

  /** A block that none of the chunks consists of is not owned. */
  lemma {:induction false} OwnedNot(c: seq<Chunk>, p: Ptr)
    requires forall k {:trigger c[k]} :: 0 <= k < |c| ==> c[k].buf == NULL || c[k].buf != p
    ensures p !in Owned(c)
  {
    if c != [] {
      var front := c[..|c| - 1];
      assert forall k {:trigger front[k]} :: 0 <= k < |front| ==> front[k] == c[k];
      OwnedNot(front, p);
    }
  }

  /** The state of a buffer: its chunks, its blocks, and the two counters that add up the chunks. */
  ghost predicate State(c: seq<Chunk>, cur: nat, end: nat, live: map<Ptr, nat>, blocks: seq<Block>, usedMem: nat,
                        allocMem: nat) {
    && Chunked(c, cur, end, live) && Placed(c, blocks)
    && usedMem == Sum(c, SIZE) && allocMem == Sum(c, USED)
  }

  /** How many bytes have been handed out of a chunk. */
  function Bytes(blocks: seq<Block>, k: nat): nat {
    if blocks == [] then 0
    else
      var n := |blocks| - 1;
      Bytes(blocks[..n], k) + if blocks[n].chunk == k then blocks[n].size else 0
  }

  ghost predicate HasBlock(blocks: seq<Block>, k: nat) {
    exists b {:trigger blocks[b]} :: 0 <= b < |blocks| && blocks[b].chunk == k
  }

  /** A block of the next chunk was too large for what chunk k has left. */
  ghost predicate LeftFor(c: seq<Chunk>, blocks: seq<Block>, k: nat)
    requires k < |c|
  {
    exists b {:trigger blocks[b]} ::
      0 <= b < |blocks| && blocks[b].chunk == k + 1 && Bytes(blocks, k) + blocks[b].size > c[k].size
  }

  /** Every chunk has at least n bytes, is used by its blocks, and was only left for a block that did not fit. */
  ghost predicate Packed(c: seq<Chunk>, cur: nat, n: nat, blocks: seq<Block>) {
    && (forall k {:trigger c[k]} :: 0 <= k < |c| ==>
          c[k].used == Bytes(blocks, k) && (c[k].buf != NULL ==> c[k].size >= n))
    && (forall b {:trigger blocks[b]} :: 0 <= b < |blocks| ==> blocks[b].chunk <= cur && blocks[b].chunk < |c|)
    && (forall k: nat {:trigger LeftFor(c, blocks, k)} :: k + 1 < |c| && HasBlock(blocks, k + 1) ==>
          LeftFor(c, blocks, k))
  }

  lemma BytesPlus(blocks: seq<Block>, x: Block, k: nat)
    ensures Bytes(blocks + [x], k) == Bytes(blocks, k) + if x.chunk == k then x.size else 0
  {
    assert (blocks + [x])[..|blocks|] == blocks;
  }

  lemma HasPlus(blocks: seq<Block>, x: Block, k: nat)
    ensures HasBlock(blocks + [x], k) <==> HasBlock(blocks, k) || x.chunk == k
  {
    var more := blocks + [x];
    assert more[|blocks|] == x;
    if HasBlock(blocks, k) {
      var b :| 0 <= b < |blocks| && blocks[b].chunk == k;
      assert more[b] == blocks[b];
    }
  }

  lemma PackedFill(c: seq<Chunk>, cur: nat, n: nat, blocks: seq<Block>, x: Chunk)
    requires Packed(c, cur, n, blocks) && cur < |c| && c[cur] == NO_CHUNK && x.used == 0 && x.size >= n
    ensures Packed(c[cur := x], cur, n, blocks)
  {
    var d := c[cur := x];
    forall k: nat | k + 1 < |d| && HasBlock(blocks, k + 1)
      ensures LeftFor(d, blocks, k)
    {
      assert LeftFor(c, blocks, k);
    }
  }

  lemma PackedTake(c: seq<Chunk>, cur: nat, n: nat, blocks: seq<Block>, x: Block)
    requires Packed(c, cur, n, blocks) && cur < |c| && x.chunk == cur
    requires 0 < cur && !HasBlock(blocks, cur) ==> Bytes(blocks, cur - 1) + x.size > c[cur - 1].size
    ensures Packed(c[cur := Taken(c[cur], x.size)], cur, n, blocks + [x])
  {
    var d, more := c[cur := Taken(c[cur], x.size)], blocks + [x];
    forall k: nat
      ensures Bytes(more, k) == Bytes(blocks, k) + if x.chunk == k then x.size else 0
      ensures HasBlock(more, k) <==> HasBlock(blocks, k) || x.chunk == k
    {
      BytesPlus(blocks, x, k);
      HasPlus(blocks, x, k);
    }
    forall k: nat | k + 1 < |d| && HasBlock(more, k + 1)
      ensures LeftFor(d, more, k)
    {
      if HasBlock(blocks, k + 1) {
        assert LeftFor(c, blocks, k);
        var b :| 0 <= b < |blocks| && blocks[b].chunk == k + 1 && Bytes(blocks, k) + blocks[b].size > c[k].size;
        assert more[b] == blocks[b];
      } else {
        assert more[|blocks|] == x;
      }
    }
  }

  lemma Blank(c: seq<Chunk>, live: map<Ptr, nat>)
    requires forall k :: 0 <= k < |c| ==> c[k] == NO_CHUNK
    ensures State(c, 0, |c|, live, [], 0, 0) && Others(c, live) == live
  {
    assert Chunked(c, 0, |c|, live) && Placed(c, []);
    SumBlank(c, SIZE);
    SumBlank(c, USED);
    OwnedBlank(c);
  }

  lemma FillKeeps(c: seq<Chunk>, cur: nat, end: nat, live: map<Ptr, nat>, blocks: seq<Block>, usedMem: nat,
                  allocMem: nat, x: Chunk)
    requires State(c, cur, end, live, blocks, usedMem, allocMem) && cur < end && c[cur].buf == NULL
    requires x.buf > NULL && x.used == 0 && x.buf !in live
    ensures State(c[cur := x], cur, end, live[x.buf := x.size], blocks, usedMem + x.size, allocMem)
    ensures Others(c[cur := x], live[x.buf := x.size]) == Others(c, live)
  {
    OwnedUpdate(c, cur, x);
    SumUpdate(c, SIZE, cur, x);
    SumUpdate(c, USED, cur, x);
  }

  function Taken(x: Chunk, n: nat): Chunk {
    x.(used := x.used + n)
  }

  lemma TakeKeeps(c: seq<Chunk>, cur: nat, end: nat, live: map<Ptr, nat>, blocks: seq<Block>, usedMem: nat,
                  allocMem: nat, n: nat)
    requires State(c, cur, end, live, blocks, usedMem, allocMem) && cur < end && c[cur].buf != NULL
    requires n <= c[cur].size - c[cur].used
    ensures var block := Block(cur, c[cur].buf + c[cur].used, n);
      State(c[cur := Taken(c[cur], n)], cur, end, live, blocks + [block], usedMem, allocMem + n)
    ensures Others(c[cur := Taken(c[cur], n)], live) == Others(c, live)
  {
    OwnedUpdate(c, cur, Taken(c[cur], n));
    OwnedHas(c, cur);
    SumUpdate(c, SIZE, cur, Taken(c[cur], n));
    SumUpdate(c, USED, cur, Taken(c[cur], n));
  }

  lemma FirstOwned(c: seq<Chunk>)
    requires c != [] && forall k {:trigger c[k]} :: 0 < k < |c| ==> c[k] == NO_CHUNK
    ensures Owned(c) == OwnedOne(c[0])
  {
    assert c == [c[0]] + c[1..] && [c[0]][..0] == [];
    OwnedPlus([c[0]], c[1..]);
    OwnedBlank(c[1..]);
  }

  /** The table after all chunks but the first are blanked. */
  ghost function OnlyFirst(c: seq<Chunk>): seq<Chunk>
    requires c != []
  {
    [c[0]] + seq(|c| - 1, _ => NO_CHUNK)
  }

  lemma FreeStep(c: seq<Chunk>, k: nat)
    requires 1 <= k < |c| && forall j {:trigger c[j]} :: 0 <= j < k ==> c[j].buf == NULL || c[j].buf != c[k].buf
    ensures Owned(c[1..k + 1]) == Owned(c[1..k]) + OwnedOne(c[k])
    ensures c[k].buf !in Owned(c[1..k])
  {
    assert c[1..k + 1][..|c[1..k + 1]| - 1] == c[1..k];
    assert forall j {:trigger c[1..k][j]} :: 0 <= j < k - 1 ==> c[1..k][j] == c[j + 1];
    OwnedNot(c[1..k], c[k].buf);
  }

  lemma FreedAll(c: seq<Chunk>, k: nat, cur: nat, end: nat, live: map<Ptr, nat>)
    requires Chunked(c, cur, end, live) && 1 <= k <= |c| && (k > cur || k >= end)
    ensures Owned(c[1..k]) == Owned(c[1..])
  {
    assert c[1..] == c[1..k] + c[k..];
    OwnedPlus(c[1..k], c[k..]);
    assert forall j {:trigger c[k..][j]} :: 0 <= j < |c[k..]| ==> c[k..][j] == c[k + j] == NO_CHUNK;
    OwnedBlank(c[k..]);
  }

  ghost function Emptied(c: seq<Chunk>): (d: seq<Chunk>)
    requires c != []
  {
    OnlyFirst(c)[0 := c[0].(used := 0)]
  }

  lemma ResetKeeps(c: seq<Chunk>, cur: nat, end: nat, live: map<Ptr, nat>)
    requires c != [] && Chunked(c, cur, end, live)
    ensures State(Emptied(c), 0, end, live - Owned(c[1..]), [], c[0].size, 0)
  {
    assert forall k {:trigger c[1..][k]} :: 0 <= k < |c| - 1 ==> c[1..][k] == c[k + 1];
    OwnedNot(c[1..], c[0].buf);
    assert Chunked(Emptied(c), 0, end, live - Owned(c[1..])) && Placed(Emptied(c), []);
    SumFirst(Emptied(c), SIZE);
    SumFirst(Emptied(c), USED);
  }

  lemma ResetOthers(c: seq<Chunk>, cur: nat, end: nat, live: map<Ptr, nat>)
    requires c != [] && Chunked(c, cur, end, live)
    ensures Owned(Emptied(c)) == OwnedOne(c[0])
    ensures Others(Emptied(c), live - Owned(c[1..])) == Others(c, live)
  {
    FirstOwned(Emptied(c));
    assert c == [c[0]] + c[1..] && [c[0]][..0] == [];
    OwnedPlus([c[0]], c[1..]);
  }

  /** The state of a buffer with what it has been used for. */
  ghost predicate Kept(c: seq<Chunk>, cur: nat, end: nat, live: map<Ptr, nat>, blocks: seq<Block>, usedMem: nat,
                       allocMem: nat, n: nat) {
    && State(c, cur, end, live, blocks, usedMem, allocMem) && Packed(c, cur, n, blocks)
    && forall k {:trigger HasBlock(blocks, k)} :: 0 < k < cur && k < end ==> HasBlock(blocks, k)
  }

  lemma BlankKept(c: seq<Chunk>, live: map<Ptr, nat>, n: nat)
    requires forall k :: 0 <= k < |c| ==> c[k] == NO_CHUNK
    ensures Kept(c, 0, |c|, live, [], 0, 0, n) && Others(c, live) == live
  {
    hide State, Packed;
    Blank(c, live);
    PackedBlank(c, n);
  }

  lemma PackedBlank(c: seq<Chunk>, n: nat)
    requires forall k :: 0 <= k < |c| ==> c[k] == NO_CHUNK
    ensures Packed(c, 0, n, [])
  {
    assert forall k: nat :: !HasBlock([], k);
    assert forall k: nat :: Bytes([], k) == 0;
  }

  lemma CurrentKept(c: seq<Chunk>, cur: nat, end: nat, live: map<Ptr, nat>, blocks: seq<Block>, usedMem: nat,
                    allocMem: nat, n: nat)
    requires Kept(c, cur, end, live, blocks, usedMem, allocMem, n)
    ensures end <= |c| && cur <= end + 1
    ensures forall k {:trigger c[k]} :: 0 <= k < |c| ==> c[k].used == Bytes(blocks, k) <= c[k].size
    ensures forall k {:trigger c[k]} :: 0 <= k < |c| && c[k].buf == NULL ==> c[k] == NO_CHUNK
    ensures forall k {:trigger c[k]} :: 0 <= k < |c| && c[k].buf != NULL ==> c[k].size >= n && c[k].buf > NULL
    ensures cur + 1 < |c| ==> c[cur + 1] == NO_CHUNK
    ensures forall k {:trigger c[k]} :: 0 <= k < cur && k < end ==> c[k].buf != NULL
  {
  }

  lemma FillKept(c: seq<Chunk>, cur: nat, end: nat, live: map<Ptr, nat>, blocks: seq<Block>, usedMem: nat,
                 allocMem: nat, n: nat, x: Chunk)
    requires Kept(c, cur, end, live, blocks, usedMem, allocMem, n) && cur < end <= |c| && c[cur].buf == NULL
    requires x.buf > NULL && x.used == 0 && x.buf !in live && x.size >= n
    ensures Kept(c[cur := x], cur, end, live[x.buf := x.size], blocks, usedMem + x.size, allocMem, n)
    ensures Others(c[cur := x], live[x.buf := x.size]) == Others(c, live)
  {
    CurrentKept(c, cur, end, live, blocks, usedMem, allocMem, n);
    FillKeeps(c, cur, end, live, blocks, usedMem, allocMem, x);
    PackedFill(c, cur, n, blocks, x);
    hide State, Packed, HasBlock;
  }

  lemma TakeKept(c: seq<Chunk>, cur: nat, end: nat, live: map<Ptr, nat>, blocks: seq<Block>, usedMem: nat,
                 allocMem: nat, n: nat, size: nat)
    requires Kept(c, cur, end, live, blocks, usedMem, allocMem, n) && cur < end <= |c| && c[cur].buf != NULL
    requires c[cur].used + size <= c[cur].size
    requires 0 < cur && !HasBlock(blocks, cur) ==> Bytes(blocks, cur - 1) + size > c[cur - 1].size
    ensures var block := Block(cur, c[cur].buf + c[cur].used, size);
      Kept(c[cur := Taken(c[cur], size)], cur, end, live, blocks + [block], usedMem, allocMem + size, n)
    ensures Others(c[cur := Taken(c[cur], size)], live) == Others(c, live)
  {
    var block := Block(cur, c[cur].buf + c[cur].used, size);
    TakeKeeps(c, cur, end, live, blocks, usedMem, allocMem, size);
    PackedTake(c, cur, n, blocks, block);
    forall k: nat
      ensures HasBlock(blocks, k) ==> HasBlock(blocks + [block], k)
    {
      HasPlus(blocks, block, k);
    }
    hide State, Packed, HasBlock;
  }

  lemma NextKept(c: seq<Chunk>, cur: nat, end: nat, live: map<Ptr, nat>, blocks: seq<Block>, usedMem: nat,
                 allocMem: nat, n: nat)
    requires Kept(c, cur, end, live, blocks, usedMem, allocMem, n) && cur <= end <= |c|
    requires cur < end ==> c[cur].buf != NULL && (0 < cur ==> HasBlock(blocks, cur))
    ensures Kept(c, cur + 1, end, live, blocks, usedMem, allocMem, n)
  {
  }

  /** The buffer ends where the heap could not give a chunk. */
  lemma EndKept(c: seq<Chunk>, cur: nat, end: nat, live: map<Ptr, nat>, blocks: seq<Block>, usedMem: nat,
                allocMem: nat, n: nat)
    requires Kept(c, cur, end, live, blocks, usedMem, allocMem, n) && cur < end <= |c| && c[cur].buf == NULL
    ensures Kept(c, cur, cur, live, blocks, usedMem, allocMem, n)
  {
  }

  lemma ResetKept(c: seq<Chunk>, cur: nat, end: nat, live: map<Ptr, nat>, blocks: seq<Block>, usedMem: nat,
                  allocMem: nat, n: nat)
    requires c != [] && Kept(c, cur, end, live, blocks, usedMem, allocMem, n)
    ensures Kept(Emptied(c), 0, end, live - Owned(c[1..]), [], c[0].size, 0, n)
    ensures Others(Emptied(c), live - Owned(c[1..])) == Others(c, live)
  {
    CurrentKept(c, cur, end, live, blocks, usedMem, allocMem, n);
    ResetKeeps(c, cur, end, live);
    ResetOthers(c, cur, end, live);
    hide State;
  }

  lemma {:induction false} BlockInBytes(blocks: seq<Block>, b: nat)
    requires b < |blocks|
    ensures blocks[b].size <= Bytes(blocks, blocks[b].chunk)
  {
    if b < |blocks| - 1 {
      BlockInBytes(blocks[..|blocks| - 1], b);
    }
  }

  /** A buffer that is used up, other than by a failure of the heap, has handed out more than n bytes of any two
      neighbouring chunks. */
  lemma PairsExceed(c: seq<Chunk>, cur: nat, end: nat, live: map<Ptr, nat>, blocks: seq<Block>, usedMem: nat,
                    allocMem: nat, n: nat, k: nat)
    requires Kept(c, cur, end, live, blocks, usedMem, allocMem, n) && cur >= end == |c| && k + 1 < |c|
    ensures Bytes(blocks, k) + Bytes(blocks, k + 1) > n
  {
    assert HasBlock(blocks, k + 1) && LeftFor(c, blocks, k);
    var b :| 0 <= b < |blocks| && blocks[b].chunk == k + 1 && Bytes(blocks, k) + blocks[b].size > c[k].size;
    BlockInBytes(blocks, b);
    assert c[k].buf != NULL;
  }

  lemma {:induction false} HalfOf(c: seq<Chunk>, n: nat, m: nat)
    requires 0 < m <= |c| && forall k {:trigger c[k]} :: 0 <= k < m - 1 ==> c[k].used + c[k + 1].used > n
    ensures 2 * Sum(c[..m], USED) >= (m - 1) * n + c[m - 1].used
  {
    assert c[..m][..m - 1] == c[..m - 1];
    if m > 1 {
      HalfOf(c, n, m - 1);
      assert c[m - 2].used + c[m - 1].used > n;
      assert (m - 1) * n == (m - 2) * n + n;
    }
  }

  lemma HalfUsed(c: seq<Chunk>, cur: nat, end: nat, live: map<Ptr, nat>, blocks: seq<Block>, usedMem: nat,
                 allocMem: nat, n: nat)
    requires Kept(c, cur, end, live, blocks, usedMem, allocMem, n) && cur >= end == |c| > 0
    ensures 2 * allocMem >= (|c| - 1) * n
  {
    forall k {:trigger c[k]} | 0 <= k < |c| - 1
      ensures c[k].used + c[k + 1].used > n
    {
      PairsExceed(c, cur, end, live, blocks, usedMem, allocMem, n, k);
      assert c[k + 1].used == Bytes(blocks, k + 1);
    }
    HalfOf(c, n, |c|);
    assert c[..|c|] == c;
  }

  /** The quotient is cut to 32 bits before one is added, and again afterwards. */
  function ChunkCount(maxBufSize: nat, allocSize: nat): nat
    requires allocSize > 0
  {
    (maxBufSize / allocSize % 0x1_0000_0000 + 1) % 0x1_0000_0000
  }

  /** The chunks of the table have room for all of the buffer if and only if nothing is cut. */
  lemma ChunksCover(maxBufSize: nat, allocSize: nat)
    requires allocSize > 0
    ensures ChunkCount(maxBufSize, allocSize) * allocSize > maxBufSize <==> maxBufSize / allocSize < 0xFFFF_FFFF
    ensures maxBufSize / allocSize < 0xFFFF_FFFF ==> (ChunkCount(maxBufSize, allocSize) - 1) * allocSize <= maxBufSize
  {
    var q, n := maxBufSize / allocSize, ChunkCount(maxBufSize, allocSize);
    assert q * allocSize <= maxBufSize < (q + 1) * allocSize;
    if q >= 0xFFFF_FFFF {
      assert n <= q;
      Scaled(n, q, allocSize);
    } else {
      assert n == q + 1;
    }
  }

  lemma Scaled(a: nat, b: nat, n: nat)
    requires a <= b
    ensures a * n <= b * n
  {
  }

  /** The C function calloc for a table of chunks. */
  method NewTable(size: nat) returns (chunks: array?<Chunk>, count: nat)
    ensures chunks == null ==> count == 0
    ensures chunks != null ==> fresh(chunks) && chunks.Length == count == size > 0
    ensures chunks != null ==> forall k :: 0 <= k < size ==> chunks[k] == NO_CHUNK
  {
    var ok: bool := *;
    if size > 0 && ok {
      chunks := new Chunk[size](_ => NO_CHUNK);
      count := size;
    } else {
      chunks, count := null, 0;
    }
  }

  class MemBuf {
    const memory: Memory
    const m_allocSize: nat
    const m_chankCount: nat
    const m_MemBufChank: array?<Chunk>
    var m_chankEnd: nat // positions of chunks in the place of pointers to them
    var m_curChank: nat
    var m_usedMem: nat
    var m_allocMem: nat

    ghost var blocks: seq<Block> // handed out since the last Free, in order

    ghost function Chunks(): seq<Chunk>
      reads m_MemBufChank
    {
      if m_MemBufChank == null then [] else m_MemBufChank[..]
    }

    ghost predicate Core()
      reads this, m_MemBufChank, memory
    {
      && memory.Valid() && m_allocSize > 0 && m_chankCount == |Chunks()|
      && (m_MemBufChank == null || m_MemBufChank.Length > 0)
      && Kept(Chunks(), m_curChank, m_chankEnd, memory.live, blocks, m_usedMem, m_allocMem, m_allocSize)
    }

    /** Besides, the current chunk has been used, if it is a further one. */
    ghost predicate Valid()
      reads this, m_MemBufChank, memory
    {
      Core() && (0 < m_curChank < m_chankEnd ==> HasBlock(blocks, m_curChank))
    }

    /** No block will be handed out before the next Free. */
    ghost predicate Exhausted()
      reads this
    {
      m_curChank >= m_chankEnd
    }

    /** The first chunk is allocated at once and taken as one block that nobody uses. */
    constructor (memory: Memory, maxBufSize: nat, allocSize: nat)
      requires memory.Valid() && 0 < allocSize < 0x1_0000_0000 && Obtainable(allocSize)
      modifies memory
      ensures Valid() && this.memory == memory && m_allocSize == allocSize
      ensures m_MemBufChank != null ==> fresh(m_MemBufChank)
      ensures m_chankCount in {0, ChunkCount(maxBufSize, allocSize)}
      ensures Exhausted() || (|blocks| == 1 && blocks[0].size == allocSize)
      ensures Others(Chunks(), memory.live) == old(memory.live)
    {
      hide Kept, Bytes, HasBlock, Owned, Memory.Valid, Others, ChunkCount, ComesToAnEnd;
      var chunks, count := NewTable(ChunkCount(maxBufSize, allocSize));
      this.memory := memory;
      m_allocSize := allocSize;
      m_MemBufChank, m_chankCount, m_chankEnd := chunks, count, count;
      m_curChank, m_usedMem, m_allocMem, blocks := 0, 0, 0, [];
      new;
      Begin();
      First();
    }

    ghost method Begin()
      requires memory.Valid() && m_allocSize > 0 && m_chankCount == m_chankEnd == |Chunks()|
      requires m_MemBufChank == null || m_MemBufChank.Length > 0
      requires forall k :: 0 <= k < |Chunks()| ==> Chunks()[k] == NO_CHUNK
      requires m_curChank == m_usedMem == m_allocMem == 0 && blocks == []
      ensures Core() && Others(Chunks(), memory.live) == memory.live
    {
      BlankKept(Chunks(), memory.live, m_allocSize);
    }

    method First()
      requires Core() && m_curChank == 0 && blocks == [] && (m_chankEnd > 0 ==> Chunks()[0].buf == NULL)
      requires Obtainable(m_allocSize)
      modifies this, m_MemBufChank, memory
      ensures Core() && m_curChank == 0 && Others(Chunks(), memory.live) == old(Others(Chunks(), memory.live))
      ensures Exhausted() || (|blocks| == 1 && blocks[0].size == m_allocSize)
    {
      hide Kept, Bytes, HasBlock, Owned, Memory.Valid;
      var first := AllocHere(m_allocSize);
    }

    lemma Facts()
      requires Core()
      ensures m_chankEnd <= |Chunks()| && m_curChank <= m_chankEnd + 1
      ensures forall k {:trigger Chunks()[k]} :: 0 <= k < |Chunks()| ==>
                Chunks()[k].used == Bytes(blocks, k) <= Chunks()[k].size
      ensures forall k {:trigger Chunks()[k]} :: 0 <= k < |Chunks()| ==>
                if Chunks()[k].buf == NULL then Chunks()[k] == NO_CHUNK
                else Chunks()[k].size >= m_allocSize && Chunks()[k].buf > NULL
      ensures m_curChank + 1 < |Chunks()| ==> Chunks()[m_curChank + 1] == NO_CHUNK
      ensures forall k {:trigger Chunks()[k]} :: 0 <= k < m_curChank && k < m_chankEnd ==> Chunks()[k].buf != NULL
    {
      CurrentKept(Chunks(), m_curChank, m_chankEnd, memory.live, blocks, m_usedMem, m_allocMem, m_allocSize);
    }

    /** What is free in the current chunk. */
    ghost function Rest(): nat
      requires Core() && m_curChank < m_chankEnd
      reads this, m_MemBufChank, memory
    {
      Chunks()[m_curChank].size - Chunks()[m_curChank].used
    }

    /** Allocate in the current chunk, which is allocated itself if it is still blank. If the heap
        cannot give a chunk the buffer ends there. */
    method AllocHere(size: nat) returns (buf: Ptr)
      requires Core() && m_curChank <= m_chankEnd && Obtainable(Max(m_allocSize, size))
      requires 0 < m_curChank < m_chankEnd && !HasBlock(blocks, m_curChank) ==>
                 Bytes(blocks, m_curChank - 1) + size > Chunks()[m_curChank - 1].size
      modifies this, m_MemBufChank, memory
      ensures Core() && m_curChank == old(m_curChank) && m_curChank <= m_chankEnd
      ensures m_chankEnd == old(m_chankEnd) || (buf == NULL && Exhausted())
      ensures old(!Exhausted() && Chunks()[m_curChank].buf != NULL) ==> m_chankEnd == old(m_chankEnd)
      ensures if buf == NULL then blocks == old(blocks) && m_allocMem == old(m_allocMem)
              else blocks == old(blocks) + [Block(m_curChank, buf, size)] && m_allocMem == old(m_allocMem) + size
      ensures buf != NULL ==> !Exhausted() && HasBlock(blocks, m_curChank)
      ensures m_usedMem == old(m_usedMem) + if buf != NULL && old(Chunks())[m_curChank].buf == NULL then
                if size > m_allocSize then size else m_allocSize else 0
      ensures forall k :: 0 <= k < |Chunks()| && k != m_curChank ==> Chunks()[k] == old(Chunks())[k]
      ensures buf == NULL && !Exhausted() ==>
                old(Chunks()) == Chunks() && Chunks()[m_curChank].buf != NULL && size > Rest() == old(Rest())
      ensures buf != NULL && old(Chunks()[m_curChank].buf) != NULL ==> size <= old(Rest())
      ensures Others(Chunks(), memory.live) == old(Others(Chunks(), memory.live))
    {
      hide Kept, Bytes, HasBlock, Owned, Memory.Valid;
      Facts();
      if m_curChank == m_chankEnd {
        return NULL;
      }
      if m_MemBufChank[m_curChank].buf == NULL {
        var ok := Fill(Max(m_allocSize, size));
        if !ok {
          GiveUp();
          return NULL;
        }
      }
      var chunk := m_MemBufChank[m_curChank];
      if size > chunk.size - chunk.used {
        return NULL;
      }
      buf := Take(size);
    }

    method GiveUp()
      requires Core() && m_curChank < m_chankEnd && Chunks()[m_curChank].buf == NULL
      modifies this`m_chankEnd
      ensures Core() && m_chankEnd == m_curChank
    {
      hide Kept, Bytes, HasBlock, Owned, Memory.Valid;
      Facts();
      EndKept(Chunks(), m_curChank, m_chankEnd, memory.live, blocks, m_usedMem, m_allocMem, m_allocSize);
      m_chankEnd := m_curChank;
    }

    /** Allocate a block. NULL is returned exactly when no more blocks can be handed out, which stays
        so until the next Free. Unless the heap failed this is when the block fits neither in what
        is left of the current chunk nor in a further one. A further chunk is only opened when the blocks of
        the present one and the new block have more bytes than it, and so more than m_allocSize. */
    method Alloc(size: nat) returns (buf: Ptr)
      requires Valid() && Obtainable(Max(m_allocSize, size))
      modifies this, m_MemBufChank, memory
      ensures Valid() && (buf == NULL <==> Exhausted())
      ensures old(Exhausted()) ==> buf == NULL && m_usedMem == old(m_usedMem)
      ensures if buf == NULL then blocks == old(blocks) && m_allocMem == old(m_allocMem)
              else blocks == old(blocks) + [Block(m_curChank, buf, size)] && m_allocMem == old(m_allocMem) + size
      ensures !old(Exhausted()) && m_chankEnd == old(m_chankEnd) ==>
                (buf != NULL <==>
                   old(Chunks()[m_curChank].buf == NULL || size <= Rest() || m_curChank + 1 < m_chankEnd))
      ensures m_usedMem == old(m_usedMem) + if buf != NULL && old(Chunks())[m_curChank].buf == NULL then
                if size > m_allocSize then size else m_allocSize else 0
      ensures old(!Exhausted() && Chunks()[m_curChank].buf != NULL) ==>
                (m_curChank == old(m_curChank)
                 <==> Bytes(old(blocks), old(m_curChank)) + size <= old(Chunks()[m_curChank].size))
      ensures m_curChank <= old(m_curChank) + 1
      ensures Others(Chunks(), memory.live) == old(Others(Chunks(), memory.live))
    {
      hide Kept, Bytes, HasBlock, Owned, Memory.Valid;
      Facts();
      assert !Exhausted() ==> Chunks()[m_curChank].used == Bytes(blocks, m_curChank);
      buf := NULL;
      if m_curChank < m_chankEnd {
        buf := AllocHere(size);
        if buf == NULL {
          NextChunk();
          if m_curChank < m_chankEnd {
            buf := AllocHere(size);
          }
        }
      }
    }

    method NextChunk()
      requires Core() && m_curChank <= m_chankEnd && (0 < m_curChank < m_chankEnd ==> HasBlock(blocks, m_curChank))
      requires m_curChank < m_chankEnd ==> Chunks()[m_curChank].buf != NULL
      modifies this`m_curChank
      ensures Core() && m_curChank == old(m_curChank) + 1
      ensures m_curChank < m_chankEnd ==> Chunks()[m_curChank].buf == NULL
    {
      hide Kept, Bytes, HasBlock, Owned, Memory.Valid;
      Facts();
      NextKept(Chunks(), m_curChank, m_chankEnd, memory.live, blocks, m_usedMem, m_allocMem, m_allocSize);
      m_curChank := m_curChank + 1;
    }

    /** Get the current chunk, which is blank, from the C heap. */
    method Fill(size: nat) returns (ok: bool)
      requires Core() && m_curChank < m_chankEnd && Chunks()[m_curChank].buf == NULL && Obtainable(size)
      requires size >= m_allocSize
      modifies this`m_usedMem, m_MemBufChank, memory
      ensures m_MemBufChank != null
      ensures !ok ==>
                Core() && Chunks() == old(Chunks()) && memory.live == old(memory.live) && m_usedMem == old(m_usedMem)
      ensures ok ==> Core() && Chunks()[m_curChank].buf > NULL && Chunks()[m_curChank].buf !in old(memory.live)
      ensures ok ==> Chunks() == old(Chunks())[m_curChank := Chunk(Chunks()[m_curChank].buf, size, 0)]
      ensures ok ==> m_usedMem == old(m_usedMem) + size
      ensures Others(Chunks(), memory.live) == old(Others(Chunks(), memory.live))
    {
      hide Kept, Bytes, HasBlock, Owned, Memory.Valid;
      Facts();
      var buf, allocSize := Malloc(memory, size, size);
      if buf == NULL {
        return false;
      }
      FillKept(Chunks(), m_curChank, m_chankEnd, old(memory.live), blocks, m_usedMem, m_allocMem, m_allocSize,
               Chunk(buf, size, 0));
      m_MemBufChank[m_curChank] := Chunk(buf, size, 0);
      assert Chunks() == old(Chunks())[m_curChank := Chunk(buf, size, 0)];
      m_usedMem := m_usedMem + size;
      ok := true;
    }

    /** Take the next size bytes of the current chunk. */
    method Take(size: nat) returns (buf: Ptr)
      requires Core() && m_curChank < m_chankEnd && Chunks()[m_curChank].buf != NULL
      requires size <= Chunks()[m_curChank].size - Chunks()[m_curChank].used
      requires 0 < m_curChank && !HasBlock(blocks, m_curChank) ==>
                 Bytes(blocks, m_curChank - 1) + size > Chunks()[m_curChank - 1].size
      modifies this`m_allocMem, this`blocks, m_MemBufChank
      ensures Core() && buf != NULL && HasBlock(blocks, m_curChank)
      ensures blocks == old(blocks) + [Block(m_curChank, buf, size)] && m_allocMem == old(m_allocMem) + size
      ensures forall k :: 0 <= k < |Chunks()| && k != m_curChank ==> Chunks()[k] == old(Chunks())[k]
      ensures Others(Chunks(), memory.live) == old(Others(Chunks(), memory.live))
    {
      hide Kept, Bytes, HasBlock, Owned, Memory.Valid;
      Facts();
      TakeKept(Chunks(), m_curChank, m_chankEnd, memory.live, blocks, m_usedMem, m_allocMem, m_allocSize, size);
      var chunk := m_MemBufChank[m_curChank];
      buf := chunk.buf + chunk.used;
      m_MemBufChank[m_curChank] := Taken(chunk, size);
      assert Chunks() == old(Chunks())[m_curChank := Taken(chunk, size)];
      m_allocMem := m_allocMem + size;
      HasPlus(blocks, Block(m_curChank, buf, size), m_curChank);
      blocks := blocks + [Block(m_curChank, buf, size)];
    }

    /** Forget all blocks. The heap gets back every chunk but the first, once. */
    method Free()
      requires Valid()
      modifies this, m_MemBufChank, memory
      ensures Valid() && blocks == [] && m_allocMem == 0 && m_chankEnd == old(m_chankEnd)
      ensures m_MemBufChank != null ==> m_curChank == 0 && Chunks() == Emptied(old(Chunks()))
      ensures Others(Chunks(), memory.live) == old(Others(Chunks(), memory.live))
    {
      hide Sum, Placed, Chunked, Owned;
      if m_MemBufChank == null {
        NoBlocks(Chunks(), blocks);
        return;
      }
      ghost var c := Chunks();
      if m_chankCount > 1 {
        FreeFurther();
      } else {
        assert c[1..] == [] && OnlyFirst(c) == c;
        OwnedBlank(c[1..]);
      }
      assert memory.live == old(memory.live) - Owned(c[1..]);
      m_curChank := 0;
      m_MemBufChank[m_curChank] := m_MemBufChank[m_curChank].(used := 0);
      m_allocMem := 0;
      m_usedMem := m_MemBufChank[m_curChank].size;
      blocks := [];
      assert Chunks() == Emptied(c);
      ResetKept(c, old(m_curChank), m_chankEnd, old(memory.live), old(blocks), old(m_usedMem), old(m_allocMem),
                m_allocSize);
    }

    /** When no more blocks can be handed out and the heap never failed, any two neighbouring chunks have been used
        for more than m_allocSize bytes, and so the buffer for half of its size. */
    lemma UsedUp()
      requires Valid() && Exhausted() && m_chankEnd == m_chankCount > 0
      ensures forall k {:trigger Bytes(blocks, k)} :: 0 <= k < m_chankCount - 1 ==>
                Bytes(blocks, k) + Bytes(blocks, k + 1) > m_allocSize
      ensures 2 * m_allocMem >= (m_chankCount - 1) * m_allocSize
    {
      forall k {:trigger Bytes(blocks, k)} | 0 <= k < m_chankCount - 1
        ensures Bytes(blocks, k) + Bytes(blocks, k + 1) > m_allocSize
      {
        PairsExceed(Chunks(), m_curChank, m_chankEnd, memory.live, blocks, m_usedMem, m_allocMem, m_allocSize, k);
      }
      HalfUsed(Chunks(), m_curChank, m_chankEnd, memory.live, blocks, m_usedMem, m_allocMem, m_allocSize);
    }

    /** The destructor: the heap gets back every chunk. */
    method Destroy()
      requires Valid()
      modifies this, m_MemBufChank, memory
      ensures memory.Valid() && memory.live == old(Others(Chunks(), memory.live))
    {
      if m_MemBufChank == null {
        return;
      }
      Free();
      FirstOwned(Chunks());
      memory.Free(m_MemBufChank[0].buf);
    }

    method FreeFurther()
      requires Core() && m_chankCount > 1
      modifies m_MemBufChank, memory
      ensures memory.Valid()
      ensures Chunks() == OnlyFirst(old(Chunks()))
      ensures memory.live == old(memory.live) - Owned(old(Chunks())[1..])
    {
      hide Sum, Placed, Owned;
      var chunk := 1;
      ghost var c := Chunks();
      OwnedBlank(c[1..1]);
      while chunk <= m_curChank && chunk < m_chankEnd
        invariant 1 <= chunk <= |c| && Chunks() == c
        invariant memory.Valid() && memory.live == old(memory.live) - Owned(c[1..chunk])
      {
        FreeStep(c, chunk);
        memory.Free(m_MemBufChank[chunk].buf);
        chunk := chunk + 1;
      }
      FreedAll(c, chunk, m_curChank, m_chankEnd, old(memory.live));
      forall k | 1 <= k < m_chankCount {
        m_MemBufChank[k] := NO_CHUNK;
      }
      assert Chunks() == OnlyFirst(c);
    }
  }
}
