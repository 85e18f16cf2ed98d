/** The blocks of a region of idf_compat/src/multi_heap.c. */
module HeapBlocks {
  // As values: tiling, first fit, splitting and merging, and the sums that stay the same. Sizes are
  // those of a 64-bit host: pointers of eight bytes and a header of three words.

  import opened Prelude

  /** `sizeof(void *)`, the block header and the smallest block worth splitting off. */
  const WORD: nat := 8
  const HEADER: nat := 24
  const SPLIT_MIN: nat := 56

  /** What an allocation was asked for, and the address given out. */
  datatype Live = Live(user: nat, size: nat, alignment: nat)

  /** A block of the list; a used one belongs to a live allocation. */
  datatype Block = Block(at: nat, size: nat, owner: Option<Live>) {
    predicate Free() {
      owner.None?
    }
  }

  /** For a power of two, rounding up with a mask is rounding up by division. */
  function AlignUp(v: nat, a: nat): nat
    requires a > 0
  {
    (v + (a - 1)) / a * a
  }

  predicate PowerOfTwo(a: nat) {
    a == 1 || (a > 1 && a % 2 == 0 && PowerOfTwo(a / 2))
  }

  lemma AlignUpBounds(v: nat, a: nat)
    requires a > 0
    ensures v <= AlignUp(v, a) < v + a && AlignUp(v, a) % a == 0
  {
    var q, r := (v + (a - 1)) / a, (v + (a - 1)) % a;
    assert v + (a - 1) == q * a + r;
    DivUnique(q * a, a, q, 0);
  }

  lemma {:induction false} SmallPowers(a: nat)
    requires PowerOfTwo(a)
    ensures 2 <= a < 4 ==> a == 2
    ensures 4 <= a < 8 ==> a == 4
    ensures 8 <= a < 16 ==> a == 8
  {
    if a >= 2 {
      var h := a / 2;
      assert a == 2 * h;
      SmallPowers(h);
    }
  }

  lemma TwiceWords(h: nat)
    requires h % 8 == 0
    ensures 2 * h % 8 == 0
  {
  }

  /** A power of two of at least a word is a multiple of a word. */
  lemma {:induction false} PowerOfTwoWords(a: nat)
    requires PowerOfTwo(a) && a >= 8
    ensures a % 8 == 0
  {
    if a >= 16 {
      var h := a / 2;
      assert a == 2 * h && PowerOfTwo(h);
      PowerOfTwoWords(h);
      TwiceWords(h);
    } else {
      SmallPowers(a);
    }
  }

  lemma MultipleOfWord(v: nat, a: nat)
    requires a > 0 && v % a == 0 && a % 8 == 0
    ensures v % 8 == 0
  {
    var q, m := v / a, a / 8;
    assert v == q * a && a == 8 * m;
    assert v == 8 * (q * m);
  }

  // ----- placing a request in a block

  function Payload(b: Block): nat {
    b.at + HEADER
  }

  function EndOf(b: Block): nat {
    b.at + HEADER + b.size
  }

  function Raised(alignment: nat): (a: nat)
    ensures a >= 8
  {
    if alignment < WORD then WORD else alignment
  }

  /** The address returned: one word is left in front of it. */
  function User(b: Block, alignment: nat): nat {
    AlignUp(Payload(b) + WORD, Raised(alignment))
  }

  function NeedOf(b: Block, size: nat, alignment: nat): (n: nat)
    ensures n == User(b, alignment) - Payload(b) + AlignUp(size, 8)
    ensures n >= 8
  {
    AlignUpBounds(Payload(b) + WORD, Raised(alignment));
    User(b, alignment) - Payload(b) + AlignUp(size, 8)
  }

  /** The block is free and can hold the request, aligned. */
  predicate Suits(b: Block, size: nat, alignment: nat) {
    b.Free() && NeedOf(b, size, alignment) <= b.size
  }

  /** Address `p` in the block is aligned, leaves a word behind the header, and the request rounded
      up to words ends inside the block. */
  predicate Room(b: Block, size: nat, alignment: nat, p: nat) {
    && p % Raised(alignment) == 0
    && Payload(b) + WORD <= p
    && p + AlignUp(size, 8) <= EndOf(b)
  }

  /** No multiple of `a` from `v` on is smaller. */
  lemma AlignUpLeast(v: nat, a: nat, w: nat)
    requires a > 0 && w % a == 0 && w >= v
    ensures w >= AlignUp(v, a)
  {
    var q, u := w / a, (v + (a - 1)) / a;
    AlignUpBounds(v, a);
    Quotient(w, a);
    LeastMultiple(q, u, a, v);
  }

  lemma Quotient(w: nat, a: nat)
    requires a > 0 && w % a == 0
    ensures w == w / a * a
  {
  }

  lemma LeastMultiple(q: nat, u: nat, a: nat, v: nat)
    requires u * a < v + a && v <= q * a
    ensures u * a <= q * a
  {
    if u > q { NextMultiple(q, u, a); }
  }

  lemma NextMultiple(q: nat, u: nat, a: nat)
    requires u > q
    ensures u * a >= q * a + a
  {
    assert u * a == q * a + (u - q) * a;
    MulAtLeast(u - q, a);
  }

  /** A free block suits a request exactly if there is room in it, and the address given is the
      least there is room at. */
  lemma SuitsIsRoom(b: Block, size: nat, alignment: nat)
    requires b.Free()
    ensures Suits(b, size, alignment) <==> exists p: nat :: Room(b, size, alignment, p)
    ensures Suits(b, size, alignment) ==> Room(b, size, alignment, User(b, alignment))
    ensures forall p: nat | Room(b, size, alignment, p) :: User(b, alignment) <= p
  {
    hide AlignUp, Raised;
    AlignUpBounds(Payload(b) + WORD, Raised(alignment));
    forall p: nat | Room(b, size, alignment, p)
      ensures User(b, alignment) <= p && Suits(b, size, alignment)
    {
      AlignUpLeast(Payload(b) + WORD, Raised(alignment), p);
    }
    if Suits(b, size, alignment) { assert Room(b, size, alignment, User(b, alignment)); }
  }

  lemma RaisedWords(alignment: nat)
    requires PowerOfTwo(Raised(alignment))
    ensures Raised(alignment) % 8 == 0
  {
    PowerOfTwoWords(Raised(alignment));
  }

  lemma UserBounds(b: Block, alignment: nat)
    requires PowerOfTwo(Raised(alignment))
    ensures Payload(b) + WORD <= User(b, alignment)
    ensures User(b, alignment) % Raised(alignment) == 0 && User(b, alignment) % 8 == 0
  {
    hide AlignUp, PowerOfTwo, Raised;
    AlignUpBounds(Payload(b) + WORD, Raised(alignment));
    RaisedWords(alignment);
    MultipleOfWord(User(b, alignment), Raised(alignment));
  }

  lemma WordsAdd(u: nat, p: nat, v: nat)
    requires u >= p && u % 8 == 0 && p % 8 == 0 && v % 8 == 0
    ensures (u - p + v) % 8 == 0
  {
  }

  lemma PlacedInside(b: Block, size: nat, alignment: nat)
    requires PowerOfTwo(Raised(alignment)) && b.at % 8 == 0
    ensures var user, need := User(b, alignment), NeedOf(b, size, alignment);
            && Payload(b) + WORD <= user && user + size <= Payload(b) + need
            && user % Raised(alignment) == 0 && need % 8 == 0
  {
    hide AlignUp, PowerOfTwo, Raised, User;
    UserBounds(b, alignment);
    AlignUpBounds(size, 8);
    WordsAdd(User(b, alignment), Payload(b), AlignUp(size, 8));
  }

  // ----- lists of blocks

  /** The blocks follow one another from `start` to `end`, at word addresses. */
  ghost predicate Tiled(blocks: seq<Block>, start: nat, end: nat) {
    && |blocks| > 0 && blocks[0].at == start && EndOf(blocks[|blocks| - 1]) == end
    && (forall i | 0 <= i < |blocks| :: blocks[i].at % 8 == 0)
    && (forall i | 0 <= i < |blocks| - 1 :: blocks[i + 1].at == EndOf(blocks[i]))
  }

  /** No two neighbours are both free. */
  ghost predicate Merged(blocks: seq<Block>) {
    forall i | 0 <= i < |blocks| - 1 :: !(blocks[i].Free() && blocks[i + 1].Free())
  }

  function FreeSum(blocks: seq<Block>): nat {
    if blocks == [] then 0 else (if blocks[0].Free() then blocks[0].size else 0) + FreeSum(blocks[1..])
  }

  function UsedSum(blocks: seq<Block>): nat {
    if blocks == [] then 0 else (if blocks[0].Free() then 0 else blocks[0].size) + UsedSum(blocks[1..])
  }

  lemma {:induction false} SumsAppend(a: seq<Block>, b: seq<Block>)
    ensures FreeSum(a + b) == FreeSum(a) + FreeSum(b) && UsedSum(a + b) == UsedSum(a) + UsedSum(b)
  {
    if a == [] {
      assert a + b == b;
    } else {
      assert (a + b)[1..] == a[1..] + b;
      SumsAppend(a[1..], b);
    }
  }

  /** Free bytes, used bytes and headers always fill the region. */
  lemma {:induction false} BytesConserved(blocks: seq<Block>, start: nat, end: nat)
    requires Tiled(blocks, start, end)
    ensures FreeSum(blocks) + UsedSum(blocks) + HEADER * |blocks| == end - start
  {
    if |blocks| > 1 {
      var tail := blocks[1..];
      assert Tiled(tail, tail[0].at, end) by {
        forall i | 0 <= i < |tail| - 1 ensures tail[i + 1].at == EndOf(tail[i]) {
          assert blocks[i + 1 + 1].at == EndOf(blocks[i + 1]);
        }
      }
      BytesConserved(tail, tail[0].at, end);
      assert blocks[0 + 1].at == EndOf(blocks[0]);
    } else {
      assert blocks[1..] == [];
    }
  }

  /** Later blocks lie at higher addresses. */
  lemma {:induction false} InOrder(blocks: seq<Block>, start: nat, end: nat, i: nat, j: nat)
    requires Tiled(blocks, start, end) && i < j < |blocks|
    ensures EndOf(blocks[i]) <= blocks[j].at
    decreases j - i
  {
    assert blocks[j - 1 + 1].at == EndOf(blocks[j - 1]);
    if i < j - 1 { InOrder(blocks, start, end, i, j - 1); }
  }

  // ----- allocation

  /** Block `k` is given away, and split if the rest is worth it. */
  function Take(blocks: seq<Block>, k: nat, need: nat, l: Live): (r: seq<Block>)
    requires k < |blocks| && need <= blocks[k].size
  {
    var b := blocks[k];
    if b.size - need >= SPLIT_MIN then
      blocks[..k] + [Block(b.at, need, Some(l)), Block(b.at + HEADER + need, b.size - need - HEADER, None)] + blocks[k + 1..]
    else blocks[k := Block(b.at, b.size, Some(l))]
  }

  /** The block given away ends less than `SPLIT_MIN` behind what was needed; the blocks in front and
      behind stay as they are, and what was split off is one free block. */
  lemma TakeIsTight(blocks: seq<Block>, k: nat, need: nat, l: Live)
    requires k < |blocks| && need <= blocks[k].size
    ensures var r, b, more := Take(blocks, k, need, l), blocks[k], |blocks| - (k + 1);
            && k < |r| && more < |r| && r[k].at == b.at && r[k].owner == Some(l)
            && need <= r[k].size < need + SPLIT_MIN
            && r[..k] == blocks[..k] && r[|r| - more..] == blocks[k + 1..]
            && (if r[k].size == b.size then |r| == |blocks| else |r| == |blocks| + 1 && r[k].size == need)
            && (r[k].size != b.size ==>
                 r[k + 1] == Block(EndOf(r[k]), EndOf(b) - EndOf(r[k]) - HEADER, None) && r[k + 1].size >= SPLIT_MIN - HEADER)
  {
  }

  lemma FreeSumAt(pre: seq<Block>, mid: seq<Block>, post: seq<Block>)
    ensures FreeSum(pre + mid + post) == FreeSum(pre) + FreeSum(mid) + FreeSum(post)
  {
    SumsAppend(pre + mid, post);
    SumsAppend(pre, mid);
  }

  /** Splitting costs a header; not splitting gives the whole block away. */
  lemma TakeFreeSum(blocks: seq<Block>, k: nat, need: nat, l: Live)
    requires k < |blocks| && blocks[k].Free() && need <= blocks[k].size
    ensures FreeSum(Take(blocks, k, need, l)) ==
            FreeSum(blocks) - (if blocks[k].size - need >= SPLIT_MIN then need + HEADER else blocks[k].size)
  {
    hide FreeSum;
    var b, r := blocks[k], Take(blocks, k, need, l);
    var pre, post := blocks[..k], blocks[k + 1..];
    FreeSumAt(pre, [b], post);
    assert blocks == pre + [b] + post;
    SmallSums(b);
    if b.size - need >= SPLIT_MIN {
      var x, y := Block(b.at, need, Some(l)), Block(b.at + HEADER + need, b.size - need - HEADER, None);
      FreeSumAt(pre, [x, y], post);
      SmallSums(x);
      SmallSums(y);
      SumsAppend([x], [y]);
      assert [x] + [y] == [x, y];
    } else {
      var x := Block(b.at, b.size, Some(l));
      FreeSumAt(pre, [x], post);
      SmallSums(x);
      assert r == pre + [x] + post;
    }
  }

  lemma SmallSums(b: Block)
    ensures FreeSum([b]) == if b.Free() then b.size else 0
  {
  }

  lemma TakeTiled(blocks: seq<Block>, k: nat, need: nat, l: Live, start: nat, end: nat)
    requires Tiled(blocks, start, end) && Merged(blocks) && k < |blocks| && blocks[k].Free()
    requires need <= blocks[k].size && need % 8 == 0
    ensures Tiled(Take(blocks, k, need, l), start, end) && Merged(Take(blocks, k, need, l))
  {
    var b, r := blocks[k], Take(blocks, k, need, l);
    if b.size - need >= SPLIT_MIN {
      SplitTiled(blocks, k, need, l, start, end);
    } else {
      forall i | 0 <= i < |r| - 1 ensures r[i + 1].at == EndOf(r[i]) && !(r[i].Free() && r[i + 1].Free()) {
        assert blocks[i + 1].at == EndOf(blocks[i]);
      }
    }
  }

  /** Where the blocks are after one was given away. */
  lemma TakeAt(blocks: seq<Block>, k: nat, need: nat, l: Live, i: nat)
    requires k < |blocks| && need <= blocks[k].size && i < |Take(blocks, k, need, l)|
    ensures var b, r, split := blocks[k], Take(blocks, k, need, l), blocks[k].size - need >= SPLIT_MIN;
            && |r| == |blocks| + (if split then 1 else 0)
            && r[i] == if i < k then blocks[i]
                       else if i == k then Block(b.at, if split then need else b.size, Some(l))
                       else if !split then blocks[i]
                       else if i == k + 1 then Block(b.at + HEADER + need, b.size - need - HEADER, None)
                       else blocks[i - 1]
  {
  }

  lemma SplitTiled(blocks: seq<Block>, k: nat, need: nat, l: Live, start: nat, end: nat)
    requires Tiled(blocks, start, end) && Merged(blocks) && k < |blocks| && blocks[k].Free()
    requires need + SPLIT_MIN <= blocks[k].size && need % 8 == 0
    ensures Tiled(Take(blocks, k, need, l), start, end) && Merged(Take(blocks, k, need, l))
  {
    var r := Take(blocks, k, need, l);
    TakeAt(blocks, k, need, l, 0);
    TakeAt(blocks, k, need, l, |r| - 1);
    hide Take;
    forall i | 0 <= i < |r| ensures r[i].at % 8 == 0 {
      TakeAt(blocks, k, need, l, i);
    }
    forall i | 0 <= i < |r| - 1 ensures r[i + 1].at == EndOf(r[i]) && !(r[i].Free() && r[i + 1].Free()) {
      TakeAt(blocks, k, need, l, i);
      TakeAt(blocks, k, need, l, i + 1);
      if i < k {
        assert blocks[i + 1].at == EndOf(blocks[i]);
      } else if i > k {
        assert blocks[i - 1 + 1].at == EndOf(blocks[i - 1]);
      }
    }
  }

  // ----- release

  function Merge(a: Block, b: Block): Block {
    Block(a.at, a.size + HEADER + b.size, None)
  }

  /** The merging walk of `multi_heap_free`: a free block swallows free successors. */
  function Coalesce(blocks: seq<Block>): (r: seq<Block>)
    ensures blocks != [] ==> r != []
    decreases |blocks|
  {
    if |blocks| < 2 then blocks
    else if blocks[0].Free() && blocks[1].Free() then Coalesce([Merge(blocks[0], blocks[1])] + blocks[2..])
    else [blocks[0]] + Coalesce(blocks[1..])
  }

  lemma TiledTail(blocks: seq<Block>, start: nat, end: nat)
    requires Tiled(blocks, start, end) && |blocks| >= 2
    ensures Tiled(blocks[1..], EndOf(blocks[0]), end)
  {
    var tail := blocks[1..];
    assert blocks[0 + 1].at == EndOf(blocks[0]);
    forall i | 0 <= i < |tail| - 1 ensures tail[i + 1].at == EndOf(tail[i]) {
      assert blocks[i + 1 + 1].at == EndOf(blocks[i + 1]);
    }
  }

  lemma TiledMerge(blocks: seq<Block>, start: nat, end: nat)
    requires Tiled(blocks, start, end) && |blocks| >= 2 && blocks[0].Free() && blocks[1].Free()
    ensures Tiled([Merge(blocks[0], blocks[1])] + blocks[2..], start, end)
  {
    var r := [Merge(blocks[0], blocks[1])] + blocks[2..];
    assert blocks[0 + 1].at == EndOf(blocks[0]);
    forall i | 0 <= i < |r| - 1 ensures r[i + 1].at == EndOf(r[i]) {
      assert r[i + 1] == blocks[i + 2];
      assert blocks[i + 1 + 1].at == EndOf(blocks[i + 1]);
    }
  }

  /** Merging keeps the tiling and leaves no free neighbours. */
  lemma {:induction false} CoalesceTiled(blocks: seq<Block>, start: nat, end: nat)
    requires Tiled(blocks, start, end)
    ensures Tiled(Coalesce(blocks), start, end) && Merged(Coalesce(blocks))
    ensures Coalesce(blocks)[0].Free() == blocks[0].Free()
    decreases |blocks|
  {
    if |blocks| >= 2 {
      var a, b := blocks[0], blocks[1];
      if a.Free() && b.Free() {
        TiledMerge(blocks, start, end);
        CoalesceTiled([Merge(a, b)] + blocks[2..], start, end);
      } else {
        TiledTail(blocks, start, end);
        CoalesceTiled(blocks[1..], EndOf(a), end);
        TiledCons(a, Coalesce(blocks[1..]), end);
      }
    }
  }

  lemma TiledCons(a: Block, tail: seq<Block>, end: nat)
    requires Tiled(tail, EndOf(a), end) && Merged(tail) && a.at % 8 == 0 && !(a.Free() && tail[0].Free())
    ensures Tiled([a] + tail, a.at, end) && Merged([a] + tail)
  {
    var r := [a] + tail;
    forall i | 0 <= i < |r| - 1 ensures r[i + 1].at == EndOf(r[i]) && !(r[i].Free() && r[i + 1].Free()) {
      if i > 0 {
        assert r[i] == tail[i - 1] && r[i + 1] == tail[i - 1 + 1];
      }
    }
  }

  /** The used blocks, in order. */
  function Used(blocks: seq<Block>): seq<Block> {
    if blocks == [] then [] else (if blocks[0].Free() then [] else [blocks[0]]) + Used(blocks[1..])
  }

  lemma SmallUsed(b: Block)
    ensures Used([b]) == if b.Free() then [] else [b]
  {
  }

  lemma {:induction false} UsedAppend(a: seq<Block>, b: seq<Block>)
    ensures Used(a + b) == Used(a) + Used(b)
  {
    if a == [] {
      assert a + b == b;
    } else {
      assert (a + b)[1..] == a[1..] + b;
      UsedAppend(a[1..], b);
    }
  }

  /** Merging leaves the used blocks as they are. */
  lemma {:induction false} CoalesceUsed(blocks: seq<Block>)
    ensures Used(Coalesce(blocks)) == Used(blocks)
    decreases |blocks|
  {
    if |blocks| >= 2 {
      var a, b := blocks[0], blocks[1];
      if a.Free() && b.Free() {
        var next := [Merge(a, b)] + blocks[2..];
        CoalesceUsed(next);
        assert next[1..] == blocks[2..] && blocks[1..][1..] == blocks[2..];
      } else {
        CoalesceUsed(blocks[1..]);
        assert Coalesce(blocks)[1..] == Coalesce(blocks[1..]);
      }
    }
  }

  lemma SomeUsed(blocks: seq<Block>)
    requires Merged(blocks) && |blocks| >= 2
    ensures exists i :: 0 <= i < |blocks| && !blocks[i].Free()
  {
    assert !(blocks[0].Free() && blocks[0 + 1].Free());
  }

  /** With nothing used there is one block, of the size the region began with. */
  lemma AllFreeIsOne(blocks: seq<Block>, start: nat, end: nat)
    requires Tiled(blocks, start, end) && Merged(blocks)
    requires forall i | 0 <= i < |blocks| :: blocks[i].Free()
    ensures |blocks| == 1 && blocks[0].size == end - start - HEADER
  {
    if |blocks| >= 2 { SomeUsed(blocks); }
  }
}
