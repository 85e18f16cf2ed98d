/** What the memory of a region of idf_compat/src/multi_heap.c holds: headers linked
    in list order, and a back pointer for every live allocation. */
module HeapMemory {
  import opened Prelude
  import opened HeapBlocks

  /** A block header in memory; `next` is 0 at the end of the list. */
  datatype Header = Header(next: nat, size: nat, free: bool)

  function NextAt(blocks: seq<Block>, i: nat): nat {
    if i + 1 < |blocks| then blocks[i + 1].at else 0
  }

  ghost predicate HeaderOf(headers: map<nat, Header>, b: Block, next: nat) {
    b.at in headers && headers[b.at] == Header(next, b.size, b.Free())
  }

  /** Following `next` goes through `blocks`. */
  ghost predicate Linked(headers: map<nat, Header>, blocks: seq<Block>) {
    forall i | 0 <= i < |blocks| :: HeaderOf(headers, blocks[i], NextAt(blocks, i))
  }

  ghost predicate AlignedTo(user: nat, alignment: nat) {
    user % Raised(alignment) == 0
  }

  /** The allocation lies in the block, is aligned, and the word before it holds the
      block's address. */
  ghost predicate Placed(b: Block, l: Live, back: map<nat, nat>) {
    && Payload(b) + WORD <= l.user && l.user + l.size <= EndOf(b)
    && AlignedTo(l.user, l.alignment)
    && l.user - WORD in back && back[l.user - WORD] == b.at
  }

  ghost predicate Holds(b: Block, back: map<nat, nat>) {
    b.owner.Some? ==> Placed(b, b.owner.value, back)
  }

  ghost predicate AllHold(blocks: seq<Block>, back: map<nat, nat>) {
    forall i | 0 <= i < |blocks| :: Holds(blocks[i], back)
  }

  // ----- giving a block away

  function TakeHeaders(headers: map<nat, Header>, at: nat, need: nat): map<nat, Header>
    requires at in headers && need <= headers[at].size
  {
    var h := headers[at];
    if h.size - need >= SPLIT_MIN then
      var rest := at + HEADER + need;
      headers[rest := Header(h.next, h.size - need - HEADER, true)][at := Header(rest, need, false)]
    else headers[at := h.(free := false)]
  }

  /** A header written elsewhere leaves this one. */
  lemma HeaderKept(headers: map<nat, Header>, b: Block, next: nat, at: nat, h: Header)
    requires HeaderOf(headers, b, next) && b.at != at
    ensures HeaderOf(headers[at := h], b, next)
  {
  }

  /** Distinct blocks, and the header of a split-off rest, lie at distinct addresses. */
  lemma Apart(blocks: seq<Block>, k: nat, i: nat, start: nat, end: nat)
    requires Tiled(blocks, start, end) && k < |blocks| && i < |blocks| && i != k
    ensures EndOf(blocks[i]) <= blocks[k].at || EndOf(blocks[k]) <= blocks[i].at
    ensures blocks[i].at != blocks[k].at
  {
    if i < k { InOrder(blocks, start, end, i, k); } else { InOrder(blocks, start, end, k, i); }
  }

  /** The header writes of an allocation leave the header of another block. */
  lemma TakeKeepsHeader(headers: map<nat, Header>, b: Block, need: nat, o: Block, next: nat)
    requires b.at in headers && headers[b.at].size == b.size && need <= b.size
    requires HeaderOf(headers, o, next) && (EndOf(o) <= b.at || EndOf(b) <= o.at)
    ensures HeaderOf(TakeHeaders(headers, b.at, need), o, next)
  {
    hide HeaderOf;
    var h := headers[b.at];
    if b.size - need >= SPLIT_MIN {
      var rest := b.at + HEADER + need;
      var r := Header(h.next, h.size - need - HEADER, true);
      HeaderKept(headers, o, next, rest, r);
      HeaderKept(headers[rest := r], o, next, b.at, Header(rest, need, false));
    } else {
      HeaderKept(headers, o, next, b.at, h.(free := false));
    }
  }

  /** Another block keeps its successor. */
  lemma TakeKeepsNext(blocks: seq<Block>, k: nat, need: nat, l: Live, i: nat)
    requires k < |blocks| && need <= blocks[k].size && i < |Take(blocks, k, need, l)|
    requires i < k || i > (if blocks[k].size - need >= SPLIT_MIN then k + 1 else k)
    ensures var j := if i > k && blocks[k].size - need >= SPLIT_MIN then i - 1 else i;
            j < |blocks| && Take(blocks, k, need, l)[i] == blocks[j] && NextAt(Take(blocks, k, need, l), i) == NextAt(blocks, j)
  {
    TakeAt(blocks, k, need, l, i);
    if i + 1 < |Take(blocks, k, need, l)| { TakeAt(blocks, k, need, l, i + 1); }
    hide Take;
  }

  lemma TakeLinkedAt(headers: map<nat, Header>, blocks: seq<Block>, k: nat, need: nat, l: Live, start: nat, end: nat, i: nat)
    requires Linked(headers, blocks) && Tiled(blocks, start, end) && k < |blocks|
    requires need <= blocks[k].size && i < |Take(blocks, k, need, l)|
    requires HeaderOf(headers, blocks[k], NextAt(blocks, k))
    ensures HeaderOf(TakeHeaders(headers, blocks[k].at, need), Take(blocks, k, need, l)[i], NextAt(Take(blocks, k, need, l), i))
  {
    hide Take, Tiled, TakeHeaders;
    if i < k || i > (if blocks[k].size - need >= SPLIT_MIN then k + 1 else k) {
      TakeKeepsNext(blocks, k, need, l, i);
      var j := if i > k && blocks[k].size - need >= SPLIT_MIN then i - 1 else i;
      Apart(blocks, k, j, start, end);
      TakeKeepsHeader(headers, blocks[k], need, blocks[j], NextAt(blocks, j));
    } else {
      TakenHeader(headers, blocks, k, need, l, i);
    }
  }

  lemma TakenHeader(headers: map<nat, Header>, blocks: seq<Block>, k: nat, need: nat, l: Live, i: nat)
    requires k < |blocks| && need <= blocks[k].size && HeaderOf(headers, blocks[k], NextAt(blocks, k))
    requires i == k || (i == k + 1 && blocks[k].size - need >= SPLIT_MIN)
    ensures HeaderOf(TakeHeaders(headers, blocks[k].at, need), Take(blocks, k, need, l)[i], NextAt(Take(blocks, k, need, l), i))
  {
    var r := Take(blocks, k, need, l);
    TakeAt(blocks, k, need, l, i);
    if i + 1 < |r| { TakeAt(blocks, k, need, l, i + 1); }
    TakeAt(blocks, k, need, l, 0);
    hide Take;
  }

  lemma TakeLinked(headers: map<nat, Header>, blocks: seq<Block>, k: nat, need: nat, l: Live, start: nat, end: nat)
    requires Linked(headers, blocks) && Tiled(blocks, start, end) && k < |blocks|
    requires need <= blocks[k].size
    ensures HeaderOf(headers, blocks[k], NextAt(blocks, k))
    ensures Linked(TakeHeaders(headers, blocks[k].at, need), Take(blocks, k, need, l))
  {
    assert HeaderOf(headers, blocks[k], NextAt(blocks, k));
    hide Take, Tiled;
    forall i | 0 <= i < |Take(blocks, k, need, l)|
      ensures HeaderOf(TakeHeaders(headers, blocks[k].at, need), Take(blocks, k, need, l)[i], NextAt(Take(blocks, k, need, l), i))
    {
      TakeLinkedAt(headers, blocks, k, need, l, start, end, i);
    }
  }

  /** A back pointer written inside block `k` is not that of another block. */
  lemma OthersHold(blocks: seq<Block>, k: nat, i: nat, back: map<nat, nat>, word: nat)
    requires k < |blocks| && i < |blocks| && i != k && Holds(blocks[i], back)
    requires EndOf(blocks[i]) <= blocks[k].at || EndOf(blocks[k]) <= blocks[i].at
    requires Payload(blocks[k]) <= word < EndOf(blocks[k])
    ensures Holds(blocks[i], back[word := blocks[k].at])
  {
  }

  lemma TakeHolds(blocks: seq<Block>, k: nat, l: Live, back: map<nat, nat>, start: nat, end: nat)
    requires AllHold(blocks, back) && Tiled(blocks, start, end) && k < |blocks| && blocks[k].Free()
    requires PowerOfTwo(Raised(l.alignment)) && l.user == User(blocks[k], l.alignment)
    requires NeedOf(blocks[k], l.size, l.alignment) <= blocks[k].size
    ensures l.user >= WORD
    ensures AllHold(Take(blocks, k, NeedOf(blocks[k], l.size, l.alignment), l), back[l.user - WORD := blocks[k].at])
  {
    var b, need := blocks[k], NeedOf(blocks[k], l.size, l.alignment);
    PlacedInside(b, l.size, l.alignment);
    var r, back' := Take(blocks, k, need, l), back[l.user - WORD := b.at];
    forall i | 0 <= i < |r| ensures Holds(r[i], back') {
      TakeAt(blocks, k, need, l, i);
      hide Take, Tiled, NeedOf, User, Raised, AlignUp;
      if i != k && r[i].owner.Some? {
        var j := if i > k && b.size - need >= SPLIT_MIN then i - 1 else i;
        Apart(blocks, k, j, start, end);
        OthersHold(blocks, k, j, back, l.user - WORD);
      }
    }
  }

  // ----- taking a block back

  function SetFree(blocks: seq<Block>, k: nat): (r: seq<Block>)
    requires k < |blocks|
    ensures |r| == |blocks|
  {
    blocks[k := blocks[k].(owner := None)]
  }

  lemma FreeTiled(blocks: seq<Block>, k: nat, start: nat, end: nat)
    requires Tiled(blocks, start, end) && k < |blocks|
    ensures Tiled(SetFree(blocks, k), start, end)
  {
    var r := SetFree(blocks, k);
    forall i | 0 <= i < |r| - 1 ensures r[i + 1].at == EndOf(r[i]) {
      assert blocks[i + 1].at == EndOf(blocks[i]);
    }
  }

  lemma {:induction false} FreeSums(blocks: seq<Block>, k: nat)
    requires k < |blocks| && !blocks[k].Free()
    ensures FreeSum(SetFree(blocks, k)) == FreeSum(blocks) + blocks[k].size
    ensures Used(blocks) == Used(blocks[..k]) + [blocks[k]] + Used(blocks[k + 1..])
    ensures Used(SetFree(blocks, k)) == Used(blocks[..k]) + Used(blocks[k + 1..])
  {
    hide FreeSum, Used;
    var r, pre, post := SetFree(blocks, k), blocks[..k], blocks[k + 1..];
    FreeSumAt(pre, [blocks[k]], post);
    FreeSumAt(pre, [r[k]], post);
    assert blocks == pre + [blocks[k]] + post && r == pre + [r[k]] + post;
    UsedAppend(pre + [blocks[k]], post);
    UsedAppend(pre, [blocks[k]]);
    UsedAppend(pre + [r[k]], post);
    UsedAppend(pre, [r[k]]);
    SmallSums(blocks[k]);
    SmallSums(r[k]);
    SmallUsed(blocks[k]);
    SmallUsed(r[k]);
  }

  lemma FreeLinked(headers: map<nat, Header>, blocks: seq<Block>, k: nat, start: nat, end: nat)
    requires Linked(headers, blocks) && Tiled(blocks, start, end) && k < |blocks|
    ensures HeaderOf(headers, blocks[k], NextAt(blocks, k))
    ensures Linked(headers[blocks[k].at := headers[blocks[k].at].(free := true)], SetFree(blocks, k))
  {
    assert HeaderOf(headers, blocks[k], NextAt(blocks, k));
    var r, h := SetFree(blocks, k), headers[blocks[k].at].(free := true);
    forall i | 0 <= i < |r| ensures HeaderOf(headers[blocks[k].at := h], r[i], NextAt(r, i)) {
      hide Tiled;
      if i != k {
        Apart(blocks, k, i, start, end);
        HeaderKept(headers, blocks[i], NextAt(blocks, i), blocks[k].at, h);
      }
    }
  }

  /** Two free neighbours become one block: the header of the second is left behind. */
  function MergeAt(blocks: seq<Block>, i: nat): seq<Block>
    requires i + 1 < |blocks|
  {
    blocks[..i] + [Merge(blocks[i], blocks[i + 1])] + blocks[i + 2..]
  }

  lemma MergedBlockAt(blocks: seq<Block>, i: nat, j: nat)
    requires i + 1 < |blocks| && j + 1 < |blocks|
    ensures |MergeAt(blocks, i)| == |blocks| - 1
    ensures MergeAt(blocks, i)[j] ==
            if j < i then blocks[j] else if j == i then Merge(blocks[i], blocks[i + 1]) else blocks[j + 1]
  {
  }

  lemma MergeTiled(blocks: seq<Block>, i: nat, start: nat, end: nat)
    requires Tiled(blocks, start, end) && i + 1 < |blocks| && blocks[i].Free() && blocks[i + 1].Free()
    ensures Tiled(MergeAt(blocks, i), start, end)
  {
    var r := MergeAt(blocks, i);
    MergedBlockAt(blocks, i, 0);
    MergedBlockAt(blocks, i, |r| - 1);
    assert blocks[i + 1].at == EndOf(blocks[i]);
    hide MergeAt;
    forall j | 0 <= j < |r| ensures r[j].at % 8 == 0 {
      MergedBlockAt(blocks, i, j);
    }
    forall j | 0 <= j < |r| - 1 ensures r[j + 1].at == EndOf(r[j]) {
      MergedBlockAt(blocks, i, j);
      MergedBlockAt(blocks, i, j + 1);
      var p := if j < i then j else j + 1;
      assert blocks[p + 1].at == EndOf(blocks[p]);
    }
  }

  lemma MergeLinked(headers: map<nat, Header>, blocks: seq<Block>, i: nat, start: nat, end: nat)
    requires Linked(headers, blocks) && Tiled(blocks, start, end)
    requires i + 1 < |blocks| && blocks[i].Free() && blocks[i + 1].Free()
    ensures HeaderOf(headers, blocks[i], blocks[i + 1].at) && HeaderOf(headers, blocks[i + 1], NextAt(blocks, i + 1))
    ensures Linked(headers[blocks[i].at := Header(headers[blocks[i + 1].at].next, Merge(blocks[i], blocks[i + 1]).size, true)],
                   MergeAt(blocks, i))
  {
    assert HeaderOf(headers, blocks[i], NextAt(blocks, i)) && HeaderOf(headers, blocks[i + 1], NextAt(blocks, i + 1));
    var r := MergeAt(blocks, i);
    var h := Header(headers[blocks[i + 1].at].next, Merge(blocks[i], blocks[i + 1]).size, true);
    forall j | 0 <= j < |r| ensures HeaderOf(headers[blocks[i].at := h], r[j], NextAt(r, j)) {
      MergedBlockAt(blocks, i, j);
      if j + 1 < |r| { MergedBlockAt(blocks, i, j + 1); }
      hide MergeAt, Tiled;
      if j != i {
        var p := if j < i then j else j + 1;
        Apart(blocks, i, p, start, end);
        HeaderKept(headers, blocks[p], NextAt(blocks, p), blocks[i].at, h);
      }
    }
  }

  lemma MergeHolds(blocks: seq<Block>, i: nat, back: map<nat, nat>)
    requires AllHold(blocks, back) && i + 1 < |blocks|
    ensures AllHold(MergeAt(blocks, i), back)
  {
    var r := MergeAt(blocks, i);
    forall j | 0 <= j < |r| ensures Holds(r[j], back) {
      MergedBlockAt(blocks, i, j);
    }
  }

  lemma MergeSum(blocks: seq<Block>, i: nat)
    requires i + 1 < |blocks| && blocks[i].Free() && blocks[i + 1].Free()
    ensures FreeSum(MergeAt(blocks, i)) == FreeSum(blocks) + HEADER
  {
    hide FreeSum;
    var a, b, m := blocks[i], blocks[i + 1], Merge(blocks[i], blocks[i + 1]);
    FreeSumAt(blocks[..i], [m], blocks[i + 2..]);
    FreeSumAt(blocks[..i], [a, b], blocks[i + 2..]);
    assert blocks == blocks[..i] + [a, b] + blocks[i + 2..];
    SumsAppend([a], [b]);
    assert [a] + [b] == [a, b];
    SmallSums(a);
    SmallSums(b);
    SmallSums(m);
  }

  /** The walk has done the blocks before `i` and goes on from there. */
  lemma CoalesceStep(blocks: seq<Block>, i: nat)
    requires i < |blocks|
    ensures i + 1 < |blocks| && blocks[i].Free() && blocks[i + 1].Free() ==>
              Coalesce(blocks[i..]) == Coalesce(MergeAt(blocks, i)[i..])
              && MergeAt(blocks, i)[..i] == blocks[..i]
    ensures !(i + 1 < |blocks| && blocks[i].Free() && blocks[i + 1].Free()) ==>
              blocks[..i] + Coalesce(blocks[i..]) == blocks[..i + 1] + Coalesce(blocks[i + 1..])
  {
    var t := blocks[i..];
    if i + 1 < |blocks| {
      assert t[1..] == blocks[i + 1..] && t[2..] == blocks[i + 2..];
      if blocks[i].Free() && blocks[i + 1].Free() {
        assert MergeAt(blocks, i)[i..] == [Merge(t[0], t[1])] + t[2..];
      } else {
        assert Coalesce(t) == [blocks[i]] + Coalesce(blocks[i + 1..]);
      }
    } else {
      assert t == [blocks[i]] && blocks[i + 1..] == [];
      assert Coalesce([]) == [];
    }
  }

  // ----- the whole region

  /** The memory of a region describes `blocks`, and its free byte count is right. */
  ghost predicate Region(headers: map<nat, Header>, back: map<nat, nat>, blocks: seq<Block>, freeBytes: nat, first: nat, end: nat) {
    && first > 0 && Tiled(blocks, first, end)
    && Linked(headers, blocks) && AllHold(blocks, back)
    && freeBytes == FreeSum(blocks)
  }

  /** What the code reads at block `i`. */
  lemma RegionAt(headers: map<nat, Header>, back: map<nat, nat>, blocks: seq<Block>, freeBytes: nat, first: nat, end: nat, i: nat)
    requires Region(headers, back, blocks, freeBytes, first, end)
    ensures |blocks| > 0 && blocks[0].at == first
    ensures i < |blocks| ==>
              && blocks[i].at > 0 && blocks[i].at in headers
              && headers[blocks[i].at] == Header(NextAt(blocks, i), blocks[i].size, blocks[i].Free())
    ensures i + 1 < |blocks| ==> blocks[i + 1].at > 0
  {
    if i < |blocks| { assert HeaderOf(headers, blocks[i], NextAt(blocks, i)); }
    if 0 < i < |blocks| { InOrder(blocks, first, end, 0, i); }
    if i + 1 < |blocks| { InOrder(blocks, first, end, i, i + 1); }
  }

  /** The address given out leads back to its block. */
  lemma RegionUser(headers: map<nat, Header>, back: map<nat, nat>, blocks: seq<Block>, freeBytes: nat, first: nat, end: nat, k: nat)
    requires Region(headers, back, blocks, freeBytes, first, end) && k < |blocks| && blocks[k].owner.Some?
    ensures Placed(blocks[k], blocks[k].owner.value, back)
  {
    assert Holds(blocks[k], back);
  }

  lemma TakeRegion(headers: map<nat, Header>, back: map<nat, nat>, blocks: seq<Block>, freeBytes: nat, first: nat, end: nat, k: nat, l: Live)
    requires Region(headers, back, blocks, freeBytes, first, end) && Merged(blocks)
    requires k < |blocks| && blocks[k].Free() && PowerOfTwo(Raised(l.alignment)) && l.user == User(blocks[k], l.alignment)
    requires NeedOf(blocks[k], l.size, l.alignment) <= blocks[k].size
    ensures blocks[k].at in headers && headers[blocks[k].at].size == blocks[k].size && l.user >= WORD
    ensures var need, size := NeedOf(blocks[k], l.size, l.alignment), blocks[k].size;
            var used := if size - need >= SPLIT_MIN then need + HEADER else size;
            && used <= freeBytes && Merged(Take(blocks, k, need, l))
            && Region(TakeHeaders(headers, blocks[k].at, need), back[l.user - WORD := blocks[k].at],
                      Take(blocks, k, need, l), freeBytes - used, first, end)
  {
    var need := NeedOf(blocks[k], l.size, l.alignment);
    RegionAt(headers, back, blocks, freeBytes, first, end, k);
    hide Tiled, Linked, AllHold, FreeSum, Take, TakeHeaders, NeedOf, User, PowerOfTwo, AlignUp;
    AtWord(blocks, first, end, k);
    PlacedInside(blocks[k], l.size, l.alignment);
    TakeTiled(blocks, k, need, l, first, end);
    TakeFreeSum(blocks, k, need, l);
    TakeLinked(headers, blocks, k, need, l, first, end);
    TakeHolds(blocks, k, l, back, first, end);
  }

  lemma AtWord(blocks: seq<Block>, first: nat, end: nat, k: nat)
    requires Tiled(blocks, first, end) && k < |blocks|
    ensures blocks[k].at % 8 == 0
  {
  }

  lemma FreeRegion(headers: map<nat, Header>, back: map<nat, nat>, blocks: seq<Block>, freeBytes: nat, first: nat, end: nat, k: nat)
    requires Region(headers, back, blocks, freeBytes, first, end) && k < |blocks| && blocks[k].owner.Some?
    ensures blocks[k].at in headers && headers[blocks[k].at].size == blocks[k].size
    ensures Region(headers[blocks[k].at := headers[blocks[k].at].(free := true)], back, SetFree(blocks, k),
                   freeBytes + blocks[k].size, first, end)
  {
    FreeTiled(blocks, k, first, end);
    FreeSums(blocks, k);
    FreeLinked(headers, blocks, k, first, end);
    FreeHolds(blocks, k, back);
    hide Tiled, Linked, AllHold, FreeSum, SetFree;
  }

  lemma FreeHolds(blocks: seq<Block>, k: nat, back: map<nat, nat>)
    requires AllHold(blocks, back) && k < |blocks|
    ensures AllHold(SetFree(blocks, k), back)
  {
  }

  lemma MergeRegion(headers: map<nat, Header>, back: map<nat, nat>, blocks: seq<Block>, freeBytes: nat, first: nat, end: nat, i: nat)
    requires Region(headers, back, blocks, freeBytes, first, end)
    requires i + 1 < |blocks| && blocks[i].Free() && blocks[i + 1].Free()
    ensures blocks[i + 1].at in headers
    ensures Region(headers[blocks[i].at := Header(headers[blocks[i + 1].at].next, Merge(blocks[i], blocks[i + 1]).size, true)],
                   back, MergeAt(blocks, i), freeBytes + HEADER, first, end)
  {
    MergeLinked(headers, blocks, i, first, end);
    MergeTiled(blocks, i, first, end);
    MergeHolds(blocks, i, back);
    MergeSum(blocks, i);
    hide Tiled, Linked, AllHold, FreeSum, MergeAt;
  }

  // ----- what the invariants mean for the bytes

  /** The allocation and the word in front of it miss the header of a block. */
  ghost predicate MissesHeader(l: Live, b: Block) {
    l.user + l.size <= b.at || Payload(b) + WORD <= l.user
  }

  /** Two allocations, each with the word in front of it, do not overlap. */
  ghost predicate Separate(l: Live, m: Live) {
    l.user + l.size + WORD <= m.user || m.user + m.size + WORD <= l.user
  }

  /** Live allocations, the words in front of them and all headers are disjoint. */
  lemma NothingOverlaps(headers: map<nat, Header>, back: map<nat, nat>, blocks: seq<Block>, freeBytes: nat, first: nat, end: nat,
                        i: nat, j: nat)
    requires Region(headers, back, blocks, freeBytes, first, end)
    requires i < |blocks| && j < |blocks| && blocks[i].owner.Some?
    ensures Placed(blocks[i], blocks[i].owner.value, back) && MissesHeader(blocks[i].owner.value, blocks[j])
    ensures i != j && blocks[j].owner.Some? ==> Separate(blocks[i].owner.value, blocks[j].owner.value)
  {
    hide Linked, Tiled, FreeSum, AlignedTo;
    if i != j { Apart(blocks, i, j, first, end); }
    assert Holds(blocks[i], back) && Holds(blocks[j], back);
  }
}
