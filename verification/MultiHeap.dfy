/** The region allocator of idf_compat/src/multi_heap.c, working on its memory. */
module MultiHeap {
  import opened Prelude
  import opened HeapBlocks
  import opened HeapMemory

  /** `struct multi_heap_info` takes as much as a block header. */
  const INFO_SIZE: nat := 24

  datatype Info = Info(
    totalFree: nat, minimumFree: nat, largestFree: nat, totalAllocated: nat,
    totalBlocks: nat, freeBlocks: nat, allocatedBlocks: nat)

  function LargestFree(blocks: seq<Block>): nat {
    if blocks == [] then 0
    else
      var rest, b := LargestFree(blocks[1..]), blocks[0];
      if b.Free() && b.size > rest then b.size else rest
  }

  /** No free block is larger, and one is that large unless none is free. */
  lemma {:induction false} LargestFreeIsLargest(blocks: seq<Block>)
    ensures forall i | 0 <= i < |blocks| && blocks[i].Free() :: blocks[i].size <= LargestFree(blocks)
    ensures LargestFree(blocks) > 0 ==>
              exists i | 0 <= i < |blocks| :: blocks[i].Free() && blocks[i].size == LargestFree(blocks)
  {
    if blocks != [] {
      LargestFreeIsLargest(blocks[1..]);
      forall i | 0 <= i < |blocks| && blocks[i].Free() ensures blocks[i].size <= LargestFree(blocks) {
        if i > 0 { assert blocks[i] == blocks[1..][i - 1]; }
      }
      if LargestFree(blocks) > 0 && !(blocks[0].Free() && blocks[0].size > LargestFree(blocks[1..])) {
        var i :| 0 <= i < |blocks[1..]| && blocks[1..][i].Free() && blocks[1..][i].size == LargestFree(blocks[1..]);
        assert blocks[i + 1] == blocks[1..][i];
      }
    }
  }

  ghost predicate LeastOf(least: nat, all: seq<nat>) {
    least in all && forall i | 0 <= i < |all| :: least <= all[i]
  }

  class Heap {
    const first: nat
    const end: nat
    var headers: map<nat, Header>
    var back: map<nat, nat>
    var freeBytes: nat
    var minimumFreeBytes: nat
    /** The blocks in list order with their live allocations, and the free bytes there
        were at registration and after each call since. */
    ghost var blocks: seq<Block>
    ghost var history: seq<nat>

    ghost predicate Valid()
      reads this
    {
      && Region(headers, back, blocks, freeBytes, first, end) && Merged(blocks)
      && |history| > 0 && history[|history| - 1] == freeBytes && LeastOf(minimumFreeBytes, history)
    }

    /** `multi_heap_register` once the region is known to be large enough. */
    constructor (at: nat, end: nat)
      requires at > 0 && at % 8 == 0 && at + HEADER <= end
      ensures Valid() && first == at && this.end == end
      ensures blocks == [Block(at, end - at - HEADER, None)] && history == [end - at - HEADER] && freeBytes == end - at - HEADER
    {
      first := at;
      this.end := end;
      headers := map[at := Header(0, end - at - HEADER, true)];
      back := map[];
      freeBytes := end - at - HEADER;
      minimumFreeBytes := end - at - HEADER;
      blocks := [Block(at, end - at - HEADER, None)];
      history := [end - at - HEADER];
      new;
      SmallSums(blocks[0]);
      assert minimumFreeBytes in history;
    }

    /** Walks the list for the first free block that can hold the request; 0 is the end
        of the list. */
    method FirstFit(size: nat, alignment: nat) returns (block: nat, user: nat, need: nat, ghost k: nat)
      requires Valid()
      ensures block == 0 <==> forall i, q: nat | 0 <= i < |blocks| && blocks[i].Free() :: !Room(blocks[i], size, alignment, q)
      ensures block != 0 ==>
                && k < |blocks| && blocks[k].at == block && blocks[k].Free()
                && Room(blocks[k], size, alignment, user) && (forall q: nat | Room(blocks[k], size, alignment, q) :: user <= q)
                && (forall i, q: nat | 0 <= i < k && blocks[i].Free() :: !Room(blocks[i], size, alignment, q))
                && user == User(blocks[k], alignment) && need == NeedOf(blocks[k], size, alignment) <= blocks[k].size
    {
      block, user, need, k := Walk(size, alignment);
      RoomOrNot(blocks, size, alignment);
    }

    /** The loop of the walk. */
    method Walk(size: nat, alignment: nat) returns (block: nat, user: nat, need: nat, ghost k: nat)
      requires Valid()
      ensures block == 0 <==> forall i | 0 <= i < |blocks| :: !Suits(blocks[i], size, alignment)
      ensures block != 0 ==>
                && k < |blocks| && blocks[k].at == block && Suits(blocks[k], size, alignment)
                && (forall i | 0 <= i < k :: !Suits(blocks[i], size, alignment))
                && user == User(blocks[k], alignment) && need == NeedOf(blocks[k], size, alignment)
    {
      hide Region, Merged, AlignUp;
      block, user, need, k := first, 0, 0, 0;
      RegionAt(headers, back, blocks, freeBytes, first, end, 0);
      while block != 0
        invariant k <= |blocks| && block == (if k < |blocks| then blocks[k].at else 0)
        invariant forall j | 0 <= j < k :: !Suits(blocks[j], size, alignment)
        decreases |blocks| - k
      {
        RegionAt(headers, back, blocks, freeBytes, first, end, k);
        var h := headers[block];
        if h.free {
          var start := block + HEADER;
          AlignUpBounds(start + WORD, Raised(alignment));
          user := AlignUp(start + WORD, Raised(alignment));
          need := (user - start) + AlignUp(size, 8);
          if need <= h.size { return; }
        }
        block := h.next;
        k := k + 1;
      }
      RegionAt(headers, back, blocks, freeBytes, first, end, k);
    }

    /** `NULL` is 0. It is returned exactly when the size is 0 or no free block has room for the
        aligned request. Otherwise the address is the least there is room at in the first free
        block with room, and the block is cut behind the request if the rest is worth it. */
    method AlignedAlloc(size: nat, alignment: nat) returns (p: nat, ghost k: nat)
      requires Valid() && PowerOfTwo(Raised(alignment))
      modifies this
      ensures Valid()
      ensures p == 0 <==>
                size == 0 || forall i, q: nat | 0 <= i < |old(blocks)| && old(blocks)[i].Free() :: !Room(old(blocks)[i], size, alignment, q)
      ensures p == 0 ==> blocks == old(blocks)
      ensures p != 0 ==>
                && k < |old(blocks)| && old(blocks)[k].Free()
                && Room(old(blocks)[k], size, alignment, p) && (forall q: nat | Room(old(blocks)[k], size, alignment, q) :: p <= q)
                && (forall i, q: nat | 0 <= i < k && old(blocks)[i].Free() :: !Room(old(blocks)[i], size, alignment, q))
      ensures p != 0 ==>
                && k < |blocks| && blocks[k].at == old(blocks)[k].at && blocks[k].owner == Some(Live(p, size, alignment))
                && p + AlignUp(size, 8) <= EndOf(blocks[k]) < p + AlignUp(size, 8) + SPLIT_MIN
      ensures p != 0 ==>
                && NeedOf(old(blocks)[k], size, alignment) <= old(blocks)[k].size
                && blocks == Take(old(blocks), k, NeedOf(old(blocks)[k], size, alignment), Live(p, size, alignment))
      ensures freeBytes <= old(freeBytes)
      ensures minimumFreeBytes == if freeBytes < old(minimumFreeBytes) then freeBytes else old(minimumFreeBytes)
      ensures history == old(history) + [freeBytes]
    {
      hide Region, Merged, Take, Room, NeedOf, User, PowerOfTwo;
      p, k := 0, 0;
      if size != 0 {
        var block, user, need;
        block, user, need, k := FirstFit(size, alignment);
        if block != 0 {
          p := user;
          TakeIsTight(blocks, k, need, Live(user, size, alignment));
          NeedIs(blocks[k], size, alignment);
          Occupy(k, block, need, user, Live(user, size, alignment));
          return;
        }
      }
      Record();
    }

    /** A call that changes no bytes. */
    ghost method Record()
      requires Valid()
      modifies this`history
      ensures Valid() && history == old(history) + [freeBytes]
      ensures freeBytes >= minimumFreeBytes
    {
      hide Region, Merged;
      assert history[|history| - 1] == freeBytes;
      Remember(history, freeBytes);
      history := history + [freeBytes];
    }

    /** Splits the block if the rest is worth a header, gives it away and leaves its
        address in the word before the address given out. */
    method Occupy(ghost k: nat, block: nat, need: nat, user: nat, ghost l: Live)
      requires Valid() && k < |blocks| && block == blocks[k].at && blocks[k].Free()
      requires user == l.user == User(blocks[k], l.alignment) && PowerOfTwo(Raised(l.alignment))
      requires need == NeedOf(blocks[k], l.size, l.alignment) <= blocks[k].size
      modifies this
      ensures Valid()
      ensures blocks == Take(old(blocks), k, need, l)
      ensures freeBytes <= old(freeBytes)
      ensures minimumFreeBytes == if freeBytes < old(minimumFreeBytes) then freeBytes else old(minimumFreeBytes)
      ensures history == old(history) + [freeBytes]
    {
      hide Region, Merged, Take, NeedOf, User, PowerOfTwo;
      TakeRegion(headers, back, blocks, freeBytes, first, end, k, l);
      ghost var headers' := TakeHeaders(headers, block, need);
      var h := headers[block];
      if h.size - need >= SPLIT_MIN {
        var rest := block + HEADER + need;
        headers := headers[rest := Header(h.next, h.size - need - HEADER, true)];
        headers := headers[block := Header(rest, need, true)];
        freeBytes := freeBytes - HEADER;
      }
      headers := headers[block := headers[block].(free := false)];
      freeBytes := freeBytes - headers[block].size;
      assert headers == headers';
      if freeBytes < minimumFreeBytes {
        minimumFreeBytes := freeBytes;
      }
      back := back[user - WORD := block];
      blocks := Take(blocks, k, need, l);
      Remember(history, freeBytes);
      history := history + [freeBytes];
    }

    lemma LeastBelow(least: nat, all: seq<nat>)
      requires LeastOf(least, all)
      ensures |all| > 0 && least <= all[|all| - 1]
    {
    }

    lemma Remember(all: seq<nat>, now: nat)
      requires |all| > 0
      ensures forall least | LeastOf(least, all) :: LeastOf(if now < least then now else least, all + [now])
    {
      forall least | LeastOf(least, all) ensures LeastOf(if now < least then now else least, all + [now]) {
        assert (all + [now])[|all|] == now;
      }
    }

    /** Gives an allocation back and merges what is free side by side. `k` says which
        block the allocation is in. */
    method Free(p: nat, ghost k: nat)
      requires Valid()
      requires p != 0 ==> k < |blocks| && blocks[k].owner.Some? && blocks[k].owner.value.user == p
      modifies this
      ensures Valid()
      ensures p == 0 ==> blocks == old(blocks)
      ensures p != 0 ==> blocks == Coalesce(SetFree(old(blocks), k))
      ensures p != 0 ==> Used(blocks) == Used(old(blocks)[..k]) + Used(old(blocks)[k + 1..])
      ensures p != 0 ==> freeBytes == old(freeBytes) + old(blocks)[k].size + HEADER * (|old(blocks)| - |blocks|)
      ensures freeBytes >= old(freeBytes) && minimumFreeBytes == old(minimumFreeBytes)
      ensures history == old(history) + [freeBytes]
    {
      hide Region, Merged, LeastOf, Used, SetFree, Coalesce;
      if p == 0 {
        Record();
        return;
      }
      FreeSums(blocks, k);
      Release(p, k);
      CoalesceUsed(blocks);
      MergeWalk();
      LeastBelow(minimumFreeBytes, history);
      Remember(history, freeBytes);
      history := history + [freeBytes];
    }

    /** Finds the block through the word in front of the address and marks it free. */
    method Release(p: nat, ghost k: nat)
      requires Region(headers, back, blocks, freeBytes, first, end)
      requires k < |blocks| && blocks[k].owner.Some? && blocks[k].owner.value.user == p
      modifies this`headers, this`freeBytes, this`blocks
      ensures Region(headers, back, blocks, freeBytes, first, end)
      ensures blocks == SetFree(old(blocks), k) && freeBytes == old(freeBytes) + old(blocks)[k].size
    {
      hide Region, SetFree, AlignedTo;
      RegionUser(headers, back, blocks, freeBytes, first, end, k);
      FreeRegion(headers, back, blocks, freeBytes, first, end, k);
      var block := back[p - WORD];
      headers := headers[block := headers[block].(free := true)];
      freeBytes := freeBytes + headers[block].size;
      blocks := SetFree(blocks, k);
    }

    /** The merging loop. */
    method MergeWalk()
      requires Region(headers, back, blocks, freeBytes, first, end)
      modifies this`headers, this`freeBytes, this`blocks
      ensures Region(headers, back, blocks, freeBytes, first, end)
      ensures blocks == Coalesce(old(blocks)) && Merged(blocks) && |blocks| <= old(|blocks|)
      ensures freeBytes == old(freeBytes) + HEADER * (old(|blocks|) - |blocks|)
    {
      hide Region, Merged, MergeAt, Coalesce;
      CoalesceOfRegion();
      var it := first;
      ghost var i := 0;
      ghost var target := Coalesce(blocks);
      assert blocks[0..] == blocks;
      assert blocks[..0] + Coalesce(blocks[0..]) == target;
      RegionAt(headers, back, blocks, freeBytes, first, end, 0);
      while it != 0
        invariant i <= |blocks| && it == (if i < |blocks| then blocks[i].at else 0)
        invariant Region(headers, back, blocks, freeBytes, first, end) && |blocks| <= old(|blocks|)
        invariant freeBytes == old(freeBytes) + HEADER * (old(|blocks|) - |blocks|)
        invariant blocks[..i] + Coalesce(blocks[i..]) == target
        decreases |blocks| - i
      {
        RegionAt(headers, back, blocks, freeBytes, first, end, i);
        RegionAt(headers, back, blocks, freeBytes, first, end, i + 1);
        CoalesceStep(blocks, i);
        var h := headers[it];
        if h.free && h.next != 0 && headers[h.next].free {
          Swallow(it, i);
        } else {
          it := h.next;
          i := i + 1;
        }
      }
      RegionAt(headers, back, blocks, freeBytes, first, end, i);
      assert blocks[i..] == [] && blocks[..i] == blocks;
      NothingToMerge();
    }

    /** `it` swallows its successor, and its header becomes free bytes. */
    method Swallow(it: nat, ghost i: nat)
      requires Region(headers, back, blocks, freeBytes, first, end)
      requires i + 1 < |blocks| && blocks[i].at == it && blocks[i].Free() && blocks[i + 1].Free()
      modifies this`headers, this`freeBytes, this`blocks
      ensures Region(headers, back, blocks, freeBytes, first, end)
      ensures blocks == MergeAt(old(blocks), i) && |blocks| == old(|blocks|) - 1 && blocks[i].at == it
      ensures freeBytes == old(freeBytes) + HEADER
    {
      hide Region, MergeAt;
      RegionAt(headers, back, blocks, freeBytes, first, end, i);
      MergeRegion(headers, back, blocks, freeBytes, first, end, i);
      MergedBlockAt(blocks, i, i);
      RegionAt(headers, back, blocks, freeBytes, first, end, i + 1);
      var h := headers[it];
      var n := headers[h.next];
      freeBytes := freeBytes + HEADER;
      headers := headers[it := Header(n.next, h.size + (HEADER + n.size), h.free)];
      blocks := MergeAt(blocks, i);
    }

    lemma CoalesceOfRegion()
      requires Region(headers, back, blocks, freeBytes, first, end)
      ensures Merged(Coalesce(blocks))
    {
      CoalesceTiled(blocks, first, end);
    }

    lemma NothingToMerge()
      ensures Coalesce([]) == []
    {
    }

    /** From the address to the end of its block: at least what was asked for. */
    method GetAllocatedSize(p: nat, ghost k: nat) returns (n: nat)
      requires Valid()
      requires p != 0 ==> k < |blocks| && blocks[k].owner.Some? && blocks[k].owner.value.user == p
      ensures p == 0 ==> n == 0
      ensures p != 0 ==> p + n == EndOf(blocks[k]) && n >= blocks[k].owner.value.size
    {
      hide Region, Merged, LeastOf, AlignedTo;
      if p == 0 { return 0; }
      RegionUser(headers, back, blocks, freeBytes, first, end, k);
      RegionAt(headers, back, blocks, freeBytes, first, end, k);
      var block := back[p - WORD];
      n := block + HEADER + headers[block].size - p;
    }

    method GetInfo() returns (info: Info)
      requires Valid()
      ensures info.totalFree == FreeSum(blocks) && info.minimumFree == minimumFreeBytes
      ensures info.largestFree == LargestFree(blocks) && info.totalAllocated == UsedSum(blocks)
      ensures info.totalBlocks == |blocks| == info.freeBlocks + info.allocatedBlocks
      ensures info.allocatedBlocks == |Used(blocks)|
    {
      assert freeBytes == FreeSum(blocks);
      hide Region, Merged;
      var largest, taken, total, unused, used := 0, 0, 0, 0, 0;
      var block := first;
      RegionAt(headers, back, blocks, freeBytes, first, end, 0);
      assert blocks[0..] == blocks;
      while block != 0
        invariant total <= |blocks| && block == (if total < |blocks| then blocks[total].at else 0)
        invariant LargestFree(blocks) == Max(largest, LargestFree(blocks[total..]))
        invariant taken + UsedSum(blocks[total..]) == UsedSum(blocks)
        invariant used + |Used(blocks[total..])| == |Used(blocks)| && unused + used == total
        decreases |blocks| - total
      {
        RegionAt(headers, back, blocks, freeBytes, first, end, total);
        var h := headers[block];
        assert blocks[total..][1..] == blocks[total + 1..];
        total := total + 1;
        if h.free {
          unused := unused + 1;
          if h.size > largest { largest := h.size; }
        } else {
          used := used + 1;
          taken := taken + h.size;
        }
        block := h.next;
      }
      RegionAt(headers, back, blocks, freeBytes, first, end, total);
      assert blocks[total..] == [];
      info := Info(freeBytes, minimumFreeBytes, largest, taken, total, unused, used);
    }

    // ----- what holds in every state the calls can reach

    /** Live allocations are aligned, inside their blocks, lead back to them, and overlap
        neither a header nor another allocation with the word in front of it. */
    lemma LiveAllocationsApart(i: nat, j: nat)
      requires Valid() && i < |blocks| && j < |blocks| && blocks[i].owner.Some?
      ensures Placed(blocks[i], blocks[i].owner.value, back) && MissesHeader(blocks[i].owner.value, blocks[j])
      ensures i != j && blocks[j].owner.Some? ==> Separate(blocks[i].owner.value, blocks[j].owner.value)
    {
      NothingOverlaps(headers, back, blocks, freeBytes, first, end, i, j);
    }

    /** Once everything is freed there is one block again, of the size at registration. */
    lemma FreedIsInitial()
      requires Valid() && Used(blocks) == []
      ensures |blocks| == 1 && blocks[0].at == first && freeBytes == blocks[0].size == end - first - HEADER
    {
      NoneUsed(blocks);
      AllFreeIsOne(blocks, first, end);
      SmallSums(blocks[0]);
    }

    /** Free bytes, used bytes and headers fill the region at all times, and the lowest
        free count recorded is the lowest there ever was. */
    lemma Accounting()
      requires Valid()
      ensures freeBytes + UsedSum(blocks) + HEADER * |blocks| == end - first
      ensures minimumFreeBytes in history && forall i | 0 <= i < |history| :: minimumFreeBytes <= history[i]
    {
      BytesConserved(blocks, first, end);
    }
  }

  lemma NeedIs(b: Block, size: nat, alignment: nat)
    ensures Payload(b) + NeedOf(b, size, alignment) == User(b, alignment) + AlignUp(size, 8)
    ensures User(b, alignment) > 0
  {
    AlignUpBounds(Payload(b) + WORD, Raised(alignment));
  }

  lemma RoomOrNot(blocks: seq<Block>, size: nat, alignment: nat)
    ensures forall i | 0 <= i < |blocks| && blocks[i].Free() ::
              && (Suits(blocks[i], size, alignment) <==> exists q: nat :: Room(blocks[i], size, alignment, q))
              && (Suits(blocks[i], size, alignment) ==> Room(blocks[i], size, alignment, User(blocks[i], alignment)))
              && forall q: nat | Room(blocks[i], size, alignment, q) :: User(blocks[i], alignment) <= q
  {
    hide Suits, Room, User;
    forall i | 0 <= i < |blocks| && blocks[i].Free()
      ensures && (Suits(blocks[i], size, alignment) <==> exists q: nat :: Room(blocks[i], size, alignment, q))
              && (Suits(blocks[i], size, alignment) ==> Room(blocks[i], size, alignment, User(blocks[i], alignment)))
              && forall q: nat | Room(blocks[i], size, alignment, q) :: User(blocks[i], alignment) <= q
    {
      SuitsIsRoom(blocks[i], size, alignment);
    }
  }

  function Max(a: nat, b: nat): nat {
    if b > a then b else a
  }

  lemma {:induction false} NoneUsed(blocks: seq<Block>)
    requires Used(blocks) == []
    ensures forall i | 0 <= i < |blocks| :: blocks[i].Free()
  {
    if blocks != [] {
      NoneUsed(blocks[1..]);
      forall i | 0 <= i < |blocks| ensures blocks[i].Free() {
        if i > 0 { assert blocks[i] == blocks[1..][i - 1]; }
      }
    }
  }

  /** `null` if the region cannot hold the bookkeeping and one smallest block. */
  method Register(start: nat, size: nat) returns (h: Heap?)
    requires start > 0
    ensures h == null <==> AlignUp(start, WORD) + INFO_SIZE + SPLIT_MIN > start + size
    ensures h != null ==> fresh(h) && h.Valid() && h.end == start + size && Used(h.blocks) == []
    ensures h != null ==> h.first % 8 == 0 && start + INFO_SIZE <= h.first < start + INFO_SIZE + WORD
    ensures h != null ==> h.freeBytes == h.end - h.first - HEADER && h.history == [h.freeBytes]
  {
    hide AlignUp, Region, Merged, LeastOf, Used, FreeSum;
    AlignUpBounds(start, WORD);
    var at := AlignUp(start, WORD);
    if at + INFO_SIZE + SPLIT_MIN > start + size { return null; }
    AlignUpBounds(at + INFO_SIZE, WORD);
    at := AlignUp(at + INFO_SIZE, WORD);
    h := new Heap(at, start + size);
    SmallUsed(h.blocks[0]);
    SmallSums(h.blocks[0]);
  }
}
