/** The kernel heap as src/kmalloc.c keeps it: three singly linked lists of descriptors,
    relinked in place.  Each method is proved to do to the lists what HeapModel says.
  */
module KernelHeap {
  import opened Words
  import opened Options
  import opened HeapModel
  import opened BlockList
  import HeapLaws

  class KHeap {
    const c: Config
    var free: Block?
    var used: Block?
    var blank: Block?
    var top: nat

    // The nodes of each list in order, and the nodes each list owns.
    ghost var freeL: seq<Block>
    ghost var usedL: seq<Block>
    ghost var blankL: seq<Block>
    ghost var freeS: set<Block>
    ghost var usedS: set<Block>
    ghost var blankS: set<Block>

    ghost predicate FreeOk()
      reads this`free, this`freeL, this`freeS, freeS
    {
      List(free, freeL, freeS)
    }

    ghost predicate BlankOk()
      reads this`blank, this`blankL, this`blankS, blankS
    {
      List(blank, blankL, blankS)
    }

    ghost predicate UsedOk()
      reads this`used, this`usedL, this`usedS, usedS
    {
      List(used, usedL, usedS)
    }

    ghost function FreeSegs(): seq<Seg>
      requires Within(freeL, freeS)
      reads this`freeL, this`freeS, freeS
    {
      Segs(freeL)
    }

    ghost function UsedSegs(): seq<Seg>
      requires Within(usedL, usedS)
      reads this`usedL, this`usedS, usedS
    {
      Segs(usedL)
    }

    /** The place of `addr` in the free list, which is in address order. */
    method FindSpot(addr: nat) returns (prev: Block?, ptr: Block?, ghost k: nat)
      requires FreeOk()
      ensures k <= |freeL| && ptr == At(freeL, k) && prev == if k == 0 then null else freeL[k - 1]
      ensures forall size: nat :: Insert(FreeSegs(), Seg(addr, size)) == Spliced(FreeSegs(), k, Seg(addr, size))
    {
      ptr, prev, k := free, null, 0;
      while ptr != null
        invariant 0 <= k <= |freeL|
        invariant ptr == At(freeL, k)
        invariant prev == if k == 0 then null else freeL[k - 1]
        invariant forall j :: 0 <= j < k ==> FreeSegs()[j].addr < addr
        decreases |freeL| - k
      {
        if addr <= ptr.addr {
          break;
        }
        prev := ptr;
        ptr := ptr.next;
        k := k + 1;
      }
      forall size: nat ensures Insert(FreeSegs(), Seg(addr, size)) == Spliced(FreeSegs(), k, Seg(addr, size)) {
        InsertIs(FreeSegs(), Seg(addr, size), k);
      }
    }

    /** Puts a block that is in no list into the free list, before the first block not below it. */
    method InsertBlock(block: Block)
      requires FreeOk() && block !in freeS
      modifies this`free, this`freeL, this`freeS, block`next, freeS`next
      ensures FreeOk() && freeS == old(freeS) + {block}
      ensures |freeL| == |old(freeL)| + 1
      ensures FreeSegs() == Insert(old(FreeSegs()), old(Seg(block.addr, block.size)))
    {
      var prev, ptr;
      ghost var k;
      prev, ptr, k := FindSpot(block.addr);
      ghost var segs := FreeSegs();
      if prev != null {
        prev.next := block;
      } else {
        free := block;
      }
      block.next := ptr;
      assert FreeSegs() == segs;
      SplicedList(freeL, freeS, k, block);
      freeL, freeS := Spliced(freeL, k, block), freeS + {block};
    }

    /** Returns the nodes from `first` up to `to` to the blank list. */
    method ReleaseBlocks(first: Block?, to: Block?, ghost part: seq<Block>, ghost owned: set<Block>)
      requires BlankOk() && Within(part, owned) && owned !! blankS && (to == null || to !in owned)
      requires first == if part == [] then to else part[0]
      requires forall i {:trigger part[i].next} ::
               0 <= i < |part| ==> part[i].next == if i + 1 < |part| then part[i + 1] else to
      modifies this`blank, this`blankL, this`blankS, owned
      ensures BlankOk() && blankS == old(blankS) + owned && |blankL| == |old(blankL)| + |part|
      ensures forall i :: 0 <= i < |part| ==> part[i].addr == 0 && part[i].size == 0
    {
      var scan := first;
      ghost var k := 0;
      while scan != to
        invariant 0 <= k <= |part|
        invariant scan == if k < |part| then part[k] else to
        invariant forall i {:trigger part[i].next} ::
                  k <= i < |part| ==> part[i].next == if i + 1 < |part| then part[i + 1] else to
        invariant blank == At(blankL, 0) && Chained(blankL) && Within(blankL, blankS + owned)
        invariant blankS == old(blankS)
        invariant forall i, j :: 0 <= i < |blankL| && k <= j < |part| ==> blankL[i] != part[j]
        invariant |blankL| == k + |old(blankL)|
        invariant forall i :: 0 <= i < k ==> part[i].addr == 0 && part[i].size == 0
        decreases |part| - k
      {
        var scanNext := scan.next;
        scan.next := blank;
        blank := scan;
        scan.addr := 0;
        scan.size := 0;
        blankL := [scan] + blankL;
        scan := scanNext;
        k := k + 1;
      }
      blankS := blankS + owned;
    }

    /** Links node `k` of `rest` past the nodes of `part`, which become blank. */
    method Unchain(ptr: Block, next: Block?, newSize: nat, ghost k: nat,
                   ghost rest: seq<Block>, ghost restS: set<Block>, ghost part: seq<Block>, ghost partS: set<Block>)
      requires BlankOk() && Within(rest, restS) && Within(part, partS) && restS !! partS !! blankS
      requires k < |rest| && ptr == rest[k] && free == rest[0] && next == At(rest, k + 1)
      requires forall m {:trigger rest[m].next} :: 0 <= m < |rest| && m != k ==> rest[m].next == At(rest, m + 1)
      requires ptr.next == if part == [] then next else part[0]
      requires forall i {:trigger part[i].next} ::
               0 <= i < |part| ==> part[i].next == if i + 1 < |part| then part[i + 1] else next
      modifies this`freeL, this`freeS, this`blank, this`blankL, this`blankS, restS, partS
      ensures FreeOk() && freeL == rest && freeS == restS
      ensures BlankOk() && blankS == old(blankS) + partS && |blankL| == |old(blankL)| + |part|
      ensures FreeSegs() == old(Segs(rest))[k := Seg(old(ptr.addr), newSize)]
    {
      ptr.size := newSize;
      ReleaseBlocks(ptr.next, next, part, partS);
      ptr.next := next;
      freeL, freeS := rest, restS;
    }

    /** Makes `ptr`, at position `k`, stand for the run that ends with `prev`, at position `j`. */
    method MergeRun(ptr: Block, prev: Block, ghost k: nat, ghost j: nat)
      requires FreeOk() && BlankOk() && freeS !! blankS
      requires k < j < |freeL| && ptr == freeL[k] && prev == freeL[j] && ptr.addr <= prev.addr
      modifies this`freeL, this`freeS, this`blank, this`blankL, this`blankS, freeS
      ensures FreeOk() && BlankOk() && freeS !! blankS
      ensures k < |freeL| <= |old(freeL)| && ptr == freeL[k]
      ensures FreeSegs() == Merged(old(FreeSegs()), k, j)
      ensures |freeL| + |blankL| == |old(freeL)| + |old(blankL)|
      ensures freeS <= old(freeS) && freeS + blankS == old(freeS) + old(blankS)
    {
      var newSize := prev.addr - ptr.addr + prev.size;
      var next := prev.next;
      ghost var rest, restS, part, partS := Split(freeL, freeS, k, j);
      Unchain(ptr, next, newSize, k, rest, restS, part, partS);
    }

    /** The last block of the run of adjacent blocks that starts with `ptr`, at position `k`. */
    method RunEnd(ptr: Block, ghost k: nat) returns (prev: Block, ghost j: nat)
      requires FreeOk() && k < |freeL| && ptr == freeL[k]
      ensures k <= j < |freeL| && prev == freeL[j]
      ensures freeL[k].addr <= freeL[j].addr
      ensures var after := Merged(FreeSegs(), k, j);
              && (j == k ==> after == FreeSegs()) && k < |after|
              && after[..k + 1] + Coalesce(after[k + 1..]) == FreeSegs()[..k] + Coalesce(FreeSegs()[k..])
    {
      prev, j := ptr, k;
      var scan := ptr.next;
      while scan != null && prev.addr + prev.size == scan.addr
        invariant k <= j < |freeL| && prev == freeL[j] && scan == At(freeL, j + 1)
        invariant forall m :: k <= m < j ==> FreeSegs()[m].End() == FreeSegs()[m + 1].addr
        decreases |freeL| - j
      {
        prev := scan;
        scan := scan.next;
        j := j + 1;
      }
      CoalesceFrom(FreeSegs(), k, j);
    }

    /** The run of adjacent blocks that starts with `ptr`, at position `k`, becomes one block. */
    method MergeAt(ptr: Block, ghost k: nat)
      requires FreeOk() && BlankOk() && freeS !! blankS && k < |freeL| && ptr == freeL[k]
      modifies this`freeL, this`freeS, this`blank, this`blankL, this`blankS, freeS
      ensures FreeOk() && BlankOk() && freeS !! blankS
      ensures k < |freeL| <= |old(freeL)| && ptr == freeL[k]
      ensures FreeSegs()[..k + 1] + Coalesce(FreeSegs()[k + 1..]) == old(FreeSegs()[..k] + Coalesce(FreeSegs()[k..]))
      ensures |freeL| + |blankL| == |old(freeL)| + |old(blankL)|
      ensures freeS <= old(freeS) && freeS + blankS == old(freeS) + old(blankS)
    {
      var prev;
      ghost var j;
      prev, j := RunEnd(ptr, k);
      ghost var merged := Merged(FreeSegs(), k, j);
      if prev != ptr {
        MergeRun(ptr, prev, k, j);
      }
      assert FreeSegs() == merged;
    }

    /** Merges every maximal run of adjacent free blocks into its first block. */
    method Compact()
      requires FreeOk() && BlankOk() && freeS !! blankS
      modifies this`freeL, this`freeS, this`blank, this`blankL, this`blankS, freeS
      ensures FreeOk() && BlankOk() && freeS !! blankS
      ensures FreeSegs() == Coalesce(old(FreeSegs()))
      ensures |freeL| <= |old(freeL)| && |freeL| + |blankL| == |old(freeL)| + |old(blankL)|
      ensures freeS <= old(freeS) && freeS + blankS == old(freeS) + old(blankS)
    {
      var ptr := free;
      ghost var k := 0;
      while ptr != null
        invariant 0 <= k <= |freeL| && ptr == At(freeL, k)
        invariant FreeOk() && BlankOk() && freeS !! blankS
        invariant FreeSegs()[..k] + Coalesce(FreeSegs()[k..]) == Coalesce(old(FreeSegs()))
        invariant |freeL| <= |old(freeL)| && |freeL| + |blankL| == |old(freeL)| + |old(blankL)|
        invariant freeS <= old(freeS) && freeS + blankS == old(freeS) + old(blankS)
        decreases |freeL| - k
      {
        MergeAt(ptr, k);
        ptr := ptr.next;
        k := k + 1;
      }
    }

    /** Inserts a block that is in no list into the free list, and merges. */
    method GiveBack(block: Block, ghost us: seq<Seg>)
      requires FreeOk() && BlankOk() && freeS !! blankS !! {block}
      modifies this`free, this`freeL, this`freeS, this`blank, this`blankL, this`blankS, freeS, block
      ensures FreeOk() && BlankOk() && freeS !! blankS
      ensures Heap(FreeSegs(), us, |blankL|, top)
           == Release(Heap(old(FreeSegs()), us, old(|blankL|), top), old(Seg(block.addr, block.size)))
      ensures freeS + blankS == old(freeS) + old(blankS) + {block}
    {
      InsertBlock(block);
      Compact();
    }

    // ---------------------------------------------------------------- the heap as a whole

    ghost predicate Lists()
      reads this, freeS, usedS, blankS
    {
      FreeOk() && UsedOk() && BlankOk() && freeS !! usedS !! blankS
    }

    ghost function Value(): Heap
      requires Lists()
      reads this, freeS, usedS, blankS
    {
      Heap(FreeSegs(), UsedSegs(), |blankL|, top)
    }

    ghost predicate Valid()
      reads this, freeS, usedS, blankS
    {
      c.Ok() && Lists() && Inv(c, Value())
    }

    /** Every descriptor of the heap. */
    ghost function Repr(): set<Block>
      reads this
    {
      freeS + usedS + blankS
    }

    /** An empty heap whose `maxBlocks` descriptors are all blank. */
    constructor (config: Config)
      requires config.Ok()
      ensures Valid() && c == config && Value() == InitHeap(config) && fresh(Repr())
    {
      c := config;
      free, used, top := null, null, config.start;
      freeL, usedL, freeS, usedS := [], [], {}, {};
      new;
      var head: Block? := null;
      ghost var all: seq<Block>, owned: set<Block> := [], {};
      var i := config.maxBlocks;
      while i > 0
        invariant 0 <= i <= config.maxBlocks && |all| == config.maxBlocks - i
        invariant List(head, all, owned) && fresh(owned)
        invariant free == null && used == null && top == config.start && c == config
        invariant freeL == [] && usedL == [] && freeS == {} && usedS == {}
      {
        var b := new Block();
        b.next := head;
        head := b;
        all, owned := [b] + all, owned + {b};
        i := i - 1;
      }
      blank, blankL, blankS := head, all, owned;
      HeapLaws.InitInv(config);
    }

    /** `block` is node `k` of the used list, or null when there is none; `prev` is the node before it. */
    ghost predicate UsedNode(prev: Block?, block: Block?, k: nat)
      reads this`usedL
    {
      k <= |usedL| && block == At(usedL, k) && prev == if k == 0 then null else usedL[k - 1]
    }

    /** The first used block that starts at `p`, with its predecessor in the list. */
    method FindUsedBlock(p: nat) returns (prev: Block?, block: Block?, ghost k: nat)
      requires Lists()
      ensures k == FindUsed(Value().used, p) && UsedNode(prev, block, k)
      ensures block == null <==> k == |Value().used|
    {
      block, prev, k := used, null, 0;
      while block != null
        invariant 0 <= k <= |usedL| && block == At(usedL, k)
        invariant prev == if k == 0 then null else usedL[k - 1]
        invariant forall j :: 0 <= j < k ==> usedL[j].addr != p
        decreases |usedL| - k
      {
        if p == block.addr {
          FindUsedIs(UsedSegs(), p, k);
          return;
        }
        prev := block;
        block := block.next;
        k := k + 1;
      }
      FindUsedIs(UsedSegs(), p, k);
    }

    /** Unlinks the used block at position `k`. */
    method UnlinkUsed(prev: Block?, block: Block, ghost k: nat)
      requires UsedOk()
      requires k < |usedL| && block == usedL[k] && prev == if k == 0 then null else usedL[k - 1]
      modifies this`used, this`usedL, this`usedS, usedS`next
      ensures UsedOk() && usedS == old(usedS) - {block}
      ensures UsedSegs() == Without(old(UsedSegs()), k)
    {
      WithoutList(usedL, usedS, k);
      hide Without, Segs;
      ghost var rest := Without(usedL, k);
      ghost var segs := Segs(rest);
      if prev != null {
        prev.next := block.next;
      } else {
        used := block.next;
      }
      usedL, usedS := rest, usedS - {block};
      assert UsedSegs() == segs;
    }

    /** Moves the used block at position `k` to the free list, and merges. */
    method MoveToFree(prev: Block?, block: Block, ghost k: nat)
      requires Lists() && UsedNode(prev, block, k) && k < |Value().used|
      modifies this, Repr()
      ensures Lists() && Repr() == old(Repr())
      ensures var h := old(Value()); Value() == Release(h.(used := Without(h.used, k)), h.used[k])
    {
      hide Release, Without;
      ghost var fs, b := FreeSegs(), UsedSegs()[k];
      UnlinkUsed(prev, block, k);
      ghost var us := UsedSegs();
      assert FreeSegs() == fs && b == Seg(block.addr, block.size);
      GiveBack(block, us);
      assert UsedSegs() == us;
    }

    /** Takes the used block that starts at `p` out of the used list, puts it into the free list
        and merges.  False, and no change, when no used block starts at `p`. */
    method FreeBlock(p: nat) returns (found: bool)
      requires Lists()
      modifies this, Repr()
      ensures Lists() && Repr() == old(Repr())
      ensures Value() == HeapModel.Free(old(Value()), p)
      ensures found <==> FindUsed(old(Value()).used, p) < |old(Value()).used|
    {
      var prev, block;
      ghost var k;
      prev, block, k := FindUsedBlock(p);
      if block != null {
        MoveToFree(prev, block, k);
      }
      found := block != null;
    }

    /** `kfree` of an address other than NULL. */
    method Free(p: nat) returns (found: bool)
      requires Valid()
      modifies this, Repr()
      ensures Valid() && Value() == HeapModel.Free(old(Value()), p)
      ensures found <==> exists b :: b in old(Value()).used && b.addr == p
      ensures Repr() == old(Repr())
    {
      HeapLaws.FreeKeepsInv(c, Value(), p);
      ghost var us, k := Value().used, FindUsed(Value().used, p);
      assert k < |us| ==> us[k] in us;
      found := FreeBlock(p);
    }

    /** `ptr` is node `k` of the free list, or null when there is none; `prev` is the node before it. */
    ghost predicate FreeNode(prev: Block?, ptr: Block?, k: nat)
      reads this`freeL
    {
      k <= |freeL| && ptr == At(freeL, k) && prev == if k == 0 then null else freeL[k - 1]
    }

    /** The first free block that fits, with its predecessor in the list. */
    method FirstFitBlock(n: nat) returns (prev: Block?, ptr: Block?, ghost k: nat)
      requires Lists()
      ensures k == FirstFit(Value().free, top, c.limit, n) && FreeNode(prev, ptr, k)
      ensures ptr == null <==> k == |Value().free|
    {
      ptr, prev, k := free, null, 0;
      while ptr != null
        invariant 0 <= k <= |freeL| && ptr == At(freeL, k)
        invariant prev == if k == 0 then null else freeL[k - 1]
        invariant forall j :: 0 <= j < k ==> !Fits(FreeSegs()[j], top, c.limit, n)
        decreases |freeL| - k
      {
        var isTop := ptr.addr + ptr.size >= top && ptr.addr + n <= c.limit;
        if isTop || ptr.size >= n {
          FirstFitIs(FreeSegs(), top, c.limit, n, k);
          return;
        }
        prev := ptr;
        ptr := ptr.next;
        k := k + 1;
      }
      FirstFitIs(FreeSegs(), top, c.limit, n, k);
    }

    /** Makes a node that is in no list stand for a range, at the head of the used list. */
    method PushUsed(block: Block, addr: nat, size: nat)
      requires UsedOk() && block !in usedS
      modifies this`used, this`usedL, this`usedS, block
      ensures UsedOk() && usedS == old(usedS) + {block}
      ensures UsedSegs() == [Seg(addr, size)] + old(UsedSegs())
      ensures block.addr == addr && block.size == size
    {
      ghost var us := UsedSegs();
      block.addr := addr;
      block.next := used;
      block.size := size;
      used := block;
      usedL, usedS := [block] + usedL, usedS + {block};
      assert UsedSegs() == [Seg(addr, size)] + us;
    }

    /** Unlinks the free block at position `k`. */
    method UnlinkFree(prev: Block?, ptr: Block, ghost k: nat)
      requires FreeOk()
      requires k < |freeL| && ptr == freeL[k] && prev == if k == 0 then null else freeL[k - 1]
      modifies this`free, this`freeL, this`freeS, freeS`next
      ensures FreeOk() && freeS == old(freeS) - {ptr}
      ensures FreeSegs() == Without(old(FreeSegs()), k)
    {
      WithoutList(freeL, freeS, k);
      hide Without, Segs;
      ghost var rest := Without(freeL, k);
      ghost var segs := Segs(rest);
      if prev != null {
        prev.next := ptr.next;
      } else {
        free := ptr.next;
      }
      freeL, freeS := rest, freeS - {ptr};
      assert FreeSegs() == segs;
    }

    /** Takes the first blank descriptor. */
    method PopBlank() returns (block: Block)
      requires BlankOk() && blank != null
      modifies this`blank, this`blankL, this`blankS
      ensures BlankOk() && block in old(blankS) && blankS == old(blankS) - {block}
      ensures |blankL| == |old(blankL)| - 1
    {
      block := blank;
      WithoutList(blankL, blankS, 0);
      blank := block.next;
      blankL, blankS := Without(blankL, 0), blankS - {block};
    }

    /** Moves the free block at position `k` to the used list, with size `size`. */
    method TakeFree(prev: Block?, ptr: Block, size: nat, ghost k: nat)
      requires Lists()
      requires FreeNode(prev, ptr, k) && k < |Value().free|
      modifies this`free, this`freeL, this`freeS, this`used, this`usedL, this`usedS, Repr()
      ensures Lists() && ptr in usedS && Repr() == old(Repr())
      ensures blankS == old(blankS)
      ensures ptr.addr == old(ptr.addr) && ptr.size == size
      ensures var h := old(Value());
              Value() == h.(free := Without(h.free, k), used := [Seg(ptr.addr, size)] + h.used)
    {
      hide Without, Segs;
      ghost var us := UsedSegs();
      UnlinkFree(prev, ptr, k);
      assert UsedSegs() == us && ptr !in usedS;
      ghost var fs := FreeSegs();
      PushUsed(ptr, ptr.addr, size);
      assert FreeSegs() == fs;
    }

    /** Turns a blank descriptor into a free block. */
    method AddFree(addr: nat, size: nat)
      requires Lists() && blank != null
      modifies this`free, this`freeL, this`freeS, this`blank, this`blankL, this`blankS, Repr()
      ensures Lists() && Repr() == old(Repr()) && usedS == old(usedS)
      ensures forall b :: b in usedS ==> b.addr == old(b.addr) && b.size == old(b.size)
      ensures var h := old(Value());
              h.blank > 0 && Value() == Release(h.(blank := h.blank - 1), Seg(addr, size))
    {
      hide Release;
      ghost var us, fs := UsedSegs(), FreeSegs();
      var split := PopBlank();
      split.addr := addr;
      split.size := size;
      assert FreeSegs() == fs;
      GiveBack(split, us);
      assert UsedSegs() == us;
    }

    /** Turns a blank descriptor into a used block and moves `top` up. */
    method AddUsed(addr: nat, size: nat, newTop: nat) returns (block: Block)
      requires Lists() && blank != null
      modifies this`used, this`usedL, this`usedS, this`blank, this`blankL, this`blankS, this`top, Repr()
      ensures Lists() && Repr() == old(Repr()) && block.addr == addr && block.size == size
      ensures var h := old(Value());
              h.blank > 0 &&
              Value() == h.(used := [Seg(addr, size)] + h.used, blank := h.blank - 1, top := newTop)
    {
      ghost var us, fs := UsedSegs(), FreeSegs();
      block := PopBlank();
      top := newTop;
      assert UsedSegs() == us;
      PushUsed(block, addr, size);
      assert FreeSegs() == fs;
    }

    /** Hands out the first `n` bytes of a free block and keeps the rest free. */
    method SplitFree(prev: Block?, ptr: Block, n: nat, excess: nat, ghost k: nat)
      requires Lists() && blank != null
      requires FreeNode(prev, ptr, k) && k < |Value().free|
      modifies this, Repr()
      ensures Lists() && Repr() == old(Repr()) && top == old(top)
      ensures ptr.addr == old(ptr.addr) && ptr.size == n
      ensures var h := old(Value());
              h.blank > 0 &&
              var rest := h.(free := Without(h.free, k), used := [Seg(ptr.addr, n)] + h.used, blank := h.blank - 1);
              Value() == Release(rest, Seg(ptr.addr + n, excess))
    {
      hide Release, Without, FreeNode;
      var addr := ptr.addr;
      TakeFree(prev, ptr, n, k);
      AddFree(addr + n, excess);
    }

    /** A new `top` changes nothing else. */
    method MoveTop(newTop: nat)
      requires Lists()
      modifies this`top
      ensures Lists() && Repr() == old(Repr()) && top == newTop && Value() == old(Value()).(top := newTop)
    {
      ghost var us, fs := UsedSegs(), FreeSegs();
      top := newTop;
      assert UsedSegs() == us && FreeSegs() == fs;
    }

    /** Hands out the top block, resized. */
    method TakeTop(prev: Block?, ptr: Block, n: nat, ghost k: nat)
      requires Lists() && FreeNode(prev, ptr, k) && k < |Value().free|
      requires ptr.addr + ptr.size >= top && ptr.addr + n <= c.limit
      modifies this, Repr()
      ensures Lists() && Repr() == old(Repr()) && ptr.addr == old(ptr.addr) && ptr.size == n
      ensures Fits(old(Value()).free[k], old(Value()).top, c.limit, n)
      ensures (Value(), Seg(ptr.addr, ptr.size)) == Take(c, old(Value()), k, n)
    {
      ghost var h := Value();
      assert Seg(ptr.addr, ptr.size) == h.free[k] && h.top == top;
      HeapModel.TakeCases(c, h, k, n);
      hide Without, Lists, Value, Repr, FreeNode, Take;
      var addr := ptr.addr;
      TakeFree(prev, ptr, n, k);
      MoveTop(addr + n);
    }

    /** Hands out another block, split if the rest is worth a descriptor. */
    method TakeInner(prev: Block?, ptr: Block, n: nat, ghost k: nat)
      requires Lists() && FreeNode(prev, ptr, k) && k < |Value().free|
      requires !(ptr.addr + ptr.size >= top && ptr.addr + n <= c.limit) && n <= ptr.size
      modifies this, Repr()
      ensures Lists() && Repr() == old(Repr()) && ptr.addr == old(ptr.addr)
      ensures Fits(old(Value()).free[k], old(Value()).top, c.limit, n)
      ensures (Value(), Seg(ptr.addr, ptr.size)) == Take(c, old(Value()), k, n)
    {
      ghost var h := Value();
      assert Seg(ptr.addr, ptr.size) == h.free[k] && h.top == top && (blank != null <==> h.blank > 0);
      HeapModel.TakeCases(c, h, k, n);
      hide Release, Without, Lists, Value, Repr, FreeNode, Take;
      var excess := ptr.size - n;
      if blank != null && excess >= c.threshold {
        SplitFree(prev, ptr, n, excess, k);
      } else {
        TakeFree(prev, ptr, ptr.size, k);
      }
    }

    /** What AllocBlock does with the free block that fits. */
    method TakeFit(prev: Block?, ptr: Block, n: nat, ghost k: nat)
      requires Lists()
      requires FreeNode(prev, ptr, k) && k < |Value().free| && Fits(Value().free[k], top, c.limit, n)
      modifies this, Repr()
      ensures Lists() && Repr() == old(Repr())
      ensures (Value(), Seg(ptr.addr, ptr.size)) == Take(c, old(Value()), k, n)
    {
      var isTop := ptr.addr + ptr.size >= top && ptr.addr + n <= c.limit;
      assert Seg(ptr.addr, ptr.size) == Value().free[k];
      assert isTop || n <= ptr.size;
      hide *;
      if isTop {
        TakeTop(prev, ptr, n, k);
      } else {
        TakeInner(prev, ptr, n, k);
      }
    }

    /** A request that cannot wrap around in `size_t`, neither when rounded nor when added to `top`. */
    predicate NoWrap(num: nat) {
      num + c.alignment + c.limit < WORD64
    }

    /** The rounding in `size_t` arithmetic. */
    method RoundSize(num: nat) returns (n: nat)
      requires c.Ok() && NoWrap(num)
      ensures n == RoundUp(num, c.alignment) && n + c.limit < WORD64
    {
      HeapModel.RoundUpIsLeastMultiple(num, c.alignment);
      n := (num + c.alignment - 1) % WORD64 / c.alignment * c.alignment;
    }

    /** `top + n` in `size_t` arithmetic. */
    method RaisedTop(n: nat) returns (newTop: nat)
      requires top + n < WORD64
      ensures newTop == top + n
    {
      newTop := (top + n) % WORD64;
    }

    /** A new block at `top`; null when there is no blank descriptor or no room. */
    method Bump(n: nat) returns (r: Block?)
      requires Lists() && top <= c.limit && n + c.limit < WORD64
      modifies this`used, this`usedL, this`usedS, this`blank, this`blankL, this`blankS, this`top, Repr()
      ensures Lists() && Repr() == old(Repr())
      ensures var h := old(Value());
              if h.blank > 0 && h.top + n <= c.limit then
                && r != null && r.addr == h.top && r.size == n
                && Value() == h.(used := [Seg(h.top, n)] + h.used, blank := h.blank - 1, top := h.top + n)
              else r == null && Value() == h
    {
      ghost var h := Value();
      assert h.top == top && (blank != null <==> h.blank > 0);
      hide Lists, Value, Repr;
      r := null;
      var newTop := RaisedTop(n);
      if blank != null && newTop <= c.limit {
        r := AddUsed(top, n, newTop);
      }
    }

    /** First fit over the free list, then a bump of `top`; null when neither works. */
    method ServeBlock(n: nat) returns (r: Block?)
      requires Lists() && top <= c.limit && n + c.limit < WORD64
      modifies this, Repr()
      ensures Lists() && Repr() == old(Repr())
      ensures (Value(), if r == null then None else Some(Seg(r.addr, r.size))) == Serve(c, old(Value()), n)
    {
      ghost var h := Value();
      assert h.top == top;
      HeapModel.ServeCases(c, h, n);
      hide Take, Release, Without, FirstFit, Serve, FreeNode, Lists, Value, Repr, Fits;
      var prev;
      ghost var k;
      prev, r, k := FirstFitBlock(n);
      if r != null {
        TakeFit(prev, r, n, k);
      } else {
        r := Bump(n);
      }
    }

    /** `alloc_block`: rounds the request up and serves it. */
    method AllocBlock(num: nat) returns (r: Block?)
      requires c.Ok() && Lists() && top <= c.limit && NoWrap(num)
      modifies this, Repr()
      ensures Lists() && Repr() == old(Repr())
      ensures (Value(), if r == null then None else Some(Seg(r.addr, r.size))) == Alloc(c, old(Value()), num)
    {
      var n := RoundSize(num);
      r := ServeBlock(n);
    }

    /** The address of a new block, or None where the source returns NULL. */
    method Kmalloc(num: nat) returns (p: Option<nat>)
      requires Valid() && 0 < num && NoWrap(num)
      modifies this, Repr()
      ensures Valid() && Value() == Alloc(c, old(Value()), num).0
      ensures Repr() == old(Repr())
      ensures p.Some? ==> exists b :: b in Value().used && b.addr == p.value && num <= b.size
                                   && HeapLaws.Unused(c, old(Value()), b.addr, b.size)
                                   && (b.size != RoundUp(num, c.alignment) ==>
                                         old(blank) == null || b.size - RoundUp(num, c.alignment) < c.threshold)
      ensures p.Some? ==>
                forall a: nat :: HeapLaws.Unused(c, old(Value()), a, RoundUp(num, c.alignment)) ==> p.value <= a
      ensures p.None? ==> Value() == old(Value())
      ensures p.None? <==> !exists a: nat :: HeapLaws.Unused(c, old(Value()), a, RoundUp(num, c.alignment))
                                          && (old(blank) != null || a < old(top))
    {
      ghost var h := Value();
      HeapLaws.AllocKeepsInv(c, h, num);
      HeapLaws.AllocIsSound(c, h, num);
      HeapLaws.AllocFailsIff(c, h, num);
      HeapLaws.AllocIsTight(c, h, num);
      forall a: nat | HeapLaws.Unused(c, h, a, RoundUp(num, c.alignment))
        ensures Alloc(c, h, num).1.Some? ==> Alloc(c, h, num).1.value.addr <= a
      {
        HeapLaws.AllocIsLowest(c, h, num, a);
      }
      assert Alloc(c, h, num).1.Some? ==> Alloc(c, h, num).1.value == Alloc(c, h, num).0.used[0];
      var r := AllocBlock(num);
      p := if r == null then None else Some(r.addr);
    }

    /** Length of a list. */
    static method CountBlocks(head: Block?, ghost s: seq<Block>) returns (num: nat)
      requires head == At(s, 0) && Chained(s)
      ensures num == |s|
    {
      var ptr := head;
      num := 0;
      while ptr != null
        invariant num <= |s| && ptr == At(s, num)
        decreases |s| - num
      {
        num := num + 1;
        ptr := ptr.next;
      }
    }

    /** The source's own consistency check always succeeds. */
    method HeapCheck() returns (good: bool)
      requires Valid()
      ensures good
    {
      var f := CountBlocks(free, freeL);
      var u := CountBlocks(used, usedL);
      var b := CountBlocks(blank, blankL);
      good := c.maxBlocks == f + u + b;
    }
  }
}
