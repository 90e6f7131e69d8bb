/** jsoncpp's page allocator with its intrusive free list, for one object per allocation.
  *
  * Memory is modelled as far as the allocator looks at it: the word at the start of each slot,
  * read as a link. Whoever holds a slot may overwrite its word.
  */
module BatchAllocator {
  import opened Wrappers

  /** The address of an object: a page and an offset in it. */
  datatype Slot = Slot(batch: BatchInfo, index: nat)

  type Memory = map<Slot, Option<Slot>>

  class BatchInfo {
    var next_: BatchInfo?
    var used_: nat      // offset of the first slot never handed out
    const end_: nat

    constructor (objectsPerPage: nat)
      ensures next_ == null && used_ == 0 && end_ == objectsPerPage
    {
      next_, used_, end_ := null, 0, objectsPerPage;
    }
  }

  /** The list from `head` runs through exactly the given slots, each once, and ends. */
  ghost predicate FreeList(memory: Memory, head: Option<Slot>, slots: set<Slot>)
    decreases |slots|
  {
    match head
    case None => slots == {}
    case Some(s) => s in slots && s in memory && FreeList(memory, memory[s], slots - {s})
  }

  /** Writing to a slot that is not on the list does not touch the list. */
  lemma {:induction false} FreeListFrame(memory: Memory, head: Option<Slot>, slots: set<Slot>, s: Slot, word: Option<Slot>)
    requires FreeList(memory, head, slots) && s !in slots
    ensures FreeList(memory[s := word], head, slots)
    decreases |slots|
  {
    if head.Some? { FreeListFrame(memory, memory[head.value], slots - {head.value}, s, word); }
  }

  function NextPage(chain: seq<BatchInfo>, i: nat): BatchInfo? {
    if i + 1 < |chain| then chain[i + 1] else null
  }

  class Allocator {
    var batches_: BatchInfo
    var currentBatch_: BatchInfo
    var freeHead_: Option<Slot>
    const objectsPerPage_: nat
    var memory: Memory

    ghost var chain: seq<BatchInfo>    // the list that starts at batches_
    ghost var free: set<Slot>          // the slots on the free list
    ghost var live: set<Slot>          // handed out and not released

    /** The linked list of pages: the current page is its head, and every page after it is full. */
    ghost predicate PagesOk()
      reads this, chain
    {
      0 < objectsPerPage_ && 0 < |chain| &&
      (forall i, j :: 0 <= i < j < |chain| ==> chain[i] != chain[j]) &&
      chain[0] == batches_ == currentBatch_ &&
      (forall i :: 0 <= i < |chain| ==> chain[i].next_ == NextPage(chain, i)) &&
      (forall i :: 0 <= i < |chain| ==> chain[i].used_ <= chain[i].end_) &&
      (forall i :: 0 < i < |chain| ==> chain[i].used_ == chain[i].end_)
    }

    /** The slot lies in a page and has been handed out at least once. */
    ghost predicate Used(s: Slot)
      reads this, chain
    {
      s.batch in chain && s.index < s.batch.used_
    }

    /** Live slots, free-listed slots and slots never used partition the pages: the used ones
      * are either live or on the free list, and nothing else is. */
    ghost predicate PartitionOk()
      reads this, chain
    {
      live !! free && (forall s :: s in live ==> Used(s)) && (forall s :: s in free ==> Used(s)) &&
      (forall b, j :: b in chain && 0 <= j < b.used_ ==> Slot(b, j) in live + free)
    }

    ghost predicate Valid()
      reads this, chain
    {
      PagesOk() && FreeList(memory, freeHead_, free) && PartitionOk()
    }

    /** A page without objects is allocated first. */
    constructor (objectsPerPage: nat)
      requires objectsPerPage >= 16
      ensures Valid() && live == {} && objectsPerPage_ == objectsPerPage
    {
      var dummy := new BatchInfo(0);
      batches_, currentBatch_, freeHead_, memory := dummy, dummy, None, map[];
      objectsPerPage_ := objectsPerPage;
      chain, free, live := [dummy], {}, {};
    }

    /** Never a live slot, always one inside a page: the head of the free list if there is one,
      * else the next unused slot of the current page or of a new one. */
    method Allocate() returns (s: Slot)
      requires Valid()
      modifies this, chain
      ensures Valid()
      ensures s !in old(live) && live == old(live) + {s}
      ensures s.batch in chain && s.index < s.batch.end_
      ensures old(freeHead_).Some? ==> Some(s) == old(freeHead_) && free == old(free) - {s} && chain == old(chain)
      ensures old(freeHead_).None? ==> free == {} && s.batch == currentBatch_
      ensures chain == old(chain) || (|chain| == |old(chain)| + 1 && chain[1..] == old(chain))
    {
      if freeHead_.Some? {
        s := freeHead_.value;
        freeHead_ := memory[s];
        free := free - {s};
        live := live + {s};
        assert Used(s);
        return;
      }
      if currentBatch_.used_ == currentBatch_.end_ {
        FindRoom();
      }
      s := TakeFromPage();
    }

    method TakeFromPage() returns (s: Slot)
      requires Valid() && freeHead_.None? && currentBatch_.used_ < currentBatch_.end_
      modifies `live, currentBatch_`used_
      ensures Valid() && s !in old(live) && live == old(live) + {s}
      ensures s.batch == currentBatch_ && s.batch in chain && s.index < s.batch.end_
    {
      s := Slot(currentBatch_, currentBatch_.used_);
      assert !Used(s);
      currentBatch_.used_ := currentBatch_.used_ + 1;
      live := live + {s};
      assert chain[0] == s.batch;
      assert Used(s);
    }

    /** The pages after the full current one are full as well, so the walk ends at the end of
      * the list and a new page is put in front. */
    method FindRoom()
      requires Valid() && freeHead_.None? && currentBatch_.used_ == currentBatch_.end_
      modifies `batches_, `currentBatch_, `chain
      ensures Valid() && currentBatch_.used_ < currentBatch_.end_ && fresh(currentBatch_)
      ensures chain == [currentBatch_] + old(chain)
    {
      var batch := currentBatch_.next_;
      ghost var at := 1;
      while batch != null && batch.used_ == batch.end_
        invariant 0 < at <= |chain|
        invariant batch == if at < |chain| then chain[at] else null
        decreases |chain| - at
      {
        assert chain[at].next_ == NextPage(chain, at);
        batch := batch.next_;
        at := at + 1;
      }
      assert batch == null;
      var page := new BatchInfo(objectsPerPage_);
      page.next_ := batches_;
      batches_ := page;
      currentBatch_ := page;
      chain := [page] + chain;
      forall i | 0 < i < |chain|
        ensures chain[i].next_ == NextPage(chain, i) && chain[i].used_ == chain[i].end_ && chain[i] != page
      {
        assert chain[i] == old(chain)[i - 1];
        assert NextPage(chain, i) == NextPage(old(chain), i - 1);
      }
      assert PagesOk();
      assert forall b :: b in chain <==> b == page || b in old(chain);
    }

    /** Puts the slot at the head of the free list. */
    method Release(s: Slot)
      requires Valid() && s in live
      modifies `memory, `freeHead_, `free, `live
      ensures Valid() && live == old(live) - {s} && free == old(free) + {s} && freeHead_ == Some(s)
    {
      FreeListFrame(memory, freeHead_, free, s, freeHead_);
      memory := memory[s := freeHead_];
      freeHead_ := Some(s);
      free := free + {s};
      live := live - {s};
      assert free - {s} == old(free);
    }

    /** The holder of a live slot writes to it; the free list does not run through it. */
    method Overwrite(s: Slot, word: Option<Slot>)
      requires Valid() && s in live
      modifies `memory
      ensures Valid()
    {
      FreeListFrame(memory, freeHead_, free, s, word);
      memory := memory[s := word];
    }
  }
}
