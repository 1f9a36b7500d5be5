/** The code of sbrk, of the slab allocator and of the profiler that uses them. */
module Profiler {
  import opened CallGraph
  import opened Heap
  import opened Words

  class Allocator {
    const region: Region
    var heapEnd: u32
    var slabPtr: u32
    var slabSize: int
    ghost var lost: bool
    ghost var given: seq<Block>

    ghost function View(): State
      requires slabSize >= 0
      reads this
    {
      State(heapEnd, Block(slabPtr, slabSize), lost, given)
    }

    ghost predicate Valid()
      reads this
    {
      slabSize >= 0 && Inv(region, View())
    }

    constructor (start: u32, limit: u32)
      requires start <= limit <= 0x8000_0000 - 4
      ensures region == Region(start, limit) && Valid() && given == []
    {
      region := Region(start, limit);
      heapEnd, slabPtr, slabSize, lost, given := start, 0, 0, false, [];
      new;
      LowHeapNeverWraps(start, limit, 0);
    }

    /** ALT_SBRK; a negative increment gives memory back, and then nothing is promised about blocks. */
    method Sbrk(incr: int) returns (p: u32)
      requires Valid() && -0x8000_0000 <= incr < 0x8000_0000
      modifies this`heapEnd, this`given
      ensures incr >= 0 ==> Valid() && (View(), p) == Heap.Sbrk(region, old(View()), incr)
      ensures p == if Granted(old(heapEnd), region.limit, incr) then Align(old(heapEnd)) else FAILED
      ensures heapEnd ==
              if Granted(old(heapEnd), region.limit, incr) then Top(old(heapEnd), incr) else Align(old(heapEnd))
    {
      if incr >= 0 {
        SbrkKeepsInv(region, View(), incr);
      }
      hide Inv, Align;
      heapEnd := Align(heapEnd);
      assert Align(heapEnd) == heapEnd by { AlignTwice(old(heapEnd)); }
      if (heapEnd + incr) % WORD > region.limit {
        return FAILED;
      }
      var prevHeapEnd := heapEnd;
      heapEnd := (heapEnd + incr) % WORD;
      given := if incr >= 0 then given + [Block(prevHeapEnd, incr)] else given;
      return prevHeapEnd;
    }

    /** mcount_allocate */
    method Allocate(size: nat) returns (data: u32)
      requires Valid() && 0 < size <= MCOUNT_SLAB_INCREMENT && size % 4 == 0
      modifies this
      ensures Valid() && (View(), data) == Heap.Allocate(region, old(View()), size)
    {
      AllocateKeepsInv(region, View(), size);
      hide Inv, Align;
      if size > slabSize {
        ghost var was := given;
        slabPtr := Sbrk(MCOUNT_SLAB_INCREMENT);
        slabSize := MCOUNT_SLAB_INCREMENT;
        // the slab is the allocator's own; what is cut from it is handed out
        given, lost := was, slabPtr == FAILED;
      }
      data := slabPtr;
      slabPtr := (slabPtr + size) % WORD;
      slabSize := slabSize - size;
      given := if lost then given else given + [Block(data, size)];
    }
  }

  class Recorder {
    const slabs: Allocator
    /** __mcount_fn_head */
    const heads: array<u32>
    var mem: Memory
    ghost var g: Graph
    ghost var nodes: set<u32>

    ghost predicate Valid()
      reads this, slabs, heads
    {
      && slabs.Valid() && slabs.region.start > 0 && heads.Length == HASH_BUCKETS
      && Linked(mem, heads[..], g, nodes) && ArcsApart(g)
      && forall x | x in nodes :: Block(x, NODE) in slabs.given
    }

    constructor (slabs: Allocator)
      requires slabs.Valid() && slabs.region.start > 0
      ensures Valid() && fresh(heads) && this.slabs == slabs && g == Graph(seq(HASH_BUCKETS, i => []), map[])
    {
      this.slabs := slabs;
      heads := new u32[HASH_BUCKETS](_ => 0);
      mem := map[];
      g, nodes := Graph(seq(HASH_BUCKETS, i => []), map[]), {};
      new;
      assert forall b | 0 <= b < HASH_BUCKETS :: List(mem, heads[..][b], g.buckets[b]);
    }

    ghost predicate HasRoom()
      requires slabs.Valid()
      reads slabs
    {
      Heap.HasRoom(slabs.region, slabs.View(), NODE)
    }

    /** Will __mcount_record find the memory that it needs? */
    ghost predicate HasRoomFor(fnEntry: u32)
      requires slabs.Valid()
      reads slabs
    {
      && HasRoom()
      && (fnEntry == 0 ==> Heap.HasRoom(slabs.region, Heap.Allocate(slabs.region, slabs.View(), NODE).0, NODE))
    }

    /** A node from the slab allocator, outside the heap exactly when there is no room for it. */
    method NewNode() returns (node: u32)
      requires slabs.Valid()
      modifies slabs
      ensures slabs.Valid() && slabs.View() == Heap.Allocate(slabs.region, old(slabs.View()), NODE).0
      ensures slabs.region.start >= MCOUNT_SLAB_INCREMENT ==> (Outside(slabs.region, node) <==> !old(HasRoom()))
      ensures old(Valid() && HasRoom()) ==> Valid() && Fresh(nodes, node) && Block(node, NODE) in slabs.given
    {
      hide Linked, ArcsApart, Inv, Heap.HasRoom;
      AllocateKeepsInv(slabs.region, slabs.View(), NODE);
      ghost var given := slabs.given;
      node := slabs.Allocate(NODE);
      if old(Valid() && HasRoom()) {
        assert IsNode(node);
        BlockIsFresh(given, nodes, node);
        assert slabs.given[|given|] == Block(node, NODE);
        assert forall x | x in nodes :: Block(x, NODE) in slabs.given;
      }
    }

    /** The first half of __mcount_record: a function that is not in its bucket yet. */
    method AddFn(selfPc: u32, fnHead: nat) returns (fn: u32)
      requires Valid() && fnHead < HASH_BUCKETS
      modifies this`mem, this`g, this`nodes, slabs, heads
      ensures slabs.Valid() && slabs.View() == Heap.Allocate(slabs.region, old(slabs.View()), NODE).0
      ensures old(HasRoom()) ==>
              && Valid() && fn !in old(nodes) && nodes == old(nodes) + {fn} && IsNode(fn)
              && g == PushFn(old(g), fnHead, fn) && Pc(mem, fn) == selfPc && Kept(old(mem), mem, old(nodes), fn)
              && FnStored(mem, fn, selfPc, old(heads[fnHead])) && Load(mem, fn + 8) == 0 && heads[fnHead] == fn
    {
      fn := NewNode();
      ghost var room := old(HasRoom());
      if room {
        FnPlaced(mem, heads[..], g, nodes, slabs.given, fnHead, selfPc, fn);
      }
      hide Linked, ArcsApart, Fresh, Fill, Inv, Kept, Heap.Allocate, HasRoom, FnStored;
      mem := mem[(fn + 4) % WORD := selfPc];
      mem := mem[(fn + 8) % WORD := 0];
      mem := mem[fn := heads[fnHead]];
      heads[fnHead] := fn;
      if room {
        g, nodes := PushFn(g, fnHead, fn), nodes + {fn};
      }
    }

    /** The second half of __mcount_record: a new arc into a function. */
    method AddArc(fnEntry: u32, fromPc: u32) returns (arc: u32)
      requires slabs.Valid()
      modifies this`mem, this`g, this`nodes, slabs
      ensures slabs.Valid()
      ensures slabs.region.start >= MCOUNT_SLAB_INCREMENT ==> (Outside(slabs.region, arc) <==> !old(HasRoom()))
      ensures old(Valid() && fnEntry in g.arcs && HasRoom()) ==>
              && Valid() && arc !in old(nodes) && nodes == old(nodes) + {arc} && IsNode(arc)
              && g == PushArc(old(g), fnEntry, arc) && Pc(mem, arc) == fromPc && Third(mem, arc) == 1
              && Kept(old(mem), mem, old(nodes), fnEntry)
              && ArcStored(mem, fnEntry, fromPc, arc, old(Load(mem, fnEntry + 8)))
    {
      arc := NewNode();
      ghost var room := old(Valid() && fnEntry in g.arcs && HasRoom());
      if room {
        ArcPlaced(mem, heads[..], g, nodes, slabs.given, fnEntry, fromPc, arc);
      }
      hide Linked, ArcsApart, Fresh, StoreArc, Inv, Kept, Heap.Allocate, HasRoom, ArcStored;
      mem := mem[(arc + 4) % WORD := fromPc];
      mem := mem[(arc + 8) % WORD := 1];
      mem := mem[arc := Load(mem, (fnEntry + 8) % WORD)];
      mem := mem[(fnEntry + 8) % WORD := arc];
      if room {
        g, nodes := PushArc(g, fnEntry, arc), nodes + {arc};
      }
    }

    /** __mcount_record: adds an arc from fromPc to the function fnEntry, or to a new function when
        fnEntry is null. When there is room, every list stays whole, no two share a node, and nothing
        else changes. When there is none, the source notices nothing and stores an arc outside the
        heap. */
    method Record(selfPc: u32, fromPc: u32, fnEntry: u32, fnHead: nat) returns (ghost fn: u32, ghost arc: u32)
      requires Valid() && fnHead < HASH_BUCKETS && (fnEntry != 0 ==> fnEntry in g.arcs)
      modifies this`mem, this`g, this`nodes, slabs, heads
      ensures slabs.Valid()
      ensures slabs.region.start >= MCOUNT_SLAB_INCREMENT ==>
              (Outside(slabs.region, arc) <==> !old(HasRoomFor(fnEntry)))
      ensures old(HasRoomFor(fnEntry)) ==>
              && Valid() && arc !in old(nodes) && IsNode(arc) && Pc(mem, arc) == fromPc && Third(mem, arc) == 1
              && (if fnEntry == 0 then fn !in old(nodes) && fn != arc && IsNode(fn) && Pc(mem, fn) == selfPc
                  else fn == fnEntry)
              && (var g1 := if fnEntry == 0 then PushFn(old(g), fnHead, fn) else old(g);
                  fn in g1.arcs && g == PushArc(g1, fn, arc))
              && Kept(old(mem), mem, old(nodes), fn)
              && ArcStored(mem, fn, fromPc, arc, if fnEntry == 0 then 0 else old(Load(mem, fnEntry + 8)))
              && (fnEntry == 0 ==> FnStored(mem, fn, selfPc, old(heads[fnHead])) && heads[fnHead] == fn)
    {
      hide Inv, Linked, ArcsApart;
      if !HasRoom() {
        LostStaysLost(slabs.region, slabs.View(), NODE);
      }
      var entry := fnEntry;
      if fnEntry == 0 {
        entry := AddFn(selfPc, fnHead);
      }
      fn := entry;
      ghost var before, known := mem, nodes;
      arc := AddArc(entry, fromPc);
      if fnEntry == 0 && old(HasRoomFor(fnEntry)) {
        FnStillStored(before, mem, known, fn, selfPc, old(heads[fnHead]));
      }
    }
  }

  /** A function node in memory, word by word: the next function of its bucket and its address. */
  predicate FnStored(mem: Memory, fn: u32, selfPc: u32, next: u32)
    requires IsNode(fn)
  {
    Load(mem, fn) == next && Load(mem, fn + 4) == selfPc
  }

  /** An arc node in memory, word by word: the next arc, the caller's address and the count; and its
      function's list of arcs. */
  predicate ArcStored(mem: Memory, fn: u32, fromPc: u32, arc: u32, next: u32)
    requires IsNode(fn) && IsNode(arc)
  {
    Load(mem, arc) == next && Load(mem, arc + 4) == fromPc && Load(mem, arc + 8) == 1 && Load(mem, fn + 8) == arc
  }

  lemma FillStores(mem: Memory, fn: u32, next: u32, selfPc: u32)
    requires IsNode(fn)
    ensures FnStored(Fill(mem, fn, next, selfPc, 0), fn, selfPc, next)
    ensures Load(Fill(mem, fn, next, selfPc, 0), fn + 8) == 0
  {}

  lemma StoreArcStores(mem: Memory, fn: u32, fromPc: u32, arc: u32)
    requires IsNode(fn) && IsNode(arc) && Separate(fn, arc) && fn != arc
    ensures ArcStored(StoreArc(mem, fn, fromPc, arc), fn, fromPc, arc, Load(mem, fn + 8))
  {}

  lemma FnStillStored(mem: Memory, after: Memory, nodes: set<u32>, fn: u32, selfPc: u32, next: u32)
    requires fn in nodes && IsNode(fn) && Kept(mem, after, nodes, fn) && FnStored(mem, fn, selfPc, next)
    ensures FnStored(after, fn, selfPc, next)
  {}

  lemma FillInAnyOrder(mem: Memory, node: u32, next: u32, pc: u32, third: u32)
    requires IsNode(node)
    ensures mem[(node + 4) % WORD := pc][(node + 8) % WORD := third][node := next] == Fill(mem, node, next, pc, third)
  {}

  lemma ArcStoredInAnyOrder(mem: Memory, f: u32, from: u32, arc: u32)
    requires IsNode(f) && IsNode(arc) && Separate(f, arc) && f != arc
    ensures var m := mem[(arc + 4) % WORD := from][(arc + 8) % WORD := 1];
            m[arc := Load(m, (f + 8) % WORD)][(f + 8) % WORD := arc] == StoreArc(mem, f, from, arc)
  {}

  lemma NodeAllotted(given: seq<Block>, nodes: set<u32>, node: u32)
    requires Fresh(nodes, node) && Block(node, NODE) in given && forall x | x in nodes :: Block(x, NODE) in given
    ensures IsNode(node) && node !in nodes && forall x | x in nodes + {node} :: Block(x, NODE) in given
  {}

  /** All that the stores of a function node do. */
  lemma FnPlaced(mem: Memory, heads: seq<u32>, g: Graph, nodes: set<u32>, given: seq<Block>, b: nat, self: u32, f: u32)
    requires Linked(mem, heads, g, nodes) && ArcsApart(g) && b < HASH_BUCKETS && Fresh(nodes, f)
    requires Block(f, NODE) in given && forall x | x in nodes :: Block(x, NODE) in given
    ensures IsNode(f) && f !in nodes && (forall x | x in nodes + {f} :: Block(x, NODE) in given)
    ensures var after := mem[(f + 4) % WORD := self][(f + 8) % WORD := 0][f := heads[b]];
            && Linked(after, heads[b := f], PushFn(g, b, f), nodes + {f}) && ArcsApart(PushFn(g, b, f))
            && Pc(after, f) == self && Kept(mem, after, nodes, f)
            && FnStored(after, f, self, heads[b]) && Load(after, f + 8) == 0
  {
    FnAdded(mem, heads, g, nodes, b, self, f);
    hide Fill, Kept, FnStored;
    FillInAnyOrder(mem, f, heads[b], self, 0);
    FillStores(mem, f, heads[b], self);
    PushFnApart(g, b, f);
    hide Linked, ArcsApart;
    NodeAllotted(given, nodes, f);
  }

  /** All that the stores of an arc node do. */
  lemma ArcPlaced(mem: Memory, heads: seq<u32>, g: Graph, nodes: set<u32>, given: seq<Block>,
                  f: u32, from: u32, arc: u32)
    requires Linked(mem, heads, g, nodes) && ArcsApart(g) && f in g.arcs && Fresh(nodes, arc)
    requires Block(arc, NODE) in given && forall x | x in nodes :: Block(x, NODE) in given
    ensures IsNode(f) && IsNode(arc) && arc !in nodes && (forall x | x in nodes + {arc} :: Block(x, NODE) in given)
    ensures var m := mem[(arc + 4) % WORD := from][(arc + 8) % WORD := 1];
            var after := m[arc := Load(m, (f + 8) % WORD)][(f + 8) % WORD := arc];
            && Linked(after, heads, PushArc(g, f, arc), nodes + {arc}) && ArcsApart(PushArc(g, f, arc))
            && Pc(after, arc) == from && Third(after, arc) == 1 && Kept(mem, after, nodes, f)
            && ArcStored(after, f, from, arc, Load(mem, f + 8))
  {
    assert f in nodes && Separate(f, arc) && f != arc;
    ArcAdded(mem, heads, g, nodes, f, from, arc);
    PushKeepsApart(mem, heads, g, nodes, f, arc);
    hide Fill, Kept, ArcStored, StoreArc, Linked, ArcsApart;
    ArcStoredInAnyOrder(mem, f, from, arc);
    StoreArcStores(mem, f, from, arc);
    NodeAllotted(given, nodes, arc);
  }

  lemma AlignTwice(x: u32)
    ensures Align(Align(x)) == Align(x)
  {}
}
