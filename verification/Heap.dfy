/** The heap break of alt_sbrk.c and the slab allocator of alt_gmon.c on top of it. */
module Heap {
  import opened Words

  const MCOUNT_SLAB_INCREMENT := 1020

  /** The pointer (caddr_t)-1. */
  const FAILED: u32 := WORD - 1

  datatype Block = Block(addr: u32, size: nat)

  predicate Disjoint(a: Block, b: Block) {
    a.addr + a.size <= b.addr || b.addr + b.size <= a.addr
  }

  predicate Inside(a: Block, b: Block) {
    b.addr <= a.addr && a.addr + a.size <= b.addr + b.size
  }

  /** (x + 3) & ~3 */
  function Align(x: u32): u32 {
    (x + 3) % WORD / 4 * 4
  }

  /** Where the break would be after a request; pointers wrap around. */
  function Top(end: u32, incr: int): u32 {
    (Align(end) + incr) % WORD
  }

  predicate Granted(end: u32, limit: u32, incr: int) {
    Top(end, incr) <= limit
  }

  /** The check against the limit is right exactly when the sum does not wrap around. */
  lemma GrantIsWithin(end: u32, limit: u32, incr: nat)
    requires incr < 0x8000_0000 && Granted(end, limit, incr)
    ensures Align(end) + incr <= limit <==> Align(end) + incr < WORD
  {}

  /** It never does while the heap is in the lower half of the address space; above it, a request
      can wrap around and be granted beyond the limit. */
  lemma LowHeapNeverWraps(end: u32, limit: u32, incr: nat)
    requires incr < 0x8000_0000 && limit <= 0x8000_0000 - 4 && end <= Align(limit)
    ensures Granted(end, limit, incr) <==> Align(end) + incr <= limit
    ensures Top(end, incr) == Align(end) + incr
    ensures end <= Align(end) <= Align(limit) && Align(end) % 4 == 0 && limit <= Align(limit) < WORD
  {}

  /** The least multiple of four from a pointer on, or zero at the top of the address space. */
  lemma AlignIsLeast(x: u32, y: nat)
    ensures Align(x) % 4 == 0
    ensures if x <= WORD - 4 then x <= Align(x) && (x <= y && y % 4 == 0 ==> Align(x) <= y) else Align(x) == 0
  {}

  /** Memory given back lowers the aligned break by as much, whatever the limit was passed by. */
  lemma GivenBack(end: u32, limit: u32, decr: int)
    requires 0 <= decr <= Align(end) <= Align(limit)
    ensures Top(end, -decr) == Align(end) - decr
    ensures Granted(end, limit, -decr) <==> Align(end) - decr <= limit
  {}

  lemma HighHeapWraps()
    ensures Granted(0xA000_0000, 0xC000_0000, 0x7000_0000)
    ensures Align(0xA000_0000) + 0x7000_0000 > 0xC000_0000
  {}

  // ---- What every run of requests keeps ----

  /** The allocator's variables, with the blocks handed out so far. A slab is lost when the request
      for it failed: its pointer is then (caddr_t)-1 and what is cut from it is not memory. */
  datatype State = State(end: u32, slab: Block, lost: bool, given: seq<Block>)

  datatype Region = Region(start: u32, limit: u32)

  predicate Low(r: Region) {
    r.start <= r.limit <= 0x8000_0000 - 4
  }

  predicate Placed(r: Region, end: u32, b: Block) {
    b.addr % 4 == 0 && r.start <= b.addr && b.addr + b.size <= r.limit && b.addr + b.size <= end
  }

  predicate AllPlaced(r: Region, end: u32, given: seq<Block>) {
    forall i | 0 <= i < |given| :: Placed(r, end, given[i])
  }

  predicate Apart(given: seq<Block>) {
    forall i, j | 0 <= i < j < |given| :: Disjoint(given[i], given[j])
  }

  predicate AllDisjoint(given: seq<Block>, b: Block) {
    forall i | 0 <= i < |given| :: Disjoint(given[i], b)
  }

  /** What is left of a slab that began at the pointer -1. */
  predicate LostAt(slab: Block) {
    slab.size <= MCOUNT_SLAB_INCREMENT && slab.addr == (FAILED + MCOUNT_SLAB_INCREMENT - slab.size) % WORD
  }

  predicate Inv(r: Region, s: State) {
    && Low(r) && r.start <= s.end <= Align(r.limit)
    && AllPlaced(r, s.end, s.given) && Apart(s.given)
    && s.slab.size <= MCOUNT_SLAB_INCREMENT && s.slab.size % 4 == 0
    && (!s.lost && s.slab.size > 0 ==> Placed(r, s.end, s.slab) && AllDisjoint(s.given, s.slab))
    && (s.lost ==> LostAt(s.slab) && !Granted(s.end, r.limit, MCOUNT_SLAB_INCREMENT))
  }

  /** sbrk, for a caller who keeps the block. */
  function Sbrk(r: Region, s: State, incr: nat): (State, u32) {
    var at := Align(s.end);
    if Granted(s.end, r.limit, incr) then
      (s.(end := Top(s.end, incr), given := s.given + [Block(at, incr)]), at)
    else (s.(end := at), FAILED)
  }

  /** mcount_allocate asks for a new slab when the one that it has is too small. */
  function Refill(r: Region, s: State, size: nat): State {
    if size <= s.slab.size then s else
      var at := Align(s.end);
      if Granted(s.end, r.limit, MCOUNT_SLAB_INCREMENT) then
        s.(end := Top(s.end, MCOUNT_SLAB_INCREMENT), slab := Block(at, MCOUNT_SLAB_INCREMENT), lost := false)
      else s.(end := at, slab := Block(FAILED, MCOUNT_SLAB_INCREMENT), lost := true)
  }

  function Cut(s: State, size: nat): State
    requires size <= s.slab.size
  {
    var rest := Block((s.slab.addr + size) % WORD, s.slab.size - size);
    if s.lost then s.(slab := rest)
    else s.(slab := rest, given := s.given + [Block(s.slab.addr, size)])
  }

  function Allocate(r: Region, s: State, size: nat): (State, u32)
    requires size <= MCOUNT_SLAB_INCREMENT
  {
    var t := Refill(r, s, size);
    (Cut(t, size), t.slab.addr)
  }

  /** Will mcount_allocate return memory? */
  predicate HasRoom(r: Region, s: State, size: nat) {
    if size <= s.slab.size then !s.lost else Granted(s.end, r.limit, MCOUNT_SLAB_INCREMENT)
  }

  lemma PlacedHigher(r: Region, end: u32, end': u32, given: seq<Block>)
    requires AllPlaced(r, end, given) && end <= end'
    ensures AllPlaced(r, end', given)
  {}

  lemma AboveAll(r: Region, end: u32, given: seq<Block>, b: Block)
    requires AllPlaced(r, end, given) && end <= b.addr
    ensures AllDisjoint(given, b)
  {}

  lemma OneMore(r: Region, end: u32, given: seq<Block>, b: Block)
    requires AllPlaced(r, end, given) && Apart(given) && AllDisjoint(given, b) && Placed(r, end, b)
    ensures AllPlaced(r, end, given + [b]) && Apart(given + [b])
  {}

  /** A granted block lies above everything below the break. */
  lemma Extend(r: Region, s: State, incr: nat)
    requires Inv(r, s) && incr < 0x8000_0000
    ensures var at := Align(s.end);
            && s.end <= at && at <= Align(r.limit)
            && (Granted(s.end, r.limit, incr) ==>
                && Top(s.end, incr) == at + incr <= r.limit <= Align(r.limit)
                && Placed(r, at + incr, Block(at, incr)) && AllDisjoint(s.given, Block(at, incr))
                && AllPlaced(r, at + incr, s.given)
                && (s.slab.size > 0 && !s.lost ==> Placed(r, at + incr, s.slab) && Disjoint(Block(at, incr), s.slab)))
            && AllPlaced(r, at, s.given) && (s.slab.size > 0 && !s.lost ==> Placed(r, at, s.slab))
  {
    LowHeapNeverWraps(s.end, r.limit, incr);
    hide Align, AllPlaced, Apart, AllDisjoint;
    var at := Align(s.end);
    PlacedHigher(r, s.end, at, s.given);
    if Granted(s.end, r.limit, incr) {
      AboveAll(r, s.end, s.given, Block(at, incr));
      PlacedHigher(r, s.end, at + incr, s.given);
    }
  }

  /** Once a slab has been refused, so is every later one. */
  lemma RefusedAgain(r: Region, end: u32, end': u32)
    requires Low(r) && end <= Align(end) <= end' <= Align(r.limit) && !Granted(end, r.limit, MCOUNT_SLAB_INCREMENT)
    ensures !Granted(end', r.limit, MCOUNT_SLAB_INCREMENT)
  {
    LowHeapNeverWraps(end, r.limit, MCOUNT_SLAB_INCREMENT);
    LowHeapNeverWraps(end', r.limit, MCOUNT_SLAB_INCREMENT);
  }

  lemma SbrkKeepsInv(r: Region, s: State, incr: nat)
    requires Inv(r, s) && incr < 0x8000_0000
    ensures Inv(r, Sbrk(r, s, incr).0)
  {
    hide AllPlaced, Apart, Align, Placed, Granted, LostAt;
    Extend(r, s, incr);
    var at, t := Align(s.end), Sbrk(r, s, incr).0;
    if s.lost {
      RefusedAgain(r, s.end, t.end);
    }
    if Granted(s.end, r.limit, incr) {
      OneMore(r, at + incr, s.given, Block(at, incr));
      OneDisjoint(s.given, Block(at, incr), s.slab);
    }
  }

  lemma OneDisjoint(given: seq<Block>, b: Block, c: Block)
    ensures Disjoint(b, c) && AllDisjoint(given, c) ==> AllDisjoint(given + [b], c)
  {}

  lemma RefillKeepsInv(r: Region, s: State, size: nat)
    requires Inv(r, s) && size <= MCOUNT_SLAB_INCREMENT
    ensures Inv(r, Refill(r, s, size)) && size <= Refill(r, s, size).slab.size
    ensures Refill(r, s, size).lost <==> !HasRoom(r, s, size)
  {
    hide AllPlaced, Apart, AllDisjoint, Align, Granted, Top;
    if size > s.slab.size {
      Extend(r, s, MCOUNT_SLAB_INCREMENT);
      if !Granted(s.end, r.limit, MCOUNT_SLAB_INCREMENT) {
        RefusedAgain(r, s.end, Align(s.end));
      }
    }
  }

  lemma LostCut(slab: Block, size: nat)
    requires size <= slab.size
    ensures LostAt(slab) ==> LostAt(Block((slab.addr + size) % WORD, slab.size - size))
  {}

  lemma CutKeepsInv(r: Region, s: State, size: nat)
    requires Inv(r, s) && 0 < size <= s.slab.size && size % 4 == 0
    ensures Inv(r, Cut(s, size))
  {
    hide AllPlaced, Apart, AllDisjoint, Align, LostAt;
    LostCut(s.slab, size);
    if !s.lost {
      var b, rest := Block(s.slab.addr, size), Cut(s, size).slab;
      InsideDisjoint(s.given, s.slab, b);
      InsideDisjoint(s.given, s.slab, rest);
      OneMore(r, s.end, s.given, b);
      OneDisjoint(s.given, b, rest);
    }
  }

  lemma InsideDisjoint(given: seq<Block>, whole: Block, part: Block)
    requires AllDisjoint(given, whole) && Inside(part, whole)
    ensures AllDisjoint(given, part)
  {}

  predicate Outside(r: Region, a: u32) {
    a < r.start || a > r.limit
  }

  /** What is cut from a lost slab lies around address zero, outside any heap that starts above it. */
  lemma LostIsOutside(r: Region, s: State, size: nat)
    requires Inv(r, s) && s.lost && 0 < size <= s.slab.size && r.start >= MCOUNT_SLAB_INCREMENT
    ensures Outside(r, s.slab.addr)
  {}

  /** mcount_allocate keeps everything in place, and returns new memory exactly when there is room. */
  lemma AllocateKeepsInv(r: Region, s: State, size: nat)
    requires Inv(r, s) && 0 < size <= MCOUNT_SLAB_INCREMENT && size % 4 == 0
    ensures var (t, data) := Allocate(r, s, size);
            && Inv(r, t)
            && t.given == (if HasRoom(r, s, size) then s.given + [Block(data, size)] else s.given)
            && (t.lost <==> !HasRoom(r, s, size))
            && (HasRoom(r, s, size) ==>
                AllDisjoint(s.given, Block(data, size)) && Placed(r, r.limit, Block(data, size)))
            && (r.start >= MCOUNT_SLAB_INCREMENT ==> (Outside(r, data) <==> !HasRoom(r, s, size)))
  {
    hide Inv;
    RefillKeepsInv(r, s, size);
    CutKeepsInv(r, Refill(r, s, size), size);
    if HasRoom(r, s, size) {
      LastIsNew(r, Allocate(r, s, size).0, s.given, Block(Allocate(r, s, size).1, size));
    } else if r.start >= MCOUNT_SLAB_INCREMENT {
      LostIsOutside(r, Refill(r, s, size), size);
    }
  }

  /** Without room there is none later. */
  lemma LostStaysLost(r: Region, s: State, size: nat)
    requires Inv(r, s) && 0 < size <= MCOUNT_SLAB_INCREMENT && size % 4 == 0 && !HasRoom(r, s, size)
    ensures !HasRoom(r, Allocate(r, s, size).0, size)
  {
    hide AllPlaced, Apart, AllDisjoint, Granted, LostAt;
    AllocateKeepsInv(r, s, size);
  }

  /** Nothing is wasted: a block is cut from where the last one ended while the slab suffices, and otherwise
      from the start of a new slab at the aligned break. */
  lemma CutWhereLastEnded(r: Region, s: State, size: nat)
    requires Inv(r, s) && 0 < size <= MCOUNT_SLAB_INCREMENT && HasRoom(r, s, size)
    ensures var (t, data) := Allocate(r, s, size);
            && (size <= s.slab.size ==> data == s.slab.addr && t.end == s.end && t.slab.size == s.slab.size - size)
            && (size > s.slab.size ==> data == Align(s.end) && t.end == data + 1020 && t.slab.size == 1020 - size)
            && t.slab.addr == data + size
  {
    if size > s.slab.size {
      LowHeapNeverWraps(s.end, r.limit, MCOUNT_SLAB_INCREMENT);
    }
  }

  lemma LastIsNew(r: Region, t: State, given: seq<Block>, b: Block)
    requires Inv(r, t) && t.given == given + [b]
    ensures AllDisjoint(given, b) && Placed(r, r.limit, b)
  {
    assert t.given[|given|] == b;
    forall i | 0 <= i < |given|
      ensures Disjoint(given[i], b)
    {
      assert t.given[i] == given[i];
    }
  }

  // ---- Runs ----

  datatype Request = BreakBy(incr: nat) | Mcount(size: nat)

  predicate Can(q: Request) {
    match q
    case BreakBy(incr) => incr < 0x8000_0000
    case Mcount(size) => 0 < size <= MCOUNT_SLAB_INCREMENT && size % 4 == 0
  }

  function Do(r: Region, s: State, q: Request): State
    requires Can(q)
  {
    match q
    case BreakBy(incr) => Sbrk(r, s, incr).0
    case Mcount(size) => Allocate(r, s, size).0
  }

  function After(r: Region, qs: seq<Request>): State
    requires forall k | 0 <= k < |qs| :: Can(qs[k])
  {
    if qs == [] then State(r.start, Block(0, 0), false, []) else Do(r, After(r, qs[..|qs| - 1]), qs[|qs| - 1])
  }

  /** After any run of the two kinds of requests all blocks handed out are word-aligned, within the
      heap and pairwise disjoint. */
  lemma {:induction false} BlocksNeverOverlap(r: Region, qs: seq<Request>)
    requires Low(r) && forall k | 0 <= k < |qs| :: Can(qs[k])
    ensures Inv(r, After(r, qs))
    ensures forall i | 0 <= i < |After(r, qs).given| :: Placed(r, r.limit, After(r, qs).given[i])
    ensures Apart(After(r, qs).given)
  {
    if qs == [] {
      LowHeapNeverWraps(r.start, r.limit, 0);
    } else {
      hide Inv;
      BlocksNeverOverlap(r, qs[..|qs| - 1]);
      var s := After(r, qs[..|qs| - 1]);
      match qs[|qs| - 1]
      case BreakBy(incr) => SbrkKeepsInv(r, s, incr);
      case Mcount(size) => AllocateKeepsInv(r, s, size);
    }
    InvMeans(r, After(r, qs));
  }

  lemma InvMeans(r: Region, s: State)
    requires Inv(r, s)
    ensures Apart(s.given) && forall i | 0 <= i < |s.given| :: Placed(r, r.limit, s.given[i])
  {}
}
