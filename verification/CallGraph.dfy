/** The profiler's call graph: lists of functions and of the arcs into each, kept in memory that the
    slab allocator hands out. */
module CallGraph {
  import opened Heap
  import opened Words

  const HASH_BUCKETS := 64
  /** The size of struct mcount_fn_entry and of struct mcount_fn_arc. */
  const NODE := 12

  /** Memory by word addresses. */
  type Memory = map<u32, u32>

  function Load(mem: Memory, a: u32): u32 {
    if a in mem then mem[a] else 0
  }

  // ---- Nodes and lists ----

  /** Offsets of the fields: next, then self_pc or from_pc, then arc_head or count. */
  function Next(mem: Memory, node: u32): u32 {
    Load(mem, node)
  }

  function Pc(mem: Memory, node: u32): u32
    requires node + NODE < WORD
  {
    Load(mem, node + 4)
  }

  function Third(mem: Memory, node: u32): u32
    requires node + NODE < WORD
  {
    Load(mem, node + 8)
  }

  /** A list in memory: its head and the addresses of its nodes. */
  predicate List(mem: Memory, head: u32, nodes: seq<u32>) {
    && head == At(nodes, 0)
    && forall i | 0 <= i < |nodes| :: nodes[i] != 0 && Next(mem, nodes[i]) == At(nodes, i + 1)
  }

  function At(nodes: seq<u32>, i: nat): u32 {
    if i < |nodes| then nodes[i] else 0
  }

  predicate IsNode(node: u32) {
    0 < node && node + NODE < WORD
  }

  predicate Separate(a: u32, b: u32) {
    a != b ==> a + NODE <= b || b + NODE <= a
  }

  /** The nodes: functions by bucket, and the arcs into each function. */
  datatype Graph = Graph(buckets: seq<seq<u32>>, arcs: map<u32, seq<u32>>)

  predicate Linked(mem: Memory, heads: seq<u32>, g: Graph, nodes: set<u32>) {
    && |heads| == |g.buckets| == HASH_BUCKETS
    && (forall x | x in nodes :: IsNode(x))
    && (forall x, y | x in nodes && y in nodes :: Separate(x, y))
    && g.arcs.Keys <= nodes
    && (forall b | 0 <= b < HASH_BUCKETS ::
          List(mem, heads[b], g.buckets[b]) && forall i | 0 <= i < |g.buckets[b]| :: g.buckets[b][i] in g.arcs)
    && (forall f | f in g.arcs :: ArcsLinked(mem, g, nodes, f))
  }

  predicate ArcsLinked(mem: Memory, g: Graph, nodes: set<u32>, f: u32)
    requires f in g.arcs
  {
    && IsNode(f) && List(mem, Third(mem, f), g.arcs[f])
    && forall i | 0 <= i < |g.arcs[f]| :: g.arcs[f][i] in nodes && g.arcs[f][i] !in g.arcs
  }

  // ---- Adding a node ----

  function Fill(mem: Memory, node: u32, next: u32, pc: u32, third: u32): Memory
    requires IsNode(node)
  {
    mem[node := next][node + 4 := pc][node + 8 := third]
  }

  lemma Filled(mem: Memory, node: u32, next: u32, pc: u32, third: u32, x: u32)
    requires IsNode(node) && IsNode(x) && Separate(node, x)
    ensures var after := Fill(mem, node, next, pc, third);
            if x == node then Next(after, x) == next && Pc(after, x) == pc && Third(after, x) == third
            else Next(after, x) == Next(mem, x) && Pc(after, x) == Pc(mem, x) && Third(after, x) == Third(mem, x)
  {}

  lemma HeadStored(mem: Memory, f: u32, v: u32, x: u32)
    requires IsNode(f) && IsNode(x) && Separate(f, x)
    ensures var after := mem[f + 8 := v];
            && Next(after, x) == Next(mem, x) && Pc(after, x) == Pc(mem, x)
            && Third(after, x) == if x == f then v else Third(mem, x)
  {}

  lemma ListKept(mem: Memory, after: Memory, head: u32, nodes: seq<u32>)
    requires List(mem, head, nodes) && forall i | 0 <= i < |nodes| :: Next(after, nodes[i]) == Next(mem, nodes[i])
    ensures List(after, head, nodes)
  {}

  lemma ListPushed(mem: Memory, head: u32, nodes: seq<u32>, node: u32)
    requires List(mem, head, nodes) && node != 0 && Next(mem, node) == head
    ensures List(mem, node, [node] + nodes)
  {}

  predicate Fresh(nodes: set<u32>, node: u32) {
    IsNode(node) && node !in nodes && forall x | x in nodes :: Separate(node, x)
  }

  /** Every node but one is as it was. */
  predicate Kept(mem: Memory, after: Memory, nodes: set<u32>, but: u32) {
    forall x | x in nodes && IsNode(x) ::
      && Next(after, x) == Next(mem, x) && Pc(after, x) == Pc(mem, x)
      && (x != but ==> Third(after, x) == Third(mem, x))
  }

  function PushFn(g: Graph, b: nat, f: u32): Graph
    requires b < |g.buckets|
  {
    Graph(g.buckets[b := [f] + g.buckets[b]], g.arcs[f := []])
  }

  /** A new function at the head of its bucket; the others and all arcs are where they were. */
  lemma FnAdded(mem: Memory, heads: seq<u32>, g: Graph, nodes: set<u32>, b: nat, self: u32, f: u32)
    requires Linked(mem, heads, g, nodes) && b < HASH_BUCKETS && Fresh(nodes, f)
    ensures var after := Fill(mem, f, heads[b], self, 0);
            && Linked(after, heads[b := f], PushFn(g, b, f), nodes + {f})
            && Pc(after, f) == self && Third(after, f) == 0 && Kept(mem, after, nodes, f)
  {
    hide Fill, Next, Pc, Third, List, Separate;
    var after, h := Fill(mem, f, heads[b], self, 0), PushFn(g, b, f);
    forall x | x in nodes + {f}
      ensures if x == f then Next(after, x) == heads[b] && Pc(after, x) == self && Third(after, x) == 0
              else Next(after, x) == Next(mem, x) && Pc(after, x) == Pc(mem, x) && Third(after, x) == Third(mem, x)
    {
      SeparateSelf(f);
      Filled(mem, f, heads[b], self, 0, x);
    }
    forall c | 0 <= c < HASH_BUCKETS
      ensures List(after, heads[b := f][c], h.buckets[c])
      ensures forall i | 0 <= i < |h.buckets[c]| :: h.buckets[c][i] in h.arcs
    {
      assert List(mem, heads[c], g.buckets[c]);
      ListKept(mem, after, heads[c], g.buckets[c]);
      if c == b {
        ListPushed(after, heads[b], g.buckets[b], f);
      }
    }
    forall k | k in h.arcs
      ensures ArcsLinked(after, h, nodes + {f}, k)
    {
      if k == f {
        EmptyList(after);
      } else {
        assert ArcsLinked(mem, g, nodes, k);
        ListKept(mem, after, Third(mem, k), g.arcs[k]);
      }
    }
    AllSeparate(nodes, f);
  }

  lemma SeparateSelf(f: u32)
    ensures Separate(f, f)
  {}

  lemma EmptyList(mem: Memory)
    ensures List(mem, 0, [])
  {}

  lemma AllSeparate(nodes: set<u32>, f: u32)
    requires Fresh(nodes, f) && forall x, y | x in nodes && y in nodes :: Separate(x, y)
    ensures forall x, y | x in nodes + {f} && y in nodes + {f} :: Separate(x, y)
  {}

  function PushArc(g: Graph, f: u32, arc: u32): Graph
    requires f in g.arcs
  {
    g.(arcs := g.arcs[f := [arc] + g.arcs[f]])
  }

  function StoreArc(mem: Memory, f: u32, from: u32, arc: u32): Memory
    requires IsNode(f) && IsNode(arc)
  {
    Fill(mem, arc, Third(mem, f), from, 1)[f + 8 := arc]
  }

  /** A new arc, called once so far, at the head of its function's list; all else is where it was. */
  lemma ArcAdded(mem: Memory, heads: seq<u32>, g: Graph, nodes: set<u32>, f: u32, from: u32, arc: u32)
    requires Linked(mem, heads, g, nodes) && f in g.arcs && Fresh(nodes, arc)
    ensures IsNode(f)
    ensures var after := StoreArc(mem, f, from, arc);
            && Linked(after, heads, PushArc(g, f, arc), nodes + {arc})
            && Pc(after, arc) == from && Third(after, arc) == 1 && Kept(mem, after, nodes, f)
  {
    assert ArcsLinked(mem, g, nodes, f);
    hide Fill, Next, Pc, Third, List, Separate;
    var mid, after, h := Fill(mem, arc, Third(mem, f), from, 1), StoreArc(mem, f, from, arc), PushArc(g, f, arc);
    forall x | x in nodes + {arc}
      ensures if x == arc then Next(after, x) == Third(mem, f) && Pc(after, x) == from && Third(after, x) == 1
              else Next(after, x) == Next(mem, x) && Pc(after, x) == Pc(mem, x) &&
                   Third(after, x) == if x == f then arc else Third(mem, x)
    {
      SeparateSelf(arc);
      AllSeparate(nodes, arc);
      Filled(mem, arc, Third(mem, f), from, 1, x);
      HeadStored(mid, f, arc, x);
    }
    forall c | 0 <= c < HASH_BUCKETS
      ensures List(after, heads[c], h.buckets[c])
    {
      assert List(mem, heads[c], g.buckets[c]);
      ListKept(mem, after, heads[c], g.buckets[c]);
    }
    forall k | k in h.arcs
      ensures ArcsLinked(after, h, nodes + {arc}, k)
    {
      assert ArcsLinked(mem, g, nodes, k);
      ListKept(mem, after, Third(mem, k), g.arcs[k]);
      if k == f {
        ListPushed(after, Third(mem, f), g.arcs[f], arc);
      }
    }
    AllSeparate(nodes, arc);
  }

  /** No arc is in the lists of two functions. */
  predicate ArcsApart(g: Graph) {
    forall f, h, i | f in g.arcs && h in g.arcs && f != h && 0 <= i < |g.arcs[f]| :: g.arcs[f][i] !in g.arcs[h]
  }

  lemma PushKeepsApart(mem: Memory, heads: seq<u32>, g: Graph, nodes: set<u32>, f: u32, arc: u32)
    requires Linked(mem, heads, g, nodes) && ArcsApart(g) && f in g.arcs && arc !in nodes
    ensures ArcsApart(PushArc(g, f, arc))
  {}

  lemma PushFnApart(g: Graph, b: nat, f: u32)
    requires ArcsApart(g) && b < |g.buckets|
    ensures ArcsApart(PushFn(g, b, f))
  {}

  /** A block that is apart from the blocks of all nodes is a fresh node. */
  lemma BlockIsFresh(given: seq<Block>, nodes: set<u32>, a: u32)
    requires IsNode(a) && (forall x | x in nodes :: Block(x, NODE) in given) && AllDisjoint(given, Block(a, NODE))
    ensures Fresh(nodes, a)
  {}
}
