/** The complexity gate's depth measurement: a traversal with an explicit stack
    and early exit, over value graphs that may be cyclic. */
module DepthGate {
  import opened Values

  /** What an interface slot or pointer leads to: finitely many pointer hops,
      ending in nil or in a concrete value. */
  datatype Ref = Nil | Hop(inner: Ref) | At(cell: nat)

  datatype Field = Field(exported: bool, ref: Ref)

  /** A concrete value. Map values are listed in no particular order. */
  datatype Cell =
    | Scalar
    | MapCell(values: seq<Ref>)
    | SliceCell(items: seq<Ref>)
    | StructCell(fields: seq<Field>)

  /** A finite heap of values; cells may lead back to one another. */
  datatype Graph = Graph(cells: map<nat, Cell>)

  /** The concrete value behind a chain of hops. A cell outside the heap reads
      as nil. */
  function Resolve(g: Graph, r: Ref): (target: Option<nat>)
    ensures target.Some? ==> target.value in g.cells
  {
    match r
    case Nil => None
    case Hop(inner) => Resolve(g, inner)
    case At(id) => if id in g.cells then Some(id) else None
  }

  function Exported(fields: seq<Field>): seq<Ref> {
    if fields == [] then []
    else (if fields[0].exported then [fields[0].ref] else []) + Exported(fields[1..])
  }

  function Children(g: Graph, id: nat): seq<Ref>
    requires id in g.cells
  {
    match g.cells[id]
    case Scalar => []
    case MapCell(values) => values
    case SliceCell(items) => items
    case StructCell(fields) => Exported(fields)
  }

  // ---------------------------------------------------------------------
  // Depth
  // ---------------------------------------------------------------------

  /** A chain of d nested values starts at `r`. */
  ghost predicate Nested(g: Graph, r: Ref, d: nat)
    decreases d
  {
    d == 0 ||
    (Resolve(g, r).Some? &&
     (d == 1 || exists c :: c in Children(g, Resolve(g, r).value) && Nested(g, c, d - 1)))
  }

  lemma {:induction false} ExportedAre(fields: seq<Field>, r: Ref)
    ensures r in Exported(fields) <==> exists i :: 0 <= i < |fields| && fields[i].exported && fields[i].ref == r
  {
    if fields != [] {
      ExportedAre(fields[1..], r);
      if i :| 0 <= i < |fields| && fields[i].exported && fields[i].ref == r {
        assert i > 0 ==> fields[1..][i - 1] == fields[i];
      }
      if r in Exported(fields[1..]) {
        var i :| 0 <= i < |fields[1..]| && fields[1..][i].exported && fields[1..][i].ref == r;
        assert fields[i + 1] == fields[1..][i];
      }
    }
  }

  /** What nests in what: the values of a map, the elements of a slice or array and
      the exported fields of a struct, and nothing else. */
  lemma NestedByCell(g: Graph, id: nat, d: nat)
    requires d >= 1 && id in g.cells
    ensures Nested(g, At(id), d + 1) <==>
      match g.cells[id]
      case Scalar => false
      case MapCell(values) => exists i :: 0 <= i < |values| && Nested(g, values[i], d)
      case SliceCell(items) => exists i :: 0 <= i < |items| && Nested(g, items[i], d)
      case StructCell(fields) => exists i :: 0 <= i < |fields| && fields[i].exported && Nested(g, fields[i].ref, d)
  {
    assert Nested(g, At(id), d + 1) <==> exists c :: c in Children(g, id) && Nested(g, c, d);
    match g.cells[id] {
      case StructCell(fields) =>
        forall c
          ensures c in Children(g, id) <==> exists i :: 0 <= i < |fields| && fields[i].exported && fields[i].ref == c
        {
          ExportedAre(fields, c);
        }
      case _ =>
    }
  }

  /** A concrete value nests once by itself; pointer hops are free; nil does not
      nest, nor does a cell outside the heap. */
  lemma NestedByRef(g: Graph, r: Ref, d: nat)
    requires d >= 1
    ensures !Nested(g, Nil, d)
    ensures Nested(g, Hop(r), d) <==> Nested(g, r, d)
    ensures forall id :: Nested(g, At(id), 1) <==> id in g.cells
    ensures forall id :: id !in g.cells ==> !Nested(g, At(id), d)
  {
    assert Resolve(g, Hop(r)) == Resolve(g, r);
  }

  function Max(a: int, b: int): int {
    if a >= b then a else b
  }

  /** Nesting depth, cut off at `k`. */
  function Capped(g: Graph, r: Ref, k: nat): nat
    decreases k, 1, 0
  {
    if k == 0 || Resolve(g, r).None? then 0
    else 1 + Deepest(g, Children(g, Resolve(g, r).value), k - 1)
  }

  function Deepest(g: Graph, refs: seq<Ref>, k: nat): nat
    decreases k, 2, |refs|
  {
    if refs == [] then 0 else Max(Capped(g, refs[0], k), Deepest(g, refs[1..], k))
  }

  /** `Deepest` is the maximum over its sequence. */
  lemma {:induction false} DeepestIsMax(g: Graph, refs: seq<Ref>, k: nat)
    ensures forall r :: r in refs ==> Capped(g, r, k) <= Deepest(g, refs, k)
    ensures Deepest(g, refs, k) == 0 || exists r :: r in refs && Capped(g, r, k) == Deepest(g, refs, k)
  {
    if refs != [] {
      DeepestIsMax(g, refs[1..], k);
      assert forall r :: r in refs <==> r == refs[0] || r in refs[1..];
    }
  }

  lemma {:induction false} CappedAtMost(g: Graph, r: Ref, k: nat)
    ensures Capped(g, r, k) <= k
    decreases k
  {
    if k > 0 && Resolve(g, r).Some? {
      var refs := Children(g, Resolve(g, r).value);
      forall c | c in refs
        ensures Capped(g, c, k - 1) <= k - 1
      {
        CappedAtMost(g, c, k - 1);
      }
      DeepestIsMax(g, refs, k - 1);
    }
  }

  /** The cut-off depth reaches d exactly when d values nest. */
  lemma {:induction false} CappedReachesIff(g: Graph, r: Ref, k: nat, d: nat)
    requires d <= k
    ensures Capped(g, r, k) >= d <==> Nested(g, r, d)
    decreases k
  {
    if d > 1 && Resolve(g, r).Some? {
      var refs := Children(g, Resolve(g, r).value);
      forall c | c in refs
        ensures Capped(g, c, k - 1) >= d - 1 <==> Nested(g, c, d - 1)
      {
        CappedReachesIff(g, c, k - 1, d - 1);
      }
      DeepestIsMax(g, refs, k - 1);
    }
  }

  /** `depth` is the true depth: that many values nest, and no more. A reference
      into a cycle has none. */
  ghost predicate TrueDepth(g: Graph, r: Ref, depth: nat) {
    Nested(g, r, depth) && !Nested(g, r, depth + 1)
  }

  lemma {:induction false} NestedDownwards(g: Graph, r: Ref, d: nat, e: nat)
    requires Nested(g, r, d) && e <= d
    ensures Nested(g, r, e)
    decreases d
  {
    if 1 < e {
      var c :| c in Children(g, Resolve(g, r).value) && Nested(g, c, d - 1);
      NestedDownwards(g, c, d - 1, e - 1);
    }
  }

  /** Where the true depth exists, the cut-off depth is the smaller of it and k. */
  lemma CappedIsMin(g: Graph, r: Ref, k: nat, depth: nat)
    requires TrueDepth(g, r, depth)
    ensures Capped(g, r, k) == if depth <= k then depth else k
  {
    CappedAtMost(g, r, k);
    if depth <= k {
      CappedReachesIff(g, r, k, depth);
      if depth < k {
        CappedReachesIff(g, r, k, depth + 1);
      }
    } else {
      NestedDownwards(g, r, depth, k);
      CappedReachesIff(g, r, k, k);
    }
  }

  // ---------------------------------------------------------------------
  // Termination measure
  // ---------------------------------------------------------------------

  /** Multiplication and powers by repeated addition: the measure only needs
      these two laws, and the solver stays within linear arithmetic. */
  function Times(n: nat, w: nat): nat {
    if n == 0 then 0 else w + Times(n - 1, w)
  }

  function Pow(b: nat, e: nat): nat {
    if e == 0 then 1 else Times(b, Pow(b, e - 1))
  }

  lemma {:induction false} TimesLess(n: nat, b: nat, w: nat)
    requires n < b && w > 0
    ensures Times(n, w) < Times(b, w)
    decreases b
  {
    if n + 1 < b {
      TimesLess(n, b - 1, w);
    }
  }

  lemma {:induction false} PowPositive(b: nat, e: nat)
    requires b > 0
    ensures Pow(b, e) > 0
  {
    if e > 0 {
      PowPositive(b, e - 1);
    }
  }

  datatype Item = Item(ref: Ref, depth: nat)

  /** A pending item at depth d may still expand cap + 1 - d levels. */
  ghost function ItemWeight(i: Item, b: nat, cap: nat): nat {
    if i.depth <= cap then Pow(b, cap - i.depth) else 0
  }

  ghost function Weight(stack: seq<Item>, b: nat, cap: nat): nat {
    if stack == [] then 0
    else Weight(stack[..|stack| - 1], b, cap) + ItemWeight(stack[|stack| - 1], b, cap)
  }

  ghost predicate BranchesBelow(g: Graph, b: nat) {
    forall id | id in g.cells :: |Children(g, id)| < b
  }

  lemma {:induction false} BranchBound(g: Graph) returns (b: nat)
    ensures b > 0 && BranchesBelow(g, b)
    decreases |g.cells|
  {
    if g.cells == map[] {
      b := 1;
    } else {
      var id :| id in g.cells;
      var rest := Graph(g.cells - {id});
      assert |g.cells.Keys| == |rest.cells.Keys| + 1 by {
        assert g.cells.Keys == rest.cells.Keys + {id};
      }
      var b' := BranchBound(rest);
      b := b' + |Children(g, id)| + 1;
      forall j | j in g.cells
        ensures |Children(g, j)| < b
      {
        if j != id {
          assert |Children(rest, j)| < b';
        }
      }
    }
  }

  // ---------------------------------------------------------------------
  // Traversal
  // ---------------------------------------------------------------------

  /** What the subtree of a pending item can still contribute to the maximum. */
  function Reach(g: Graph, i: Item, cap: nat): nat
    requires i.depth <= cap
  {
    var c := Capped(g, i.ref, cap + 1 - i.depth);
    if c == 0 then 0 else i.depth - 1 + c
  }

  /** The answer is the larger of the maximum so far and the best pending item. */
  ghost predicate Accounted(g: Graph, stack: seq<Item>, maxDepth: nat, cap: nat, answer: nat) {
    && (forall i :: i in stack ==> 1 <= i.depth <= cap && Reach(g, i, cap) <= answer)
    && maxDepth <= answer
    && (maxDepth == answer || exists i :: i in stack && Reach(g, i, cap) == answer)
  }

  lemma {:induction false} WeightOfPushed(stack: seq<Item>, pushed: seq<Item>, b: nat, cap: nat, w: nat)
    requires forall i :: i in pushed ==> ItemWeight(i, b, cap) == w
    ensures Weight(stack + pushed, b, cap) == Weight(stack, b, cap) + Times(|pushed|, w)
  {
    if pushed == [] {
      assert stack + pushed == stack;
    } else {
      var init, last := pushed[..|pushed| - 1], pushed[|pushed| - 1];
      WeightOfPushed(stack, init, b, cap, w);
      assert (stack + pushed)[..|stack + pushed| - 1] == stack + init;
      assert last in pushed;
    }
  }

  /** Replacing the top item by fewer than b items one level further down. */
  lemma ExpansionShrinks(stack: seq<Item>, pushed: seq<Item>, b: nat, cap: nat)
    requires stack != [] && |pushed| < b && stack[|stack| - 1].depth <= cap
    requires forall i :: i in pushed ==> i.depth == stack[|stack| - 1].depth + 1 <= cap
    ensures Weight(stack[..|stack| - 1] + pushed, b, cap) < Weight(stack, b, cap)
  {
    var rest, top := stack[..|stack| - 1], stack[|stack| - 1];
    if pushed == [] {
      assert rest + pushed == rest;
      PopShrinks(stack, b, cap);
    } else {
      assert pushed[0] in pushed;
      var e := cap - top.depth - 1;
      assert ItemWeight(top, b, cap) == Pow(b, e + 1);
      LevelShrinks(rest, top, pushed, b, cap, e);
      assert Weight(stack, b, cap) == Weight(rest, b, cap) + ItemWeight(top, b, cap);
    }
  }

  lemma LevelShrinks(rest: seq<Item>, top: Item, pushed: seq<Item>, b: nat, cap: nat, e: nat)
    requires top.depth + 1 + e == cap && |pushed| < b
    requires forall i :: i in pushed ==> i.depth == top.depth + 1
    ensures Weight(rest + pushed, b, cap) < Weight(rest, b, cap) + Pow(b, e + 1)
  {
    WeightOfPushed(rest, pushed, b, cap, Pow(b, e));
    FewerThanBase(|pushed|, b, e);
  }

  lemma FewerThanBase(n: nat, b: nat, e: nat)
    requires n < b
    ensures Times(n, Pow(b, e)) < Pow(b, e + 1)
  {
    PowPositive(b, e);
    TimesLess(n, b, Pow(b, e));
  }

  lemma PopShrinks(stack: seq<Item>, b: nat, cap: nat)
    requires stack != [] && b > 0 && stack[|stack| - 1].depth <= cap
    ensures Weight(stack[..|stack| - 1], b, cap) < Weight(stack, b, cap)
  {
    PowPositive(b, cap - stack[|stack| - 1].depth);
  }

  function Indices(n: nat): (s: set<nat>)
    ensures |s| == n && forall i: nat :: i in s <==> i < n
  {
    if n == 0 then {} else Indices(n - 1) + {n - 1}
  }

  /** The pushed items are exactly the children, one level further down. */
  ghost predicate PushedChildren(pushed: seq<Item>, refs: seq<Ref>, depth: nat) {
    && |pushed| <= |refs|
    && (forall i :: i in pushed ==> i.ref in refs && i.depth == depth)
    && (forall r :: r in refs ==> Item(r, depth) in pushed)
  }

  lemma ExportedFields(fields: seq<Field>, n: nat)
    requires n < |fields|
    ensures Exported(fields[..n + 1]) == Exported(fields[..n]) + (if fields[n].exported then [fields[n].ref] else [])
  {
    if n == 0 {
      assert fields[..1][1..] == [];
    } else {
      ExportedFields(fields[1..], n - 1);
      assert fields[..n + 1][1..] == fields[1..][..n];
      assert fields[..n][1..] == fields[1..][..n - 1];
    }
  }

  method PushMapValues(values: seq<Ref>, depth: nat, stack: seq<Item>)
    returns (grown: seq<Item>, ghost pushed: seq<Item>)
    ensures grown == stack + pushed && PushedChildren(pushed, values, depth)
  {
    pushed := [];
    grown := stack;
    var rest := Indices(|values|);
    ghost var done: set<nat> := {};
    while rest != {}
      invariant forall i :: i in rest <==> 0 <= i < |values| && i !in done
      invariant forall i :: i in done ==> i < |values|
      invariant |done| + |rest| == |values|
      invariant grown == stack + pushed && |pushed| == |done|
      invariant forall x :: x in pushed ==> x.ref in values && x.depth == depth
      invariant forall i :: i in done ==> Item(values[i], depth) in pushed
      decreases rest
    {
      var i :| i in rest;
      rest := rest - {i};
      grown := grown + [Item(values[i], depth)];
      pushed := pushed + [Item(values[i], depth)];
      done := done + {i};
    }
  }

  method PushItems(items: seq<Ref>, depth: nat, stack: seq<Item>)
    returns (grown: seq<Item>, ghost pushed: seq<Item>)
    ensures grown == stack + pushed && PushedChildren(pushed, items, depth)
  {
    pushed := [];
    grown := stack;
    for i := 0 to |items|
      invariant grown == stack + pushed
      invariant PushedChildren(pushed, items[..i], depth)
    {
      grown := grown + [Item(items[i], depth)];
      pushed := pushed + [Item(items[i], depth)];
      assert items[..i + 1] == items[..i] + [items[i]];
    }
    assert items[..|items|] == items;
  }

  method PushFields(fields: seq<Field>, depth: nat, stack: seq<Item>)
    returns (grown: seq<Item>, ghost pushed: seq<Item>)
    ensures grown == stack + pushed && PushedChildren(pushed, Exported(fields), depth)
  {
    pushed := [];
    grown := stack;
    for i := 0 to |fields|
      invariant grown == stack + pushed
      invariant PushedChildren(pushed, Exported(fields[..i]), depth)
    {
      ExportedFields(fields, i);
      if fields[i].exported {
        grown := grown + [Item(fields[i].ref, depth)];
        pushed := pushed + [Item(fields[i].ref, depth)];
      }
    }
    assert fields[..|fields|] == fields;
  }

  method Expand(g: Graph, id: nat, depth: nat, stack: seq<Item>)
    returns (grown: seq<Item>, ghost pushed: seq<Item>)
    requires id in g.cells
    ensures grown == stack + pushed && PushedChildren(pushed, Children(g, id), depth)
  {
    match g.cells[id] {
      case Scalar => grown, pushed := stack, [];
      case MapCell(values) => grown, pushed := PushMapValues(values, depth, stack);
      case SliceCell(items) => grown, pushed := PushItems(items, depth, stack);
      case StructCell(fields) => grown, pushed := PushFields(fields, depth, stack);
    }
  }

  /** The cut-off the early exit amounts to; a negative limit still counts the
      first value it meets. */
  function CutOff(stopAfter: int): (k: nat)
    ensures k >= 1
  {
    Max(stopAfter + 1, 1)
  }

  /** Follows pointers and interfaces to the concrete value, if there is one. */
  method Deref(g: Graph, r: Ref) returns (target: Option<nat>)
    ensures target == Resolve(g, r)
  {
    var v := r;
    while v.Hop?
      invariant Resolve(g, v) == Resolve(g, r)
      decreases v
    {
      v := v.inner;
    }
    if v.Nil? || v.cell !in g.cells { return None; }
    return Some(v.cell);
  }

  /** Measures any graph, cyclic or not, and terminates. */
  method DepthOf(g: Graph, root: Ref, stopAfter: int) returns (maxDepth: nat)
    ensures maxDepth == Capped(g, root, CutOff(stopAfter))
  {
    ghost var cap := CutOff(stopAfter);
    ghost var answer := Capped(g, root, cap);
    ghost var b := BranchBound(g);
    var stack := [Item(root, 1)];
    maxDepth := 0;
    StartAccounted(g, root, cap);
    while |stack| > 0
      invariant Accounted(g, stack, maxDepth, cap, answer)
      invariant maxDepth <= stopAfter || maxDepth == 0
      decreases Weight(stack, b, cap)
    {
      var current := stack[|stack| - 1];
      ghost var before := stack;
      PopAccounted(g, stack, maxDepth, cap, answer);
      PopShrinks(stack, b, cap);
      stack := stack[..|stack| - 1];
      var v := Deref(g, current.ref);
      if v.None? {
        continue;
      }
      if current.depth > maxDepth {
        maxDepth := current.depth;
      }
      if maxDepth > stopAfter {
        return maxDepth;
      }
      ghost var pushed;
      stack, pushed := Expand(g, v.value, current.depth + 1, stack);
      Visited(g, before, pushed, maxDepth, cap, answer, b);
    }
  }

  lemma StartAccounted(g: Graph, root: Ref, cap: nat)
    requires cap >= 1
    ensures Accounted(g, [Item(root, 1)], 0, cap, Capped(g, root, cap))
    ensures Capped(g, root, cap) <= cap
  {
    CappedAtMost(g, root, cap);
    assert Reach(g, [Item(root, 1)][0], cap) == Capped(g, root, cap);
  }

  /** As `Accounted`, with the popped item `i` about to be replaced by its
      children and already counted in `maxDepth`. */
  ghost predicate Expanding(g: Graph, rest: seq<Item>, i: Item, maxDepth: nat, cap: nat, answer: nat) {
    && 1 <= i.depth <= maxDepth <= answer
    && i.depth <= cap
    && Resolve(g, i.ref).Some? && Reach(g, i, cap) <= answer
    && (forall j :: j in rest ==> 1 <= j.depth <= cap && Reach(g, j, cap) <= answer)
    && (maxDepth == answer || Reach(g, i, cap) == answer || exists j :: j in rest && Reach(g, j, cap) == answer)
  }

  lemma PopAccounted(g: Graph, stack: seq<Item>, maxDepth: nat, cap: nat, answer: nat)
    requires stack != [] && Accounted(g, stack, maxDepth, cap, answer)
    ensures stack[|stack| - 1].depth <= cap
    ensures var i, rest := stack[|stack| - 1], stack[..|stack| - 1];
      if Resolve(g, i.ref).None? then Accounted(g, rest, maxDepth, cap, answer)
      else Expanding(g, rest, i, Max(maxDepth, i.depth), cap, answer)
  {
    var i, rest := stack[|stack| - 1], stack[..|stack| - 1];
    assert forall j :: j in stack <==> j in rest || j == i;
  }

  lemma ExpandAccounted(g: Graph, rest: seq<Item>, i: Item, pushed: seq<Item>, maxDepth: nat, cap: nat, answer: nat)
    requires i.depth < cap && Expanding(g, rest, i, maxDepth, cap, answer)
    requires PushedChildren(pushed, Children(g, Resolve(g, i.ref).value), i.depth + 1)
    ensures Accounted(g, rest + pushed, maxDepth, cap, answer)
  {
    ChildrenCarryReach(g, i, pushed, cap);
    var all := rest + pushed;
    forall j | j in all
      ensures 1 <= j.depth <= cap && Reach(g, j, cap) <= answer
    {
      if j !in rest {
        assert j in pushed;
      }
    }
    if maxDepth != answer {
      if j :| j in rest && Reach(g, j, cap) == answer {
        assert j in all;
      } else {
        var c :| c in pushed && Reach(g, c, cap) == answer;
        assert c in all;
      }
    }
  }

  /** One expansion: the answer stays accounted for and the measure drops. */
  lemma Visited(g: Graph, stack: seq<Item>, pushed: seq<Item>, maxDepth: nat, cap: nat, answer: nat, b: nat)
    requires stack != [] && BranchesBelow(g, b)
    requires var i, rest := stack[|stack| - 1], stack[..|stack| - 1];
      && i.depth < cap && Expanding(g, rest, i, maxDepth, cap, answer)
      && PushedChildren(pushed, Children(g, Resolve(g, i.ref).value), i.depth + 1)
    ensures var rest := stack[..|stack| - 1];
      && Accounted(g, rest + pushed, maxDepth, cap, answer)
      && Weight(rest + pushed, b, cap) < Weight(stack, b, cap)
  {
    ExpansionShrinks(stack, pushed, b, cap);
    ExpandAccounted(g, stack[..|stack| - 1], stack[|stack| - 1], pushed, maxDepth, cap, answer);
  }

  /** Either the item itself or one of its children attains what it can reach. */
  lemma ChildrenCarryReach(g: Graph, i: Item, pushed: seq<Item>, cap: nat)
    requires 1 <= i.depth < cap && Resolve(g, i.ref).Some?
    requires PushedChildren(pushed, Children(g, Resolve(g, i.ref).value), i.depth + 1)
    ensures forall c :: c in pushed ==> Reach(g, c, cap) <= Reach(g, i, cap)
    ensures i.depth <= Reach(g, i, cap)
    ensures i.depth == Reach(g, i, cap) || exists c :: c in pushed && Reach(g, c, cap) == Reach(g, i, cap)
  {
    var refs := Children(g, Resolve(g, i.ref).value);
    var k := cap - i.depth;
    DeepestIsMax(g, refs, k);
    var best := Deepest(g, refs, k);
    assert Reach(g, i, cap) == i.depth + best;
    forall c | c in pushed
      ensures Reach(g, c, cap) == (if Capped(g, c.ref, k) == 0 then 0 else i.depth + Capped(g, c.ref, k))
      ensures Reach(g, c, cap) <= i.depth + best
    {
      assert Capped(g, c.ref, k) <= best;
    }
    if best > 0 {
      var r :| r in refs && Capped(g, r, k) == best;
      assert Item(r, i.depth + 1) in pushed;
    }
  }

  // ---------------------------------------------------------------------
  // Gate
  // ---------------------------------------------------------------------

  /** A non-nil snapshot: where it sits in the heap, and its encoded size (None
      when it cannot be encoded). */
  datatype Snapshot = Snapshot(root: Ref, bytes: Option<nat>)

  /** A depth limit is exceeded exactly when one value more than the limit nests. */
  lemma DepthLimitIff(g: Graph, root: Ref, limit: int)
    ensures Capped(g, root, CutOff(limit)) > limit <==> limit < 0 || Nested(g, root, limit + 1)
  {
    CappedAtMost(g, root, CutOff(limit));
    if limit >= 0 {
      CappedReachesIff(g, root, CutOff(limit), limit + 1);
    }
  }

  /** Where the true depth exists, that is: when it is greater than the limit. */
  lemma DepthLimitIsTrueDepth(g: Graph, root: Ref, limit: nat, depth: nat)
    requires TrueDepth(g, root, depth)
    ensures Nested(g, root, limit + 1) <==> depth > limit
  {
    if depth > limit {
      NestedDownwards(g, root, depth, limit + 1);
    } else if Nested(g, root, limit + 1) {
      NestedDownwards(g, root, limit + 1, depth + 1);
    }
  }

  ghost predicate WithinLimits(g: Graph, s: Snapshot, maxBytes: int, maxDepth: int) {
    && s.bytes.Some? && s.bytes.value <= maxBytes
    && maxDepth >= 0 && !Nested(g, s.root, maxDepth + 1)
  }

  datatype Verdict = Passed | NotEncodable | TooLarge | TooDeep

  function VerdictOn(g: Graph, s: Snapshot, maxBytes: int, maxDepth: int): Verdict {
    if s.bytes.None? then NotEncodable
    else if s.bytes.value > maxBytes then TooLarge
    else if Capped(g, s.root, CutOff(maxDepth)) > maxDepth then TooDeep
    else Passed
  }

  /** The first snapshot that exceeds a limit decides; nil snapshots pass. */
  function Complexity(g: Graph, docs: seq<Option<Snapshot>>, maxBytes: int, maxDepth: int): Verdict {
    if docs == [] then Passed
    else if docs[0].Some? && VerdictOn(g, docs[0].value, maxBytes, maxDepth) != Passed
      then VerdictOn(g, docs[0].value, maxBytes, maxDepth)
    else Complexity(g, docs[1..], maxBytes, maxDepth)
  }

  /** A request passes exactly when every snapshot can be encoded, is small enough
      and does not nest past the depth limit. */
  lemma {:induction false} PassedIff(g: Graph, docs: seq<Option<Snapshot>>, maxBytes: int, maxDepth: int)
    ensures Complexity(g, docs, maxBytes, maxDepth) == Passed
       <==> forall d | d in docs && d.Some? :: WithinLimits(g, d.value, maxBytes, maxDepth)
  {
    if docs != [] {
      PassedIff(g, docs[1..], maxBytes, maxDepth);
      assert forall d :: d in docs <==> d == docs[0] || d in docs[1..];
      if docs[0].Some? { DepthLimitIff(g, docs[0].value.root, maxDepth); }
    }
  }

  /** The gate over the before and after snapshots. */
  method RequestComplexity(g: Graph, docs: seq<Option<Snapshot>>, maxBytes: int, maxDepth: int)
    returns (verdict: Verdict)
    ensures verdict == Complexity(g, docs, maxBytes, maxDepth)
    ensures verdict == Passed <==> forall d | d in docs && d.Some? :: WithinLimits(g, d.value, maxBytes, maxDepth)
  {
    PassedIff(g, docs, maxBytes, maxDepth);
    for i := 0 to |docs|
      invariant Complexity(g, docs[i..], maxBytes, maxDepth) == Complexity(g, docs, maxBytes, maxDepth)
    {
      assert docs[i..][0] == docs[i] && docs[i..][1..] == docs[i + 1..];
      if docs[i].None? { continue; }
      var doc := docs[i].value;
      if doc.bytes.None? { return NotEncodable; }
      if doc.bytes.value > maxBytes { return TooLarge; }
      var depth := DepthOf(g, doc.root, maxDepth);
      if depth > maxDepth { return TooDeep; }
    }
    return Passed;
  }

  /** A value that contains itself nests to every depth, so every limit stops it. */
  lemma {:induction false} CyclesExceedEveryLimit(g: Graph, r: Ref, d: nat)
    requires Resolve(g, r).Some? && r in Children(g, Resolve(g, r).value)
    ensures Nested(g, r, d)
    decreases d
  {
    if d > 1 {
      CyclesExceedEveryLimit(g, r, d - 1);
    }
  }
}
