/** The weighted round-robin selector of weighted.go: a registry of nodes
    keyed by integer, a cursor (`lastNodeIndex`), an acceptance level
    (`currentNodeWeight`) and a step (`weightGCD`, the GCD of all weights).

    The loop of `GetNode` is described one iteration at a time by the pure
    function `Step`; `GetNode` itself is the imperative loop, proved to run
    exactly the iterations `Step` prescribes (the predicate `Call`). */
module Weighted {
  import opened Euclid

  const TWO_64: int := 0x1_0000_0000_0000_0000

  /** Go's `uint64`. */
  type u64 = x: int | 0 <= x < TWO_64

  /** A registry entry: an opaque payload and its weight. */
  datatype Node<V> = Node(value: V, weight: u64)

  datatype Option<T> = None | Some(value: T)

  /** The part of the selector's state one `GetNode` call changes. */
  datatype Cursor = Cursor(last: int, level: u64)

  /** What `GetNode` hands back: `nil`, a node, or the run-time panic of
      dereferencing the `nil` a missing map key yields. */
  datatype Selection<V> = Nil | Selected(node: Node<V>) | NilDeref

  /** The outcome of one iteration of `GetNode`'s loop. */
  datatype Outcome<V> = Continue(next: Cursor) | Stop(result: Selection<V>, next: Cursor)

  /** Unsigned 64-bit subtraction, wrapping below zero: the inverse of
      addition modulo 2^64. */
  function Sub64(a: u64, b: u64): (r: u64)
    ensures (r + b) % TWO_64 == a
  {
    if a >= b then a - b else a - b + TWO_64
  }

  // ---------------------------------------------------------------------
  // Facts about the registry

  /** A non-empty map has a key. */
  lemma KeyExists<V>(m: map<int, V>)
    requires m != map[]
    ensures exists k :: k in m
  {
    if forall k :: k !in m {
      assert false;
    }
  }

  /** A non-empty set has an element. */
  lemma ElementExists(s: set<int>)
    requires s != {}
    ensures exists k :: k in s
  {
    if forall k :: k !in s {
      assert false;
    }
  }

  /** The keys are exactly 0 .. |nodes| - 1 (a map of that size holding all
      of them holds nothing else), so the cursor never meets a missing key. */
  ghost predicate Dense<V>(nodes: map<int, Node<V>>) {
    forall k :: 0 <= k < |nodes| ==> k in nodes
  }

  /** `d` divides the weight of every node. */
  ghost predicate WeightDivisor<V>(d: nat, nodes: map<int, Node<V>>) {
    forall k :: k in nodes ==> Divides(d, nodes[k].weight)
  }

  /** `g` is the greatest common divisor of all weights. */
  ghost predicate IsGcdOfWeights<V>(g: nat, nodes: map<int, Node<V>>) {
    WeightDivisor(g, nodes) && forall d: nat :: WeightDivisor(d, nodes) ==> Divides(d, g)
  }

  /** The largest weight in the registry, 0 for an empty registry. */
  ghost function MaxWeight<V>(nodes: map<int, Node<V>>): (r: u64)
    ensures forall k :: k in nodes ==> nodes[k].weight <= r
    ensures nodes == map[] ==> r == 0
    ensures nodes != map[] ==> exists k :: k in nodes && nodes[k].weight == r
    decreases |nodes|
  {
    if nodes == map[] then 0
    else
      KeyExists(nodes);
      var k :| k in nodes;
      var rest := nodes - {k};
      assert |rest.Keys| == |nodes.Keys| - 1 by { assert rest.Keys == nodes.Keys - {k}; }
      var m := MaxWeight(rest);
      assert forall j :: j in nodes ==> j == k || j in rest;
      if nodes[k].weight >= m then nodes[k].weight else m
  }

  /** When `g` is the GCD of the weights and positive, some weight is
      positive, so the largest weight is a positive multiple of `g`. */
  lemma GcdBelowMax<V>(nodes: map<int, Node<V>>, g: nat)
    requires IsGcdOfWeights(g, nodes) && g > 0
    ensures MaxWeight(nodes) > 0 && Divides(g, MaxWeight(nodes)) && g <= MaxWeight(nodes)
  {
    var max := MaxWeight(nodes);
    if max == 0 {
      assert WeightDivisor(g + 1, nodes);
      ModUnique(g, g + 1, 0, g);
    } else {
      var k :| k in nodes && nodes[k].weight == max;
      if g > max {
        ModUnique(max, g, 0, max);
      }
    }
  }

  /** A zero GCD means every weight is zero. */
  lemma ZeroGcdAllZero<V>(nodes: map<int, Node<V>>)
    requires IsGcdOfWeights(0, nodes)
    ensures MaxWeight(nodes) == 0
  {
    if nodes != map[] {
      var max := MaxWeight(nodes);
      var k :| k in nodes && nodes[k].weight == max;
      assert Divides(0, nodes[k].weight);
    }
  }

  // ---------------------------------------------------------------------
  // One iteration of GetNode's loop

  /** Looks at the node under the cursor: a missing key is a `nil` pointer
      the code dereferences; a node whose weight meets the level is returned. */
  function Probe<V>(nodes: map<int, Node<V>>, c: Cursor): Outcome<V> {
    if c.last !in nodes then Stop(NilDeref, c)
    else if nodes[c.last].weight >= c.level then Stop(Selected(nodes[c.last]), c)
    else Continue(c)
  }

  /** One pass through the body of `GetNode`'s `for {}` loop with registry
      `nodes` and step `g`, from cursor `c`. */
  ghost function Step<V>(nodes: map<int, Node<V>>, g: u64, c: Cursor): (s: Outcome<V>)
    requires c.last >= -1
    ensures nodes == map[] ==> s == Stop(Nil, c)
    ensures nodes != map[] ==> 0 <= s.next.last < |nodes|
  {
    if nodes == map[] then Stop(Nil, c)
    else
      var last := (c.last + 1) % |nodes|;
      if last == 0 then
        var lowered := Sub64(c.level, g);
        if lowered == 0 then
          var max := MaxWeight(nodes);
          if max == 0 then Stop(Nil, Cursor(last, 0))
          else Probe(nodes, Cursor(last, max))
        else Probe(nodes, Cursor(last, lowered))
      else Probe(nodes, Cursor(last, c.level))
  }

  /** The cursor after `t` iterations of the loop body from `c`, whether or
      not a call boundary falls between them (a new call resumes exactly
      where the previous one returned). */
  ghost function After<V>(nodes: map<int, Node<V>>, g: u64, c: Cursor, t: nat): (d: Cursor)
    requires c.last >= -1
    ensures d.last >= -1
    ensures nodes != map[] && t > 0 ==> 0 <= d.last < |nodes|
    decreases t
  {
    if t == 0 then c else After(nodes, g, Step(nodes, g, c).next, t - 1)
  }

  /** One `GetNode` call from cursor `c` runs the loop body exactly `k`
      times, continuing the first `k - 1` times, and returns `r` leaving the
      cursor at `d`. */
  ghost predicate Call<V>(nodes: map<int, Node<V>>, g: u64, c: Cursor, k: nat, r: Selection<V>, d: Cursor)
    requires c.last >= -1
  {
    && k >= 1
    && (forall j :: 0 <= j < k - 1 ==> Step(nodes, g, After(nodes, g, c, j)).Continue?)
    && Step(nodes, g, After(nodes, g, c, k - 1)) == Stop(r, d)
  }

  /** Running one more iteration after `t` of them. */
  lemma {:induction false} AfterSucc<V>(nodes: map<int, Node<V>>, g: u64, c: Cursor, t: nat)
    requires c.last >= -1
    ensures After(nodes, g, c, t + 1) == Step(nodes, g, After(nodes, g, c, t)).next
    decreases t
  {
    if t > 0 {
      AfterSucc(nodes, g, Step(nodes, g, c).next, t - 1);
    }
  }

  /** The first `k` iterations from `c` all continued and left the cursor
      at `d`. */
  ghost predicate Ran<V>(nodes: map<int, Node<V>>, g: u64, c: Cursor, k: nat, d: Cursor)
    requires c.last >= -1
  {
    && (forall j :: 0 <= j < k ==> Step(nodes, g, After(nodes, g, c, j)).Continue?)
    && After(nodes, g, c, k) == d
  }

  /** One more iteration that continues extends the run. */
  lemma RanExtend<V>(nodes: map<int, Node<V>>, g: u64, c: Cursor, k: nat, d: Cursor)
    requires c.last >= -1 && d.last >= -1
    requires Ran(nodes, g, c, k, d) && Step(nodes, g, d).Continue?
    ensures Ran(nodes, g, c, k + 1, Step(nodes, g, d).next)
  {
    AfterSucc(nodes, g, c, k);
  }

  /** One more iteration that stops ends the call. */
  lemma RanStops<V>(nodes: map<int, Node<V>>, g: u64, c: Cursor, k: nat, d: Cursor)
    requires c.last >= -1 && d.last >= -1
    requires Ran(nodes, g, c, k, d) && Step(nodes, g, d).Stop?
    ensures Call(nodes, g, c, k + 1, Step(nodes, g, d).result, Step(nodes, g, d).next)
  {
  }

  /** What one call returns: nothing and no move on an empty registry; the
      node under the cursor, meeting the level, when a node is returned; a
      missing key when it panics; and `nil` on a non-empty registry only at
      the reset of a level that finds every weight zero. */
  lemma CallFacts<V>(nodes: map<int, Node<V>>, g: u64, c: Cursor, k: nat, r: Selection<V>, d: Cursor)
    requires c.last >= -1 && Call(nodes, g, c, k, r, d)
    ensures nodes == map[] ==> r == Nil && k == 1 && d == c
    ensures nodes != map[] ==> 0 <= d.last < |nodes|
    ensures r.Selected? ==> d.last in nodes && r.node == nodes[d.last] && r.node.weight >= d.level
    ensures r.NilDeref? ==> d.last !in nodes && !Dense(nodes)
    ensures r.Nil? && nodes != map[] ==> d.last == 0 && d.level == 0 && MaxWeight(nodes) == 0
  {
    var e := After(nodes, g, c, k - 1);
    assert Step(nodes, g, e) == Stop(r, d);
    assert k > 1 ==> Step(nodes, g, After(nodes, g, c, 0)).Continue?;
  }

  // ---------------------------------------------------------------------
  // Why the loop terminates

  /** The state from which the loop always returns: unless the registry is
      dense with every weight zero (step 0), any level will do; in that case
      only level 0, since lowering a positive level by 0 never resets it and
      no weight ever meets it. */
  ghost predicate Returns<V>(nodes: map<int, Node<V>>, g: u64, level: u64) {
    nodes != map[] && Dense(nodes) && g == 0 ==> level == 0
  }

  /** The level after a wrap: lowered by the step, or reset to the largest
      weight when that leaves zero. */
  ghost function NextLevel<V>(nodes: map<int, Node<V>>, g: u64, level: u64): u64 {
    var lowered := Sub64(level, g);
    if lowered == 0 then MaxWeight(nodes) else lowered
  }

  /** The level of the pass the next iteration from `c` belongs to. */
  ghost function PassLevel<V>(nodes: map<int, Node<V>>, g: u64, c: Cursor): u64
    requires nodes != map[] && c.last >= -1
  {
    if (c.last + 1) % |nodes| == 0 then NextLevel(nodes, g, c.level) else c.level
  }

  /** Probing index `i` at level `level` ends the loop: the key is missing
      (and the dereference panics) or its node meets the level. */
  ghost predicate StopsAt<V>(nodes: map<int, Node<V>>, level: u64, i: int) {
    i !in nodes || nodes[i].weight >= level
  }

  /** Some index from `s` to the end of the pass ends the loop. */
  ghost predicate StopAhead<V>(nodes: map<int, Node<V>>, level: u64, s: int) {
    exists i :: s <= i < |nodes| && StopsAt(nodes, level, i)
  }

  /** The first index from `s` on that ends the loop. */
  ghost function FirstStop<V>(nodes: map<int, Node<V>>, level: u64, s: int): (f: int)
    requires StopAhead(nodes, level, s)
    ensures s <= f < |nodes| && StopsAt(nodes, level, f)
    decreases |nodes| - s
  {
    if StopsAt(nodes, level, s) then s else FirstStop(nodes, level, s + 1)
  }

  /** The full passes that find nothing from a pass at `level` on: while the
      level exceeds every weight the pass finds nothing, and the next pass
      runs `g` lower without wrapping. */
  ghost function Climb<V>(nodes: map<int, Node<V>>, g: u64, level: u64): nat
    requires 0 < g <= MaxWeight(nodes)
    decreases level
  {
    if level <= MaxWeight(nodes) then 0 else 1 + Climb(nodes, g, level - g)
  }

  /** First component of the termination measure: 0 while the rest of the
      current pass holds an index that ends the loop; otherwise one more
      than the fruitless full passes after it. */
  ghost function Passes<V>(nodes: map<int, Node<V>>, g: u64, c: Cursor): nat
    requires nodes != map[] && c.last >= -1 && (g > 0 ==> g <= MaxWeight(nodes))
  {
    var s, l := (c.last + 1) % |nodes|, PassLevel(nodes, g, c);
    if StopAhead(nodes, l, s) then 0
    else if Dense(nodes) && g > 0 then 1 + Climb(nodes, g, NextLevel(nodes, g, l))
    else 1
  }

  /** Second component: the iterations left to the index that ends the
      loop, or to the end of the pass. */
  ghost function Stride<V>(nodes: map<int, Node<V>>, g: u64, c: Cursor): nat
    requires nodes != map[] && c.last >= -1
  {
    var s, l := (c.last + 1) % |nodes|, PassLevel(nodes, g, c);
    if StopAhead(nodes, l, s) then FirstStop(nodes, l, s) - s else |nodes| - s
  }

  /** The termination measure decreases from `c` to `d`. */
  ghost predicate Closer<V>(nodes: map<int, Node<V>>, g: u64, c: Cursor, d: Cursor)
    requires nodes != map[] && c.last >= -1 && d.last >= -1 && (g > 0 ==> g <= MaxWeight(nodes))
  {
    || Passes(nodes, g, d) < Passes(nodes, g, c)
    || (Passes(nodes, g, d) == Passes(nodes, g, c) && Stride(nodes, g, d) < Stride(nodes, g, c))
  }

  /** An iteration that does not return probed the index after the cursor
      at the level of its pass, and that index did not end the loop. */
  lemma StepLands<V>(nodes: map<int, Node<V>>, g: u64, c: Cursor)
    requires c.last >= -1 && nodes != map[]
    requires Step(nodes, g, c).Continue?
    ensures Step(nodes, g, c).next == Cursor((c.last + 1) % |nodes|, PassLevel(nodes, g, c))
    ensures !StopsAt(nodes, PassLevel(nodes, g, c), (c.last + 1) % |nodes|)
  {
  }

  /** A dense registry has no key outside 0 .. |nodes| - 1. */
  lemma DenseKeys<V>(nodes: map<int, Node<V>>)
    requires Dense(nodes)
    ensures forall k :: k in nodes ==> 0 <= k < |nodes|
  {
    var r := Range(|nodes|);
    assert r <= nodes.Keys;
    if exists k :: k in nodes && !(0 <= k < |nodes|) {
      var k :| k in nodes && !(0 <= k < |nodes|);
      assert r + {k} <= nodes.Keys;
      assert |r + {k}| == |nodes| + 1;
      SubsetCard(r + {k}, nodes.Keys);
      assert false;
    }
  }

  /** The integers 0 .. n-1. */
  ghost function Range(n: nat): (r: set<int>)
    ensures |r| == n
    ensures forall j :: j in r <==> 0 <= j < n
  {
    if n == 0 then {} else Range(n - 1) + {n - 1}
  }

  /** A subset is no larger than its superset. */
  lemma {:induction false} SubsetCard(a: set<int>, b: set<int>)
    requires a <= b
    ensures |a| <= |b|
    decreases |a|
  {
    if a != {} {
      ElementExists(a);
      var x :| x in a;
      SubsetCard(a - {x}, b - {x});
    }
  }

  /** A whole pass finds something unless its level exceeds every weight
      of a dense registry: a missing key panics, a node of largest weight
      meets any level not above it. */
  lemma FullPassStops<V>(nodes: map<int, Node<V>>, level: u64)
    requires nodes != map[]
    requires !Dense(nodes) || level <= MaxWeight(nodes)
    ensures StopAhead(nodes, level, 0)
  {
    if !Dense(nodes) {
      var t :| 0 <= t < |nodes| && t !in nodes;
      assert StopsAt(nodes, level, t);
    } else {
      DenseKeys(nodes);
      var k :| k in nodes && nodes[k].weight == MaxWeight(nodes);
      assert StopsAt(nodes, level, k);
    }
  }

  /** With every weight zero and the level zero, the loop body always
      returns. */
  lemma ZeroStops<V>(nodes: map<int, Node<V>>, c: Cursor)
    requires c.last >= -1 && nodes != map[] && IsGcdOfWeights(0, nodes) && c.level == 0
    ensures Step(nodes, 0, c).Stop?
  {
    ZeroGcdAllZero(nodes);
  }

  /** With every weight zero and a positive level, an iteration never
      returns and never changes the level: lowering by a zero step leaves
      it positive, so it is never reset, and no weight meets it. */
  lemma ZeroSpins<V>(nodes: map<int, Node<V>>, c: Cursor)
    requires c.last >= -1 && nodes != map[] && Dense(nodes)
    requires IsGcdOfWeights(0, nodes) && c.level > 0
    ensures Step(nodes, 0, c).Continue? && Step(nodes, 0, c).next.level == c.level
  {
    var x := (c.last + 1) % |nodes|;
    assert x in nodes && Divides(0, nodes[x].weight);
  }

  /** The level stays where it is however many iterations run. */
  lemma {:induction false} ZeroSpinsOn<V>(nodes: map<int, Node<V>>, c: Cursor, t: nat)
    requires c.last >= -1 && nodes != map[] && Dense(nodes)
    requires IsGcdOfWeights(0, nodes) && c.level > 0
    ensures After(nodes, 0, c, t).level == c.level
    ensures Step(nodes, 0, After(nodes, 0, c, t)).Continue?
    decreases t
  {
    ZeroSpins(nodes, c);
    if t > 0 {
      ZeroSpinsOn(nodes, Step(nodes, 0, c).next, t - 1);
    } else {
      assert After(nodes, 0, c, t) == c;
    }
  }

  /** The converse of termination: from a state that is not `Returns` the
      loop never returns, whatever the number of iterations. */
  lemma NeverReturns<V>(nodes: map<int, Node<V>>, g: u64, c: Cursor, k: nat, r: Selection<V>, d: Cursor)
    requires c.last >= -1 && IsGcdOfWeights(g, nodes) && !Returns(nodes, g, c.level)
    ensures !Call(nodes, g, c, k, r, d)
  {
    if k >= 1 {
      ZeroSpinsOn(nodes, c, k - 1);
    }
  }

  /** Every iteration keeps the state one from which the loop returns. */
  lemma StepReturns<V>(nodes: map<int, Node<V>>, g: u64, c: Cursor)
    requires c.last >= -1 && nodes != map[] && IsGcdOfWeights(g, nodes)
    requires Returns(nodes, g, c.level)
    ensures Returns(nodes, g, Step(nodes, g, c).next.level)
  {
    if Dense(nodes) && g == 0 {
      ZeroGcdAllZero(nodes);
    }
  }

  /** Every iteration that does not return decreases the termination
      measure. */
  lemma StepProgress<V>(nodes: map<int, Node<V>>, g: u64, c: Cursor)
    requires c.last >= -1 && nodes != map[] && IsGcdOfWeights(g, nodes)
    requires Returns(nodes, g, c.level)
    requires Step(nodes, g, c).Continue?
    ensures g > 0 ==> g <= MaxWeight(nodes)
    ensures Closer(nodes, g, c, Step(nodes, g, c).next)
  {
    if g > 0 {
      GcdBelowMax(nodes, g);
    }
    if Dense(nodes) && g == 0 {
      ZeroStops(nodes, c);
      assert false;
    }
    var n, d := |nodes|, Step(nodes, g, c).next;
    var s, l := (c.last + 1) % n, PassLevel(nodes, g, c);
    StepLands(nodes, g, c);
    if StopAhead(nodes, l, s) {
      var f := FirstStop(nodes, l, s);
      ModUnique(s + 1, n, 0, s + 1);
      assert PassLevel(nodes, g, d) == l;
      assert StopAhead(nodes, l, s + 1) by { assert StopsAt(nodes, l, f); }
    } else if s + 1 < n {
      ModUnique(s + 1, n, 0, s + 1);
      assert PassLevel(nodes, g, d) == l;
      assert !StopAhead(nodes, l, s + 1);
    } else {
      ModUnique(s + 1, n, 1, 0);
      var l' := NextLevel(nodes, g, l);
      assert PassLevel(nodes, g, d) == l';
      if !StopAhead(nodes, l', 0) {
        if !Dense(nodes) || l' <= MaxWeight(nodes) {
          FullPassStops(nodes, l');
          assert false;
        }
        assert NextLevel(nodes, g, l') == l' - g;
      }
    }
  }

  // ---------------------------------------------------------------------
  // The selector

  /** Computes `calcGCD(values...)`: the fold of `Gcd` over the list seeded
      with its first element; an empty list makes `values[0]` panic, shown
      here as `None`. */
  method CalcGcd(values: seq<u64>) returns (r: Option<u64>)
    ensures r.None? <==> values == []
    ensures r.Some? ==> r.value == GcdOf(values) && IsGcd(r.value, values)
  {
    if |values| == 0 {
      return None;
    }
    var z: u64 := values[0];
    for i := 0 to |values|
      invariant i == 0 ==> z == values[0]
      invariant i > 0 ==> z == GcdOf(values[..i])
    {
      GcdOfSnoc(values[..i], values[i]);
      assert values[..i] + [values[i]] == values[..i + 1];
      if i == 0 {
        GcdSelf(z);
      }
      z := Gcd(values[i], z);
    }
    assert values[..|values|] == values;
    GcdOfIsGcd(values);
    return Some(z);
  }

  /** A list of weights read off the registry in some order of its keys has
      the registry's weight GCD as its fold. */
  lemma WeightsGcd<V>(nodes: map<int, Node<V>>, ws: seq<nat>, order: seq<int>)
    requires |ws| == |order|
    requires forall i :: 0 <= i < |order| ==> order[i] in nodes && ws[i] == nodes[order[i]].weight
    requires forall k :: k in nodes ==> k in order
    ensures IsGcdOfWeights(GcdOf(ws), nodes)
  {
    var g := GcdOf(ws);
    GcdOfIsGcd(ws);
    forall k | k in nodes
      ensures Divides(g, nodes[k].weight)
    {
      var i :| 0 <= i < |order| && order[i] == k;
      assert Divides(g, ws[i]);
    }
    forall d: nat | WeightDivisor(d, nodes)
      ensures Divides(d, g)
    {
      ListedWeightsDivisor(nodes, ws, order, d);
    }
  }

  /** A divisor of every weight in the registry divides every listed weight. */
  lemma ListedWeightsDivisor<V>(nodes: map<int, Node<V>>, ws: seq<nat>, order: seq<int>, d: nat)
    requires |ws| == |order|
    requires forall i :: 0 <= i < |order| ==> order[i] in nodes && ws[i] == nodes[order[i]].weight
    requires WeightDivisor(d, nodes)
    ensures CommonDivisor(d, ws)
  {
    forall i | 0 <= i < |ws|
      ensures Divides(d, ws[i])
    {
      var k := order[i];
      assert k in nodes && ws[i] == nodes[k].weight;
      assert Divides(d, nodes[k].weight);
    }
  }

  /** The first loop of `New`: node `i` of the list under key `i`. */
  method IndexNodes<V>(list: seq<Node<V>>) returns (m: map<int, Node<V>>)
    ensures m == map i | 0 <= i < |list| :: list[i]
    ensures |m| == |list| && Dense(m)
  {
    m := map[];
    for i := 0 to |list|
      invariant m == map j | 0 <= j < i :: list[j]
      invariant |m| == i
    {
      m := m[i := list[i]];
    }
  }

  class RoundRobin<V> {
    var nodes: map<int, Node<V>>
    var lastNodeIndex: int
    var currentNodeWeight: u64
    var weightGCD: u64

    /** The cursor never lies below its initial -1, and a non-empty registry
        carries the GCD of its weights. */
    ghost predicate Valid()
      reads this
    {
      && lastNodeIndex >= -1
      && (nodes != map[] ==> IsGcdOfWeights(weightGCD, nodes))
    }

    /** The state from which `GetNode` returns. */
    ghost predicate Live()
      reads this
    {
      Returns(nodes, weightGCD, currentNodeWeight)
    }

    /** `New(nodes)`: node i under key i, cursor before the first node, the
        level seeded with node 0's weight and the step with the GCD. */
    constructor (list: seq<Node<V>>)
      ensures Valid()
      ensures nodes == map i | 0 <= i < |list| :: list[i]
      ensures Dense(nodes) && |nodes| == |list|
      ensures lastNodeIndex == -1
      ensures list == [] ==> currentNodeWeight == 0 && weightGCD == 0
      ensures list != [] ==> currentNodeWeight == list[0].weight
      ensures Live()
    {
      var m := IndexNodes(list);
      nodes := m;
      lastNodeIndex := -1;
      currentNodeWeight := 0;
      weightGCD := 0;
      new;
      if m != map[] {
        currentNodeWeight := m[0].weight;
        var weights, order := GetWeights();
        var g := CalcGcd(weights);
        WeightsGcd(nodes, weights, order);
        weightGCD := g.value;
        if weightGCD == 0 {
          ZeroGcdAllZero(nodes);
        }
      }
    }

    /** `getWeights`: the weight of every node, in the map's (arbitrary)
        iteration order, each key visited once. */
    method GetWeights() returns (ws: seq<u64>, ghost order: seq<int>)
      ensures |ws| == |order| == |nodes|
      ensures forall i :: 0 <= i < |order| ==> order[i] in nodes && ws[i] == nodes[order[i]].weight
      ensures forall i, j :: 0 <= i < j < |order| ==> order[i] != order[j]
      ensures forall k :: k in nodes ==> k in order
    {
      ws, order := [], [];
      var rest := nodes.Keys;
      while rest != {}
        invariant rest <= nodes.Keys
        invariant |order| + |rest| == |nodes| && |ws| == |order|
        invariant forall i :: 0 <= i < |order| ==> order[i] in nodes && order[i] !in rest && ws[i] == nodes[order[i]].weight
        invariant forall i, j :: 0 <= i < j < |order| ==> order[i] != order[j]
        invariant forall k :: k in nodes && k !in rest ==> k in order
        decreases rest
      {
        ElementExists(rest);
        var k :| k in rest;
        ws, order := ws + [nodes[k].weight], order + [k];
        rest := rest - {k};
      }
    }

    /** `getMaxWeight`: the largest weight, 0 for an empty registry. */
    method GetMaxWeight() returns (max: u64)
      ensures forall k :: k in nodes ==> nodes[k].weight <= max
      ensures nodes == map[] ==> max == 0
      ensures nodes != map[] ==> exists k :: k in nodes && nodes[k].weight == max
      ensures max == MaxWeight(nodes)
    {
      max := 0;
      var rest := nodes.Keys;
      while rest != {}
        invariant rest <= nodes.Keys
        invariant forall k :: k in nodes && k !in rest ==> nodes[k].weight <= max
        invariant max == 0 || exists k :: k in nodes && k !in rest && nodes[k].weight == max
        decreases rest
      {
        ElementExists(rest);
        var k :| k in rest;
        if nodes[k].weight >= max {
          max := nodes[k].weight;
        }
        rest := rest - {k};
      }
      if nodes != map[] && max == 0 {
        KeyExists(nodes);
        var k :| k in nodes;
      }
    }

    /** `SetNode`: key `index` now holds `node`, and the step is the GCD of
        the new weights; the cursor and the level are left as they were. */
    method SetNode(index: int, node: Node<V>)
      requires Valid()
      modifies this
      ensures Valid()
      ensures nodes == old(nodes)[index := node]
      ensures IsGcdOfWeights(weightGCD, nodes)
      ensures lastNodeIndex == old(lastNodeIndex) && currentNodeWeight == old(currentNodeWeight)
    {
      nodes := nodes[index := node];
      var weights, order := GetWeights();
      var g := CalcGcd(weights);
      WeightsGcd(nodes, weights, order);
      weightGCD := g.value;
    }

    /** `DeleteNode`: key `index` is gone (nothing happens to the map if it
        was absent) and the step is the GCD of the remaining weights. When
        no node remains, `calcGCD` panics on its empty argument after the
        deletion: `panicked` is then true and the step keeps its old value. */
    method DeleteNode(index: int) returns (panicked: bool)
      requires Valid()
      modifies this
      ensures Valid()
      ensures nodes == old(nodes) - {index}
      ensures panicked <==> nodes == map[]
      ensures !panicked ==> IsGcdOfWeights(weightGCD, nodes)
      ensures panicked ==> weightGCD == old(weightGCD)
      ensures lastNodeIndex == old(lastNodeIndex) && currentNodeWeight == old(currentNodeWeight)
    {
      nodes := nodes - {index};
      var weights, order := GetWeights();
      var g := CalcGcd(weights);
      if g.None? {
        return true;
      }
      WeightsGcd(nodes, weights, order);
      weightGCD := g.value;
      return false;
    }

    /** `Size`: the number of nodes. */
    method Size() returns (n: nat)
      ensures n == |nodes|
    {
      n := |nodes|;
    }

    /** One pass of `GetNode`'s loop body: moves the cursor on, lowering the
        level at a wrap and resetting it to the maximum weight when it reaches
        zero, and says whether the loop returns here and with what. */
    method Advance() returns (o: Outcome<V>)
      requires lastNodeIndex >= -1
      modifies this
      ensures nodes == old(nodes) && weightGCD == old(weightGCD)
      ensures o == Step(nodes, weightGCD, old(Cursor(lastNodeIndex, currentNodeWeight)))
      ensures Cursor(lastNodeIndex, currentNodeWeight) == o.next
    {
      if |nodes| == 0 {
        return Stop(Nil, Cursor(lastNodeIndex, currentNodeWeight));
      }
      lastNodeIndex := (lastNodeIndex + 1) % |nodes|;
      if lastNodeIndex == 0 {
        currentNodeWeight := Sub64(currentNodeWeight, weightGCD);
        if currentNodeWeight == 0 {
          currentNodeWeight := GetMaxWeight();
          if currentNodeWeight == 0 {
            return Stop(Nil, Cursor(lastNodeIndex, currentNodeWeight));
          }
        }
      }
      if lastNodeIndex !in nodes {
        return Stop(NilDeref, Cursor(lastNodeIndex, currentNodeWeight));
      }
      if nodes[lastNodeIndex].weight >= currentNodeWeight {
        return Stop(Selected(nodes[lastNodeIndex]), Cursor(lastNodeIndex, currentNodeWeight));
      }
      return Continue(Cursor(lastNodeIndex, currentNodeWeight));
    }

    /** `GetNode`: runs the loop body until it returns. The call is exactly
        the `steps` iterations `Call` describes, and it keeps the registry
        consistent and the loop of the next call bound to end. */
    method GetNode() returns (r: Selection<V>, ghost steps: nat)
      requires Valid() && Live()
      modifies this
      ensures Valid() && Live()
      ensures nodes == old(nodes) && weightGCD == old(weightGCD)
      ensures Call(nodes, weightGCD, old(Cursor(lastNodeIndex, currentNodeWeight)), steps, r,
                   Cursor(lastNodeIndex, currentNodeWeight))
      ensures nodes == map[] ==>
        (r == Nil && steps == 1
         && lastNodeIndex == old(lastNodeIndex) && currentNodeWeight == old(currentNodeWeight))
      ensures nodes != map[] ==> 0 <= lastNodeIndex < |nodes|
      ensures r.Selected? ==>
        (lastNodeIndex in nodes && r.node == nodes[lastNodeIndex]
         && r.node.weight >= currentNodeWeight)
      ensures r.NilDeref? ==> lastNodeIndex !in nodes && !Dense(nodes)
      ensures r.Nil? && nodes != map[] ==>
        (lastNodeIndex == 0 && currentNodeWeight == 0 && MaxWeight(nodes) == 0)
    {
      ghost var ns, g, c0 := nodes, weightGCD, Cursor(lastNodeIndex, currentNodeWeight);
      if g > 0 && ns != map[] {
        GcdBelowMax(ns, g);
      }
      steps := 0;
      while true
        invariant nodes == ns && weightGCD == g
        invariant lastNodeIndex >= -1
        invariant ns != map[] ==> IsGcdOfWeights(g, ns)
        invariant Returns(ns, g, currentNodeWeight)
        invariant g > 0 && ns != map[] ==> g <= MaxWeight(ns)
        invariant Ran(ns, g, c0, steps, Cursor(lastNodeIndex, currentNodeWeight))
        decreases if ns == map[] then 0 else Passes(ns, g, Cursor(lastNodeIndex, currentNodeWeight)),
          if ns == map[] then 0 else Stride(ns, g, Cursor(lastNodeIndex, currentNodeWeight))
      {
        ghost var here := Cursor(lastNodeIndex, currentNodeWeight);
        var o := Advance();
        if ns != map[] {
          StepReturns(ns, g, here);
        }
        if o.Stop? {
          RanStops(ns, g, c0, steps, here);
          CallFacts(ns, g, c0, steps + 1, o.result, o.next);
          r, steps := o.result, steps + 1;
          return;
        }
        StepProgress(ns, g, here);
        RanExtend(ns, g, c0, steps, here);
        steps := steps + 1;
      }
    }
  }
}
