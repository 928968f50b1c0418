/** What the selector hands out over many calls. The iterations of
    `GetNode`'s loop form one stream across calls (each call resumes where
    the previous one returned); `Hits` lists the indices returned along it.

    On a dense registry with a positive step `g` a cycle starts whenever the
    cursor sits at the end of a pass and the level equals `g`: the next pass
    resets the level to the largest weight `M`, and the `M / g` passes at
    levels `M, M - g, ..., g` return node `k` exactly `weight(k) / g` times
    before the cursor is back at a cycle start. Counted in calls rather
    than iterations, any `sum(weights) / g` calls from a cycle start return
    node `k` exactly `weight(k) / g` times. */
module Fairness {
  import opened Euclid
  import opened Weighted

  /** The indices returned during `t` iterations from `c`, in order. */
  ghost function Hits<V>(nodes: map<int, Node<V>>, g: u64, c: Cursor, t: nat): seq<int>
    requires c.last >= -1
    decreases t
  {
    if t == 0 then []
    else
      var s := Step(nodes, g, c);
      (if s.Stop? && s.result.Selected? then [s.next.last] else []) + Hits(nodes, g, s.next, t - 1)
  }

  /** The stream splits at any point. */
  lemma {:induction false} HitsAdd<V>(nodes: map<int, Node<V>>, g: u64, c: Cursor, a: nat, b: nat)
    requires c.last >= -1
    ensures Hits(nodes, g, c, a + b) == Hits(nodes, g, c, a) + Hits(nodes, g, After(nodes, g, c, a), b)
    decreases a
  {
    if a > 0 {
      var s := Step(nodes, g, c);
      HitsAdd(nodes, g, s.next, a - 1, b);
    }
  }

  /** Iterations that all continue return nothing. */
  lemma {:induction false} QuietRun<V>(nodes: map<int, Node<V>>, g: u64, c: Cursor, t: nat)
    requires c.last >= -1
    requires forall j :: 0 <= j < t ==> Step(nodes, g, After(nodes, g, c, j)).Continue?
    ensures Hits(nodes, g, c, t) == []
    decreases t
  {
    if t > 0 {
      HitsAdd(nodes, g, c, t - 1, 1);
      QuietRun(nodes, g, c, t - 1);
    }
  }

  /** One `GetNode` call covers its iterations of the stream: it ends at
      the cursor it leaves behind, and the stream holds exactly the index
      it returned, if it returned a node. */
  lemma CallHits<V>(nodes: map<int, Node<V>>, g: u64, c: Cursor, k: nat, r: Selection<V>, d: Cursor)
    requires c.last >= -1 && Call(nodes, g, c, k, r, d)
    ensures After(nodes, g, c, k) == d
    ensures Hits(nodes, g, c, k) == if r.Selected? then [d.last] else []
  {
    AfterSucc(nodes, g, c, k - 1);
    HitsAdd(nodes, g, c, k - 1, 1);
    QuietRun(nodes, g, c, k - 1);
  }

  /** Successive `GetNode` calls from `c`: call `i` runs `ks[i]` iterations,
      returns `rs[i]` and leaves the cursor at `ds[i]`, where call `i + 1`
      starts. */
  ghost predicate Session<V>(nodes: map<int, Node<V>>, g: u64, c: Cursor,
                             ks: seq<nat>, rs: seq<Selection<V>>, ds: seq<Cursor>)
    requires c.last >= -1
    decreases |ks|
  {
    && |ks| == |rs| == |ds|
    && (|ks| > 0 ==>
          && Call(nodes, g, c, ks[0], rs[0], ds[0])
          && ds[0].last >= -1
          && Session(nodes, g, ds[0], ks[1..], rs[1..], ds[1..]))
  }

  function Sum(ks: seq<nat>): nat {
    if ks == [] then 0 else ks[0] + Sum(ks[1..])
  }

  /** The indices a session returned, in order. */
  function Returned<V>(rs: seq<Selection<V>>, ds: seq<Cursor>): seq<int>
    requires |rs| == |ds|
  {
    if rs == [] then []
    else (if rs[0].Selected? then [ds[0].last] else []) + Returned(rs[1..], ds[1..])
  }

  /** How many times `k` occurs in `s`. */
  function Count(s: seq<int>, k: int): nat {
    if s == [] then 0 else (if s[0] == k then 1 else 0) + Count(s[1..], k)
  }

  /** Occurrences add up over a concatenation. */
  lemma {:induction false} CountAppend(a: seq<int>, b: seq<int>, k: int)
    ensures Count(a + b, k) == Count(a, k) + Count(b, k)
    decreases |a|
  {
    if a != [] {
      assert (a + b)[0] == a[0] && (a + b)[1..] == a[1..] + b;
      CountAppend(a[1..], b, k);
    } else {
      assert a + b == b;
    }
  }

  /** A session returns exactly the stream of its iterations and ends where
      the stream has taken the cursor. */
  lemma {:induction false} SessionHits<V>(nodes: map<int, Node<V>>, g: u64, c: Cursor,
                                          ks: seq<nat>, rs: seq<Selection<V>>, ds: seq<Cursor>)
    requires c.last >= -1 && Session(nodes, g, c, ks, rs, ds)
    ensures Hits(nodes, g, c, Sum(ks)) == Returned(rs, ds)
    ensures After(nodes, g, c, Sum(ks)) == if ds == [] then c else ds[|ds| - 1]
    decreases |ks|
  {
    if ks != [] {
      CallHits(nodes, g, c, ks[0], rs[0], ds[0]);
      SessionHits(nodes, g, ds[0], ks[1..], rs[1..], ds[1..]);
      HitsAdd(nodes, g, c, ks[0], Sum(ks[1..]));
      AfterAdd(nodes, g, c, ks[0], Sum(ks[1..]));
    }
  }

  /** Running `a` then `b` iterations is running `a + b`. */
  lemma {:induction false} AfterAdd<V>(nodes: map<int, Node<V>>, g: u64, c: Cursor, a: nat, b: nat)
    requires c.last >= -1
    ensures After(nodes, g, After(nodes, g, c, a), b) == After(nodes, g, c, a + b)
    decreases a
  {
    if a > 0 {
      AfterAdd(nodes, g, Step(nodes, g, c).next, a - 1, b);
    }
  }

  /** On a dense registry with a positive step every call returns a node:
      there is no missing key to panic on, and the largest weight, which
      the level resets to, is positive. */
  lemma DenseSelects<V>(nodes: map<int, Node<V>>, g: u64, c: Cursor, k: nat, r: Selection<V>, d: Cursor)
    requires c.last >= -1 && nodes != map[] && Dense(nodes) && IsGcdOfWeights(g, nodes) && g > 0
    requires Call(nodes, g, c, k, r, d)
    ensures r.Selected?
  {
    CallFacts(nodes, g, c, k, r, d);
    GcdBelowMax(nodes, g);
  }

  // ---------------------------------------------------------------------
  // Levels that stay multiples of the step

  /** The level is a positive multiple of a positive step, as `New` leaves
      it when node 0's weight is positive. */
  ghost predicate Aligned(g: u64, level: u64) {
    g > 0 && level > 0 && Divides(g, level)
  }

  /** Every iteration keeps the level aligned: a wrap lowers it by `g` to
      another positive multiple, or from `g` to zero, which resets it to the
      largest weight, itself a positive multiple of the GCD. */
  lemma StepAligned<V>(nodes: map<int, Node<V>>, g: u64, c: Cursor)
    requires c.last >= -1 && nodes != map[] && IsGcdOfWeights(g, nodes) && Aligned(g, c.level)
    ensures Aligned(g, Step(nodes, g, c).next.level)
  {
    GcdBelowMax(nodes, g);
    if c.level < g {
      ModUnique(c.level, g, 0, c.level);
    }
    StepDown(c.level, g);
  }

  /** Any number of iterations keeps the level aligned. */
  lemma {:induction false} AfterAligned<V>(nodes: map<int, Node<V>>, g: u64, c: Cursor, t: nat)
    requires c.last >= -1 && nodes != map[] && IsGcdOfWeights(g, nodes) && Aligned(g, c.level)
    ensures Aligned(g, After(nodes, g, c, t).level)
    decreases t
  {
    if t > 0 {
      StepAligned(nodes, g, c);
      AfterAligned(nodes, g, Step(nodes, g, c).next, t - 1);
    }
  }

  /** A call from an aligned state leaves it aligned, and the node it
      returns weighs at least the step: never a zero-weight node. */
  lemma CallAligned<V>(nodes: map<int, Node<V>>, g: u64, c: Cursor, k: nat, r: Selection<V>, d: Cursor)
    requires c.last >= -1 && nodes != map[] && IsGcdOfWeights(g, nodes) && Aligned(g, c.level)
    requires Call(nodes, g, c, k, r, d)
    ensures Aligned(g, d.level)
    ensures r.Selected? ==> r.node.weight >= g > 0
  {
    var e := After(nodes, g, c, k - 1);
    AfterAligned(nodes, g, c, k - 1);
    StepAligned(nodes, g, e);
    CallFacts(nodes, g, c, k, r, d);
    if d.level < g {
      ModUnique(d.level, g, 0, d.level);
    }
  }

  // ---------------------------------------------------------------------
  // One pass

  /** The indices from `i` to the end of the registry whose weight meets
      `level`, in increasing order. */
  ghost function Above<V>(nodes: map<int, Node<V>>, level: u64, i: nat): seq<int>
    requires Dense(nodes)
    decreases |nodes| - i
  {
    if i >= |nodes| then []
    else (if nodes[i].weight >= level then [i] else []) + Above(nodes, level, i + 1)
  }

  /** Node `k` occurs in `Above(level, i)` once if it lies in range and
      meets the level, and not at all otherwise. */
  lemma {:induction false} AboveCount<V>(nodes: map<int, Node<V>>, level: u64, i: nat, k: int)
    requires Dense(nodes)
    ensures Count(Above(nodes, level, i), k)
            == if i <= k < |nodes| && nodes[k].weight >= level then 1 else 0
    decreases |nodes| - i
  {
    if i < |nodes| {
      var head := if nodes[i].weight >= level then [i] else [];
      assert Above(nodes, level, i) == head + Above(nodes, level, i + 1);
      CountAppend(head, Above(nodes, level, i + 1), k);
      AboveCount(nodes, level, i + 1, k);
    }
  }

  /** Every index in `Above(level, i)` lies in the registry. */
  lemma {:induction false} AboveRange<V>(nodes: map<int, Node<V>>, level: u64, i: nat)
    requires Dense(nodes)
    ensures forall x :: x in Above(nodes, level, i) ==> 0 <= x < |nodes|
    decreases |nodes| - i
  {
    if i < |nodes| {
      AboveRange(nodes, level, i + 1);
    }
  }

  /** No index meets a level above every weight. */
  lemma {:induction false} AboveHigh<V>(nodes: map<int, Node<V>>, level: u64, i: nat)
    requires Dense(nodes) && level > MaxWeight(nodes)
    ensures Above(nodes, level, i) == []
    decreases |nodes| - i
  {
    if i < |nodes| {
      AboveHigh(nodes, level, i + 1);
    }
  }

  /** The rest of a pass, from the cursor at `i - 1` without a wrap,
      returns the indices from `i` on that meet the level and ends at the
      last index. */
  lemma {:induction false} ScanRest<V>(nodes: map<int, Node<V>>, g: u64, level: u64, i: nat)
    requires Dense(nodes) && 1 <= i <= |nodes|
    ensures After(nodes, g, Cursor(i - 1, level), |nodes| - i) == Cursor(|nodes| - 1, level)
    ensures Hits(nodes, g, Cursor(i - 1, level), |nodes| - i) == Above(nodes, level, i)
    decreases |nodes| - i
  {
    if i < |nodes| {
      ModUnique(i, |nodes|, 0, i);
      ScanRest(nodes, g, level, i + 1);
    }
  }

  /** The iteration at the end of a pass wraps: the next pass runs at
      `NextLevel(level)` from index 0. */
  lemma WrapStep<V>(nodes: map<int, Node<V>>, g: u64, s: int, level: u64)
    requires Dense(nodes) && nodes != map[] && s >= -1 && (s + 1) % |nodes| == 0
    requires NextLevel(nodes, g, level) > 0
    ensures Step(nodes, g, Cursor(s, level)) == Probe(nodes, Cursor(0, NextLevel(nodes, g, level)))
  {
  }

  /** A whole pass from the end of the previous one: `n` iterations that
      return, in increasing order, the indices whose weight meets the new
      level, and end at the last index. */
  lemma Pass<V>(nodes: map<int, Node<V>>, g: u64, s: int, level: u64)
    requires Dense(nodes) && nodes != map[] && s >= -1 && (s + 1) % |nodes| == 0
    requires NextLevel(nodes, g, level) > 0
    ensures After(nodes, g, Cursor(s, level), |nodes|) == Cursor(|nodes| - 1, NextLevel(nodes, g, level))
    ensures Hits(nodes, g, Cursor(s, level), |nodes|) == Above(nodes, NextLevel(nodes, g, level), 0)
  {
    var c, l := Cursor(s, level), NextLevel(nodes, g, level);
    WrapStep(nodes, g, s, level);
    assert After(nodes, g, c, 1) == Cursor(0, l);
    ScanRest(nodes, g, l, 1);
    HitsAdd(nodes, g, c, 1, |nodes| - 1);
    AfterAdd(nodes, g, c, 1, |nodes| - 1);
  }

  // ---------------------------------------------------------------------
  // One cycle

  /** The passes at levels `level, level - g, ..., g`, one after another. */
  ghost function Sweep<V>(nodes: map<int, Node<V>>, g: u64, level: u64): seq<int>
    requires Dense(nodes) && g > 0
    decreases level
  {
    Above(nodes, level, 0) + if level > g then Sweep(nodes, g, level - g) else []
  }

  /** The cursor is at the end of a pass with the level at the step: the
      next pass resets the level to the largest weight. */
  ghost predicate CycleStart<V>(nodes: map<int, Node<V>>, g: u64, c: Cursor)
    requires nodes != map[]
  {
    c.last >= -1 && (c.last + 1) % |nodes| == 0 && c.level == g
  }

  /** The iterations of the passes at levels `level, level - g, ..., g`. */
  function SweepLength(n: nat, g: nat, level: nat): nat
    requires g > 0
    decreases level
  {
    n + if level > g then SweepLength(n, g, level - g) else 0
  }

  /** The passes down from `level`, a positive multiple of `g`, number
      `level / g`. */
  lemma {:induction false} SweepLengthValue(n: nat, g: nat, level: nat)
    requires g > 0 && level > 0 && level % g == 0
    ensures SweepLength(n, g, level) * g == n * level
    decreases level
  {
    if level > g {
      StepDown(level, g);
      SweepLengthValue(n, g, level - g);
      assert (n + SweepLength(n, g, level - g)) * g == n * g + SweepLength(n, g, level - g) * g;
      assert n * g + n * (level - g) == n * level;
    } else if level < g {
      ModUnique(level, g, 0, level);
    }
  }

  /** The passes from the end of a pass whose successor runs at `level`, a
      positive multiple of `g`, down to the pass at `g`: they return the
      sweep and leave the cursor at the last index with the level at `g`,
      a cycle start. */
  lemma {:induction false} SweepRun<V>(nodes: map<int, Node<V>>, g: u64, s: int, prev: u64, level: u64)
    requires Dense(nodes) && nodes != map[] && g > 0 && s >= -1 && (s + 1) % |nodes| == 0
    requires level > 0 && level % g == 0 && NextLevel(nodes, g, prev) == level
    ensures After(nodes, g, Cursor(s, prev), SweepLength(|nodes|, g, level)) == Cursor(|nodes| - 1, g)
    ensures Hits(nodes, g, Cursor(s, prev), SweepLength(|nodes|, g, level)) == Sweep(nodes, g, level)
    decreases level
  {
    var n, c := |nodes|, Cursor(s, prev);
    Pass(nodes, g, s, prev);
    if level > g {
      StepDown(level, g);
      assert NextLevel(nodes, g, level) == level - g;
      ModUnique(n, n, 1, 0);
      var rest := SweepLength(n, g, level - g);
      SweepRun(nodes, g, n - 1, level, level - g);
      HitsAdd(nodes, g, c, n, rest);
      AfterAdd(nodes, g, c, n, rest);
    } else if level < g {
      ModUnique(level, g, 0, level);
    }
  }

  /** How many of the levels `level, level - g, ..., ` (down to the last
      positive one) a weight `w` meets. */
  function Met(w: nat, g: nat, level: nat): nat
    requires g > 0
    decreases level
  {
    (if w >= level then 1 else 0) + if level > g then Met(w, g, level - g) else 0
  }

  /** Node `k` occurs in the sweep once per level of it that its weight
      meets. */
  lemma {:induction false} SweepCount<V>(nodes: map<int, Node<V>>, g: u64, level: u64, k: int)
    requires Dense(nodes) && g > 0 && 0 <= k < |nodes|
    ensures Count(Sweep(nodes, g, level), k) == Met(nodes[k].weight, g, level)
    decreases level
  {
    var w := nodes[k].weight;
    var a := Count(Above(nodes, level, 0), k);
    AboveCount(nodes, level, 0, k);
    assert a == if w >= level then 1 else 0;
    if level > g {
      var rest := Sweep(nodes, g, level - g);
      assert Sweep(nodes, g, level) == Above(nodes, level, 0) + rest;
      CountAppend(Above(nodes, level, 0), rest, k);
      SweepCount(nodes, g, level - g, k);
      assert Met(w, g, level) == a + Met(w, g, level - g);
      assert Count(Sweep(nodes, g, level), k) == Met(w, g, level);
    } else {
      assert Sweep(nodes, g, level) == Above(nodes, level, 0);
      assert Met(w, g, level) == a;
      assert Count(Sweep(nodes, g, level), k) == Met(w, g, level);
    }
  }

  /** Of the levels down from a positive multiple `level` of `g`, a
      multiple `w` of `g` meets `min(w, level) / g`. */
  lemma {:induction false} MetCount(w: nat, g: nat, level: nat)
    requires g > 0 && w % g == 0 && level > 0 && level % g == 0
    ensures Met(w, g, level) * g == if w <= level then w else level
    decreases level
  {
    if level > g {
      StepDown(level, g);
      MetCount(w, g, level - g);
      if w < level {
        MultipleBelow(w, level, g);
      }
      CountStep(if w >= level then 1 else 0, Met(w, g, level - g), g, w, level);
    } else {
      if level < g {
        ModUnique(level, g, 0, level);
      }
      if w < g {
        ModUnique(w, g, 0, w);
      }
    }
  }

  /** The count over one more pass, in arithmetic: one more occurrence
      for a weight that meets the new top level. */
  lemma CountStep(a: nat, b: nat, g: nat, w: nat, level: nat)
    requires g > 0 && level > g && a == (if w >= level then 1 else 0)
    requires b * g == (if w <= level - g then w else level - g)
    requires w < level ==> w <= level - g
    ensures (a + b) * g == if w <= level then w else level
  {
    assert (a + b) * g == a * g + b * g;
  }

  /** Lowering a multiple of `g` by `g` leaves a multiple of `g`. */
  lemma StepDown(level: nat, g: nat)
    requires g > 0 && level >= g && level % g == 0
    ensures (level - g) % g == 0
  {
    var q := level / g;
    assert level == g * q;
    assert level - g == g * (q - 1);
    ModUnique(level - g, g, q - 1, 0);
  }

  /** A multiple of `g` below another one is at least `g` below it. */
  lemma MultipleBelow(w: nat, level: nat, g: nat)
    requires g > 0 && w % g == 0 && level % g == 0 && w < level
    ensures w <= level - g
  {
    var a, b := w / g, level / g;
    assert w == g * a && level == g * b;
    if a >= b {
      MulMonotone(g, b, a);
      assert false;
    }
    MulMonotone(g, a, b - 1);
    assert g * (b - 1) == level - g;
  }

  /** Multiplication by a natural is monotone. */
  lemma {:induction false} MulMonotone(g: nat, a: nat, b: nat)
    requires a <= b
    ensures g * a <= g * b
    decreases b - a
  {
    if a < b {
      MulMonotone(g, a, b - 1);
      assert g * b == g * (b - 1) + g;
    }
  }

  /** Every index in the sweep lies in the registry. */
  lemma {:induction false} SweepRange<V>(nodes: map<int, Node<V>>, g: u64, level: u64)
    requires Dense(nodes) && g > 0
    ensures forall x :: x in Sweep(nodes, g, level) ==> 0 <= x < |nodes|
    decreases level
  {
    AboveRange(nodes, level, 0);
    if level > g {
      SweepRange(nodes, g, level - g);
    }
  }

  /** The length of a cycle: `|nodes|` iterations per pass, one pass per
      multiple of `g` up to the largest weight. */
  ghost function CycleLength<V>(nodes: map<int, Node<V>>, g: u64): (t: nat)
    requires IsGcdOfWeights(g, nodes) && g > 0
    ensures t * g == |nodes| * MaxWeight(nodes)
  {
    GcdBelowMax(nodes, g);
    SweepLengthValue(|nodes|, g, MaxWeight(nodes));
    SweepLength(|nodes|, g, MaxWeight(nodes))
  }

  /** A cycle runs the sweep down from the largest weight and ends at a
      cycle start again. */
  lemma CycleSweep<V>(nodes: map<int, Node<V>>, g: u64, c: Cursor)
    requires nodes != map[] && Dense(nodes) && IsGcdOfWeights(g, nodes) && g > 0
    requires CycleStart(nodes, g, c)
    ensures CycleStart(nodes, g, After(nodes, g, c, CycleLength(nodes, g)))
    ensures Hits(nodes, g, c, CycleLength(nodes, g)) == Sweep(nodes, g, MaxWeight(nodes))
  {
    var n := |nodes|;
    GcdBelowMax(nodes, g);
    assert NextLevel(nodes, g, g) == MaxWeight(nodes);
    SweepRun(nodes, g, c.last, g, MaxWeight(nodes));
    ModUnique(n, n, 1, 0);
  }

  /** Fairness over one cycle. From a cycle start on a dense registry with
      step `g`, the iterations of a cycle return node `k` exactly
      `weight(k) / g` times, return nothing outside the registry, and end
      at a cycle start again. */
  lemma Cycle<V>(nodes: map<int, Node<V>>, g: u64, c: Cursor)
    requires nodes != map[] && Dense(nodes) && IsGcdOfWeights(g, nodes) && g > 0
    requires CycleStart(nodes, g, c)
    ensures CycleStart(nodes, g, After(nodes, g, c, CycleLength(nodes, g)))
    ensures forall k :: k in nodes ==>
              Count(Hits(nodes, g, c, CycleLength(nodes, g)), k) * g == nodes[k].weight
    ensures forall x :: x in Hits(nodes, g, c, CycleLength(nodes, g)) ==> x in nodes
  {
    var m := MaxWeight(nodes);
    CycleSweep(nodes, g, c);
    GcdBelowMax(nodes, g);
    DenseKeys(nodes);
    forall k | k in nodes
      ensures Count(Sweep(nodes, g, m), k) * g == nodes[k].weight
    {
      SweepCount(nodes, g, m, k);
      assert Divides(g, nodes[k].weight);
      MetCount(nodes[k].weight, g, m);
    }
    SweepRange(nodes, g, m);
  }

  /** The tallies of the indices `0 .. n-1` in `s`, added up. */
  function CountBelow(s: seq<int>, n: nat): nat {
    if n == 0 then 0 else CountBelow(s, n - 1) + Count(s, n - 1)
  }

  /** The sum of the weights under keys `0 .. n-1`. */
  ghost function TotalWeight<V>(nodes: map<int, Node<V>>, n: nat): nat
    requires Dense(nodes) && n <= |nodes|
  {
    if n == 0 then 0 else TotalWeight(nodes, n - 1) + nodes[n - 1].weight
  }

  /** Nothing is tallied in an empty sequence. */
  lemma {:induction false} CountBelowNil(n: nat)
    ensures CountBelow([], n) == 0
  {
    if n > 0 {
      CountBelowNil(n - 1);
    }
  }

  /** A leading element adds one to the tallies when it is one of the
      indices tallied. */
  lemma {:induction false} CountBelowCons(x: int, t: seq<int>, n: nat)
    ensures CountBelow([x] + t, n) == (if 0 <= x < n then 1 else 0) + CountBelow(t, n)
  {
    if n > 0 {
      assert ([x] + t)[0] == x && ([x] + t)[1..] == t;
      CountBelowCons(x, t, n - 1);
    }
  }

  /** A sequence over the indices `0 .. n-1` is as long as their tallies
      add up to. */
  lemma {:induction false} TallyTotal(s: seq<int>, n: nat)
    requires forall x :: x in s ==> 0 <= x < n
    ensures |s| == CountBelow(s, n)
    decreases |s|
  {
    if s == [] {
      CountBelowNil(n);
    } else {
      assert s == [s[0]] + s[1..];
      assert s[0] in s;
      assert forall x :: x in s[1..] ==> x in s;
      CountBelowCons(s[0], s[1..], n);
      TallyTotal(s[1..], n);
    }
  }

  /** Tallies of `g` per unit of weight add up to `g` per unit of the total
      weight. */
  lemma {:induction false} TallyWeights<V>(nodes: map<int, Node<V>>, g: nat, h: seq<int>, n: nat)
    requires Dense(nodes) && n <= |nodes|
    requires forall k :: 0 <= k < n ==> Count(h, k) * g == nodes[k].weight
    ensures CountBelow(h, n) * g == TotalWeight(nodes, n)
  {
    if n > 0 {
      var x, y := CountBelow(h, n - 1), Count(h, n - 1);
      TallyWeights(nodes, g, h, n - 1);
      Distribute(x, y, g);
      assert y * g == nodes[n - 1].weight;
    }
  }

  /** Multiplication distributes over addition. */
  lemma Distribute(x: nat, y: nat, g: nat)
    ensures (x + y) * g == x * g + y * g
  {
  }

  /** A cycle returns `sum(weights) / g` nodes. */
  lemma CycleSelections<V>(nodes: map<int, Node<V>>, g: u64, c: Cursor)
    requires nodes != map[] && Dense(nodes) && IsGcdOfWeights(g, nodes) && g > 0
    requires CycleStart(nodes, g, c)
    ensures |Hits(nodes, g, c, CycleLength(nodes, g))| * g == TotalWeight(nodes, |nodes|)
  {
    var h := Hits(nodes, g, c, CycleLength(nodes, g));
    Cycle(nodes, g, c);
    DenseKeys(nodes);
    TallyTotal(h, |nodes|);
    TallyWeights(nodes, g, h, |nodes|);
  }

  // ---------------------------------------------------------------------
  // Cycles of calls

  /** On a registry with keys `0 .. n-1` and a positive step, a session
      returns one node per call. */
  lemma {:induction false} SessionSelects<V>(nodes: map<int, Node<V>>, g: u64, c: Cursor,
                                             ks: seq<nat>, rs: seq<Selection<V>>, ds: seq<Cursor>)
    requires c.last >= -1 && nodes != map[] && Dense(nodes) && IsGcdOfWeights(g, nodes) && g > 0
    requires Session(nodes, g, c, ks, rs, ds)
    ensures |Returned(rs, ds)| == |ks|
    decreases |ks|
  {
    if ks != [] {
      DenseSelects(nodes, g, c, ks[0], rs[0], ds[0]);
      SessionSelects(nodes, g, ds[0], ks[1..], rs[1..], ds[1..]);
    }
  }

  /** Two runs from one cursor that return equally many indices return the
      same indices: the shorter run's are a prefix of the longer one's. */
  lemma SameLengthRuns<V>(nodes: map<int, Node<V>>, g: u64, c: Cursor, a: nat, b: nat)
    requires c.last >= -1
    requires |Hits(nodes, g, c, a)| == |Hits(nodes, g, c, b)|
    ensures Hits(nodes, g, c, a) == Hits(nodes, g, c, b)
  {
    if a <= b {
      HitsAdd(nodes, g, c, a, b - a);
    } else {
      HitsAdd(nodes, g, c, b, a - b);
    }
  }

  /** Multiplying by a positive number is injective. */
  lemma MulCancel(a: nat, b: nat, g: nat)
    requires g > 0 && a * g == b * g
    ensures a == b
  {
    if a < b {
      MulMonotone(g, a + 1, b);
    } else if b < a {
      MulMonotone(g, b + 1, a);
    }
  }

  /** Fairness over calls. From a cycle start on a registry with keys
      `0 .. n-1` and step `g`, any `sum(weights) / g` successive calls
      return node `k` exactly `weight(k) / g` times and nothing outside the
      registry, even when the last call runs past the end of the cycle. */
  lemma SessionCycle<V>(nodes: map<int, Node<V>>, g: u64, c: Cursor,
                        ks: seq<nat>, rs: seq<Selection<V>>, ds: seq<Cursor>)
    requires nodes != map[] && Dense(nodes) && IsGcdOfWeights(g, nodes) && g > 0
    requires CycleStart(nodes, g, c) && Session(nodes, g, c, ks, rs, ds)
    requires |ks| * g == TotalWeight(nodes, |nodes|)
    ensures forall k :: k in nodes ==> Count(Returned(rs, ds), k) * g == nodes[k].weight
    ensures forall x :: x in Returned(rs, ds) ==> x in nodes
  {
    var t := CycleLength(nodes, g);
    SessionHits(nodes, g, c, ks, rs, ds);
    SessionSelects(nodes, g, c, ks, rs, ds);
    CycleSelections(nodes, g, c);
    MulCancel(|Hits(nodes, g, c, t)|, |ks|, g);
    SameLengthRuns(nodes, g, c, Sum(ks), t);
    Cycle(nodes, g, c);
  }

  /** The iterations from `New`'s state to the first cycle start: the
      passes at levels `w0 - g, ..., g` below node 0's weight `w0`. */
  ghost function Warmup<V>(nodes: map<int, Node<V>>, g: u64): nat
    requires 0 in nodes && g > 0
  {
    var w0 := nodes[0].weight;
    if w0 > g then SweepLength(|nodes|, g, w0 - g) else 0
  }

  /** `New` with node 0's weight positive reaches a cycle start after
      `Warmup` iterations, `|nodes| * (w0 / g - 1)` of them; its state is a
      cycle start already when `w0 == g`. */
  lemma NewReachesCycle<V>(nodes: map<int, Node<V>>, g: u64)
    requires nodes != map[] && Dense(nodes) && IsGcdOfWeights(g, nodes) && g > 0
    requires nodes[0].weight > 0
    ensures Warmup(nodes, g) * g == |nodes| * (nodes[0].weight - g)
    ensures CycleStart(nodes, g, After(nodes, g, Cursor(-1, nodes[0].weight), Warmup(nodes, g)))
  {
    var n, w0 := |nodes|, nodes[0].weight;
    assert Divides(g, w0);
    if w0 > g {
      StepDown(w0, g);
      assert NextLevel(nodes, g, w0) == w0 - g;
      SweepRun(nodes, g, -1, w0, w0 - g);
      SweepLengthValue(n, g, w0 - g);
      ModUnique(n, n, 1, 0);
    } else {
      if w0 < g {
        ModUnique(w0, g, 0, w0);
      }
      ModUnique(0, n, 0, 0);
    }
  }

  // ---------------------------------------------------------------------
  // A registry whose node 0 weighs nothing

  /** `New` seeds the level with node 0's weight. When that weight is zero
      but the step is positive, the first iteration lowers the level below
      zero: it wraps to `2^64 - g` and node 0 is passed over. */
  lemma ZeroSeedWraps<V>(nodes: map<int, Node<V>>, g: u64)
    requires nodes != map[] && Dense(nodes) && IsGcdOfWeights(g, nodes) && g > 0
    requires nodes[0].weight == 0
    ensures Step(nodes, g, Cursor(-1, 0)) == Continue(Cursor(0, TWO_64 - g))
  {
    ModUnique(0, |nodes|, 0, 0);
  }

  /** A whole pass whose level exceeds every weight returns nothing; the
      cursor ends the pass at the same level. */
  lemma HighPassEmpty<V>(nodes: map<int, Node<V>>, g: u64, s: int, level: u64)
    requires Dense(nodes) && nodes != map[] && s >= -1 && (s + 1) % |nodes| == 0
    requires NextLevel(nodes, g, level) > MaxWeight(nodes)
    ensures Hits(nodes, g, Cursor(s, level), |nodes|) == []
    ensures After(nodes, g, Cursor(s, level), |nodes|) == Cursor(|nodes| - 1, NextLevel(nodes, g, level))
  {
    Pass(nodes, g, s, level);
    AboveHigh(nodes, NextLevel(nodes, g, level), 0);
  }

  /** With every weight zero (step 0) and the level 0, every call runs one
      iteration: it returns the next node, or `nil` where the cursor wraps,
      since the level then resets to the largest weight, 0. */
  lemma ZeroWeightsStep<V>(nodes: map<int, Node<V>>, c: Cursor)
    requires c.last >= -1 && nodes != map[] && Dense(nodes) && IsGcdOfWeights(0, nodes) && c.level == 0
    ensures var i := (c.last + 1) % |nodes|;
      Step(nodes, 0, c) == if i == 0 then Stop(Nil, Cursor(0, 0)) else Stop(Selected(nodes[i]), Cursor(i, 0))
  {
    ZeroGcdAllZero(nodes);
  }

  // ---------------------------------------------------------------------
  // The example program's registry

  /** The registry of the example program: apple 2, banana 4, grape 4,
      orange 18. */
  function Fruits(): map<int, Node<string>> {
    map[0 := Node("apple", 2), 1 := Node("banana", 4), 2 := Node("grape", 4), 3 := Node("orange", 18)]
  }

  /** A weight that no weight exceeds is the largest weight. */
  lemma MaxWeightIs<V>(nodes: map<int, Node<V>>, k: int)
    requires k in nodes && forall j :: j in nodes ==> nodes[j].weight <= nodes[k].weight
    ensures MaxWeight(nodes) == nodes[k].weight
  {
    var m := MaxWeight(nodes);
    var i :| i in nodes && nodes[i].weight == m;
  }

  /** Its step is 2. */
  lemma FruitsGcd(g: u64)
    requires IsGcdOfWeights(g, Fruits())
    ensures g == 2
  {
    var nodes := Fruits();
    assert WeightDivisor(2, nodes);
    assert Divides(2, g);
    assert Divides(g, 2) by { assert Divides(g, nodes[0].weight); }
    DividesAntisymmetric(2, g);
  }

  /** Its keys are 0 .. 3. */
  lemma FruitsDense()
    ensures Dense(Fruits()) && |Fruits()| == 4
  {
    var nodes := Fruits();
    assert |nodes| == 4 by {
      assert nodes.Keys == {0, 1, 2, 3};
      assert |{0, 1, 2, 3}| == 4;
    }
    forall k | 0 <= k < |nodes|
      ensures k in nodes
    {
      assert k == 0 || k == 1 || k == 2 || k == 3;
    }
  }

  /** Its largest weight is orange's 18. */
  lemma FruitsMax()
    ensures MaxWeight(Fruits()) == 18
  {
    var nodes := Fruits();
    assert forall j :: j in nodes ==> j == 0 || j == 1 || j == 2 || j == 3;
    MaxWeightIs(nodes, 3);
  }

  /** Its weights add up to 28. */
  lemma FruitsTotal()
    ensures Dense(Fruits()) && |Fruits()| == 4 && TotalWeight(Fruits(), 4) == 28
  {
    FruitsDense();
    var nodes := Fruits();
    assert nodes[0].weight == 2 && nodes[1].weight == 4 && nodes[2].weight == 4 && nodes[3].weight == 18;
  }

  /** `New`'s state (cursor -1, level 2) is a cycle start, and the 36
      iterations of each cycle return 14 nodes: apple once, banana and grape
      twice each and orange 9 times. */
  lemma FruitsCycle(g: u64)
    requires IsGcdOfWeights(g, Fruits())
    ensures |Fruits()| == 4
    ensures CycleStart(Fruits(), g, Cursor(-1, 2)) && CycleLength(Fruits(), g) == 36
    ensures var h := Hits(Fruits(), g, Cursor(-1, 2), CycleLength(Fruits(), g));
      Count(h, 0) == 1 && Count(h, 1) == 2 && Count(h, 2) == 2 && Count(h, 3) == 9 && |h| == 14
  {
    var nodes, c := Fruits(), Cursor(-1, 2);
    FruitsGcd(g);
    FruitsDense();
    FruitsMax();
    assert CycleStart(nodes, g, c) by { ModUnique(0, 4, 0, 0); }
    var t := CycleLength(nodes, g);
    assert t == 36 by { assert t * 2 == 4 * 18; }
    Cycle(nodes, g, c);
    var h := Hits(nodes, g, c, t);
    assert Count(h, 0) == 1 by { assert nodes[0].weight == 2; }
    assert Count(h, 1) == 2 by { assert nodes[1].weight == 4; }
    assert Count(h, 2) == 2 by { assert nodes[2].weight == 4; }
    assert Count(h, 3) == 9 by { assert nodes[3].weight == 18; }
    assert |h| == 14 by {
      FruitsTotal();
      CycleSelections(nodes, g, c);
    }
  }

  /** The example program's loop: from `New`'s state, any 14 successive
      calls return a node each, apple once, banana and grape twice each and
      orange 9 times. */
  lemma FruitsCalls(g: u64, ks: seq<nat>, rs: seq<Selection<string>>, ds: seq<Cursor>)
    requires IsGcdOfWeights(g, Fruits())
    requires Session(Fruits(), g, Cursor(-1, 2), ks, rs, ds) && |ks| == 14
    ensures var h := Returned(rs, ds);
      |h| == 14 && Count(h, 0) == 1 && Count(h, 1) == 2 && Count(h, 2) == 2 && Count(h, 3) == 9
  {
    var nodes, c := Fruits(), Cursor(-1, 2);
    FruitsGcd(g);
    FruitsTotal();
    assert CycleStart(nodes, g, c) by { ModUnique(0, 4, 0, 0); }
    SessionSelects(nodes, g, c, ks, rs, ds);
    SessionCycle(nodes, g, c, ks, rs, ds);
    var h := Returned(rs, ds);
    assert Count(h, 0) == 1 by { assert nodes[0].weight == 2; }
    assert Count(h, 1) == 2 by { assert nodes[1].weight == 4; }
    assert Count(h, 2) == 2 by { assert nodes[2].weight == 4; }
    assert Count(h, 3) == 9 by { assert nodes[3].weight == 18; }
  }
}
