/** The name-to-placeholder index a parsed statement keeps
    (`nameColumnIndexesMap` in the Java code). */
module Positions {

  /** For each parameter name, the 1-based placeholder positions where it occurs. */
  type PositionMap = map<string, seq<nat>>

  predicate StrictlyIncreasing(xs: seq<nat>) {
    forall i, j :: 0 <= i < j < |xs| ==> xs[i] < xs[j]
  }

  /** No placeholder position belongs to two different names. */
  predicate Disjoint(m: PositionMap) {
    forall n1, n2, p :: n1 in m && n2 in m && n1 != n2 && p in m[n1] ==> p !in m[n2]
  }

  /** Records that placeholder `p` stands for `name`: the name's list is
      created when the name is first seen, and `p` is appended to it. */
  function Record(m: PositionMap, name: string, p: nat): PositionMap {
    m[name := (if name in m then m[name] else []) + [p]]
  }

  /** The index built by recording the names `ns` one after the other, the
      k-th name (1-based) at placeholder k. */
  function Index(ns: seq<string>): PositionMap
    decreases |ns|
  {
    if ns == [] then map[] else Record(Index(ns[..|ns| - 1]), ns[|ns| - 1], |ns|)
  }

  /** What the index holds, independently of the order of the updates that
      built it: a name is a key exactly when it occurs, its list holds exactly
      the positions where it occurs, and the list is in occurrence order. */
  lemma {:induction false} IndexSpec(ns: seq<string>)
    ensures forall n :: n in Index(ns) <==> n in ns
    ensures forall n, p {:trigger p in Index(ns)[n]} :: n in Index(ns) ==> (p in Index(ns)[n] <==> 1 <= p <= |ns| && ns[p - 1] == n)
    ensures forall n :: n in Index(ns) ==> StrictlyIncreasing(Index(ns)[n])
    decreases |ns|
  {
    if ns != [] {
      var init := ns[..|ns| - 1];
      IndexSpec(init);
      var prev := Index(init);
      var n := ns[|ns| - 1];
      var m := Index(ns);
      assert m == Record(prev, n, |ns|);
      assert forall x :: x in init ==> x in ns;
      assert forall k :: 0 <= k < |init| ==> ns[k] == init[k];
      assert ns == init + [n];
      forall x | x in ns
        ensures x in m
      {
        if x != n {
          var k :| 0 <= k < |ns| && ns[k] == x;
          assert x in init;
        }
      }
      forall x, p | x in m
        ensures p in m[x] <==> 1 <= p <= |ns| && ns[p - 1] == x
      {
      }
      forall x | x in m
        ensures StrictlyIncreasing(m[x])
      {
        if x == n && n in prev {
          assert forall i :: 0 <= i < |prev[n]| ==> prev[n][i] in prev[n] && prev[n][i] < |ns|;
        }
      }
    }
  }

  /** Recording one more name extends the index by that name's position. */
  lemma IndexSnoc(ns: seq<string>, name: string)
    ensures Index(ns + [name]) == Record(Index(ns), name, |ns| + 1)
  {
    assert (ns + [name])[..|ns|] == ns;
  }

  /** Records the names `ns` one after the other, from placeholder `col` on. */
  function Extend(m: PositionMap, ns: seq<string>, col: nat): PositionMap
    decreases |ns|
  {
    if ns == [] then m else Extend(Record(m, ns[0], col), ns[1..], col + 1)
  }

  /** Extending the index of `pre` by `ns` indexes the whole sequence. */
  lemma {:induction false} ExtendIndex(pre: seq<string>, ns: seq<string>)
    ensures Extend(Index(pre), ns, |pre| + 1) == Index(pre + ns)
    decreases |ns|
  {
    if ns == [] {
      assert pre + ns == pre;
    } else {
      IndexSnoc(pre, ns[0]);
      ExtendIndex(pre + [ns[0]], ns[1..]);
      assert pre + [ns[0]] + ns[1..] == pre + ns;
    }
  }

  /** The index partitions the positions 1..|ns|: every position lies in
      exactly one name's list, and no list mentions a position out of range. */
  lemma IndexPartitions(ns: seq<string>)
    ensures forall k :: 0 <= k < |ns| ==> ns[k] in Index(ns) && k + 1 in Index(ns)[ns[k]]
    ensures Disjoint(Index(ns))
    ensures forall n, p :: n in Index(ns) && p in Index(ns)[n] ==> 1 <= p <= |ns|
    ensures forall n :: n in Index(ns) ==> |Index(ns)[n]| > 0
  {
    var m := Index(ns);
    IndexSpec(ns);
    forall k | 0 <= k < |ns|
      ensures ns[k] in m && k + 1 in m[ns[k]]
    {
      assert ns[k] in ns;
    }
    forall n | n in m
      ensures |m[n]| > 0
    {
      var k :| 0 <= k < |ns| && ns[k] == n;
      assert k + 1 in m[n];
    }
  }
}
