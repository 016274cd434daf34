/**
 * Following a chain of forwarding edges with Floyd's tortoise-and-hare cycle test.
 *
 * Both `follow(TypeId)` and `follow(TypePackId)` walk a partial successor function
 * ("advance") until it yields nothing, and throw when the walk provably loops. The
 * successor function is modelled as a finite map; `Follow` is the loop as the source
 * writes it and `FollowSpec` an independent bounded-walk definition it is proved equal to.
 */
module Chains {
  import opened Options

  type Succ = map<nat, nat>

  /** The node `k` steps along the chain from `t`, if the chain is that long. */
  function Walk(succ: Succ, t: nat, k: nat): Option<nat>
    decreases k
  {
    if k == 0 then Some(t)
    else if t in succ then Walk(succ, succ[t], k - 1)
    else None
  }

  /** Bounded reference walk: the end of the chain if it is reached within `fuel` steps. */
  function FollowFuel(succ: Succ, t: nat, fuel: nat): Option<nat>
    decreases fuel
  {
    if t !in succ then Some(t)
    else if fuel == 0 then None
    else FollowFuel(succ, succ[t], fuel - 1)
  }

  /**
   * Reference definition of `follow`: the last node of the chain, or None when the
   * chain never ends (the source throws "detected a Type cycle"). An acyclic chain
   * visits distinct keys, so |succ| steps are always enough.
   */
  function FollowSpec(succ: Succ, t: nat): Option<nat> {
    FollowFuel(succ, t, |succ|)
  }

  lemma {:induction false} WalkStep(succ: Succ, t: nat, k: nat)
    ensures Walk(succ, t, k + 1) ==
      (match Walk(succ, t, k)
       case Some(u) => if u in succ then Some(succ[u]) else None
       case None => None)
    decreases k
  {
    if k > 0 && t in succ {
      WalkStep(succ, succ[t], k - 1);
    }
  }

  lemma {:induction false} WalkPrefix(succ: Succ, t: nat, j: nat, k: nat)
    requires j <= k && Walk(succ, t, k).Some?
    ensures Walk(succ, t, j).Some?
    ensures j < k ==> Walk(succ, t, j).value in succ
    decreases k
  {
    if j < k {
      WalkStep(succ, t, k - 1);
      WalkPrefix(succ, t, j, k - 1);
      if j < k - 1 {
      }
    }
  }

  /** Once a node repeats, the chain is periodic from the first occurrence on. */
  lemma {:induction false} Periodic(succ: Succ, t: nat, a: nat, p: nat, k: nat)
    requires p > 0 && Walk(succ, t, a).Some? && Walk(succ, t, a) == Walk(succ, t, a + p)
    requires k >= a
    ensures Walk(succ, t, k) == Walk(succ, t, k + p)
    decreases k
  {
    if k > a {
      Periodic(succ, t, a, p, k - 1);
      WalkStep(succ, t, k - 1);
      WalkStep(succ, t, k - 1 + p);
    }
  }

  lemma {:induction false} PeriodicMany(succ: Succ, t: nat, a: nat, p: nat, k: nat, m: nat)
    requires p > 0 && Walk(succ, t, a).Some? && Walk(succ, t, a) == Walk(succ, t, a + p)
    requires k >= a
    ensures Walk(succ, t, k) == Walk(succ, t, k + p * m)
    decreases m
  {
    if m > 0 {
      PeriodicMany(succ, t, a, p, k, m - 1);
      Periodic(succ, t, a, p, k + p * (m - 1));
      assert k + p * (m - 1) + p == k + p * m;
    }
  }

  /** A repeated node means the chain never ends. */
  lemma {:induction false} CycleIsInfinite(succ: Succ, t: nat, a: nat, b: nat, k: nat)
    requires a < b && Walk(succ, t, a).Some? && Walk(succ, t, a) == Walk(succ, t, b)
    ensures Walk(succ, t, k).Some?
    decreases k
  {
    if k <= b {
      WalkPrefix(succ, t, k, b);
    } else {
      CycleIsInfinite(succ, t, a, b, k - (b - a));
      Periodic(succ, t, a, b - a, k - (b - a));
    }
  }

  /** Among more elements than a set has, drawn from it, two must coincide. */
  lemma {:induction false} Pigeonhole(xs: seq<nat>, s: set<nat>)
    requires forall i :: 0 <= i < |xs| ==> xs[i] in s
    requires |xs| > |s|
    ensures exists a, b :: 0 <= a < b < |xs| && xs[a] == xs[b]
    decreases |xs|
  {
    if xs[0] in xs[1..] {
      var j :| 0 <= j < |xs[1..]| && xs[1..][j] == xs[0];
      assert xs[0] == xs[j + 1];
    } else {
      var s' := s - {xs[0]};
      forall i | 0 <= i < |xs[1..]|
        ensures xs[1..][i] in s'
      {
        assert xs[1..][i] == xs[i + 1];
        assert xs[i + 1] != xs[0] by { assert xs[1..][i] in xs[1..]; }
      }
      Pigeonhole(xs[1..], s');
      var a, b :| 0 <= a < b < |xs[1..]| && xs[1..][a] == xs[1..][b];
      assert xs[a + 1] == xs[b + 1];
    }
  }

  /** The first `n + 1` nodes of a chain that does not end within `n` steps. */
  function Prefix(succ: Succ, t: nat, n: nat): (xs: seq<nat>)
    requires forall j :: 0 <= j <= n ==> Walk(succ, t, j).Some?
    ensures |xs| == n + 1
    ensures forall j :: 0 <= j <= n ==> Walk(succ, t, j) == Some(xs[j])
  {
    seq(n + 1, j requires 0 <= j <= n => Walk(succ, t, j).value)
  }

  /** A chain that keeps going for |succ| steps repeats a node. */
  lemma LongChainRepeats(succ: Succ, t: nat)
    requires forall j :: 0 <= j <= |succ| ==> Walk(succ, t, j).Some? && Walk(succ, t, j).value in succ
    ensures exists a, b :: 0 <= a < b <= |succ| && Walk(succ, t, a).Some? && Walk(succ, t, a) == Walk(succ, t, b)
  {
    var xs := Prefix(succ, t, |succ|);
    Pigeonhole(xs, succ.Keys);
    var a, b :| 0 <= a < b < |xs| && xs[a] == xs[b];
    assert Walk(succ, t, a) == Some(xs[a]);
  }

  lemma {:induction false} FollowFuelSound(succ: Succ, t: nat, fuel: nat)
    ensures FollowFuel(succ, t, fuel).Some? ==>
      exists k :: 0 <= k <= fuel && Walk(succ, t, k) == FollowFuel(succ, t, fuel) && FollowFuel(succ, t, fuel).value !in succ
    ensures FollowFuel(succ, t, fuel).None? ==>
      forall j :: 0 <= j <= fuel ==> Walk(succ, t, j).Some? && Walk(succ, t, j).value in succ
    decreases fuel
  {
    if t !in succ {
      assert Walk(succ, t, 0) == Some(t);
    } else if fuel > 0 {
      FollowFuelSound(succ, succ[t], fuel - 1);
      if FollowFuel(succ, t, fuel).Some? {
        var k :| 0 <= k <= fuel - 1 && Walk(succ, succ[t], k) == FollowFuel(succ, t, fuel);
        assert Walk(succ, t, k + 1) == Walk(succ, succ[t], k);
      } else {
        forall j | 0 <= j <= fuel
          ensures Walk(succ, t, j).Some? && Walk(succ, t, j).value in succ
        {
          if j > 0 {
            assert Walk(succ, t, j) == Walk(succ, succ[t], j - 1);
          }
        }
      }
    }
  }

  lemma {:induction false} FollowFuelReaches(succ: Succ, t: nat, k: nat, fuel: nat)
    requires k <= fuel && Walk(succ, t, k).Some? && Walk(succ, t, k).value !in succ
    ensures FollowFuel(succ, t, fuel) == Walk(succ, t, k)
    decreases k
  {
    if k > 0 {
      assert t in succ;
      FollowFuelReaches(succ, succ[t], k - 1, fuel - 1);
    }
  }

  /** A chain that ends, ends where the reference walk says. */
  lemma EndIsSpec(succ: Succ, t: nat, k: nat)
    requires Walk(succ, t, k).Some? && Walk(succ, t, k).value !in succ
    ensures FollowSpec(succ, t) == Walk(succ, t, k)
  {
    if k > |succ| {
      forall j | 0 <= j <= |succ|
        ensures Walk(succ, t, j).Some? && Walk(succ, t, j).value in succ
      {
        WalkPrefix(succ, t, j, k);
      }
      LongChainRepeats(succ, t);
      var a, b :| 0 <= a < b <= |succ| && Walk(succ, t, a).Some? && Walk(succ, t, a) == Walk(succ, t, b);
      CycleIsInfinite(succ, t, a, b, k + 1);
      WalkStep(succ, t, k);
      assert false;
    }
    FollowFuelReaches(succ, t, k, |succ|);
  }

  /** A chain with a repeated node has no end: the reference walk reports the cycle. */
  lemma CycleIsSpecNone(succ: Succ, t: nat, a: nat, b: nat)
    requires a < b && Walk(succ, t, a).Some? && Walk(succ, t, a) == Walk(succ, t, b)
    ensures FollowSpec(succ, t) == None
  {
    FollowFuelSound(succ, t, |succ|);
    if FollowSpec(succ, t).Some? {
      var k :| 0 <= k <= |succ| && Walk(succ, t, k) == FollowSpec(succ, t) && FollowSpec(succ, t).value !in succ;
      CycleIsInfinite(succ, t, a, b, k + 1);
      WalkStep(succ, t, k);
    }
  }

  /** The reference walk ends on a node without successor that lies on the chain. */
  lemma FollowSpecEnds(succ: Succ, t: nat)
    ensures FollowSpec(succ, t).Some? ==> FollowSpec(succ, t).value !in succ
    ensures FollowSpec(succ, t).Some? ==> exists k :: Walk(succ, t, k) == FollowSpec(succ, t)
  {
    FollowFuelSound(succ, t, |succ|);
  }

  /** Following is idempotent: the end of a chain is its own end. */
  lemma FollowIdempotent(succ: Succ, t: nat)
    requires FollowSpec(succ, t).Some?
    ensures FollowSpec(succ, FollowSpec(succ, t).value) == FollowSpec(succ, t)
  {
    FollowSpecEnds(succ, t);
  }

  /** The reference walk reports a cycle exactly when the chain never ends. */
  lemma SpecNoneIffInfinite(succ: Succ, t: nat)
    ensures FollowSpec(succ, t) == None <==> forall k :: Walk(succ, t, k).Some?
  {
    FollowFuelSound(succ, t, |succ|);
    if FollowSpec(succ, t) == None {
      LongChainRepeats(succ, t);
      var a, b :| 0 <= a < b <= |succ| && Walk(succ, t, a).Some? && Walk(succ, t, a) == Walk(succ, t, b);
      forall k ensures Walk(succ, t, k).Some? {
        CycleIsInfinite(succ, t, a, b, k);
      }
    } else {
      var k :| 0 <= k <= |succ| && Walk(succ, t, k) == FollowSpec(succ, t) && FollowSpec(succ, t).value !in succ;
      WalkStep(succ, t, k);
      assert Walk(succ, t, k + 1) == None;
    }
  }

  /**
   * The number of tortoise steps after which `Follow` stops: the end index of a finite
   * chain, or an index where the tortoise at x_i meets the hare at x_(2i+1).
   */
  lemma TortoiseBound(succ: Succ, t: nat) returns (bound: nat)
    ensures FollowSpec(succ, t).Some? ==>
      Walk(succ, t, bound) == FollowSpec(succ, t) && FollowSpec(succ, t).value !in succ
    ensures FollowSpec(succ, t).None? ==>
      bound >= 1 && Walk(succ, t, bound).Some? && Walk(succ, t, bound) == Walk(succ, t, 2 * bound + 1)
  {
    FollowFuelSound(succ, t, |succ|);
    if FollowSpec(succ, t).Some? {
      var k :| 0 <= k <= |succ| && Walk(succ, t, k) == FollowSpec(succ, t) && FollowSpec(succ, t).value !in succ;
      bound := k;
    } else {
      LongChainRepeats(succ, t);
      var a, b :| 0 <= a < b <= |succ| && Walk(succ, t, a).Some? && Walk(succ, t, a) == Walk(succ, t, b);
      bound := CycleMeeting(succ, t, a, b);
    }
  }

  /** On a cycle entered by step `a` with period `b - a`, the tortoise meets the hare. */
  lemma CycleMeeting(succ: Succ, t: nat, a: nat, b: nat) returns (bound: nat)
    requires a < b && Walk(succ, t, a).Some? && Walk(succ, t, a) == Walk(succ, t, b)
    ensures bound >= 1 && Walk(succ, t, bound).Some? && Walk(succ, t, bound) == Walk(succ, t, 2 * bound + 1)
  {
    var p := b - a;
    var m := p * (a + 2);
    MulAtLeast(p, a + 2);
    bound := m - 1;
    PeriodicMany(succ, t, a, p, bound, a + 2);
    assert 2 * bound + 1 == bound + m;
    CycleIsInfinite(succ, t, a, b, bound);
  }

  lemma MulAtLeast(p: nat, q: nat)
    requires p >= 1
    ensures p * q >= q
  {
  }

  /**
   * `follow` as written: `t` advances one step per iteration, the cycle tester two,
   * starting one step ahead; the tester drops out (null) once its chain ends, and meeting
   * it raises the cycle error (None here). The result always agrees with `FollowSpec`.
   */
  method Follow(succ: Succ, t: nat) returns (r: Option<nat>)
    ensures r == FollowSpec(succ, t)
    ensures r == None <==> forall k :: Walk(succ, t, k).Some?
  {
    SpecNoneIffInfinite(succ, t);
    if t !in succ {
      r := Some(t);
      EndIsSpec(succ, t, 0);
      return;
    }
    var tester0 := succ[t];
    assert Walk(succ, t, 1) == Some(tester0) by { WalkStep(succ, t, 0); }
    if tester0 !in succ {
      r := Some(tester0);
      EndIsSpec(succ, t, 1);
      return;
    }
    ghost var finite := FollowSpec(succ, t).Some?;
    ghost var bound := TortoiseBound(succ, t);
    var cur := t;
    var tester: Option<nat> := Some(tester0);
    ghost var i: nat := 0;
    while true
      invariant Walk(succ, t, i) == Some(cur)
      invariant tester.Some? ==> Walk(succ, t, 2 * i + 1) == tester
      invariant tester.None? ==> finite
      invariant finite ==> i <= bound
      invariant !finite ==> i < bound
      decreases bound - i
    {
      WalkStep(succ, t, i);
      if cur in succ {
        cur := succ[cur];
      } else {
        r := Some(cur);
        EndIsSpec(succ, t, i);
        return;
      }
      i := i + 1;
      if tester.Some? {
        var c := tester.value;
        WalkStep(succ, t, 2 * i - 1);
        WalkStep(succ, t, 2 * i);
        if c in succ {
          var a2 := succ[c];
          if a2 in succ {
            tester := Some(succ[a2]);
          } else {
            tester := None;
            EndIsSpec(succ, t, 2 * i);
          }
        } else {
          tester := None;
          EndIsSpec(succ, t, 2 * i - 1);
        }
        if tester == Some(cur) {
          r := None;
          CycleIsSpecNone(succ, t, i, 2 * i + 1);
          return;
        }
      }
    }
  }
}
