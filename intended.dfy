/**
 * What the sweep of `findReadsBeforeWrites` computes when a fresh set is
 * stored with `set(index, ...)` (`Store.Replace`), the evident intent of its
 * `add(index, ...)` calls.
 *
 * The sweep handles the instructions in rank order and follows only edges to a
 * larger rank ("forward" edges); an edge to a smaller or equal rank closes a
 * cycle and is skipped. A forward path is a path from the entry along forward
 * edges. With every instruction reachable, the sweep reports a read exactly
 * when some forward path from the entry to it writes the variable nowhere
 * before it. In an acyclic flow every edge from a reachable instruction is
 * forward, so there the forward paths are all the paths from the entry.
 */
module Intended {
  import opened Graph
  import opened NamesIndex
  import opened Postorder
  import opened Analysis

  // ---------------------------------------------------------------------------
  // Forward paths and definite assignment.

  /** `u -> w` is an edge to a larger rank. */
  ghost predicate FEdge(flow: Flow, post: seq<int>, u: int, w: int)
  {
    0 <= u < |flow| && 0 <= w < |flow| && |post| == |flow| && w in flow[u].succ && post[u] < post[w]
  }

  /** `p` starts at the entry and follows edges to larger ranks. */
  ghost predicate FPath(flow: Flow, post: seq<int>, p: seq<nat>)
  {
    && IsPath(flow, p) && p[0] == 0 && |post| == |flow|
    && forall t :: 0 <= t < |p| - 1 ==> post[p[t]] < post[p[t + 1]]
  }

  /** Instruction `v` writes the variable of index `x`. */
  ghost predicate Writes(flow: Flow, names: map<string, int>, v: int, x: int)
  {
    0 <= v < |flow| && flow[v].access.ReadWrite? && flow[v].access.isWrite && Get(names, flow[v].access.name) == x
  }

  /** Every forward path to `m` writes `x` at some instruction before `m`. */
  ghost predicate AssignedBefore(flow: Flow, post: seq<int>, names: map<string, int>, m: int, x: int)
  {
    forall p :: FPath(flow, post, p) && p[|p| - 1] == m ==>
      exists t :: 0 <= t < |p| - 1 && Writes(flow, names, p[t], x)
  }

  /** Every forward path to `m` writes `x` at `m` or before it. */
  ghost predicate AssignedThrough(flow: Flow, post: seq<int>, names: map<string, int>, m: int, x: int)
  {
    Writes(flow, names, m, x) || AssignedBefore(flow, post, names, m, x)
  }

  /** The read at `m` is one the intended sweep must report. */
  ghost predicate Reported(flow: Flow, post: seq<int>, names: map<string, int>, m: int)
  {
    IsRead(flow, m) && !AssignedBefore(flow, post, names, m, Get(names, flow[m].access.name))
  }

  /** Nothing is assigned before the entry: the path `[0]` writes nothing
      before its end. */
  lemma EntryNotAssigned(flow: Flow, post: seq<int>, names: map<string, int>, x: int)
    requires |flow| > 0 && |post| == |flow|
    ensures !AssignedBefore(flow, post, names, 0, x)
  {
    assert FPath(flow, post, [0]);
  }

  /** The meet over forward paths splits at the last edge: `x` is assigned
      before `m` exactly when it is assigned through every forward predecessor
      of `m`. */
  lemma Meet(flow: Flow, post: seq<int>, names: map<string, int>, m: int, x: int)
    requires WellFormed(flow) && |post| == |flow| && 0 < m < |flow|
    ensures AssignedBefore(flow, post, names, m, x) <==>
      forall q :: FEdge(flow, post, q, m) ==> AssignedThrough(flow, post, names, q, x)
  {
    if AssignedBefore(flow, post, names, m, x) {
      forall q | FEdge(flow, post, q, m)
        ensures AssignedThrough(flow, post, names, q, x)
      {
        MeetDown(flow, post, names, m, x, q);
      }
    }
    if forall q :: FEdge(flow, post, q, m) ==> AssignedThrough(flow, post, names, q, x) {
      forall p: seq<nat> | FPath(flow, post, p) && p[|p| - 1] == m
        ensures exists t :: 0 <= t < |p| - 1 && Writes(flow, names, p[t], x)
      {
        MeetUp(flow, post, names, m, x, p);
      }
    }
  }

  /** What is assigned before `m` is assigned through each forward predecessor. */
  lemma MeetDown(flow: Flow, post: seq<int>, names: map<string, int>, m: int, x: int, q: int)
    requires WellFormed(flow) && |post| == |flow| && 0 < m < |flow|
    requires AssignedBefore(flow, post, names, m, x) && FEdge(flow, post, q, m)
    ensures AssignedThrough(flow, post, names, q, x)
  {
    if !Writes(flow, names, q, x) {
      forall p: seq<nat> | FPath(flow, post, p) && p[|p| - 1] == q
        ensures exists t :: 0 <= t < |p| - 1 && Writes(flow, names, p[t], x)
      {
        var p' := p + [m];
        assert FPath(flow, post, p');
        var t :| 0 <= t < |p'| - 1 && Writes(flow, names, p'[t], x);
        assert p'[t] == p[t];
      }
    }
  }

  /** A forward path to `m` ends with an edge from a forward predecessor. */
  lemma MeetUp(flow: Flow, post: seq<int>, names: map<string, int>, m: int, x: int, p: seq<nat>)
    requires WellFormed(flow) && |post| == |flow| && 0 < m < |flow|
    requires forall q :: FEdge(flow, post, q, m) ==> AssignedThrough(flow, post, names, q, x)
    requires FPath(flow, post, p) && p[|p| - 1] == m
    ensures exists t :: 0 <= t < |p| - 1 && Writes(flow, names, p[t], x)
  {
    var q := p[|p| - 2];
    assert FEdge(flow, post, q, m);
    if Writes(flow, names, q, x) {
      assert Writes(flow, names, p[|p| - 2], x);
    } else {
      var p' := p[..|p| - 1];
      assert FPath(flow, post, p');
      var t :| 0 <= t < |p'| - 1 && Writes(flow, names, p'[t], x);
      assert p[t] == p'[t];
    }
  }

  // ---------------------------------------------------------------------------
  // The sweep invariant.

  /** What the ranks give the sweep when every instruction is reachable:
      `revpostorder` and `postorder` are inverse permutations, the entry has
      rank 0, and every other instruction has a forward predecessor. */
  ghost predicate Ranked(flow: Flow, post: seq<int>, rev: seq<int>)
  {
    && WellFormed(flow) && RanksFit(flow, post, rev)
    && (forall i :: 0 <= i < |flow| ==> post[rev[i]] == i)
    && (forall v :: 0 <= v < |flow| ==> 0 <= post[v] < |flow| && rev[post[v]] == v)
    && post[0] == 0
    && forall b :: 0 < b < |flow| ==> HasForwardPred(flow, post, b)
  }

  ghost predicate HasForwardPred(flow: Flow, post: seq<int>, b: int)
  {
    exists u :: FEdge(flow, post, u, b)
  }

  /** The forward predecessors of `w` handled before iteration `i`. */
  ghost function Before(flow: Flow, post: seq<int>, i: int, w: int): set<int>
  {
    set q | 0 <= q < |flow| && FEdge(flow, post, q, w) && post[q] < i
  }

  /** Those, plus `cur` once its edge to `w` is among the first `k` it followed. */
  ghost function During(flow: Flow, post: seq<int>, i: int, cur: nat, k: nat, w: int): set<int>
    requires cur < |flow| && k <= |flow[cur].succ|
  {
    Before(flow, post, i, w) + (if FEdge(flow, post, cur, w) && w in flow[cur].succ[..k] then {cur} else {})
  }

  /** The entry for a not yet handled `w` is the intersection of what its
      contributors `c` hold, or `null` while it has none. */
  ghost predicate InOk(facts: Facts, w: int, c: set<int>)
  {
    && 0 <= w < |facts| && (forall q :: q in c ==> 0 <= q < |facts|)
    && (c == {} ==> facts[w].None?)
    && (c != {} ==> facts[w].Some? && forall x :: x in facts[w].value <==> (forall q :: q in c ==> x in Val(facts[q])))
  }

  /** The entry for a handled `v` holds exactly what is assigned through `v`. */
  ghost predicate OutOk(flow: Flow, post: seq<int>, names: map<string, int>, facts: Facts, v: int)
  {
    0 <= v < |facts| && forall x :: x in Val(facts[v]) <==> AssignedThrough(flow, post, names, v, x)
  }

  /** Between iterations: `i` instructions handled. */
  ghost predicate SweepInv(flow: Flow, post: seq<int>, names: map<string, int>, i: int, s: State)
  {
    && |s.facts| == |flow| && |post| == |flow| && 0 <= i <= |flow|
    && (forall v :: 0 <= v < |flow| && post[v] < i ==> OutOk(flow, post, names, s.facts, v))
    && (forall w :: 0 <= w < |flow| && post[w] >= i ==> InOk(s.facts, w, Before(flow, post, i, w)))
    && (forall m :: m in s.reported <==> 0 <= m < |flow| && post[m] < i && Reported(flow, post, names, m))
  }

  /** Inside iteration `i`, on `cur`, after `k` of its edges. */
  ghost predicate EdgeInv(flow: Flow, post: seq<int>, names: map<string, int>, i: int, cur: nat, k: nat, facts: Facts)
    requires cur < |flow| && k <= |flow[cur].succ|
  {
    && |facts| == |flow| && |post| == |flow|
    && (forall v :: 0 <= v < |flow| && post[v] <= i ==> OutOk(flow, post, names, facts, v))
    && (forall w :: 0 <= w < |flow| && post[w] > i ==> InOk(facts, w, During(flow, post, i, cur, k, w)))
  }

  lemma SweepInitialInv(flow: Flow, post: seq<int>, names: map<string, int>)
    requires |post| == |flow| && forall v :: 0 <= v < |flow| ==> 0 <= post[v]
    ensures SweepInv(flow, post, names, 0, State(InitialFacts(|flow|), []))
  {
    var s := State(InitialFacts(|flow|), []);
    forall w | 0 <= w < |flow| && post[w] >= 0
      ensures InOk(s.facts, w, Before(flow, post, 0, w))
    {
      assert Before(flow, post, 0, w) == {};
    }
  }

  /** The entry of the instruction about to be handled holds exactly what is
      assigned before it. */
  lemma InValue(flow: Flow, post: seq<int>, rev: seq<int>, names: map<string, int>, i: int, s: State)
    requires Ranked(flow, post, rev) && 0 <= i < |flow| && SweepInv(flow, post, names, i, s)
    ensures forall x :: x in Val(s.facts[rev[i]]) <==> AssignedBefore(flow, post, names, rev[i], x)
  {
    var cur := rev[i];
    assert post[cur] == i;
    var c := Before(flow, post, i, cur);
    assert InOk(s.facts, cur, c);
    assert forall q :: FEdge(flow, post, q, cur) <==> q in c;
    if cur == 0 {
      assert c == {};
      forall x
        ensures !AssignedBefore(flow, post, names, 0, x)
      {
        EntryNotAssigned(flow, post, names, x);
      }
    } else {
      assert HasForwardPred(flow, post, cur);
      var u :| FEdge(flow, post, u, cur);
      assert u in c;
      forall x
        ensures x in Val(s.facts[cur]) <==> AssignedBefore(flow, post, names, cur, x)
      {
        Meet(flow, post, names, cur, x);
        assert forall q :: q in c ==> OutOk(flow, post, names, s.facts, q);
      }
    }
  }

  /** The access step turns the entry of `cur` into what is assigned through
      it, reports `cur` exactly when it must, and touches nothing else. */
  lemma AccessKeepsInv(flow: Flow, post: seq<int>, rev: seq<int>, names: map<string, int>, i: int, s: State)
    requires Ranked(flow, post, rev) && 0 <= i < |flow| && SweepInv(flow, post, names, i, s)
    ensures var a := AccessStep(Replace, flow, names, rev[i], s);
      && EdgeInv(flow, post, names, i, rev[i], 0, a.facts)
      && forall m :: m in a.reported <==> 0 <= m < |flow| && post[m] <= i && Reported(flow, post, names, m)
  {
    var cur := rev[i];
    var a := AccessStep(Replace, flow, names, cur, s);
    InValue(flow, post, rev, names, i, s);
    assert post[cur] == i;
    assert forall v :: 0 <= v < |flow| && v != cur ==> a.facts[v] == s.facts[v];
    assert forall v :: 0 <= v < |flow| && post[v] == i ==> v == cur;
    assert OutOk(flow, post, names, a.facts, cur) by {
      forall x
        ensures x in Val(a.facts[cur]) <==> AssignedThrough(flow, post, names, cur, x)
      {
      }
    }
    forall w | 0 <= w < |flow| && post[w] > i
      ensures InOk(a.facts, w, During(flow, post, i, cur, 0, w))
    {
      assert During(flow, post, i, cur, 0, w) == Before(flow, post, i, w);
      assert InOk(s.facts, w, Before(flow, post, i, w));
    }
  }

  /** An entry whose contributors keep their entries keeps its invariant. */
  lemma InOkFrame(facts: Facts, e: Facts, w: int, c: set<int>)
    requires InOk(facts, w, c) && |e| == |facts|
    requires e[w] == facts[w] && forall q :: q in c ==> e[q] == facts[q]
    ensures InOk(e, w, c)
  {
  }

  /** Intersecting the entry of `w` with that of `cur` adds `cur` to its
      contributors. */
  lemma InOkMeet(facts: Facts, e: Facts, w: int, cur: int, c: set<int>)
    requires InOk(facts, w, c) && |e| == |facts| && 0 <= cur < |facts| && cur != w && w !in c
    requires forall q :: q in c ==> e[q] == facts[q]
    requires e[cur] == facts[cur]
    requires e[w] == Some(if facts[w].None? then Val(facts[cur]) else facts[w].value * Val(facts[cur]))
    ensures InOk(e, w, c + {cur})
  {
  }

  /** Following the `k`-th edge of `cur` adds `cur` to the contributors of its
      target and intersects the target's entry with `cur`'s. */
  lemma EdgeKeepsInv(flow: Flow, post: seq<int>, rev: seq<int>, names: map<string, int>, i: int, k: nat, facts: Facts)
    requires Ranked(flow, post, rev) && 0 <= i < |flow| && k < |flow[rev[i]].succ|
    requires EdgeInv(flow, post, names, i, rev[i], k, facts)
    ensures flow[rev[i]].succ[k] < |flow|
    ensures EdgeInv(flow, post, names, i, rev[i], k + 1, EdgeStep(Replace, flow, post, rev[i], flow[rev[i]].succ[k], facts))
  {
    var cur := rev[i];
    var succ := flow[cur].succ[k];
    assert succ in flow[cur].succ;
    assert post[cur] == i;
    var e := EdgeStep(Replace, flow, post, cur, succ, facts);
    forall w | 0 <= w < |flow| && post[w] > i
      ensures InOk(e, w, During(flow, post, i, cur, k + 1, w))
    {
      EdgeKeepsOne(flow, post, i, cur, k, facts, w);
    }
  }

  /** The same, for the entry of one not yet handled instruction `w`. */
  lemma EdgeKeepsOne(flow: Flow, post: seq<int>, i: int, cur: nat, k: nat, facts: Facts, w: int)
    requires |post| == |flow| == |facts| && cur < |flow| && k < |flow[cur].succ| && flow[cur].succ[k] < |flow|
    requires post[cur] == i && 0 <= w < |flow| && post[w] > i
    requires InOk(facts, w, During(flow, post, i, cur, k, w))
    ensures InOk(EdgeStep(Replace, flow, post, cur, flow[cur].succ[k], facts), w, During(flow, post, i, cur, k + 1, w))
  {
    var succ := flow[cur].succ[k];
    var e := EdgeStep(Replace, flow, post, cur, succ, facts);
    var c := During(flow, post, i, cur, k, w);
    assert forall q :: q in c ==> post[q] <= i;
    assert flow[cur].succ[..k + 1] == flow[cur].succ[..k] + [succ];
    if post[succ] > i {
      EdgeStepMeets(Replace, flow, post, cur, succ, facts);
      if w == succ {
        assert FEdge(flow, post, cur, succ);
        assert During(flow, post, i, cur, k + 1, w) == c + {cur};
        InOkMeet(facts, e, w, cur, c);
      } else {
        assert During(flow, post, i, cur, k + 1, w) == c;
        InOkFrame(facts, e, w, c);
      }
    } else {
      assert During(flow, post, i, cur, k + 1, w) == c;
    }
  }

  lemma EdgesKeepInv(flow: Flow, post: seq<int>, rev: seq<int>, names: map<string, int>, i: int, k: nat, facts: Facts)
    requires Ranked(flow, post, rev) && 0 <= i < |flow| && k <= |flow[rev[i]].succ|
    requires EdgeInv(flow, post, names, i, rev[i], k, facts)
    ensures EdgeInv(flow, post, names, i, rev[i], |flow[rev[i]].succ|, EdgesFrom(Replace, flow, post, rev[i], k, facts))
    decreases |flow[rev[i]].succ| - k
  {
    if k < |flow[rev[i]].succ| {
      EdgeKeepsInv(flow, post, rev, names, i, k, facts);
      EdgesKeepInv(flow, post, rev, names, i, k + 1, EdgeStep(Replace, flow, post, rev[i], flow[rev[i]].succ[k], facts));
    }
  }

  /** After the last edge of `cur`, its contributions are exactly those of an
      instruction of rank below `i + 1`. */
  lemma SweepFinishKeepsInv(flow: Flow, post: seq<int>, rev: seq<int>, names: map<string, int>, i: int, s: State)
    requires Ranked(flow, post, rev) && 0 <= i < |flow|
    requires EdgeInv(flow, post, names, i, rev[i], |flow[rev[i]].succ|, s.facts)
    requires forall m :: m in s.reported <==> 0 <= m < |flow| && post[m] <= i && Reported(flow, post, names, m)
    ensures SweepInv(flow, post, names, i + 1, s)
  {
    var cur := rev[i];
    var n := |flow[cur].succ|;
    assert flow[cur].succ[..n] == flow[cur].succ;
    forall w | 0 <= w < |flow| && post[w] >= i + 1
      ensures InOk(s.facts, w, Before(flow, post, i + 1, w))
    {
      assert During(flow, post, i, cur, n, w) == Before(flow, post, i + 1, w) by {
        forall q
          ensures q in During(flow, post, i, cur, n, w) <==> q in Before(flow, post, i + 1, w)
        {
          if 0 <= q < |flow| && post[q] == i {
            assert q == cur;
          }
        }
      }
    }
  }

  /** One iteration of the outer loop keeps the invariant. */
  lemma StepKeepsInv(flow: Flow, post: seq<int>, rev: seq<int>, names: map<string, int>, i: int, s: State)
    requires Ranked(flow, post, rev) && SweepInv(flow, post, names, i, s) && i < |flow|
    ensures SweepInv(flow, post, names, i + 1, Step(Replace, flow, names, post, rev, i, s))
  {
    var a := AccessStep(Replace, flow, names, rev[i], s);
    AccessKeepsInv(flow, post, rev, names, i, s);
    EdgesKeepInv(flow, post, rev, names, i, 0, a.facts);
    SweepFinishKeepsInv(flow, post, rev, names, i, a.(facts := EdgesFrom(Replace, flow, post, rev[i], 0, a.facts)));
  }

  lemma {:induction false} SweepKeepsInv(flow: Flow, post: seq<int>, rev: seq<int>, names: map<string, int>, i: int, s: State, r: State)
    requires Ranked(flow, post, rev) && SweepInv(flow, post, names, i, s)
    requires r == SweepFrom(Replace, flow, names, post, rev, i, s)
    ensures SweepInv(flow, post, names, |flow|, r)
    decreases |flow| - i, 1
  {
    if i < |flow| {
      SweepKeepsInvFrom(flow, post, rev, names, i, s, r);
    }
  }

  /** The inductive case of `SweepKeepsInv`: one step, then the rest. */
  lemma {:induction false} SweepKeepsInvFrom(flow: Flow, post: seq<int>, rev: seq<int>, names: map<string, int>, i: int, s: State, r: State)
    requires Ranked(flow, post, rev) && SweepInv(flow, post, names, i, s) && i < |flow|
    requires r == SweepFrom(Replace, flow, names, post, rev, i, s)
    ensures SweepInv(flow, post, names, |flow|, r)
    decreases |flow| - i, 0
  {
    var s' := Step(Replace, flow, names, post, rev, i, s);
    assert r == SweepFrom(Replace, flow, names, post, rev, i + 1, s');
    StepKeepsInv(flow, post, rev, names, i, s);
    SweepKeepsInv(flow, post, rev, names, i + 1, s', r);
  }



  /** The ranks of a flow whose instructions are all reachable satisfy `Ranked`. */
  lemma PostorderRanked(flow: Flow)
    requires WellFormed(flow) && AllReachable(flow)
    ensures Ranked(flow, PostorderOf(flow).post, RevPostorderOf(PostorderOf(flow).post))
  {
    var post := PostorderOf(flow).post;
    PostorderIsPermutation(flow);
    RevPostorderInverse(post);
    ForwardPreds(flow);
  }

  lemma ForwardPreds(flow: Flow)
    requires WellFormed(flow) && AllReachable(flow)
    ensures forall b :: 0 < b < |flow| ==> HasForwardPred(flow, PostorderOf(flow).post, b)
  {
    var post := PostorderOf(flow).post;
    PostorderParent(flow);
    forall b | 0 < b < |flow|
      ensures HasForwardPred(flow, post, b)
    {
      assert Reachable(flow, 0, b);
      var u :| 0 <= u < |flow| && b in flow[u].succ && Reachable(flow, 0, u) && post[u] < post[b];
      assert FEdge(flow, post, u, b);
    }
  }

  /** The intended sweep reports exactly the reads that some forward path
      reaches without writing their variable (by index) before them. */
  lemma IntendedReportsExact(flow: Flow)
    requires WellFormed(flow) && AllReachable(flow)
    ensures forall m :: m in ReadsWithoutPriorWrites(Replace, flow) <==>
      Reported(flow, PostorderOf(flow).post, NamesIndexOf(flow), m)
  {
    var post := PostorderOf(flow).post;
    var rev := RevPostorderOf(post);
    var names := NamesIndexOf(flow);
    PostorderRanked(flow);
    SweepInitialInv(flow, post, names);
    SweepKeepsInv(flow, post, rev, names, 0, State(InitialFacts(|flow|), []),
      SweepFrom(Replace, flow, names, post, rev, 0, State(InitialFacts(|flow|), [])));
  }

  // ---------------------------------------------------------------------------
  // The same, stated with variable names.

  /** Instruction `v` writes the variable `name`. */
  ghost predicate WritesName(flow: Flow, v: int, name: string)
  {
    0 <= v < |flow| && flow[v].access == ReadWrite(name, true)
  }

  /** Some forward path from the entry reaches `m` without writing `name` at any
      instruction before `m`. */
  ghost predicate UnwrittenForwardPath(flow: Flow, post: seq<int>, m: int, name: string)
  {
    exists p :: FPath(flow, post, p) && p[|p| - 1] == m &&
      forall t :: 0 <= t < |p| - 1 ==> !WritesName(flow, p[t], name)
  }

  /** Names get distinct indices, so a write found by index is a write of the
      variable read at `m`. */
  lemma WritesByIndex(flow: Flow, m: int, v: int)
    requires IsRead(flow, m) && 0 <= v < |flow|
    ensures Writes(flow, NamesIndexOf(flow), v, Get(NamesIndexOf(flow), flow[m].access.name)) <==>
      WritesName(flow, v, flow[m].access.name)
  {
    if flow[v].access.ReadWrite? && flow[v].access.isWrite {
      assert NameOf(flow[v]) == Some(flow[v].access.name);
      assert NameOf(flow[m]) == Some(flow[m].access.name);
      NamesIndexInjective(flow, flow[v].access.name, flow[m].access.name);
    }
  }

  /** With every instruction reachable, the intended sweep reports exactly the
      reads that some forward path from the entry reaches without writing
      their variable first. */
  lemma IntendedReadsExact(flow: Flow)
    requires WellFormed(flow) && AllReachable(flow)
    ensures forall m :: m in ReadsWithoutPriorWrites(Replace, flow) <==>
      IsRead(flow, m) && UnwrittenForwardPath(flow, PostorderOf(flow).post, m, flow[m].access.name)
  {
    var post := PostorderOf(flow).post;
    var names := NamesIndexOf(flow);
    IntendedReportsExact(flow);
    forall m | IsRead(flow, m)
      ensures Reported(flow, post, names, m) <==> UnwrittenForwardPath(flow, post, m, flow[m].access.name)
    {
      var name := flow[m].access.name;
      var x := Get(names, name);
      forall v | 0 <= v < |flow|
        ensures Writes(flow, names, v, x) <==> WritesName(flow, v, name)
      {
        WritesByIndex(flow, m, v);
      }
      if !AssignedBefore(flow, post, names, m, x) {
        var p: seq<nat> :| FPath(flow, post, p) && p[|p| - 1] == m &&
          !(exists t :: 0 <= t < |p| - 1 && Writes(flow, names, p[t], x));
        assert forall t :: 0 <= t < |p| - 1 ==> !WritesName(flow, p[t], name);
      }
      if UnwrittenForwardPath(flow, post, m, name) {
        var p: seq<nat> :| FPath(flow, post, p) && p[|p| - 1] == m &&
          forall t :: 0 <= t < |p| - 1 ==> !WritesName(flow, p[t], name);
        assert !(exists t :: 0 <= t < |p| - 1 && Writes(flow, names, p[t], x));
      }
    }
  }

  /** Some path from the entry reaches `m` without writing `name` before `m`. */
  ghost predicate UnwrittenPath(flow: Flow, m: int, name: string)
  {
    exists p :: IsPath(flow, p) && p[0] == 0 && p[|p| - 1] == m &&
      forall t :: 0 <= t < |p| - 1 ==> !WritesName(flow, p[t], name)
  }

  /** In an acyclic flow every path from the entry is a forward path. */
  lemma AcyclicPathsAreForward(flow: Flow, p: seq<nat>)
    requires WellFormed(flow) && Acyclic(flow) && IsPath(flow, p) && p[0] == 0
    ensures FPath(flow, PostorderOf(flow).post, p)
  {
    var post := PostorderOf(flow).post;
    PostorderAcyclicForward(flow);
    forall t | 0 <= t < |p| - 1
      ensures post[p[t]] < post[p[t + 1]]
    {
      var q := p[..t + 1];
      assert IsPath(flow, q) && q[0] == 0 && q[|q| - 1] == p[t];
      assert Reachable(flow, 0, p[t]);
    }
  }

  /** In an acyclic flow with every instruction reachable, the intended sweep
      reports exactly the reads that some path from the entry reaches without
      writing their variable first: the exact definite-assignment check. */
  lemma IntendedReadsExactAcyclic(flow: Flow)
    requires WellFormed(flow) && AllReachable(flow) && Acyclic(flow)
    ensures forall m :: m in ReadsWithoutPriorWrites(Replace, flow) <==>
      IsRead(flow, m) && UnwrittenPath(flow, m, flow[m].access.name)
  {
    var post := PostorderOf(flow).post;
    IntendedReadsExact(flow);
    forall m | IsRead(flow, m)
      ensures UnwrittenForwardPath(flow, post, m, flow[m].access.name) <==> UnwrittenPath(flow, m, flow[m].access.name)
    {
      var name := flow[m].access.name;
      if UnwrittenPath(flow, m, name) {
        var p: seq<nat> :| IsPath(flow, p) && p[0] == 0 && p[|p| - 1] == m &&
          forall t :: 0 <= t < |p| - 1 ==> !WritesName(flow, p[t], name);
        AcyclicPathsAreForward(flow, p);
      }
    }
  }
}
