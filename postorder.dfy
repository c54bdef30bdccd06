/**
 * Depth-first numbering of the instructions (`postorder`, `doVisitForPostorder`)
 * and its inverse (`revpostorder`).
 *
 * The counter starts at the number of instructions and is decremented each time
 * an instruction finishes; the finishing instruction gets the new counter value
 * as its rank. The entry is the first instruction entered and the last one to
 * finish, so it gets the smallest rank of all.
 *
 * `Visit`/`VisitSuccs` are the value-level specification of the recursion;
 * `DoVisitForPostorder` is the recursive method over the two arrays and is
 * proved to compute exactly what they compute.
 */
module Postorder {
  import opened Graph

  /** The state the recursion threads: the counter `currN`, the rank array and
      the visited array. */
  datatype Dfs = Dfs(n: int, post: seq<int>, vis: seq<bool>)

  /** Number of instructions not yet visited. */
  function CountUnvisited(vis: seq<bool>): nat
  {
    if vis == [] then 0
    else CountUnvisited(vis[..|vis| - 1]) + (if vis[|vis| - 1] then 0 else 1)
  }

  lemma {:induction false} CountMonotone(a: seq<bool>, b: seq<bool>)
    requires |a| == |b|
    requires forall i :: 0 <= i < |a| && a[i] ==> b[i]
    ensures CountUnvisited(b) <= CountUnvisited(a)
    ensures (exists i :: 0 <= i < |a| && !a[i] && b[i]) ==> CountUnvisited(b) < CountUnvisited(a)
  {
    if |a| > 0 {
      var a', b' := a[..|a| - 1], b[..|b| - 1];
      CountMonotone(a', b');
      if exists i :: 0 <= i < |a| && !a[i] && b[i] {
        var i :| 0 <= i < |a| && !a[i] && b[i];
        if i < |a| - 1 {
          assert !a'[i] && b'[i];
        }
      }
    }
  }

  lemma {:induction false} CountMark(vis: seq<bool>, c: nat)
    requires c < |vis| && !vis[c]
    ensures CountUnvisited(vis[c := true]) == CountUnvisited(vis) - 1
  {
    var w := vis[c := true];
    if c < |vis| - 1 {
      assert w[..|w| - 1] == vis[..|vis| - 1][c := true];
      CountMark(vis[..|vis| - 1], c);
    } else {
      assert w[..|w| - 1] == vis[..|vis| - 1];
    }
  }

  lemma {:induction false} CountNone(vis: seq<bool>)
    requires forall i :: 0 <= i < |vis| ==> !vis[i]
    ensures CountUnvisited(vis) == |vis|
  {
    if vis != [] {
      CountNone(vis[..|vis| - 1]);
    }
  }

  lemma {:induction false} CountZero(vis: seq<bool>)
    requires CountUnvisited(vis) == 0
    ensures forall i :: 0 <= i < |vis| ==> vis[i]
  {
    if vis != [] {
      CountZero(vis[..|vis| - 1]);
      assert forall i :: 0 <= i < |vis| - 1 ==> vis[..|vis| - 1][i] == vis[i];
    }
  }

  /** `doVisitForPostorder(curr, currN, postorder, visited)` as a function of the
      state it threads: mark `c`, visit its unvisited successors in edge order,
      then take the next rank for `c`. */
  function Visit(flow: Flow, c: nat, st: Dfs): (r: Dfs)
    requires WellFormed(flow) && c < |flow|
    requires |st.post| == |flow| && |st.vis| == |flow| && !st.vis[c]
    ensures |r.post| == |flow| && |r.vis| == |flow|
    ensures CountUnvisited(r.vis) < CountUnvisited(st.vis)
    decreases CountUnvisited(st.vis), 0
  {
    var marked := st.(vis := st.vis[c := true]);
    CountMark(st.vis, c);
    var done := VisitSuccs(flow, c, 0, marked);
    done.(n := done.n - 1, post := done.post[c := done.n - 1])
  }

  /** The loop of `doVisitForPostorder` over `allSucc()`, from position `k` on. */
  function VisitSuccs(flow: Flow, c: nat, k: nat, st: Dfs): (r: Dfs)
    requires WellFormed(flow) && c < |flow| && k <= |flow[c].succ|
    requires |st.post| == |flow| && |st.vis| == |flow|
    ensures |r.post| == |flow| && |r.vis| == |flow|
    ensures CountUnvisited(r.vis) <= CountUnvisited(st.vis)
    decreases CountUnvisited(st.vis), 1, |flow[c].succ| - k
  {
    if k == |flow[c].succ| then st
    else
      var s := flow[c].succ[k];
      assert s in flow[c].succ;
      var next := if st.vis[s] then st else Visit(flow, s, st);
      VisitSuccs(flow, c, k + 1, next)
  }

  /** A visit marks `c`, unmarks nothing, and leaves the rank of every
      instruction it does not reach untouched. */
  lemma {:induction false} VisitFrame(flow: Flow, c: nat, st: Dfs)
    requires WellFormed(flow) && c < |flow|
    requires |st.post| == |flow| && |st.vis| == |flow| && !st.vis[c]
    ensures Visit(flow, c, st).vis[c] && Visit(flow, c, st).post[c] == Visit(flow, c, st).n
    ensures forall v :: 0 <= v < |flow| && st.vis[v] ==> Visit(flow, c, st).vis[v]
    ensures forall v :: 0 <= v < |flow| && !Visit(flow, c, st).vis[v] ==> Visit(flow, c, st).post[v] == st.post[v]
    decreases CountUnvisited(st.vis), 0
  {
    var marked := st.(vis := st.vis[c := true]);
    CountMark(st.vis, c);
    VisitSuccsFrame(flow, c, 0, marked);
    VisitUnfold(flow, c, st, VisitSuccs(flow, c, 0, marked));
  }

  /** The successor loop unmarks nothing, leaves the ranks of unreached
      instructions untouched, and ends with every successor from `k` on marked. */
  lemma {:induction false} VisitSuccsFrame(flow: Flow, c: nat, k: nat, st: Dfs)
    requires WellFormed(flow) && c < |flow| && k <= |flow[c].succ|
    requires |st.post| == |flow| && |st.vis| == |flow|
    ensures forall v :: 0 <= v < |flow| && st.vis[v] ==> VisitSuccs(flow, c, k, st).vis[v]
    ensures forall v :: 0 <= v < |flow| && !VisitSuccs(flow, c, k, st).vis[v] ==> VisitSuccs(flow, c, k, st).post[v] == st.post[v]
    ensures forall i :: k <= i < |flow[c].succ| ==> flow[c].succ[i] < |flow| && VisitSuccs(flow, c, k, st).vis[flow[c].succ[i]]
    decreases CountUnvisited(st.vis), 1, |flow[c].succ| - k
  {
    if k < |flow[c].succ| {
      var s := flow[c].succ[k];
      assert s in flow[c].succ;
      var next := if st.vis[s] then st else Visit(flow, s, st);
      if !st.vis[s] {
        VisitFrame(flow, s, st);
      }
      VisitSuccsFrame(flow, c, k + 1, next);
      assert VisitSuccs(flow, c, k, st) == VisitSuccs(flow, c, k + 1, next);
    }
  }

  /** The state `postorder` starts the recursion from: counter N, ranks 0 (the
      default of a fresh `int[]`), nothing visited. */
  function InitialDfs(flow: Flow): Dfs
  {
    Dfs(|flow|, seq(|flow|, _ => 0), seq(|flow|, _ => false))
  }

  /** The outcome of `postorder(flow)`: `.post` is the returned rank array and
      `.n` the final counter that `LOG.assertTrue(N == 0)` inspects. */
  function PostorderOf(flow: Flow): Dfs
    requires WellFormed(flow)
  {
    Visit(flow, 0, InitialDfs(flow))
  }

  method DoVisitForPostorder(flow: Flow, curr: nat, currN: int, postorder: array<int>, visited: array<bool>)
    returns (n: int)
    requires WellFormed(flow) && curr < |flow|
    requires postorder.Length == |flow| && visited.Length == |flow| && !visited[curr]
    modifies postorder, visited
    ensures Dfs(n, postorder[..], visited[..]) == Visit(flow, curr, Dfs(currN, old(postorder[..]), old(visited[..])))
    decreases CountUnvisited(visited[..])
  {
    ghost var start := Dfs(currN, postorder[..], visited[..]);
    visited[flow[curr].num] := true;
    CountMark(start.vis, curr);
    ghost var marked := Dfs(currN, postorder[..], visited[..]);
    assert marked == start.(vis := start.vis[curr := true]);
    n := currN;
    var succs := flow[curr].succ;
    for k := 0 to |succs|
      invariant VisitSuccs(flow, curr, k, Dfs(n, postorder[..], visited[..])) == VisitSuccs(flow, curr, 0, marked)
      invariant CountUnvisited(visited[..]) < CountUnvisited(start.vis)
    {
      var succ := succs[k];
      assert succ in flow[curr].succ;
      ghost var before := Dfs(n, postorder[..], visited[..]);
      if !visited[succ] {
        n := DoVisitForPostorder(flow, succ, n, postorder, visited);
      }
      assert Dfs(n, postorder[..], visited[..]) == if before.vis[succ] then before else Visit(flow, succ, before);
      assert VisitSuccs(flow, curr, k, before) == VisitSuccs(flow, curr, k + 1, Dfs(n, postorder[..], visited[..]));
    }
    ghost var done := Dfs(n, postorder[..], visited[..]);
    assert done == VisitSuccs(flow, curr, 0, marked);
    n := n - 1;
    postorder[flow[curr].num] := n;
    assert Dfs(n, postorder[..], visited[..]) == done.(n := done.n - 1, post := done.post[curr := done.n - 1]);
    VisitUnfold(flow, curr, start, done);
  }

  /** `postorder(flow)`; `counter` is the final value of the counter, which the
      source checks with `LOG.assertTrue(N == 0)`. */
  method Postorder(flow: Flow) returns (result: array<int>, counter: int)
    requires WellFormed(flow)
    ensures result.Length == |flow|
    ensures result[..] == PostorderOf(flow).post && counter == PostorderOf(flow).n
    ensures counter == 0 <==> AllReachable(flow)
  {
    result := new int[|flow|](_ => 0);
    var visited := new bool[|flow|];
    for i := 0 to visited.Length
      modifies visited
      invariant forall k :: 0 <= k < i ==> !visited[k]
    {
      visited[i] := false;
    }
    assert visited[..] == InitialDfs(flow).vis;
    assert result[..] == InitialDfs(flow).post;
    var n := |flow|;
    n := DoVisitForPostorder(flow, 0, n, result, visited);
    counter := n;
    PostorderCounter(flow);
  }

  // ---------------------------------------------------------------------------
  // The depth-first invariant. `stack` is the (ghost) recursion stack: the
  // instructions entered but not yet finished, from the entry down. A visited
  // instruction off the stack has finished and holds its rank.

  ghost predicate Shaped(flow: Flow, st: Dfs)
  {
    |st.post| == |flow| && |st.vis| == |flow|
  }

  ghost predicate Finished(stack: seq<nat>, st: Dfs, v: int)
  {
    0 <= v < |st.vis| && st.vis[v] && v !in stack
  }

  /** The stack is a path from the entry. */
  ghost predicate StackOk(flow: Flow, stack: seq<nat>)
  {
    stack == [] || (IsPath(flow, stack) && stack[0] == 0)
  }

  /** `c` is entered from the top of the stack (or is the entry, on an empty stack). */
  ghost predicate Enters(flow: Flow, stack: seq<nat>, c: nat)
  {
    (stack == [] && c == 0) ||
    (stack != [] && stack[|stack| - 1] < |flow| && c in flow[stack[|stack| - 1]].succ)
  }

  ghost predicate CounterOk(stack: seq<nat>, st: Dfs)
  {
    st.n == CountUnvisited(st.vis) + |stack| && st.n <= |st.vis|
  }

  ghost predicate OnStackVisited(stack: seq<nat>, st: Dfs)
  {
    forall t :: 0 <= t < |stack| ==> stack[t] < |st.vis| && st.vis[stack[t]]
  }

  ghost predicate VisitedReachable(flow: Flow, st: Dfs)
  {
    forall v :: 0 <= v < |st.vis| && st.vis[v] ==> Reachable(flow, 0, v)
  }

  /** Finished instructions hold pairwise distinct ranks that cover [n, N). */
  ghost predicate RanksOk(flow: Flow, stack: seq<nat>, st: Dfs)
    requires Shaped(flow, st)
  {
    && (forall v :: Finished(stack, st, v) ==> st.n <= st.post[v] < |flow|)
    && (forall u, v {:trigger Finished(stack, st, u), Finished(stack, st, v)} :: Finished(stack, st, u) && Finished(stack, st, v) && st.post[u] == st.post[v] ==> u == v)
    && (forall r :: st.n <= r < |flow| ==> RankTaken(stack, st, r))
  }

  ghost predicate RankTaken(stack: seq<nat>, st: Dfs, r: int)
  {
    exists v :: Finished(stack, st, v) && v < |st.post| && st.post[v] == r
  }

  /** A successor of a finished instruction is visited, and either finished
      earlier (larger rank) or reaches it back (it was on the stack). */
  ghost predicate EdgesOk(flow: Flow, stack: seq<nat>, st: Dfs)
    requires Shaped(flow, st)
  {
    forall u, s :: Finished(stack, st, u) && s in flow[u].succ ==>
      && 0 <= s < |flow| && st.vis[s]
      && ((Finished(stack, st, s) && st.post[s] > st.post[u]) || Reachable(flow, s, u))
  }

  /** Every finished instruction but the entry was entered from a visited
      predecessor that is still on the stack or finished later (smaller rank). */
  ghost predicate ParentOk(flow: Flow, stack: seq<nat>, st: Dfs)
    requires Shaped(flow, st)
  {
    forall b :: Finished(stack, st, b) && b != 0 ==>
      exists u :: 0 <= u < |flow| && b in flow[u].succ && st.vis[u] &&
        (u in stack || (Finished(stack, st, u) && st.post[u] < st.post[b]))
  }

  ghost predicate Inv(flow: Flow, stack: seq<nat>, st: Dfs)
  {
    && Shaped(flow, st)
    && OnStackVisited(stack, st)
    && VisitedReachable(flow, st)
    && CounterOk(stack, st)
    && RanksOk(flow, stack, st)
    && EdgesOk(flow, stack, st)
    && ParentOk(flow, stack, st)
  }

  lemma InitialInv(flow: Flow)
    requires WellFormed(flow)
    ensures Inv(flow, [], InitialDfs(flow))
  {
    CountNone(InitialDfs(flow).vis);
  }

  /** Entering `c`: it goes on the stack, and nothing finished changes. */
  lemma MarkKeepsInv(flow: Flow, stack: seq<nat>, st: Dfs, c: nat)
    requires WellFormed(flow) && c < |flow| && Inv(flow, stack, st) && !st.vis[c]
    requires StackOk(flow, stack) && Enters(flow, stack, c)
    ensures c !in stack
    ensures StackOk(flow, stack + [c])
    ensures Inv(flow, stack + [c], st.(vis := st.vis[c := true]))
  {
    var st1 := st.(vis := st.vis[c := true]);
    var stack1 := stack + [c];
    assert c !in stack;
    assert IsPath(flow, stack1) by {
      if stack != [] {
        assert forall t :: 0 <= t < |stack| ==> stack1[t] == stack[t];
      }
    }
    if stack == [] {
      ReachableRefl(flow, 0);
    } else {
      PathSuffixReaches(flow, stack1, 0);
    }
    assert forall t :: 0 <= t < |stack| ==> stack1[t] == stack[t];
    assert OnStackVisited(stack1, st1);
    assert VisitedReachable(flow, st1);
    CountMark(st.vis, c);
    assert CounterOk(stack1, st1);
    MarkKeepsFinished(flow, stack, st, c);
  }

  /** Entering `c` changes no finished instruction, rank or counter. */
  lemma MarkKeepsFinished(flow: Flow, stack: seq<nat>, st: Dfs, c: nat)
    requires WellFormed(flow) && c < |flow| && Inv(flow, stack, st) && !st.vis[c]
    ensures Shaped(flow, st.(vis := st.vis[c := true]))
    ensures RanksOk(flow, stack + [c], st.(vis := st.vis[c := true]))
    ensures EdgesOk(flow, stack + [c], st.(vis := st.vis[c := true]))
    ensures ParentOk(flow, stack + [c], st.(vis := st.vis[c := true]))
  {
    MarkSameFinished(stack, st, c);
    MarkKeepsRanks(flow, stack, st, c);
    MarkKeepsParents(flow, stack, st, c);
  }

  lemma MarkSameFinished(stack: seq<nat>, st: Dfs, c: nat)
    requires c < |st.vis| && !st.vis[c]
    ensures forall v :: Finished(stack + [c], st.(vis := st.vis[c := true]), v) <==> Finished(stack, st, v)
  {
  }

  lemma MarkKeepsRanks(flow: Flow, stack: seq<nat>, st: Dfs, c: nat)
    requires WellFormed(flow) && c < |flow| && Shaped(flow, st) && RanksOk(flow, stack, st) && !st.vis[c]
    ensures Shaped(flow, st.(vis := st.vis[c := true]))
    ensures RanksOk(flow, stack + [c], st.(vis := st.vis[c := true]))
  {
    var st1 := st.(vis := st.vis[c := true]);
    var stack1 := stack + [c];
    MarkSameFinished(stack, st, c);
    forall u, v | Finished(stack1, st1, u) && Finished(stack1, st1, v) && st1.post[u] == st1.post[v]
      ensures u == v
    {
      assert Finished(stack, st, u) && Finished(stack, st, v);
    }
    forall r | st1.n <= r < |flow|
      ensures RankTaken(stack1, st1, r)
    {
      assert RankTaken(stack, st, r);
      var v :| Finished(stack, st, v) && v < |st.post| && st.post[v] == r;
      assert Finished(stack1, st1, v);
    }
  }

  lemma MarkKeepsParents(flow: Flow, stack: seq<nat>, st: Dfs, c: nat)
    requires WellFormed(flow) && c < |flow| && Shaped(flow, st) && !st.vis[c]
    requires EdgesOk(flow, stack, st) && ParentOk(flow, stack, st)
    ensures Shaped(flow, st.(vis := st.vis[c := true]))
    ensures EdgesOk(flow, stack + [c], st.(vis := st.vis[c := true]))
    ensures ParentOk(flow, stack + [c], st.(vis := st.vis[c := true]))
  {
    var st1 := st.(vis := st.vis[c := true]);
    var stack1 := stack + [c];
    MarkSameFinished(stack, st, c);
    forall b | Finished(stack1, st1, b) && b != 0
      ensures exists u :: 0 <= u < |flow| && b in flow[u].succ && st1.vis[u] &&
                (u in stack1 || (Finished(stack1, st1, u) && st1.post[u] < st1.post[b]))
    {
      assert Finished(stack, st, b);
      var u :| 0 <= u < |flow| && b in flow[u].succ && st.vis[u] &&
                (u in stack || (Finished(stack, st, u) && st.post[u] < st.post[b]));
      assert st1.vis[u];
      if u in stack {
        assert u in stack1;
      } else {
        assert Finished(stack1, st1, u);
      }
    }
  }

  /** Finishing `c`: it leaves the stack and takes rank n - 1. */
  lemma FinishKeepsInv(flow: Flow, stack: seq<nat>, st: Dfs, c: nat, st3: Dfs)
    requires WellFormed(flow) && c < |flow| && c !in stack
    requires StackOk(flow, stack + [c]) && Enters(flow, stack, c)
    requires Inv(flow, stack + [c], st) && st.vis[c]
    requires forall s :: s in flow[c].succ ==> st.vis[s]
    requires st3 == st.(n := st.n - 1, post := st.post[c := st.n - 1])
    ensures Inv(flow, stack, st3)
  {
    assert forall t :: 0 <= t < |stack| ==> stack[t] == (stack + [c])[t];
    assert OnStackVisited(stack, st3);
    assert VisitedReachable(flow, st3);
    assert CounterOk(stack, st3);
    RanksAfterFinish(flow, stack, st, c);
    EdgesAfterFinish(flow, stack, st, c, st3);
    ParentAfterFinish(flow, stack, st, c);
  }

  lemma RanksAfterFinish(flow: Flow, stack: seq<nat>, st: Dfs, c: nat)
    requires WellFormed(flow) && c < |flow| && c !in stack
    requires Inv(flow, stack + [c], st) && st.vis[c]
    ensures Shaped(flow, st.(n := st.n - 1, post := st.post[c := st.n - 1]))
    ensures RanksOk(flow, stack, st.(n := st.n - 1, post := st.post[c := st.n - 1]))
  {
    var stack1 := stack + [c];
    var st3 := st.(n := st.n - 1, post := st.post[c := st.n - 1]);
    assert forall v :: Finished(stack, st3, v) <==> Finished(stack1, st, v) || v == c;
    forall r | st3.n <= r < |flow|
      ensures RankTaken(stack, st3, r)
    {
      if r == st3.n {
        assert Finished(stack, st3, c) && st3.post[c] == r;
      } else {
        assert RankTaken(stack1, st, r);
        var v :| Finished(stack1, st, v) && v < |st.post| && st.post[v] == r;
        assert Finished(stack, st3, v) && st3.post[v] == r;
      }
    }
  }

  lemma EdgesAfterFinish(flow: Flow, stack: seq<nat>, st: Dfs, c: nat, st3: Dfs)
    requires WellFormed(flow) && Shaped(flow, st) && c < |flow| && c !in stack
    requires StackOk(flow, stack + [c]) && st.vis[c]
    requires forall s :: s in flow[c].succ ==> st.vis[s]
    requires forall v :: Finished(stack + [c], st, v) ==> st.n <= st.post[v]
    requires EdgesOk(flow, stack + [c], st)
    requires st3 == st.(n := st.n - 1, post := st.post[c := st.n - 1])
    ensures Shaped(flow, st3) && EdgesOk(flow, stack, st3)
  {
    forall u, s | Finished(stack, st3, u) && s in flow[u].succ
      ensures && 0 <= s < |flow| && st3.vis[s]
              && ((Finished(stack, st3, s) && st3.post[s] > st3.post[u]) || Reachable(flow, s, u))
    {
      if u == c {
        EdgeFromFinishing(flow, stack, st, c, s);
      } else {
        EdgeFromEarlier(flow, stack, st, c, u, s);
      }
    }
    assert EdgesOk(flow, stack, st3);
  }

  /** An edge out of the instruction that finishes now: its target finished
      earlier with a larger rank, or is on the stack and reaches it. */
  lemma EdgeFromFinishing(flow: Flow, stack: seq<nat>, st: Dfs, c: nat, s: nat)
    requires WellFormed(flow) && Shaped(flow, st) && c < |flow| && c !in stack
    requires StackOk(flow, stack + [c])
    requires s in flow[c].succ && st.vis[s]
    requires forall v :: Finished(stack + [c], st, v) ==> st.n <= st.post[v]
    ensures var st3 := st.(n := st.n - 1, post := st.post[c := st.n - 1]);
      (Finished(stack, st3, s) && st3.post[s] > st3.post[c]) || Reachable(flow, s, c)
  {
    var stack1 := stack + [c];
    if !Finished(stack1, st, s) {
      var t :| 0 <= t < |stack1| && stack1[t] == s;
      PathSuffixReaches(flow, stack1, t);
    }
  }

  /** An edge out of an instruction that finished earlier keeps its status. */
  lemma EdgeFromEarlier(flow: Flow, stack: seq<nat>, st: Dfs, c: nat, u: nat, s: nat)
    requires WellFormed(flow) && Shaped(flow, st) && c < |flow| && c !in stack && u != c
    requires Finished(stack + [c], st, u) && s in flow[u].succ
    requires EdgesOk(flow, stack + [c], st)
    ensures var st3 := st.(n := st.n - 1, post := st.post[c := st.n - 1]);
      0 <= s < |flow| && st3.vis[s] &&
      ((Finished(stack, st3, s) && st3.post[s] > st3.post[u]) || Reachable(flow, s, u))
  {
  }


  lemma ParentAfterFinish(flow: Flow, stack: seq<nat>, st: Dfs, c: nat)
    requires WellFormed(flow) && c < |flow| && c !in stack
    requires Enters(flow, stack, c)
    requires Inv(flow, stack + [c], st) && st.vis[c]
    ensures Shaped(flow, st.(n := st.n - 1, post := st.post[c := st.n - 1]))
    ensures ParentOk(flow, stack, st.(n := st.n - 1, post := st.post[c := st.n - 1]))
  {
    var stack1 := stack + [c];
    var st3 := st.(n := st.n - 1, post := st.post[c := st.n - 1]);
    forall b | Finished(stack, st3, b) && b != 0
      ensures exists u :: (0 <= u < |flow| && b in flow[u].succ && st3.vis[u] &&
                           (u in stack || (Finished(stack, st3, u) && st3.post[u] < st3.post[b])))
    {
      if b == c {
        var u := stack[|stack| - 1];
        assert (stack + [c])[|stack| - 1] == u;
        assert u in stack && st3.vis[u];
      } else {
        var u :| 0 <= u < |flow| && b in flow[u].succ && st.vis[u] &&
                 (u in stack1 || (Finished(stack1, st, u) && st.post[u] < st.post[b]));
        assert Finished(stack1, st, b);
        if u == c {
          assert Finished(stack, st3, u) && st3.post[u] < st3.post[b];
        } else if u !in stack {
          assert Finished(stack, st3, u) && st3.post[u] < st3.post[b];
        }
      }
    }
  }

  lemma {:induction false} VisitKeepsInv(flow: Flow, c: nat, st: Dfs, stack: seq<nat>)
    requires WellFormed(flow) && c < |flow| && Shaped(flow, st) && !st.vis[c]
    requires Inv(flow, stack, st) && StackOk(flow, stack) && Enters(flow, stack, c)
    ensures Inv(flow, stack, Visit(flow, c, st))
    decreases CountUnvisited(st.vis), 0, 1
  {
    var done := ScanKeepsInv(flow, c, st, stack);
    VisitUnfold(flow, c, st, done);
    FinishKeepsInv(flow, stack, done, c, Visit(flow, c, st));
  }

  /** Entering `c` and scanning its successors: `c` stays on the stack, and
      every successor ends up visited. */
  lemma {:induction false} ScanKeepsInv(flow: Flow, c: nat, st: Dfs, stack: seq<nat>) returns (done: Dfs)
    requires WellFormed(flow) && c < |flow| && Shaped(flow, st) && !st.vis[c]
    requires Inv(flow, stack, st) && StackOk(flow, stack) && Enters(flow, stack, c)
    ensures done == VisitSuccs(flow, c, 0, st.(vis := st.vis[c := true]))
    ensures c !in stack && StackOk(flow, stack + [c])
    ensures Inv(flow, stack + [c], done) && done.vis[c]
    ensures forall s :: s in flow[c].succ ==> done.vis[s]
    decreases CountUnvisited(st.vis), 0, 0
  {
    var marked := st.(vis := st.vis[c := true]);
    MarkKeepsInv(flow, stack, st, c);
    CountMark(st.vis, c);
    VisitSuccsKeepsInv(flow, c, 0, marked, stack + [c]);
    done := VisitSuccs(flow, c, 0, marked);
    VisitSuccsFrame(flow, c, 0, marked);
    AllSuccsVisited(flow, c, done);
  }

  lemma VisitUnfold(flow: Flow, c: nat, st: Dfs, done: Dfs)
    requires WellFormed(flow) && c < |flow| && Shaped(flow, st) && !st.vis[c]
    requires done == VisitSuccs(flow, c, 0, st.(vis := st.vis[c := true]))
    ensures Visit(flow, c, st) == done.(n := done.n - 1, post := done.post[c := done.n - 1])
  {
  }

  lemma AllSuccsVisited(flow: Flow, c: nat, st: Dfs)
    requires WellFormed(flow) && c < |flow| && Shaped(flow, st)
    requires forall i :: 0 <= i < |flow[c].succ| ==> flow[c].succ[i] < |flow| && st.vis[flow[c].succ[i]]
    ensures forall s :: s in flow[c].succ ==> st.vis[s]
  {
    forall s | s in flow[c].succ
      ensures st.vis[s]
    {
      var i :| 0 <= i < |flow[c].succ| && flow[c].succ[i] == s;
    }
  }

  lemma {:induction false} VisitSuccsKeepsInv(flow: Flow, c: nat, k: nat, st: Dfs, stack: seq<nat>)
    requires WellFormed(flow) && c < |flow| && k <= |flow[c].succ| && Shaped(flow, st)
    requires stack != [] && stack[|stack| - 1] == c && StackOk(flow, stack) && Inv(flow, stack, st)
    ensures Inv(flow, stack, VisitSuccs(flow, c, k, st))
    decreases CountUnvisited(st.vis), 1, |flow[c].succ| - k
  {
    if k < |flow[c].succ| {
      var next := VisitSuccStep(flow, c, k, st, stack);
      VisitSuccsKeepsInv(flow, c, k + 1, next, stack);
      SameInv(flow, stack, VisitSuccs(flow, c, k + 1, next), VisitSuccs(flow, c, k, st));
    }
  }

  /** One step of the successor loop: the state after handling `succ[k]`. */
  lemma {:induction false} VisitSuccStep(flow: Flow, c: nat, k: nat, st: Dfs, stack: seq<nat>) returns (next: Dfs)
    requires WellFormed(flow) && c < |flow| && k < |flow[c].succ| && Shaped(flow, st)
    requires stack != [] && stack[|stack| - 1] == c && StackOk(flow, stack) && Inv(flow, stack, st)
    ensures Shaped(flow, next)
    ensures Inv(flow, stack, next)
    ensures VisitSuccs(flow, c, k, st) == VisitSuccs(flow, c, k + 1, next)
    ensures CountUnvisited(next.vis) < CountUnvisited(st.vis) || next == st
    decreases CountUnvisited(st.vis), 1, |flow[c].succ| - k, 0
  {
    var s := flow[c].succ[k];
    assert s in flow[c].succ;
    next := if st.vis[s] then st else Visit(flow, s, st);
    if !st.vis[s] {
      assert Enters(flow, stack, s);
      VisitKeepsInv(flow, s, st, stack);
    }
  }

  lemma SameInv(flow: Flow, stack: seq<nat>, a: Dfs, b: Dfs)
    requires a == b && Inv(flow, stack, a)
    ensures Inv(flow, stack, b)
  {
  }

  lemma PostorderInv(flow: Flow)
    requires WellFormed(flow)
    ensures Inv(flow, [], PostorderOf(flow))
  {
    InitialInv(flow);
    VisitKeepsInv(flow, 0, InitialDfs(flow), []);
  }

  /** Once the recursion is over the stack is empty: every visited instruction
      has finished. */
  lemma AllFinished(flow: Flow, st: Dfs)
    ensures forall v :: Finished([], st, v) <==> 0 <= v < |st.vis| && st.vis[v]
  {
  }

  /** The set of visited instructions holds the entry and is closed under
      successors. */
  lemma PostorderClosed(flow: Flow)
    requires WellFormed(flow)
    ensures Shaped(flow, PostorderOf(flow)) && PostorderOf(flow).vis[0]
    ensures forall u, s :: 0 <= u < |flow| && PostorderOf(flow).vis[u] && s in flow[u].succ ==> PostorderOf(flow).vis[s]
  {
    var st := PostorderOf(flow);
    PostorderInv(flow);
    VisitFrame(flow, 0, InitialDfs(flow));
    forall u, s | 0 <= u < |flow| && st.vis[u] && s in flow[u].succ
      ensures st.vis[s]
    {
      assert Finished([], st, u);
    }
  }

  // ---------------------------------------------------------------------------
  // What `postorder` promises.

  /** The instructions visited are exactly those reachable from the entry; the
      others keep rank 0, the default of the fresh array. */
  lemma PostorderVisitsReachable(flow: Flow)
    requires WellFormed(flow)
    ensures forall v :: 0 <= v < |flow| ==> (PostorderOf(flow).vis[v] <==> Reachable(flow, 0, v))
    ensures forall v :: 0 <= v < |flow| && !Reachable(flow, 0, v) ==> PostorderOf(flow).post[v] == 0
  {
    var st := PostorderOf(flow);
    PostorderInv(flow);
    PostorderClosed(flow);
    VisitFrame(flow, 0, InitialDfs(flow));
    forall v | 0 <= v < |flow| && Reachable(flow, 0, v)
      ensures st.vis[v]
    {
      ClosedSetHoldsReachable(flow, st.vis, 0, v);
    }
  }

  /** The final counter is 0 exactly when every instruction is reachable from
      the entry: the condition `LOG.assertTrue(N == 0)` checks. */
  lemma PostorderCounter(flow: Flow)
    requires WellFormed(flow)
    ensures PostorderOf(flow).n == 0 <==> AllReachable(flow)
  {
    var st := PostorderOf(flow);
    PostorderInv(flow);
    PostorderVisitsReachable(flow);
    assert st.n == CountUnvisited(st.vis);
    if st.n == 0 {
      CountZero(st.vis);
    }
    if AllReachable(flow) {
      CountAllVisited(st.vis);
    }
  }

  /** Every rank lies in [0, N): `revpostorder` can index its result by it. */
  lemma PostorderRanksInRange(flow: Flow)
    requires WellFormed(flow)
    ensures forall v :: 0 <= v < |flow| ==> 0 <= PostorderOf(flow).post[v] < |flow|
  {
    var st := PostorderOf(flow);
    PostorderInv(flow);
    VisitFrame(flow, 0, InitialDfs(flow));
    AllFinished(flow, st);
    forall v | 0 <= v < |flow|
      ensures 0 <= st.post[v] < |flow|
    {
      if st.vis[v] {
        assert Finished([], st, v);
      }
    }
  }

  lemma {:induction false} CountAllVisited(vis: seq<bool>)
    requires forall i :: 0 <= i < |vis| ==> vis[i]
    ensures CountUnvisited(vis) == 0
  {
    if vis != [] {
      CountAllVisited(vis[..|vis| - 1]);
    }
  }

  /** `s` holds each of 0..|s|-1 exactly once. */
  ghost predicate IsPermutation(s: seq<int>)
  {
    && (forall i :: 0 <= i < |s| ==> 0 <= s[i] < |s|)
    && (forall i, j :: 0 <= i < |s| && 0 <= j < |s| && s[i] == s[j] ==> i == j)
    && (forall r :: 0 <= r < |s| ==> RankOccurs(s, r))
  }

  ghost predicate RankOccurs(s: seq<int>, r: int)
  {
    exists i :: 0 <= i < |s| && s[i] == r
  }

  /** With every instruction reachable, the ranks are a permutation of 0..N-1
      and the entry has rank 0. */
  lemma PostorderIsPermutation(flow: Flow)
    requires WellFormed(flow) && AllReachable(flow)
    ensures IsPermutation(PostorderOf(flow).post)
    ensures PostorderOf(flow).post[0] == 0
  {
    var st := PostorderOf(flow);
    PostorderInv(flow);
    PostorderCounter(flow);
    PostorderVisitsReachable(flow);
    VisitFrame(flow, 0, InitialDfs(flow));
    AllFinished(flow, st);
    assert forall v :: 0 <= v < |flow| ==> Finished([], st, v);
    forall r | 0 <= r < |st.post|
      ensures RankOccurs(st.post, r)
    {
      assert RankTaken([], st, r);
    }
  }

  /** The entry finishes last: its rank is the final counter and every other
      visited instruction has a larger rank. */
  lemma PostorderEntryFinishesLast(flow: Flow)
    requires WellFormed(flow)
    ensures PostorderOf(flow).post[0] == PostorderOf(flow).n
    ensures forall v :: 0 < v < |flow| && Reachable(flow, 0, v) ==> PostorderOf(flow).post[v] > PostorderOf(flow).post[0]
  {
    var st := PostorderOf(flow);
    PostorderInv(flow);
    PostorderVisitsReachable(flow);
    VisitFrame(flow, 0, InitialDfs(flow));
    forall v | 0 < v < |flow| && Reachable(flow, 0, v)
      ensures st.post[v] > st.post[0]
    {
      assert Finished([], st, v) && Finished([], st, 0);
    }
  }

  /** An edge from a reachable instruction whose target does not get a larger
      rank is a back edge: its target reaches its source. */
  lemma PostorderBackEdges(flow: Flow)
    requires WellFormed(flow)
    ensures forall u, s ::
      (0 <= u < |flow| && Reachable(flow, 0, u) && s in flow[u].succ &&
       PostorderOf(flow).post[s] <= PostorderOf(flow).post[u]) ==> Reachable(flow, s, u)
  {
    var st := PostorderOf(flow);
    PostorderInv(flow);
    PostorderVisitsReachable(flow);
    forall u, s | 0 <= u < |flow| && Reachable(flow, 0, u) && s in flow[u].succ && st.post[s] <= st.post[u]
      ensures Reachable(flow, s, u)
    {
      assert Finished([], st, u);
    }
  }

  /** In an acyclic flow every edge from a reachable instruction goes to a
      larger rank. */
  lemma PostorderAcyclicForward(flow: Flow)
    requires WellFormed(flow) && Acyclic(flow)
    ensures forall u, s ::
      (0 <= u < |flow| && Reachable(flow, 0, u) && s in flow[u].succ) ==>
      PostorderOf(flow).post[u] < PostorderOf(flow).post[s]
  {
    PostorderBackEdges(flow);
  }

  /** Every reachable instruction but the entry has a reachable predecessor of
      smaller rank (the one it was entered from). */
  lemma PostorderParent(flow: Flow)
    requires WellFormed(flow)
    ensures forall b :: 0 < b < |flow| && Reachable(flow, 0, b) ==>
      exists u :: (0 <= u < |flow| && b in flow[u].succ && Reachable(flow, 0, u) &&
        PostorderOf(flow).post[u] < PostorderOf(flow).post[b])
  {
    var st := PostorderOf(flow);
    PostorderInv(flow);
    PostorderVisitsReachable(flow);
    forall b | 0 < b < |flow| && Reachable(flow, 0, b)
      ensures exists u :: 0 <= u < |flow| && b in flow[u].succ && Reachable(flow, 0, u) && st.post[u] < st.post[b]
    {
      assert Finished([], st, b);
      var u :| 0 <= u < |flow| && b in flow[u].succ && st.vis[u] && Finished([], st, u) && st.post[u] < st.post[b];
      assert Reachable(flow, 0, u);
    }
  }

  // ---------------------------------------------------------------------------
  // revpostorder

  /** The last position of `k` in `s`, or 0 when `k` does not occur. */
  function LastIndexOf(s: seq<int>, k: int): (r: nat)
    ensures (exists i :: 0 <= i < |s| && s[i] == k) ==>
      r < |s| && s[r] == k && forall i :: r < i < |s| ==> s[i] != k
    ensures (forall i :: 0 <= i < |s| ==> s[i] != k) ==> r == 0
  {
    if |s| == 0 then 0
    else if s[|s| - 1] == k then |s| - 1
    else LastIndexOf(s[..|s| - 1], k)
  }

  /** What `revpostorder(postorder)` returns: entry `k` holds the last `i` with
      `postorder[i] == k` (later writes overwrite earlier ones), or 0 when no
      rank equals `k`. */
  function RevPostorderOf(post: seq<int>): (r: seq<int>)
    ensures |r| == |post|
    ensures forall k :: 0 <= k < |r| ==> 0 <= r[k] < |post|
  {
    seq(|post|, k => LastIndexOf(post, k))
  }

  method RevPostorder(postorder: array<int>) returns (result: array<int>)
    requires forall i :: 0 <= i < postorder.Length ==> 0 <= postorder[i] < postorder.Length
    ensures result.Length == postorder.Length
    ensures result[..] == RevPostorderOf(postorder[..])
  {
    result := new int[postorder.Length](_ => 0);
    for i := 0 to postorder.Length
      invariant forall k :: 0 <= k < result.Length ==> result[k] == LastIndexOf(postorder[..i], k)
    {
      assert postorder[..i + 1][..i] == postorder[..i];
      result[postorder[i]] := i;
    }
    assert postorder[..postorder.Length] == postorder[..];
  }

  /** On a permutation, `revpostorder` is its inverse, in both directions. */
  lemma RevPostorderInverse(post: seq<int>)
    requires IsPermutation(post)
    ensures forall i :: 0 <= i < |post| ==> RevPostorderOf(post)[post[i]] == i
    ensures forall k :: 0 <= k < |post| ==>
      0 <= RevPostorderOf(post)[k] < |post| && post[RevPostorderOf(post)[k]] == k
  {
    var r := RevPostorderOf(post);
    forall i | 0 <= i < |post|
      ensures r[post[i]] == i
    {
      var k := post[i];
      assert post[LastIndexOf(post, k)] == k;
    }
    forall k | 0 <= k < |post|
      ensures 0 <= r[k] < |post| && post[r[k]] == k
    {
      assert RankOccurs(post, k);
    }
  }
}
