/**
 * The instruction graph that the Groovy control-flow helper works on.
 *
 * An instruction is identified by its position in the flow array (its `num()`);
 * its successors (`allSucc()`) are kept as the list of their `num()` values, in
 * edge order. A variable access is a read or a write of a named variable.
 */
module Graph {

  datatype Option<T> = None | Some(value: T)

  /** What an instruction does with variables: nothing, or a read/write of one. */
  datatype Access = Generic | ReadWrite(name: string, isWrite: bool)

  datatype Instruction = Instruction(num: nat, succ: seq<nat>, access: Access)

  type Flow = seq<Instruction>

  /** What the callers of the helper guarantee: `flow[0]` exists, every
      instruction's `num()` is its index, and every successor is in the flow. */
  ghost predicate WellFormed(flow: Flow)
  {
    && |flow| > 0
    && (forall k :: 0 <= k < |flow| ==> flow[k].num == k)
    && (forall k, s :: 0 <= k < |flow| && s in flow[k].succ ==> s < |flow|)
  }

  /** `p` follows control-flow edges from its first to its last instruction. */
  ghost predicate IsPath(flow: Flow, p: seq<nat>)
  {
    && |p| > 0
    && (forall t :: 0 <= t < |p| ==> p[t] < |flow|)
    && (forall t :: 0 <= t < |p| - 1 ==> p[t + 1] in flow[p[t]].succ)
  }

  /** `b` can be reached from `a` by zero or more control-flow steps. */
  ghost predicate Reachable(flow: Flow, a: nat, b: nat)
  {
    exists p :: IsPath(flow, p) && p[0] == a && p[|p| - 1] == b
  }

  /** Every instruction can be reached from the entry `flow[0]`. */
  ghost predicate AllReachable(flow: Flow)
  {
    forall v :: 0 <= v < |flow| ==> Reachable(flow, 0, v)
  }

  /** No edge closes a cycle: the target of an edge never reaches its source. */
  ghost predicate Acyclic(flow: Flow)
  {
    forall u, s :: 0 <= u < |flow| && s in flow[u].succ ==> !Reachable(flow, s, u)
  }

  lemma ReachableRefl(flow: Flow, a: nat)
    requires a < |flow|
    ensures Reachable(flow, a, a)
  {
    assert IsPath(flow, [a]);
  }

  /** One more edge at the end of a path. */
  lemma ReachableStep(flow: Flow, a: nat, b: nat, c: nat)
    requires WellFormed(flow) && b < |flow|
    requires Reachable(flow, a, b) && c in flow[b].succ
    ensures Reachable(flow, a, c)
  {
    var p :| IsPath(flow, p) && p[0] == a && p[|p| - 1] == b;
    var q := p + [c];
    assert IsPath(flow, q);
    assert q[0] == a && q[|q| - 1] == c;
  }

  /** Every element of a path reaches its last element. */
  lemma PathSuffixReaches(flow: Flow, p: seq<nat>, t: nat)
    requires IsPath(flow, p) && t < |p|
    ensures Reachable(flow, p[t], p[|p| - 1])
  {
    var q := p[t..];
    assert IsPath(flow, q);
    assert q[0] == p[t] && q[|q| - 1] == p[|p| - 1];
  }

  /** A set of instructions that holds `a` and is closed under successors holds
      every instruction `a` reaches. */
  lemma ClosedSetHoldsReachable(flow: Flow, inSet: seq<bool>, a: nat, b: nat)
    requires WellFormed(flow) && |inSet| == |flow| && a < |flow| && inSet[a]
    requires forall u, s :: 0 <= u < |flow| && inSet[u] && s in flow[u].succ ==> inSet[s]
    requires Reachable(flow, a, b)
    ensures b < |flow| && inSet[b]
  {
    var p :| IsPath(flow, p) && p[0] == a && p[|p| - 1] == b;
    var t := 0;
    while t < |p| - 1
      invariant 0 <= t < |p| && inSet[p[t]]
    {
      t := t + 1;
    }
  }
}
