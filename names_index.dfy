/**
 * `buildNamesIndex`: a dense numbering of the variable names that the flow
 * reads or writes, in order of first occurrence.
 *
 * The Trove map `TObjectIntHashMap<String>` is a `map<string, int>`; its `get`
 * on an absent key returns 0, which `Get` models.
 */
module NamesIndex {
  import opened Graph

  /** The name an instruction reads or writes, if any. */
  function NameOf(ins: Instruction): Option<string>
  {
    match ins.access
    case Generic => None
    case ReadWrite(name, _) => Some(name)
  }

  /** Whether some instruction of `flow` reads or writes `name`. */
  ghost predicate Occurs(flow: Flow, name: string)
  {
    exists k :: 0 <= k < |flow| && NameOf(flow[k]) == Some(name)
  }

  /** The index `buildNamesIndex` returns, as a function of the flow: walk the
      instructions in order and give each name not yet in the map the next
      number, which is the number of names already in it. */
  function NamesIndexOf(flow: Flow): map<string, int>
  {
    if flow == [] then map[]
    else
      var m := NamesIndexOf(flow[..|flow| - 1]);
      match NameOf(flow[|flow| - 1])
      case None => m
      case Some(name) => if name in m then m else m[name := |m|]
  }

  /** `TObjectIntHashMap.get`: the value of `k`, or 0 when `k` is absent. */
  function Get(m: map<string, int>, k: string): int
  {
    if k in m then m[k] else 0
  }

  method BuildNamesIndex(flow: Flow) returns (namesIndex: map<string, int>)
    ensures namesIndex == NamesIndexOf(flow)
  {
    namesIndex := map[];
    var idx := 0;
    for i := 0 to |flow|
      invariant namesIndex == NamesIndexOf(flow[..i])
      invariant idx == |namesIndex|
    {
      assert flow[..i + 1][..i] == flow[..i];
      match NameOf(flow[i]) {
        case None =>
        case Some(name) =>
          if name !in namesIndex {
            namesIndex := namesIndex[name := idx];
            idx := idx + 1;
          }
      }
    }
    assert flow[..|flow|] == flow;
  }

  // ---------------------------------------------------------------------------
  // What the index promises.

  /** The keys are exactly the names the flow reads or writes. */
  lemma {:induction false} NamesIndexKeys(flow: Flow)
    ensures forall name :: name in NamesIndexOf(flow) <==> Occurs(flow, name)
  {
    if flow != [] {
      var init := flow[..|flow| - 1];
      NamesIndexKeys(init);
      forall name
        ensures name in NamesIndexOf(flow) <==> Occurs(flow, name)
      {
        if Occurs(init, name) {
          var k :| 0 <= k < |init| && NameOf(init[k]) == Some(name);
          assert NameOf(flow[k]) == Some(name);
        }
        if Occurs(flow, name) {
          var k :| 0 <= k < |flow| && NameOf(flow[k]) == Some(name);
          if k < |init| {
            assert NameOf(init[k]) == Some(name);
          }
        }
      }
    }
  }

  /** The values are pairwise distinct and are exactly 0 .. |keys| - 1. */
  lemma {:induction false} NamesIndexDense(flow: Flow)
    ensures forall name :: name in NamesIndexOf(flow) ==> 0 <= NamesIndexOf(flow)[name] < |NamesIndexOf(flow)|
    ensures forall a, b :: a in NamesIndexOf(flow) && b in NamesIndexOf(flow) && NamesIndexOf(flow)[a] == NamesIndexOf(flow)[b] ==> a == b
    ensures forall v :: 0 <= v < |NamesIndexOf(flow)| ==> v in NamesIndexOf(flow).Values
  {
    if flow != [] {
      var init := flow[..|flow| - 1];
      NamesIndexDense(init);
      var m := NamesIndexOf(init);
      match NameOf(flow[|flow| - 1]) {
        case None =>
        case Some(name) =>
          if name !in m {
            var m' := m[name := |m|];
            assert |m'| == |m| + 1;
            forall v | 0 <= v < |m'|
              ensures v in m'.Values
            {
              if v < |m| {
                assert v in m.Values;
                var a :| a in m && m[a] == v;
                assert m'[a] == v;
              } else {
                assert m'[name] == v;
              }
            }
          }
      }
    }
  }

  /** Distinct names get distinct indices: a write found by index is a write of
      the very variable being read. */
  lemma NamesIndexInjective(flow: Flow, a: string, b: string)
    requires Occurs(flow, a) && Occurs(flow, b)
    ensures Get(NamesIndexOf(flow), a) == Get(NamesIndexOf(flow), b) <==> a == b
  {
    NamesIndexKeys(flow);
    NamesIndexDense(flow);
  }

  /** At every read or write the index lookup finds the accessed name: the
      default 0 of `get` is never taken, and the index is below the number of
      names. */
  lemma GetAtAccess(flow: Flow, k: nat)
    requires k < |flow| && flow[k].access.ReadWrite?
    ensures flow[k].access.name in NamesIndexOf(flow)
    ensures 0 <= Get(NamesIndexOf(flow), flow[k].access.name) < |NamesIndexOf(flow)|
  {
    assert NameOf(flow[k]) == Some(flow[k].access.name);
    NamesIndexKeys(flow);
    NamesIndexDense(flow);
  }

  /** The first occurrence of `name` in the flow is at position `k`. */
  ghost predicate FirstAt(flow: Flow, name: string, k: int)
  {
    0 <= k < |flow| && NameOf(flow[k]) == Some(name) && !Occurs(flow[..k], name)
  }

  /** Names are numbered in the order of their first occurrence. */
  lemma {:induction false} NamesIndexOrder(flow: Flow, a: string, ka: int, b: string, kb: int)
    requires FirstAt(flow, a, ka) && FirstAt(flow, b, kb) && ka < kb
    ensures a in NamesIndexOf(flow) && b in NamesIndexOf(flow)
    ensures NamesIndexOf(flow)[a] < NamesIndexOf(flow)[b]
  {
    var init := flow[..|flow| - 1];
    if kb == |flow| - 1 {
      assert init == flow[..kb];
      NamesIndexKeys(init);
      NamesIndexDense(init);
      assert NameOf(init[ka]) == Some(a);
      assert a in NamesIndexOf(init) && b !in NamesIndexOf(init);
    } else {
      assert init[..ka] == flow[..ka] && init[..kb] == flow[..kb];
      assert NameOf(init[ka]) == Some(a) && NameOf(init[kb]) == Some(b);
      NamesIndexOrder(init, a, ka, b, kb);
    }
  }
}
