/**
 * `findReadsBeforeWrites` and its driver `getReadsWithoutPriorWrites`: one
 * sweep over the instructions in rank order (by `revpostorder`) that keeps, per
 * instruction, the set of variable indices definitely assigned on entry to it
 * (`definitelyAssigned`, a list of Trove int sets where `null` means "no set
 * yet"), and reports every read whose variable is not in that set.
 *
 * The sets are values here: the source never stores one set object at two
 * positions of the list, so updating a set in place is the same as storing the
 * updated set at its position.
 *
 * Where the source stores a freshly created set it calls
 * `definitelyAssigned.add(index, set)`. On an `ArrayList` that INSERTS at
 * `index` and shifts every later entry one position up; `Store.Insert` models
 * exactly that. `Store.Replace` models `definitelyAssigned.set(index, set)`, the
 * evident intent; the intended sweep is analysed in module `Intended`.
 */
module Analysis {
  import opened Graph
  import opened NamesIndex
  import opened Postorder

  /** How a freshly created set is stored at a position of the list. */
  datatype Store = Insert | Replace

  /** `definitelyAssigned`: `None` is a `null` entry. */
  type Facts = seq<Option<set<int>>>

  /** The two lists the sweep updates: `definitelyAssigned` and `result` (the
      reported reads, by instruction number, in the order they are reported). */
  datatype State = State(facts: Facts, reported: seq<nat>)

  /** The set an entry stands for when it is used as the current instruction's
      facts: a `null` entry propagates as the empty set. */
  function Val(o: Option<set<int>>): set<int>
  {
    if o.None? then {} else o.value
  }

  /** Store the fresh set `x` at position `p`: `ArrayList.add(p, x)` (insert and
      shift) or `ArrayList.set(p, x)` (overwrite). */
  function Put(mode: Store, facts: Facts, p: nat, x: set<int>): (r: Facts)
    requires p < |facts|
    ensures |facts| <= |r| && r[p] == Some(x) && forall i :: 0 <= i < p ==> r[i] == facts[i]
    ensures mode == Insert ==>
      |r| == |facts| + 1 && forall i :: p <= i < |facts| ==> r[i + 1] == facts[i]
    ensures mode == Replace ==>
      |r| == |facts| && forall i :: p < i < |facts| ==> r[i] == facts[i]
  {
    match mode
    case Insert => facts[..p] + [Some(x)] + facts[p..]
    case Replace => facts[p := Some(x)]
  }

  /** Storing a fresh set and then updating it in place stores the updated set. */
  lemma PutThenUpdate(mode: Store, facts: Facts, p: nat, x: set<int>, y: set<int>)
    requires p < |facts|
    ensures Put(mode, facts, p, x)[p := Some(y)] == Put(mode, facts, p, y)
  {
  }

  /** The sweep's requirements on the two rank arrays: both as long as the flow,
      and every entry of `revpostorder` an instruction number. */
  ghost predicate RanksFit(flow: Flow, post: seq<int>, rev: seq<int>)
  {
    && |post| == |flow| && |rev| == |flow|
    && forall i :: 0 <= i < |rev| ==> 0 <= rev[i] < |flow|
  }

  /** The variable access of instruction `j` (`curr`): a read is reported when
      its index is not in the set at `j`; a write adds its index to that set,
      storing a fresh set first when the entry is `null`. */
  function AccessStep(mode: Store, flow: Flow, names: map<string, int>, j: nat, s: State): (r: State)
    requires j < |flow| <= |s.facts|
    ensures |s.facts| <= |r.facts| <= |s.facts| + 1
    ensures mode == Replace ==> |r.facts| == |s.facts|
    ensures flow[j].access.Generic? ==> r == s
  {
    match flow[j].access
    case Generic => s
    case ReadWrite(name, isWrite) =>
      var idx := Get(names, name);
      var vars := s.facts[j];
      if !isWrite then
        if vars.None? || idx !in vars.value then s.(reported := s.reported + [j]) else s
      else if vars.None? then s.(facts := Put(mode, s.facts, j, {idx}))
      else s.(facts := s.facts[j := Some(vars.value + {idx})])
  }

  /** The edge from `j` to its successor `succ`, followed only when it goes to
      a larger rank: a `null` successor entry receives a copy of `j`'s set (or
      an empty set when `j`'s entry is `null`), a present one is intersected
      with it (or cleared). */
  function EdgeStep(mode: Store, flow: Flow, post: seq<int>, j: nat, succ: nat, facts: Facts): (r: Facts)
    requires |post| == |flow| && j < |flow| && succ < |flow| <= |facts|
    ensures |facts| <= |r| <= |facts| + 1
    ensures mode == Replace ==> |r| == |facts|
    ensures post[succ] <= post[j] ==> r == facts
  {
    if post[succ] > post[j] then
      var cur := facts[j];
      var sa := facts[succ];
      if cur.Some? then
        if sa.None? then Put(mode, facts, succ, cur.value)
        else facts[succ := Some(sa.value * cur.value)]
      else if sa.Some? then facts[succ := Some({})]
      else Put(mode, facts, succ, {})
    else facts
  }

  /** The loop over `curr.allSucc()`, from position `k` on. */
  function EdgesFrom(mode: Store, flow: Flow, post: seq<int>, j: nat, k: nat, facts: Facts): (r: Facts)
    requires WellFormed(flow) && |post| == |flow| && j < |flow| && k <= |flow[j].succ|
    requires |flow| <= |facts|
    ensures |facts| <= |r|
    ensures mode == Replace ==> |r| == |facts|
    decreases |flow[j].succ| - k
  {
    if k == |flow[j].succ| then facts
    else
      var succ := flow[j].succ[k];
      assert succ in flow[j].succ;
      EdgesFrom(mode, flow, post, j, k + 1, EdgeStep(mode, flow, post, j, succ, facts))
  }

  /** One iteration of the outer loop: instruction `j = revpostorder[i]`. */
  function Step(mode: Store, flow: Flow, names: map<string, int>, post: seq<int>, rev: seq<int>, i: nat, s: State): (r: State)
    requires WellFormed(flow) && RanksFit(flow, post, rev) && i < |flow| <= |s.facts|
    ensures |s.facts| <= |r.facts|
    ensures mode == Replace ==> |r.facts| == |s.facts|
  {
    var j := rev[i];
    var a := AccessStep(mode, flow, names, j, s);
    a.(facts := EdgesFrom(mode, flow, post, j, 0, a.facts))
  }

  /** The outer loop of `findReadsBeforeWrites`, from iteration `i` on. */
  function SweepFrom(mode: Store, flow: Flow, names: map<string, int>, post: seq<int>, rev: seq<int>, i: nat, s: State): (r: State)
    requires WellFormed(flow) && RanksFit(flow, post, rev) && i <= |flow| <= |s.facts|
    ensures |s.facts| <= |r.facts|
    ensures mode == Replace ==> |r.facts| == |s.facts|
    decreases |flow| - i
  {
    if i == |flow| then s
    else SweepFrom(mode, flow, names, post, rev, i + 1, Step(mode, flow, names, post, rev, i, s))
  }

  /** The list `getReadsWithoutPriorWrites` starts from: one `null` per instruction. */
  function InitialFacts(n: nat): (r: Facts)
    ensures |r| == n && forall k :: 0 <= k < n ==> r[k] == None
  {
    seq(n, _ => None)
  }

  /** What `getReadsWithoutPriorWrites(flow)` returns, by instruction number. */
  function ReadsWithoutPriorWrites(mode: Store, flow: Flow): seq<nat>
    requires WellFormed(flow)
  {
    var post := PostorderOf(flow).post;
    SweepFrom(mode, flow, NamesIndexOf(flow), post, RevPostorderOf(post), 0, State(InitialFacts(|flow|), [])).reported
  }

  /** `findReadsBeforeWrites`: the two lists it updates are passed in and their
      final contents returned. The body of its loop is split in two methods,
      one per half of the body. */
  method FindReadsBeforeWrites(mode: Store, flow: Flow, definitelyAssigned: Facts, result: seq<nat>,
                               namesIndex: map<string, int>, postorder: array<int>, revpostorder: array<int>)
    returns (facts: Facts, reported: seq<nat>)
    requires WellFormed(flow) && |flow| <= |definitelyAssigned|
    requires RanksFit(flow, postorder[..], revpostorder[..])
    ensures State(facts, reported) ==
      SweepFrom(mode, flow, namesIndex, postorder[..], revpostorder[..], 0, State(definitelyAssigned, result))
  {
    ghost var post, rev := postorder[..], revpostorder[..];
    ghost var goal := SweepFrom(mode, flow, namesIndex, post, rev, 0, State(definitelyAssigned, result));
    facts, reported := definitelyAssigned, result;
    for i := 0 to |flow|
      invariant |flow| <= |facts|
      invariant SweepFrom(mode, flow, namesIndex, post, rev, i, State(facts, reported)) == goal
    {
      var j := revpostorder[i];
      assert j == rev[i];
      ghost var s0 := State(facts, reported);
      facts, reported := RecordAccess(mode, flow, namesIndex, j, facts, reported);
      facts := PropagateAlongEdges(mode, flow, postorder, j, facts);
      assert State(facts, reported) == Step(mode, flow, namesIndex, post, rev, i, s0);
    }
  }

  /** The first half of the loop body: the variable access of `curr = flow[j]`. */
  method RecordAccess(mode: Store, flow: Flow, namesIndex: map<string, int>, j: nat, definitelyAssigned: Facts, result: seq<nat>)
    returns (facts: Facts, reported: seq<nat>)
    requires j < |flow| <= |definitelyAssigned|
    ensures State(facts, reported) == AccessStep(mode, flow, namesIndex, j, State(definitelyAssigned, result))
  {
    facts, reported := definitelyAssigned, result;
    match flow[j].access {
      case Generic =>
      case ReadWrite(name, isWrite) =>
        var idx := Get(namesIndex, name);
        var vars := facts[j];
        if !isWrite {
          if vars.None? || idx !in vars.value {
            reported := reported + [j];
          }
        } else {
          var v := if vars.None? then {} else vars.value;
          if vars.None? {
            facts := Put(mode, facts, j, v);
            assert v + {idx} == {idx};
            PutThenUpdate(mode, definitelyAssigned, j, v, {idx});
          }
          // `vars.add(idx)` updates the set held at position `j`
          facts := facts[j := Some(v + {idx})];
        }
    }
  }

  /** The second half of the loop body: the loop over `curr.allSucc()`.
      `curr.num()` is `j` and `succ.num()` is `succ`, since every instruction's
      number is its position. */
  method PropagateAlongEdges(mode: Store, flow: Flow, postorder: array<int>, j: nat, definitelyAssigned: Facts)
    returns (facts: Facts)
    requires WellFormed(flow) && postorder.Length == |flow| && j < |flow| <= |definitelyAssigned|
    ensures facts == EdgesFrom(mode, flow, postorder[..], j, 0, definitelyAssigned)
  {
    ghost var post := postorder[..];
    ghost var goal := EdgesFrom(mode, flow, post, j, 0, definitelyAssigned);
    facts := definitelyAssigned;
    var succs := flow[j].succ;
    for k := 0 to |succs|
      invariant |flow| <= |facts|
      invariant EdgesFrom(mode, flow, post, j, k, facts) == goal
    {
      var succ := succs[k];
      assert succ in flow[j].succ;
      ghost var before := facts;
      if postorder[succ] > postorder[j] {
        var currDefinitelyAssigned := facts[j];
        var succDefinitelyAssigned := facts[succ];
        if currDefinitelyAssigned.Some? {
          if succDefinitelyAssigned.None? {
            facts := Put(mode, facts, succ, currDefinitelyAssigned.value);
          } else {
            facts := facts[succ := Some(succDefinitelyAssigned.value * currDefinitelyAssigned.value)];
          }
        } else {
          if succDefinitelyAssigned.Some? {
            facts := facts[succ := Some({})];
          } else {
            facts := Put(mode, facts, succ, {});
          }
        }
      }
      assert facts == EdgeStep(mode, flow, post, j, succ, before);
    }
  }

  /** `getReadsWithoutPriorWrites(flow)`. */
  method GetReadsWithoutPriorWrites(mode: Store, flow: Flow) returns (reported: seq<nat>)
    requires WellFormed(flow)
    ensures reported == ReadsWithoutPriorWrites(mode, flow)
  {
    var result: seq<nat> := [];
    var namesIndex := BuildNamesIndex(flow);
    var definitelyAssigned: Facts := [];
    for i := 0 to |flow|
      invariant definitelyAssigned == InitialFacts(i)
    {
      definitelyAssigned := definitelyAssigned + [None];
    }
    var postorder, _ := Postorder.Postorder(flow);
    PostorderRanksInRange(flow);
    var revpostorder := RevPostorder(postorder);
    var facts;
    facts, reported := FindReadsBeforeWrites(mode, flow, definitelyAssigned, result, namesIndex, postorder, revpostorder);
  }

  // ---------------------------------------------------------------------------
  // What holds of the sweep in either storing mode.

  /** The instruction at `m` reads a variable. */
  ghost predicate IsRead(flow: Flow, m: int)
  {
    0 <= m < |flow| && flow[m].access.ReadWrite? && !flow[m].access.isWrite
  }

  ghost predicate AllReads(flow: Flow, reported: seq<nat>)
  {
    forall t :: 0 <= t < |reported| ==> IsRead(flow, reported[t])
  }

  /** An access step reports nothing, or the read instruction it handles. */
  lemma AccessReports(mode: Store, flow: Flow, names: map<string, int>, j: nat, s: State)
    requires j < |flow| <= |s.facts|
    ensures var r := AccessStep(mode, flow, names, j, s).reported;
      r == s.reported || (r == s.reported + [j] && IsRead(flow, j))
  {
  }

  /** A read at `j` is reported exactly when its index is missing from the
      entry at `j` (a `null` entry holds nothing); the list is left alone. */
  lemma ReadReports(mode: Store, flow: Flow, names: map<string, int>, j: nat, s: State)
    requires j < |flow| <= |s.facts| && flow[j].access.ReadWrite? && !flow[j].access.isWrite
    ensures AccessStep(mode, flow, names, j, s).facts == s.facts
    ensures AccessStep(mode, flow, names, j, s).reported ==
      if Get(names, flow[j].access.name) in Val(s.facts[j]) then s.reported else s.reported + [j]
  {
  }

  /** After a write at `j`, the entry at `j` holds what it held plus the
      written index, and nothing is reported. A fresh set is stored with `Put`
      only when the entry was `null`; otherwise no other entry moves. */
  lemma WriteAddsIndex(mode: Store, flow: Flow, names: map<string, int>, j: nat, s: State)
    requires j < |flow| <= |s.facts| && flow[j].access.ReadWrite? && flow[j].access.isWrite
    ensures AccessStep(mode, flow, names, j, s).reported == s.reported
    ensures AccessStep(mode, flow, names, j, s).facts[j] == Some(Val(s.facts[j]) + {Get(names, flow[j].access.name)})
    ensures s.facts[j].None? ==>
      AccessStep(mode, flow, names, j, s).facts == Put(mode, s.facts, j, {Get(names, flow[j].access.name)})
    ensures s.facts[j].Some? ==>
      AccessStep(mode, flow, names, j, s).facts == s.facts[j := Some(s.facts[j].value + {Get(names, flow[j].access.name)})]
  {
    if s.facts[j].None? {
      assert Val(s.facts[j]) + {Get(names, flow[j].access.name)} == {Get(names, flow[j].access.name)};
    }
  }

  /** A followed edge, in either storing mode: the target's entry becomes a
      copy of the source's set when it had none, and otherwise the
      intersection of the two (empty when the source's entry is `null`), so a
      present set never grows. Only a copy into a `null` entry stores a fresh
      set with `Put`; otherwise no other entry changes. */
  lemma EdgeStepMeets(mode: Store, flow: Flow, post: seq<int>, cur: nat, succ: nat, facts: Facts)
    requires |post| == |flow| && cur < |flow| && succ < |flow| <= |facts| && post[succ] > post[cur]
    ensures EdgeStep(mode, flow, post, cur, succ, facts)[succ] ==
      Some(if facts[succ].None? then Val(facts[cur]) else facts[succ].value * Val(facts[cur]))
    ensures facts[succ].Some? ==> EdgeStep(mode, flow, post, cur, succ, facts)[succ].value <= facts[succ].value
    ensures facts[succ].None? ==> EdgeStep(mode, flow, post, cur, succ, facts) == Put(mode, facts, succ, Val(facts[cur]))
    ensures facts[succ].Some? || mode == Replace ==>
      EdgeStep(mode, flow, post, cur, succ, facts) ==
        facts[succ := Some(if facts[succ].None? then Val(facts[cur]) else facts[succ].value * Val(facts[cur]))]
  {
    if facts[cur].None? && facts[succ].Some? {
      assert facts[succ].value * {} == {};
    }
  }

  /** The sweep only appends to the reported list, and only read instructions. */
  lemma {:induction false} SweepAppendsReads(mode: Store, flow: Flow, names: map<string, int>, post: seq<int>, rev: seq<int>, i: nat, s: State)
    requires WellFormed(flow) && RanksFit(flow, post, rev) && i <= |flow| <= |s.facts|
    requires AllReads(flow, s.reported)
    ensures s.reported <= SweepFrom(mode, flow, names, post, rev, i, s).reported
    ensures AllReads(flow, SweepFrom(mode, flow, names, post, rev, i, s).reported)
    decreases |flow| - i
  {
    if i < |flow| {
      var next := Step(mode, flow, names, post, rev, i, s);
      AccessReports(mode, flow, names, rev[i], s);
      assert next.reported == AccessStep(mode, flow, names, rev[i], s).reported;
      SweepAppendsReads(mode, flow, names, post, rev, i + 1, next);
    }
  }

  /** Every reported instruction is a read. */
  lemma ReportsAreReads(mode: Store, flow: Flow)
    requires WellFormed(flow)
    ensures AllReads(flow, ReadsWithoutPriorWrites(mode, flow))
  {
    var post := PostorderOf(flow).post;
    SweepAppendsReads(mode, flow, NamesIndexOf(flow), post, RevPostorderOf(post), 0, State(InitialFacts(|flow|), []));
  }

  /** Reported instructions in strictly increasing rank, all below `bound`. */
  ghost predicate RankSorted(post: seq<int>, reported: seq<nat>, bound: int)
  {
    && (forall t :: 0 <= t < |reported| ==> reported[t] < |post| && post[reported[t]] < bound)
    && (forall t, u :: 0 <= t < u < |reported| ==> post[reported[t]] < post[reported[u]])
  }

  /** When `revpostorder` inverts the ranks, iteration `i` handles the
      instruction of rank `i`, so reports come out in increasing rank. */
  lemma {:induction false} SweepRankSorted(mode: Store, flow: Flow, names: map<string, int>, post: seq<int>, rev: seq<int>, i: nat, s: State)
    requires WellFormed(flow) && RanksFit(flow, post, rev) && i <= |flow| <= |s.facts|
    requires forall k :: 0 <= k < |flow| ==> post[rev[k]] == k
    requires RankSorted(post, s.reported, i)
    ensures RankSorted(post, SweepFrom(mode, flow, names, post, rev, i, s).reported, |flow|)
    decreases |flow| - i
  {
    if i < |flow| {
      var next := Step(mode, flow, names, post, rev, i, s);
      var a := AccessStep(mode, flow, names, rev[i], s);
      assert a.reported == s.reported || a.reported == s.reported + [rev[i]];
      assert post[rev[i]] == i;
      SweepRankSorted(mode, flow, names, post, rev, i + 1, next);
    }
  }

  /** With every instruction reachable, each read is reported at most once and
      reports are ordered by rank. */
  lemma ReportsInRankOrder(mode: Store, flow: Flow)
    requires WellFormed(flow) && AllReachable(flow)
    ensures RankSorted(PostorderOf(flow).post, ReadsWithoutPriorWrites(mode, flow), |flow|)
    ensures forall t, u :: 0 <= t < u < |ReadsWithoutPriorWrites(mode, flow)| ==>
      ReadsWithoutPriorWrites(mode, flow)[t] != ReadsWithoutPriorWrites(mode, flow)[u]
  {
    var post := PostorderOf(flow).post;
    PostorderIsPermutation(flow);
    RevPostorderInverse(post);
    SweepRankSorted(mode, flow, NamesIndexOf(flow), post, RevPostorderOf(post), 0, State(InitialFacts(|flow|), []));
  }
}
