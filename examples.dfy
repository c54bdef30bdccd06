/**
 * A three-instruction flow on which the sweep as written and the intended
 * sweep disagree:
 *
 *   0: x = ...      (successors 2, then 1)
 *   1: (no access)
 *   2: ... = x
 *
 * Every path from the entry to instruction 2 writes `x` at instruction 0, so
 * the read at 2 has a prior write. The depth-first numbering finishes 2, then
 * 1, then 0, giving ranks 0, 1, 2. Handling instruction 0, the sweep as written
 * inserts a set at position 0, then at position 2 (for successor 2), then at
 * position 1 (for successor 1); the last insertion shifts the set meant for
 * instruction 2 to position 3, so instruction 2 finds a `null` entry and its
 * read is reported.
 */
module Examples {
  import opened Graph
  import opened NamesIndex
  import opened Postorder
  import opened Analysis
  import opened Intended

  function ShiftFlow(): Flow
  {
    [ Instruction(0, [2, 1], ReadWrite("x", true)),
      Instruction(1, [], Generic),
      Instruction(2, [], ReadWrite("x", false)) ]
  }

  /** The depth-first ranks of the flow are 0, 1, 2 and every instruction is
      reachable. */
  lemma ShiftFlowRanks()
    ensures WellFormed(ShiftFlow())
    ensures PostorderOf(ShiftFlow()) == Dfs(0, [0, 1, 2], [true, true, true])
  {
    var f := ShiftFlow();
    var st := InitialDfs(f);
    assert st == Dfs(3, [0, 0, 0], [false, false, false]);
    var m0 := st.(vis := st.vis[0 := true]);
    assert m0.vis == [true, false, false];
    var m2 := m0.(vis := m0.vis[2 := true]);
    assert VisitSuccs(f, 2, 0, m2) == m2;
    var after2 := Visit(f, 2, m0);
    assert after2 == Dfs(2, [0, 0, 2], [true, false, true]);
    var m1 := after2.(vis := after2.vis[1 := true]);
    assert VisitSuccs(f, 1, 0, m1) == m1;
    var after1 := Visit(f, 1, after2);
    assert after1 == Dfs(1, [0, 1, 2], [true, true, true]);
    assert VisitSuccs(f, 0, 2, after1) == after1;
    assert VisitSuccs(f, 0, 1, after2) == after1;
    assert VisitSuccs(f, 0, 0, m0) == after1;
  }

  lemma ShiftFlowRevPostorder()
    ensures RevPostorderOf([0, 1, 2]) == [0, 1, 2]
  {
    var post := [0, 1, 2];
    assert LastIndexOf(post, 0) == 0 by {
      assert post[..2] == [0, 1] && [0, 1][..1] == [0];
    }
    assert LastIndexOf(post, 1) == 1 by {
      assert post[..2] == [0, 1];
    }
    assert LastIndexOf(post, 2) == 2;
  }

  lemma ShiftFlowNames()
    ensures NamesIndexOf(ShiftFlow()) == map["x" := 0]
  {
    var f := ShiftFlow();
    assert NamesIndexOf(f[..0]) == map[];
    assert f[..1][..0] == f[..0];
    assert NamesIndexOf(f[..1]) == map["x" := 0];
    assert f[..2][..1] == f[..1];
    assert NamesIndexOf(f[..2]) == map["x" := 0];
    assert f[..2] == f[..|f| - 1];
  }

  /** Every path from the entry to instruction 2 writes `x` at instruction 0,
      before it. */
  lemma ShiftFlowReadIsAssigned()
    ensures IsRead(ShiftFlow(), 2) && !UnwrittenPath(ShiftFlow(), 2, "x")
  {
    var f := ShiftFlow();
    forall p: seq<nat> | IsPath(f, p) && p[0] == 0 && p[|p| - 1] == 2
      ensures 0 < |p| - 1 && WritesName(f, p[0], "x")
    {
    }
  }

  /** The rank arrays, names and start state of the sweep on `ShiftFlow`. */
  lemma ShiftFlowSweepInputs()
    ensures WellFormed(ShiftFlow())
    ensures PostorderOf(ShiftFlow()).post == [0, 1, 2]
    ensures RevPostorderOf([0, 1, 2]) == [0, 1, 2]
    ensures NamesIndexOf(ShiftFlow()) == map["x" := 0]
    ensures InitialFacts(3) == [None, None, None]
  {
    ShiftFlowRanks();
    ShiftFlowRevPostorder();
    ShiftFlowNames();
  }

  /** Iteration 0 of the sweep as written: the write at 0 inserts a set at
      position 0, its edge to 2 inserts one at position 2, and its edge to 1
      inserts one at position 1, shifting the set for 2 to position 3. */
  lemma AsWrittenFirstStep()
    ensures WellFormed(ShiftFlow())
    ensures Step(Insert, ShiftFlow(), map["x" := 0], [0, 1, 2], [0, 1, 2], 0, State([None, None, None], [])) ==
      State([Some({0}), Some({0}), None, Some({0}), None, None], [])
  {
    var f := ShiftFlow();
    var post := [0, 1, 2];
    var a0 := AccessStep(Insert, f, map["x" := 0], 0, State([None, None, None], []));
    assert a0.facts == [Some({0}), None, None, None];
    var e0 := EdgeStep(Insert, f, post, 0, 2, a0.facts);
    assert e0 == [Some({0}), None, Some({0}), None, None];
    var e1 := EdgeStep(Insert, f, post, 0, 1, e0);
    assert e1 == [Some({0}), Some({0}), None, Some({0}), None, None];
    assert EdgesFrom(Insert, f, post, 0, 0, a0.facts) == e1;
  }

  /** Iterations 1 and 2 of the sweep as written: 1 accesses nothing and has
      no successors, and the read at 2 finds a `null` entry. */
  lemma AsWrittenLaterSteps()
    ensures WellFormed(ShiftFlow())
    ensures var s1 := State([Some({0}), Some({0}), None, Some({0}), None, None], []);
      && Step(Insert, ShiftFlow(), map["x" := 0], [0, 1, 2], [0, 1, 2], 1, s1) == s1
      && Step(Insert, ShiftFlow(), map["x" := 0], [0, 1, 2], [0, 1, 2], 2, s1) == s1.(reported := [2])
  {
  }

  /** The whole sweep as written on `ShiftFlow`. */
  lemma AsWrittenSweep()
    ensures WellFormed(ShiftFlow())
    ensures SweepFrom(Insert, ShiftFlow(), map["x" := 0], [0, 1, 2], [0, 1, 2], 0, State([None, None, None], [])).reported == [2]
  {
    var f := ShiftFlow();
    var names := map["x" := 0];
    var post, rev := [0, 1, 2], [0, 1, 2];
    var s1 := State([Some({0}), Some({0}), None, Some({0}), None, None], []);
    AsWrittenFirstStep();
    AsWrittenLaterSteps();
    assert SweepFrom(Insert, f, names, post, rev, 3, s1.(reported := [2])) == s1.(reported := [2]);
    assert SweepFrom(Insert, f, names, post, rev, 2, s1) == s1.(reported := [2]);
    assert SweepFrom(Insert, f, names, post, rev, 1, s1) == s1.(reported := [2]);
  }

  /** As written, the sweep reports the read at 2 although `x` is assigned on
      every path to it. */
  lemma AsWrittenReportsAssignedRead()
    ensures WellFormed(ShiftFlow())
    ensures ReadsWithoutPriorWrites(Insert, ShiftFlow()) == [2]
    ensures IsRead(ShiftFlow(), 2) && !UnwrittenPath(ShiftFlow(), 2, "x")
  {
    ShiftFlowSweepInputs();
    ShiftFlowReadIsAssigned();
    AsWrittenSweep();
  }

  /** Storing with `set`, the sweep reports nothing on the same flow. */
  lemma IntendedReportsNothing()
    ensures WellFormed(ShiftFlow())
    ensures ReadsWithoutPriorWrites(Replace, ShiftFlow()) == []
  {
    var f := ShiftFlow();
    ShiftFlowSweepInputs();
    var names := map["x" := 0];
    var post, rev := [0, 1, 2], [0, 1, 2];
    var s0 := State([None, None, None], []);
    var a0 := AccessStep(Replace, f, names, 0, s0);
    assert a0.facts == [Some({0}), None, None];
    var e0 := EdgeStep(Replace, f, post, 0, 2, a0.facts);
    assert e0 == [Some({0}), None, Some({0})];
    var e1 := EdgeStep(Replace, f, post, 0, 1, e0);
    assert e1 == [Some({0}), Some({0}), Some({0})];
    assert EdgesFrom(Replace, f, post, 0, 0, a0.facts) == e1;
    var s1 := State(e1, []);
    assert Step(Replace, f, names, post, rev, 0, s0) == s1;
    assert Step(Replace, f, names, post, rev, 1, s1) == s1;
    assert Step(Replace, f, names, post, rev, 2, s1) == s1;
    assert SweepFrom(Replace, f, names, post, rev, 0, s0) == s1;
  }

  // ---------------------------------------------------------------------------
  // Unreachable code.

  /** The entry reads `x` and has no successors; instructions 1 and 2 cannot be
      reached. */
  function DeadCodeFlow(): Flow
  {
    [ Instruction(0, [], ReadWrite("x", false)),
      Instruction(1, [], Generic),
      Instruction(2, [], Generic) ]
  }

  /** Only the entry is ranked: it gets rank 2, the unreached instructions keep
      rank 0, and the counter ends at 2, so `LOG.assertTrue(N == 0)` fails. No
      instruction has rank 1, so `revpostorder` is `[2, 0, 0]`: the entry is
      the instruction of iterations 1 and 2. */
  lemma DeadCodeRanks()
    ensures WellFormed(DeadCodeFlow()) && !AllReachable(DeadCodeFlow())
    ensures PostorderOf(DeadCodeFlow()) == Dfs(2, [2, 0, 0], [true, false, false])
    ensures RevPostorderOf([2, 0, 0]) == [2, 0, 0]
  {
    var f := DeadCodeFlow();
    var m0 := InitialDfs(f).(vis := InitialDfs(f).vis[0 := true]);
    assert VisitSuccs(f, 0, 0, m0) == m0;
    assert PostorderOf(f) == Dfs(2, [2, 0, 0], [true, false, false]);
    PostorderCounter(f);
    var post := [2, 0, 0];
    assert LastIndexOf(post, 1) == 0 by {
      assert post[..2] == [2, 0] && [2, 0][..1] == [2];
    }
  }

  /** The three iterations on `DeadCodeFlow`: instruction 2 does nothing, then
      the entry reports its read, twice. */
  lemma DeadCodeSteps(mode: Store)
    ensures WellFormed(DeadCodeFlow())
    ensures var s0 := State([None, None, None], []);
      && Step(mode, DeadCodeFlow(), map["x" := 0], [2, 0, 0], [2, 0, 0], 0, s0) == s0
      && Step(mode, DeadCodeFlow(), map["x" := 0], [2, 0, 0], [2, 0, 0], 1, s0) == s0.(reported := [0])
      && Step(mode, DeadCodeFlow(), map["x" := 0], [2, 0, 0], [2, 0, 0], 2, s0.(reported := [0])) == s0.(reported := [0, 0])
  {
  }

  lemma DeadCodeNames()
    ensures NamesIndexOf(DeadCodeFlow()) == map["x" := 0]
  {
    var f := DeadCodeFlow();
    assert NamesIndexOf(f[..0]) == map[];
    assert f[..1][..0] == f[..0];
    assert NamesIndexOf(f[..1]) == map["x" := 0];
    assert f[..2][..1] == f[..1];
    assert NamesIndexOf(f[..2]) == map["x" := 0];
    assert f[..2] == f[..|f| - 1];
  }

  /** With unreachable code the sweep handles the entry twice and reports its
      read twice, in either storing mode: the orderings and the exactness of the
      reports need every instruction reachable. */
  lemma DeadCodeReportedTwice(mode: Store)
    ensures WellFormed(DeadCodeFlow()) && !AllReachable(DeadCodeFlow())
    ensures ReadsWithoutPriorWrites(mode, DeadCodeFlow()) == [0, 0]
  {
    var f := DeadCodeFlow();
    DeadCodeRanks();
    DeadCodeNames();
    DeadCodeSteps(mode);
    var names := map["x" := 0];
    var post, rev := [2, 0, 0], [2, 0, 0];
    var s0 := State([None, None, None], []);
    assert InitialFacts(3) == [None, None, None];
    assert SweepFrom(mode, f, names, post, rev, 2, s0.(reported := [0])) == s0.(reported := [0, 0]);
    assert SweepFrom(mode, f, names, post, rev, 0, s0) == s0.(reported := [0, 0]);
  }
}
