/**
 * Small participant lists on which the engine's behaviour is fixed whatever
 * the shuffles are, or on which one particular shuffle shows how it behaves.
 */
module Scenarios {
  import opened Options
  import opened Matching

  /**
   * The first attempt of a run decides it when it fills every slot, and
   * decides a run of one attempt either way.
   */
  lemma {:induction false} FirstAttempt(ps: seq<Participant>, shuffles: seq<Shuffle>, m: seq<Option<nat>>)
    requires |m| == |ps| && SlotsInRange(m, |ps|) && |shuffles| >= 1
    requires forall k :: 0 <= k < |shuffles| ==> ShuffleInRange(shuffles[k], |ps|)
    ensures ShuffleInRange(shuffles[0], |ps|)
    ensures var tried := Assign(ps, shuffles[0].givers, Pool(m, shuffles[0].receivers)).matches;
      && (AllMatched(tried) ==> Calculate(ps, shuffles, m) == Run(true, tried, 1))
      && (!AllMatched(tried) && |shuffles| == 1 ==> !Calculate(ps, shuffles, m).ok)
  {
    CalculateFrom(ps, shuffles, 0, m);
    assert shuffles[0..] == shuffles;
  }

  /** A run of one attempt succeeds exactly when that attempt fills every slot, and clears them all otherwise. */
  lemma {:induction false} OneAttempt(ps: seq<Participant>, s: Shuffle, m: seq<Option<nat>>)
    requires |m| == |ps| && SlotsInRange(m, |ps|) && ShuffleInRange(s, |ps|)
    ensures var tried := Assign(ps, s.givers, Pool(m, s.receivers)).matches;
      Calculate(ps, [s], m) == if AllMatched(tried) then Run(true, tried, 1) else Run(false, Unmatched(|ps|), 1)
  {
    CalculateFrom(ps, [s], 0, m);
    assert [s][0..] == [s] && [s][1..] == [];
  }

  lemma {:induction false} PermutationOfTwo(s: seq<nat>)
    requires IsPermutation(s, 2)
    ensures s == [0, 1] || s == [1, 0]
  {
    assert s == [s[0], s[1]];
  }

  /** Two participants without exclusions: every attempt, whatever the shuffles, swaps them. */
  lemma {:induction false} TwoParticipantsAlwaysSwap(ps: seq<Participant>, givers: seq<nat>, receivers: seq<nat>)
    requires |ps| == 2 && ps[0].exclusions == [] && ps[1].exclusions == []
    requires IsPermutation(givers, 2) && IsPermutation(receivers, 2)
    ensures Assign(ps, givers, Pool([None, None], receivers)).matches == [Some(1), Some(0)]
  {
    PermutationOfTwo(givers);
    PermutationOfTwo(receivers);
    var g0, g1 := givers[0], givers[1];
    var start := Pool([None, None], receivers);
    var mid := Pool([None, None][g0 := Some(g1)], [g0]);
    var done := Pool([None, None][g0 := Some(g1)][g1 := Some(g0)], []);
    assert done.matches == [Some(1), Some(0)];
    assert givers[0..] == givers && givers[2..] == [];
    FirstTurnOfTwo(ps, g0, g1, receivers);
    SecondTurnOfTwo(ps, g0, g1);
    AssignFrom(ps, givers, 0, start);
    AssignFrom(ps, givers, 1, mid);
  }

  /** The second giver then takes the first, the one receiver left. */
  lemma {:induction false} SecondTurnOfTwo(ps: seq<Participant>, g0: nat, g1: nat)
    requires |ps| == 2 && ps[0].exclusions == [] && ps[1].exclusions == []
    requires (g0, g1) == (0, 1) || (g0, g1) == (1, 0)
    ensures Serve(ps, g1, Pool([None, None][g0 := Some(g1)], [g0]))
      == Pool([None, None][g0 := Some(g1)][g1 := Some(g0)], [])
  {
    assert Eligible(ps, g1, g0);
    ServeTakes(ps, g1, Pool([None, None][g0 := Some(g1)], [g0]), 0);
    assert [g0][..0] + [g0][1..] == [];
  }

  /** In a pair, the first giver takes the other participant and leaves itself in the pool. */
  lemma {:induction false} FirstTurnOfTwo(ps: seq<Participant>, g0: nat, g1: nat, receivers: seq<nat>)
    requires |ps| == 2 && ps[0].exclusions == [] && ps[1].exclusions == []
    requires (g0, g1) == (0, 1) || (g0, g1) == (1, 0)
    requires receivers == [0, 1] || receivers == [1, 0]
    ensures Serve(ps, g0, Pool([None, None], receivers)) == Pool([None, None][g0 := Some(g1)], [g0])
  {
    var start := Pool([None, None], receivers);
    assert Eligible(ps, g0, g1) && !Eligible(ps, g0, g0);
    if receivers[0] == g1 {
      ServeTakes(ps, g0, start, 0);
      assert receivers[..0] + receivers[1..] == [g0];
    } else {
      ServeTakes(ps, g0, start, 1);
      assert receivers[..1] + receivers[2..] == [g0];
    }
  }

  /** So with two such participants the first attempt always succeeds, whatever the later shuffles are. */
  lemma {:induction false} TwoParticipantsOneAttempt(ps: seq<Participant>, shuffles: seq<Shuffle>)
    requires |ps| == 2 && ps[0].exclusions == [] && ps[1].exclusions == []
    requires forall k :: 0 <= k < |shuffles| ==> ShuffleInRange(shuffles[k], 2)
    requires |shuffles| >= 1 && IsPermutation(shuffles[0].givers, 2) && IsPermutation(shuffles[0].receivers, 2)
    ensures Calculate(ps, shuffles, [None, None]) == Run(true, [Some(1), Some(0)], 1)
  {
    TwoParticipantsAlwaysSwap(ps, shuffles[0].givers, shuffles[0].receivers);
    assert AllMatched([Some(1), Some(0)]);
    FirstAttempt(ps, shuffles, [None, None]);
  }

  /** A participant called `name` who excludes nobody. */
  function Unrestricted(name: string): (p: Participant)
  {
    Participant(name, [])
  }

  /** Nobody in `ps` excludes anybody. */
  predicate NoExclusions(ps: seq<Participant>)
  {
    forall i :: 0 <= i < |ps| ==> ps[i].exclusions == []
  }

  /**
   * The greedy pass can fail with four participants and no exclusions at all:
   * with givers 0, 1, 2, 3 and receivers 1, 2, 0, 3, the first three give
   * round a cycle and the last giver is left with only itself.
   */
  lemma {:induction false} GreedyCanFailWithoutExclusions(ps: seq<Participant>, s: Shuffle)
    requires |ps| == 4 && NoExclusions(ps)
    requires s == Shuffle([0, 1, 2, 3], [1, 2, 0, 3])
    ensures Assign(ps, s.givers, Pool(Unmatched(4), s.receivers)).matches == [Some(1), Some(2), Some(0), None]
    ensures !Calculate(ps, [s], Unmatched(4)).ok
  {
    GreedyStart(s);
    GreedyAttempt(ps, s.givers, Pool(Unmatched(4), s.receivers));
    OneAttempt(ps, s, Unmatched(4));
  }

  /** The shuffle is in range, the slots start empty, and the outcome leaves participant 3 unmatched. */
  lemma {:induction false} GreedyStart(s: Shuffle)
    requires s == Shuffle([0, 1, 2, 3], [1, 2, 0, 3])
    ensures ShuffleInRange(s, 4) && Unmatched(4) == [None, None, None, None]
    ensures !AllMatched([Some(1), Some(2), Some(0), None])
  {
    var last: seq<Option<nat>> := [Some(1), Some(2), Some(0), None];
    assert last[3].None?;
  }

  /** The attempt itself: giver 0 takes participant 1, the first receiver. */
  lemma {:induction false} GreedyAttempt(ps: seq<Participant>, givers: seq<nat>, p0: Pool)
    requires |ps| == 4 && NoExclusions(ps)
    requires givers == [0, 1, 2, 3] && p0 == Pool([None, None, None, None], [1, 2, 0, 3])
    ensures Assign(ps, givers, p0) == Pool([Some(1), Some(2), Some(0), None], [3])
  {
    var p1 := Pool([Some(1), None, None, None], [2, 0, 3]);
    assert p0.matches[0 := Some(1)] == p1.matches && givers[1..] == [1, 2, 3];
    TurnTakesFront(ps, givers, p0, p1);
    GreedyFromSecond(ps, givers[1..], p1);
  }

  /** Giver 1 then takes participant 2, now at the front. */
  lemma {:induction false} GreedyFromSecond(ps: seq<Participant>, givers: seq<nat>, p1: Pool)
    requires |ps| == 4 && NoExclusions(ps)
    requires givers == [1, 2, 3] && p1 == Pool([Some(1), None, None, None], [2, 0, 3])
    ensures Assign(ps, givers, p1) == Pool([Some(1), Some(2), Some(0), None], [3])
  {
    var p2 := Pool([Some(1), Some(2), None, None], [0, 3]);
    assert p1.matches[1 := Some(2)] == p2.matches && givers[1..] == [2, 3];
    TurnTakesFront(ps, givers, p1, p2);
    GreedyFromThird(ps, givers[1..], p2);
  }

  /** Giver 2 takes participant 0, closing the cycle. */
  lemma {:induction false} GreedyFromThird(ps: seq<Participant>, givers: seq<nat>, p2: Pool)
    requires |ps| == 4 && NoExclusions(ps)
    requires givers == [2, 3] && p2 == Pool([Some(1), Some(2), None, None], [0, 3])
    ensures Assign(ps, givers, p2) == Pool([Some(1), Some(2), Some(0), None], [3])
  {
    var p3 := Pool([Some(1), Some(2), Some(0), None], [3]);
    assert p2.matches[2 := Some(0)] == p3.matches && givers[1..] == [3];
    TurnTakesFront(ps, givers, p2, p3);
    GreedyLastTurn(ps, givers[1..], p3);
  }

  /** And giver 3 is left with only itself. */
  lemma {:induction false} GreedyLastTurn(ps: seq<Participant>, givers: seq<nat>, p3: Pool)
    requires |ps| == 4 && NoExclusions(ps)
    requires givers == [3] && p3 == Pool([Some(1), Some(2), Some(0), None], [3])
    ensures Assign(ps, givers, p3) == p3
  {
    assert !Eligible(ps, 3, 3) && givers[1..] == [];
    TurnFindsNobody(ps, givers, p3);
  }

  /** The first giver's turn, when it takes the receiver at the front of the pool. */
  lemma {:induction false} TurnTakesFront(ps: seq<Participant>, givers: seq<nat>, pool: Pool, next: Pool)
    requires givers != [] && InRange(givers, |ps|) && WellFormed(ps, pool) && pool.receivers != []
    requires Eligible(ps, givers[0], pool.receivers[0])
    requires next == Pool(pool.matches[givers[0] := Some(pool.receivers[0])], pool.receivers[1..])
    ensures Assign(ps, givers, pool) == Assign(ps, givers[1..], next)
  {
    ServeTakes(ps, givers[0], pool, 0);
    assert pool.receivers[..0] + pool.receivers[1..] == pool.receivers[1..];
  }

  /** The first giver's turn, when it may take nobody left in the pool. */
  lemma {:induction false} TurnFindsNobody(ps: seq<Participant>, givers: seq<nat>, pool: Pool)
    requires givers != [] && InRange(givers, |ps|) && WellFormed(ps, pool)
    requires NoneEligible(ps, givers[0], pool.receivers)
    ensures Assign(ps, givers, pool) == Assign(ps, givers[1..], pool)
  {
  }

  /**
   * A participant excluded from everyone else (A excludes B and C) is never
   * matched, so every run fails, whatever its shuffles and however many.
   */
  lemma {:induction false} ExcludedFromEveryoneAlwaysFails(shuffles: seq<Shuffle>)
    requires forall k :: 0 <= k < |shuffles| ==> ShuffleInRange(shuffles[k], 3)
    ensures !Calculate([Participant("A", ["B", "C"]), Unrestricted("B"), Unrestricted("C")], shuffles, Unmatched(3)).ok
  {
    var ps := [Participant("A", ["B", "C"]), Unrestricted("B"), Unrestricted("C")];
    forall r: nat | r < 3 ensures !Eligible(ps, 0, r) {
      assert r == 0 || r == 1 || r == 2;
    }
    NobodyEligibleNeverSucceeds(ps, 0, shuffles, Unmatched(3));
  }

  /**
   * Why every match must be None before a run: participant 0 may give to
   * nobody (it excludes participant 1), but a match left over in its slot
   * survives the attempt, the completeness check passes, and the run reports
   * success with participant 0 giving to the excluded participant 1.
   */
  lemma {:induction false} StaleMatchPassesCheck(ps: seq<Participant>)
    requires |ps| == 2 && ps[1].name in ps[0].exclusions && ps[1].exclusions == []
    ensures Calculate(ps, [Shuffle([0, 1], [0, 1])], [Some(1), Some(0)]).ok
    ensures Calculate(ps, [Shuffle([0, 1], [0, 1])], [Some(1), Some(0)]).matches == [Some(1), Some(0)]
    ensures !IsValidAssignment(ps, Calculate(ps, [Shuffle([0, 1], [0, 1])], [Some(1), Some(0)]).matches)
  {
    StaleAttempt(ps, [0, 1], Pool([Some(1), Some(0)], [0, 1]));
    OneAttempt(ps, Shuffle([0, 1], [0, 1]), [Some(1), Some(0)]);
    assert AllMatched([Some(1), Some(0)]);
  }

  /** The attempt itself: participant 0 finds nobody, participant 1 takes participant 0. */
  lemma {:induction false} StaleAttempt(ps: seq<Participant>, givers: seq<nat>, p0: Pool)
    requires |ps| == 2 && ps[1].name in ps[0].exclusions && ps[1].exclusions == []
    requires givers == [0, 1] && p0 == Pool([Some(1), Some(0)], [0, 1])
    ensures Assign(ps, givers, p0) == Pool([Some(1), Some(0)], [1])
  {
    var p1 := Pool([Some(1), Some(0)], [1]);
    assert givers[1..] == [1] && givers[1..][1..] == [];
    assert !Eligible(ps, 0, 0) && !Eligible(ps, 0, 1);
    TurnFindsNobody(ps, givers, p0);
    TurnTakesFront(ps, givers[1..], p0, p1);
  }
}
