/**
 * The matching engine of secret_santa.py as functions on values.
 *
 * Participants are numbered 0..n-1 in the order of the participant list, and a
 * giver, a receiver or a match is such a number: `receiver != giver` in the
 * source compares objects, which here is comparing their numbers. The `match`
 * field of participant i is slot i of a sequence of optional numbers.
 */
module Matching {
  import opened Options

  /** What the engine reads of a participant: its name and the names it must not give to. */
  datatype Participant = Participant(name: string, exclusions: seq<string>)

  /** The state one attempt works on: a match slot per participant and the receivers not yet taken. */
  datatype Pool = Pool(matches: seq<Option<nat>>, receivers: seq<nat>)

  /** The two orders one attempt uses, as `shuffle` left them. */
  datatype Shuffle = Shuffle(givers: seq<nat>, receivers: seq<nat>)

  /** What a run of attempts ends with: the verdict, the match slots and how many attempts ran. */
  datatype Run = Run(ok: bool, matches: seq<Option<nat>>, attempts: nat)

  // ---------------------------------------------------------------------------
  // Shapes of sequences and slots

  predicate InRange(s: seq<nat>, n: nat)
  {
    forall k :: 0 <= k < |s| ==> s[k] < n
  }

  predicate Distinct(s: seq<nat>)
  {
    forall i, j :: 0 <= i < j < |s| ==> s[i] != s[j]
  }

  /** `s` lists every participant number below `n` exactly once. */
  predicate IsPermutation(s: seq<nat>, n: nat)
  {
    |s| == n && InRange(s, n) && Distinct(s) && forall x: nat :: x < n ==> x in s
  }

  predicate SlotsInRange(m: seq<Option<nat>>, n: nat)
  {
    forall i :: 0 <= i < |m| && m[i].Some? ==> m[i].value < n
  }

  predicate AllMatched(m: seq<Option<nat>>)
  {
    forall i :: 0 <= i < |m| ==> m[i].Some?
  }

  predicate AllUnmatched(m: seq<Option<nat>>)
  {
    forall i :: 0 <= i < |m| ==> m[i].None?
  }

  /** `n` cleared match slots. */
  function Unmatched(n: nat): (m: seq<Option<nat>>)
    ensures |m| == n && AllUnmatched(m)
  {
    seq(n, _ => None)
  }

  predicate ShuffleInRange(s: Shuffle, n: nat)
  {
    InRange(s.givers, n) && InRange(s.receivers, n)
  }

  predicate WellFormed(ps: seq<Participant>, pool: Pool)
  {
    |pool.matches| == |ps| && SlotsInRange(pool.matches, |ps|) && InRange(pool.receivers, |ps|)
  }

  /** The number of slots holding a match. */
  function MatchedCount(m: seq<Option<nat>>): (c: nat)
    ensures c <= |m|
    ensures AllMatched(m) ==> c == |m|
    ensures AllUnmatched(m) ==> c == 0
  {
    if m == [] then 0 else (if m[0].Some? then 1 else 0) + MatchedCount(m[1..])
  }

  // ---------------------------------------------------------------------------
  // One attempt (try_matching)

  /** `receiver` may be given to by `giver`: it is someone else, and its name is not excluded. */
  predicate Eligible(ps: seq<Participant>, giver: nat, receiver: nat)
    requires giver < |ps| && receiver < |ps|
  {
    ps[receiver].name !in ps[giver].exclusions && receiver != giver
  }

  predicate NoneEligible(ps: seq<Participant>, giver: nat, receivers: seq<nat>)
    requires giver < |ps| && InRange(receivers, |ps|)
  {
    forall k :: 0 <= k < |receivers| ==> !Eligible(ps, giver, receivers[k])
  }

  /** The position in `receivers` of the first receiver `giver` may take, if there is one. */
  function FirstFit(ps: seq<Participant>, giver: nat, receivers: seq<nat>): (r: Option<nat>)
    requires giver < |ps| && InRange(receivers, |ps|)
    ensures r.None? <==> NoneEligible(ps, giver, receivers)
    ensures r.Some? ==> r.value < |receivers| && Eligible(ps, giver, receivers[r.value])
    ensures r.Some? ==> forall k :: 0 <= k < r.value ==> !Eligible(ps, giver, receivers[k])
    decreases |receivers|
  {
    if receivers == [] then None
    else if Eligible(ps, giver, receivers[0]) then Some(0)
    else match FirstFit(ps, giver, receivers[1..])
      case None => None
      case Some(j) => Some(j + 1)
  }

  /** A receiver that is eligible and preceded only by ineligible ones is the one FirstFit finds. */
  lemma FirstFitIs(ps: seq<Participant>, giver: nat, receivers: seq<nat>, j: nat)
    requires giver < |ps| && InRange(receivers, |ps|)
    requires j < |receivers| && Eligible(ps, giver, receivers[j])
    requires forall k :: 0 <= k < j ==> !Eligible(ps, giver, receivers[k])
    ensures FirstFit(ps, giver, receivers) == Some(j)
  {
  }

  /**
   * One giver's turn: it takes the first eligible receiver, which leaves the
   * pool; with none eligible nothing changes.
   */
  function Serve(ps: seq<Participant>, giver: nat, pool: Pool): (next: Pool)
    requires giver < |ps| && WellFormed(ps, pool)
    ensures WellFormed(ps, next)
    ensures NoneEligible(ps, giver, pool.receivers) ==> next == pool
    ensures !NoneEligible(ps, giver, pool.receivers) ==>
      && next.matches[giver].Some?
      && next.matches[giver].value in pool.receivers
      && Eligible(ps, giver, next.matches[giver].value)
      && |next.receivers| + 1 == |pool.receivers|
    ensures forall i :: 0 <= i < |ps| && i != giver ==> next.matches[i] == pool.matches[i]
  {
    match FirstFit(ps, giver, pool.receivers)
    case None => pool
    case Some(j) =>
      var r := pool.receivers[j];
      RemoveAt(pool.receivers, j);
      Pool(pool.matches[giver := Some(r)], pool.receivers[..j] + pool.receivers[j + 1..])
  }

  /** The giver takes the receiver at position j when that is the first eligible one. */
  lemma ServeTakes(ps: seq<Participant>, giver: nat, pool: Pool, j: nat)
    requires giver < |ps| && WellFormed(ps, pool)
    requires j < |pool.receivers| && Eligible(ps, giver, pool.receivers[j])
    requires forall k :: 0 <= k < j ==> !Eligible(ps, giver, pool.receivers[k])
    ensures Serve(ps, giver, pool)
      == Pool(pool.matches[giver := Some(pool.receivers[j])], pool.receivers[..j] + pool.receivers[j + 1..])
  {
    FirstFitIs(ps, giver, pool.receivers, j);
  }

  /** A giver that is served takes its receiver out of the pool, and only that one. */
  lemma ServePops(ps: seq<Participant>, giver: nat, pool: Pool)
    requires giver < |ps| && WellFormed(ps, pool)
    ensures !NoneEligible(ps, giver, pool.receivers) ==>
      multiset(Serve(ps, giver, pool).receivers) + multiset{Serve(ps, giver, pool).matches[giver].value}
        == multiset(pool.receivers)
  {
    if !NoneEligible(ps, giver, pool.receivers) {
      RemoveAt(pool.receivers, FirstFit(ps, giver, pool.receivers).value);
    }
  }

  /** The givers' turns in giver order, all drawing from one pool. */
  function Assign(ps: seq<Participant>, givers: seq<nat>, pool: Pool): (final: Pool)
    requires InRange(givers, |ps|) && WellFormed(ps, pool)
    ensures WellFormed(ps, final)
    decreases |givers|
  {
    if givers == [] then pool
    else Assign(ps, givers[1..], Serve(ps, givers[0], pool))
  }

  /** An attempt only takes receivers out of the pool. */
  lemma {:induction false} AssignShrinks(ps: seq<Participant>, givers: seq<nat>, pool: Pool)
    requires InRange(givers, |ps|) && WellFormed(ps, pool)
    ensures multiset(Assign(ps, givers, pool).receivers) <= multiset(pool.receivers)
    ensures forall x :: x in Assign(ps, givers, pool).receivers ==> x in pool.receivers
    decreases |givers|
  {
    if givers != [] {
      ServePops(ps, givers[0], pool);
      AssignShrinks(ps, givers[1..], Serve(ps, givers[0], pool));
    }
    forall x | x in Assign(ps, givers, pool).receivers ensures x in pool.receivers {
      assert x in multiset(Assign(ps, givers, pool).receivers);
    }
  }

  /** Assign from position i on is the turn of givers[i] followed by the rest. */
  lemma AssignFrom(ps: seq<Participant>, givers: seq<nat>, i: nat, pool: Pool)
    requires i < |givers| && InRange(givers, |ps|) && WellFormed(ps, pool)
    ensures Assign(ps, givers[i..], pool) == Assign(ps, givers[i + 1..], Serve(ps, givers[i], pool))
  {
    assert givers[i..][0] == givers[i] && givers[i..][1..] == givers[i + 1..];
  }

  /**
   * An attempt changes only the slots of givers, and only to an eligible
   * receiver taken from the pool.
   */
  lemma {:induction false} AssignOnlySetsEligible(ps: seq<Participant>, givers: seq<nat>, pool: Pool)
    requires InRange(givers, |ps|) && WellFormed(ps, pool)
    ensures forall i :: 0 <= i < |ps| ==>
      || Assign(ps, givers, pool).matches[i] == pool.matches[i]
      || (&& i in givers
          && Assign(ps, givers, pool).matches[i].Some?
          && Assign(ps, givers, pool).matches[i].value in pool.receivers
          && Eligible(ps, i, Assign(ps, givers, pool).matches[i].value))
    decreases |givers|
  {
    if givers != [] {
      var next := Serve(ps, givers[0], pool);
      AssignOnlySetsEligible(ps, givers[1..], next);
      AssignShrinks(ps, givers[1..], next);
      var final := Assign(ps, givers, pool);
      assert final == Assign(ps, givers[1..], next);
      forall i | 0 <= i < |ps|
        ensures || final.matches[i] == pool.matches[i]
                || (i in givers && final.matches[i].Some? && final.matches[i].value in pool.receivers
                    && Eligible(ps, i, final.matches[i].value))
      {
        if final.matches[i] != next.matches[i] {
          assert i in givers[1..];
          assert final.matches[i].value in next.receivers;
        } else if next.matches[i] != pool.matches[i] {
          assert i == givers[0];
        }
      }
    }
  }

  // ---------------------------------------------------------------------------
  // The invariant of an attempt that starts from cleared slots

  /** No receiver is the match of two givers. */
  predicate Injective(m: seq<Option<nat>>)
  {
    forall i, j :: 0 <= i < j < |m| && m[i].Some? ==> m[i] != m[j]
  }

  /** Every match is a participant, eligible for its giver, and used once. */
  predicate PartialValid(ps: seq<Participant>, m: seq<Option<nat>>)
  {
    && |m| == |ps|
    && SlotsInRange(m, |ps|)
    && (forall i :: 0 <= i < |m| && m[i].Some? ==> Eligible(ps, i, m[i].value))
    && Injective(m)
  }

  /**
   * A complete assignment: every participant gives to exactly one eligible
   * participant and receives from exactly one; it is a permutation with no
   * fixed point and no excluded pair.
   */
  predicate IsValidAssignment(ps: seq<Participant>, m: seq<Option<nat>>)
  {
    && PartialValid(ps, m)
    && AllMatched(m)
    && forall x: nat :: x < |ps| ==> Some(x) in m
  }

  /**
   * The state of an attempt whose receivers started as `universe`: the pool and
   * the matches together hold every receiver once.
   */
  ghost predicate Consistent(ps: seq<Participant>, universe: seq<nat>, pool: Pool)
  {
    && WellFormed(ps, pool)
    && PartialValid(ps, pool.matches)
    && Distinct(pool.receivers)
    && (forall i :: 0 <= i < |pool.matches| && pool.matches[i].Some? ==> pool.matches[i].value !in pool.receivers)
    && (forall x :: x in universe ==> x in pool.receivers || Some(x) in pool.matches)
    && |pool.receivers| + MatchedCount(pool.matches) == |universe|
  }

  /** Removing position j: the element leaves, the others stay. */
  lemma RemoveAt(s: seq<nat>, j: nat)
    requires j < |s|
    ensures multiset(s[..j] + s[j + 1..]) + multiset{s[j]} == multiset(s)
    ensures forall x :: x in s[..j] + s[j + 1..] ==> x in s
    ensures forall x :: x in s ==> x == s[j] || x in s[..j] + s[j + 1..]
    ensures Distinct(s) ==> Distinct(s[..j] + s[j + 1..]) && s[j] !in s[..j] + s[j + 1..]
  {
    var rest := s[..j] + s[j + 1..];
    RemoveAtMultiset(s, j);
    forall x | x in rest ensures x in s {
      assert x in multiset(rest);
    }
    forall x | x in s ensures x == s[j] || x in rest {
      assert x in multiset(s);
    }
    if Distinct(s) {
      RemoveAtDistinct(s, j);
    }
  }

  lemma RemoveAtMultiset(s: seq<nat>, j: nat)
    requires j < |s|
    ensures multiset(s[..j] + s[j + 1..]) + multiset{s[j]} == multiset(s)
  {
    assert s == s[..j] + [s[j]] + s[j + 1..];
  }

  lemma RemoveAtDistinct(s: seq<nat>, j: nat)
    requires j < |s| && Distinct(s)
    ensures Distinct(s[..j] + s[j + 1..]) && s[j] !in s[..j] + s[j + 1..]
  {
    var rest := s[..j] + s[j + 1..];
    forall a | 0 <= a < |rest| ensures rest[a] == s[if a < j then a else a + 1] {
    }
    forall a, b | 0 <= a < b < |rest| ensures rest[a] != rest[b] {
      assert s[if a < j then a else a + 1] != s[if b < j then b else b + 1];
    }
    forall a | 0 <= a < |rest| ensures rest[a] != s[j] {
      assert s[if a < j then a else a + 1] != s[j];
    }
  }

  /** Filling one empty slot adds one to the count. */
  lemma {:induction false} MatchedCountFill(m: seq<Option<nat>>, g: nat, v: nat)
    requires g < |m| && m[g].None?
    ensures MatchedCount(m[g := Some(v)]) == MatchedCount(m) + 1
    decreases |m|
  {
    if g == 0 {
      assert m[g := Some(v)][1..] == m[1..];
    } else {
      assert m[g := Some(v)][1..] == m[1..][g - 1 := Some(v)];
      MatchedCountFill(m[1..], g - 1, v);
    }
  }

  /** A giver whose slot is still empty keeps the attempt's invariant. */
  lemma ServeKeepsConsistent(ps: seq<Participant>, universe: seq<nat>, giver: nat, pool: Pool)
    requires giver < |ps| && Consistent(ps, universe, pool) && pool.matches[giver].None?
    ensures Consistent(ps, universe, Serve(ps, giver, pool))
  {
    match FirstFit(ps, giver, pool.receivers)
    case None =>
    case Some(j) =>
      var m, recv := pool.matches, pool.receivers;
      var r := recv[j];
      var rest := recv[..j] + recv[j + 1..];
      var m' := m[giver := Some(r)];
      var next := Serve(ps, giver, pool);
      assert next == Pool(m', rest);
      RemoveAt(recv, j);
      MatchedCountFill(m, giver, r);
      forall i | 0 <= i < |m'| && m'[i].Some? ensures m'[i].value !in rest {
        if i != giver {
          assert m[i].value !in recv;
        }
      }
      forall a, b | 0 <= a < b < |m'| && m'[a].Some? ensures m'[a] != m'[b] {
        if a == giver {
          if m'[b].Some? { assert m[b].value !in recv; }
        } else if b == giver {
          assert m[a].value !in recv;
        }
      }
      forall x | x in universe ensures x in rest || Some(x) in m' {
        if x in recv {
          if x == r { assert m'[giver] == Some(x); }
        } else {
          assert Some(x) in m;
          var i :| 0 <= i < |m| && m[i] == Some(x);
          assert i != giver && m'[i] == Some(x);
        }
      }
  }

  /** Givers served in a row, each with an empty slot, keep the attempt's invariant. */
  lemma {:induction false} AssignKeepsConsistent(ps: seq<Participant>, universe: seq<nat>, givers: seq<nat>, pool: Pool)
    requires InRange(givers, |ps|) && Distinct(givers)
    requires Consistent(ps, universe, pool)
    requires forall k :: 0 <= k < |givers| ==> pool.matches[givers[k]].None?
    ensures Consistent(ps, universe, Assign(ps, givers, pool))
    decreases |givers|
  {
    if givers != [] {
      var next := Serve(ps, givers[0], pool);
      ServeKeepsConsistent(ps, universe, givers[0], pool);
      forall k | 0 <= k < |givers[1..]| ensures next.matches[givers[1..][k]].None? {
        assert givers[1..][k] == givers[k + 1] != givers[0];
      }
      AssignKeepsConsistent(ps, universe, givers[1..], next);
    }
  }

  /**
   * One attempt from cleared slots over two shuffles of the participants: the
   * matches it makes are valid and pairwise distinct, the pool shrinks by
   * exactly the number of givers matched, and when everyone is matched the
   * result is a complete valid assignment.
   */
  lemma AttemptOutcome(ps: seq<Participant>, givers: seq<nat>, receivers: seq<nat>, m: seq<Option<nat>>)
    requires |m| == |ps| && AllUnmatched(m)
    requires IsPermutation(givers, |ps|) && IsPermutation(receivers, |ps|)
    ensures PartialValid(ps, Assign(ps, givers, Pool(m, receivers)).matches)
    ensures |receivers| == |Assign(ps, givers, Pool(m, receivers)).receivers| + MatchedCount(Assign(ps, givers, Pool(m, receivers)).matches)
    ensures AllMatched(Assign(ps, givers, Pool(m, receivers)).matches) ==> IsValidAssignment(ps, Assign(ps, givers, Pool(m, receivers)).matches)
  {
    StartConsistent(ps, receivers, m);
    AssignKeepsConsistent(ps, receivers, givers, Pool(m, receivers));
    ConsistentComplete(ps, receivers, Assign(ps, givers, Pool(m, receivers)));
  }

  /** Cleared slots and the whole shuffled receiver list satisfy the invariant. */
  lemma StartConsistent(ps: seq<Participant>, receivers: seq<nat>, m: seq<Option<nat>>)
    requires |m| == |ps| && AllUnmatched(m) && IsPermutation(receivers, |ps|)
    ensures Consistent(ps, receivers, Pool(m, receivers))
  {
  }

  /** With every slot filled the pool is empty, so every participant is someone's match. */
  lemma ConsistentComplete(ps: seq<Participant>, universe: seq<nat>, pool: Pool)
    requires IsPermutation(universe, |ps|) && Consistent(ps, universe, pool)
    ensures AllMatched(pool.matches) ==> IsValidAssignment(ps, pool.matches)
  {
    if AllMatched(pool.matches) {
      assert |pool.receivers| == 0;
      forall x: nat | x < |ps| ensures Some(x) in pool.matches {
        assert x in universe;
      }
    }
  }

  // ---------------------------------------------------------------------------
  // Repeated attempts (calculate_matches)

  /**
   * Attempts in order, one per shuffle, starting from slots `m`: stop at the
   * first attempt after which every slot is filled; after a failed attempt all
   * slots are cleared before the next.
   */
  function Calculate(ps: seq<Participant>, shuffles: seq<Shuffle>, m: seq<Option<nat>>): (run: Run)
    requires |m| == |ps| && SlotsInRange(m, |ps|)
    requires forall k :: 0 <= k < |shuffles| ==> ShuffleInRange(shuffles[k], |ps|)
    ensures |run.matches| == |ps| && SlotsInRange(run.matches, |ps|)
    ensures run.attempts <= |shuffles|
    ensures run.ok ==> 1 <= run.attempts && AllMatched(run.matches)
    ensures !run.ok ==> run.attempts == |shuffles|
    ensures !run.ok && |shuffles| > 0 ==> AllUnmatched(run.matches)
    ensures |shuffles| == 0 ==> !run.ok && run.matches == m
    decreases |shuffles|
  {
    if shuffles == [] then Run(false, m, 0)
    else
      assert ShuffleInRange(shuffles[0], |ps|);
      var tried := Assign(ps, shuffles[0].givers, Pool(m, shuffles[0].receivers)).matches;
      if AllMatched(tried) then Run(true, tried, 1)
      else
        var rest := Calculate(ps, shuffles[1..], Unmatched(|ps|));
        Run(rest.ok, rest.matches, rest.attempts + 1)
  }

  /** Calculate from position i on is attempt i followed by the rest. */
  lemma CalculateFrom(ps: seq<Participant>, shuffles: seq<Shuffle>, i: nat, m: seq<Option<nat>>)
    requires i < |shuffles| && |m| == |ps| && SlotsInRange(m, |ps|)
    requires forall k :: 0 <= k < |shuffles| ==> ShuffleInRange(shuffles[k], |ps|)
    ensures ShuffleInRange(shuffles[i], |ps|)
    ensures var tried := Assign(ps, shuffles[i].givers, Pool(m, shuffles[i].receivers)).matches;
            var rest := Calculate(ps, shuffles[i + 1..], Unmatched(|ps|));
            Calculate(ps, shuffles[i..], m)
              == if AllMatched(tried) then Run(true, tried, 1) else Run(rest.ok, rest.matches, rest.attempts + 1)
  {
    assert shuffles[i..][0] == shuffles[i] && shuffles[i..][1..] == shuffles[i + 1..];
  }

  predicate AllPermutations(shuffles: seq<Shuffle>, n: nat)
  {
    forall k :: 0 <= k < |shuffles| ==> IsPermutation(shuffles[k].givers, n) && IsPermutation(shuffles[k].receivers, n)
  }

  /** Starting from cleared slots, a successful run leaves a complete valid assignment. */
  lemma {:induction false} CalculateSucceedsWithValidAssignment(ps: seq<Participant>, shuffles: seq<Shuffle>, m: seq<Option<nat>>)
    requires |m| == |ps| && AllUnmatched(m)
    requires AllPermutations(shuffles, |ps|)
    ensures Calculate(ps, shuffles, m).ok ==> IsValidAssignment(ps, Calculate(ps, shuffles, m).matches)
    decreases |shuffles|
  {
    if shuffles != [] {
      AttemptOutcome(ps, shuffles[0].givers, shuffles[0].receivers, m);
      CalculateSucceedsWithValidAssignment(ps, shuffles[1..], Unmatched(|ps|));
    }
  }

  /**
   * A participant who may give to nobody is never matched, so every run from
   * cleared slots fails, however many attempts it is given.
   */
  lemma {:induction false} NobodyEligibleNeverSucceeds(ps: seq<Participant>, g: nat, shuffles: seq<Shuffle>, m: seq<Option<nat>>)
    requires g < |ps| && forall r: nat :: r < |ps| ==> !Eligible(ps, g, r)
    requires |m| == |ps| && SlotsInRange(m, |ps|) && m[g].None?
    requires forall k :: 0 <= k < |shuffles| ==> ShuffleInRange(shuffles[k], |ps|)
    ensures !Calculate(ps, shuffles, m).ok
    decreases |shuffles|
  {
    if shuffles != [] {
      var pool := Pool(m, shuffles[0].receivers);
      AssignOnlySetsEligible(ps, shuffles[0].givers, pool);
      assert Assign(ps, shuffles[0].givers, pool).matches[g].None?;
      NobodyEligibleNeverSucceeds(ps, g, shuffles[1..], Unmatched(|ps|));
    }
  }
}
