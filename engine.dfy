/**
 * The matching part of the SecretSanta class of secret_santa.py: the
 * participant list, the `match` field of each participant (one slot per
 * participant), and the four methods that fill, check and clear them.
 */
module Engine {
  import opened Options
  import opened Matching

  class SecretSanta {
    /** The participants, in the order they were loaded; nothing here changes their names or exclusions. */
    const participants: seq<Participant>
    /** `matches[i]` is the `match` field of participant i: the number of its receiver, or None. */
    const matches: array<Option<nat>>

    ghost predicate Valid()
      reads this, matches
    {
      matches.Length == |participants| && SlotsInRange(matches[..], |participants|)
    }

    /** Participants as loaded, nobody matched yet. */
    constructor (participants: seq<Participant>)
      ensures Valid() && fresh(matches)
      ensures this.participants == participants && matches[..] == Unmatched(|participants|)
    {
      this.participants := participants;
      matches := new Option<nat>[|participants|](_ => None);
      new;
      assert matches[..] == Unmatched(|participants|);
    }

    /**
     * Each giver in turn takes the first receiver left in `receivers` that is
     * eligible for it, and that receiver is removed from `receivers`.
     * `remaining` is what the caller's `receivers` list holds afterwards.
     */
    method TryMatching(givers: seq<nat>, receivers: seq<nat>) returns (remaining: seq<nat>)
      requires Valid()
      requires InRange(givers, |participants|) && InRange(receivers, |participants|)
      modifies matches
      ensures Valid()
      ensures Pool(matches[..], remaining) == Assign(participants, givers, Pool(old(matches[..]), receivers))
    {
      ghost var goal := Assign(participants, givers, Pool(matches[..], receivers));
      remaining := receivers;
      for i := 0 to |givers|
        invariant Valid()
        invariant InRange(remaining, |participants|)
        invariant Assign(participants, givers[i..], Pool(matches[..], remaining)) == goal
      {
        var giver := givers[i];
        ghost var before := Pool(matches[..], remaining);
        AssignFrom(participants, givers, i, before);
        var j := 0;
        while j < |remaining|
          invariant 0 <= j <= |remaining|
          invariant Pool(matches[..], remaining) == before
          invariant forall k :: 0 <= k < j ==> !Eligible(participants, giver, remaining[k])
        {
          var receiver := remaining[j];
          if Eligible(participants, giver, receiver) {
            ServeTakes(participants, giver, before, j);
            matches[giver] := Some(receiver);
            remaining := remaining[..j] + remaining[j + 1..];
            break;
          }
          j := j + 1;
        }
        assert Pool(matches[..], remaining) == Serve(participants, giver, before);
      }
    }

    /** Whether every participant has a match; changes nothing. */
    method CheckMatches() returns (ok: bool)
      requires Valid()
      ensures ok <==> AllMatched(matches[..])
    {
      for i := 0 to matches.Length
        invariant forall k :: 0 <= k < i ==> matches[k].Some?
      {
        if matches[i].None? {
          return false;
        }
      }
      return true;
    }

    /** Clears every participant's match. */
    method ResetMatches()
      requires Valid()
      modifies matches
      ensures Valid() && matches[..] == Unmatched(|participants|)
    {
      for i := 0 to matches.Length
        invariant forall k :: 0 <= k < i ==> matches[k].None?
      {
        matches[i] := None;
      }
      assert matches[..] == Unmatched(|participants|);
    }

    /**
     * Up to `numAttempts` attempts (none when it is zero or negative, as with
     * Python's `range`). Attempt i matches over the orders `shuffles[i]`, then
     * checks; it stops with true at the first complete attempt and clears all
     * matches after each incomplete one. `attempts` counts the attempts made.
     */
    method CalculateMatches(numAttempts: int, shuffles: seq<Shuffle>) returns (ok: bool, ghost attempts: nat)
      requires Valid()
      requires numAttempts <= |shuffles|
      requires forall k :: 0 <= k < |shuffles| ==> ShuffleInRange(shuffles[k], |participants|)
      modifies matches
      ensures Valid()
      ensures Run(ok, matches[..], attempts) == Calculate(participants, shuffles[..Budget(numAttempts)], old(matches[..]))
      ensures attempts <= Budget(numAttempts)
      ensures numAttempts <= 0 ==> !ok && matches[..] == old(matches[..])
      ensures !ok && numAttempts >= 1 ==> AllUnmatched(matches[..])
      ensures ok && old(AllUnmatched(matches[..])) && AllPermutations(shuffles[..Budget(numAttempts)], |participants|)
        ==> IsValidAssignment(participants, matches[..])
    {
      var budget := Budget(numAttempts);
      var used := shuffles[..budget];
      ghost var entry := matches[..];
      ghost var run := Calculate(participants, used, entry);
      assert used[0..] == used;
      var i := 0;
      while i < budget
        invariant 0 <= i <= budget
        invariant Valid()
        invariant i == 0 ==> matches[..] == entry
        invariant Resumes(Calculate(participants, used[i..], matches[..]), i, run)
      {
        var shuffled := used[i];
        ghost var before := matches[..];
        AttemptResumes(participants, used, i, before, run);
        var _ := TryMatching(shuffled.givers, shuffled.receivers);
        var complete := CheckMatches();
        if complete {
          ok, attempts := true, i + 1;
          if AllUnmatched(entry) && AllPermutations(used, |participants|) {
            CalculateSucceedsWithValidAssignment(participants, used, entry);
          }
          return;
        }
        ResetMatches();
        i := i + 1;
      }
      ok, attempts := false, budget;
    }
  }

  /** A run that ends as `rest` after `done` failed attempts ends as `run`. */
  predicate Resumes(rest: Run, done: nat, run: Run)
  {
    run == Run(rest.ok, rest.matches, rest.attempts + done)
  }

  /**
   * Attempt i of a run that resumes at i: if it fills every slot the run
   * ends there, otherwise the run resumes at i + 1 from cleared slots.
   */
  lemma {:induction false} AttemptResumes(ps: seq<Participant>, used: seq<Shuffle>, i: nat, before: seq<Option<nat>>, run: Run)
    requires i < |used| && |before| == |ps| && SlotsInRange(before, |ps|)
    requires forall k :: 0 <= k < |used| ==> ShuffleInRange(used[k], |ps|)
    requires Resumes(Calculate(ps, used[i..], before), i, run)
    ensures ShuffleInRange(used[i], |ps|)
    ensures var tried := Assign(ps, used[i].givers, Pool(before, used[i].receivers)).matches;
      && (AllMatched(tried) ==> run == Run(true, tried, i + 1))
      && (!AllMatched(tried) ==> Resumes(Calculate(ps, used[i + 1..], Unmatched(|ps|)), i + 1, run))
  {
    CalculateFrom(ps, used, i, before);
  }

  /** The number of rounds `range(numAttempts)` yields. */
  function Budget(numAttempts: int): (rounds: nat)
  {
    if numAttempts < 0 then 0 else numAttempts
  }
}
