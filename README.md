# Secret Santa matching engine in Dafny

This project models the matching engine of `secret_santa.py` and the
participant record of `user.py`, and proves properties of the model.

- **The engine.** It assigns every participant one receiver to give a gift
  to. Nobody may receive from themselves, and nobody may receive from a
  participant who excludes them by name.
- **One attempt (`try_matching`).** Each giver in turn takes the first
  receiver still in a shared list who is eligible for them. That receiver is
  then popped from the list.
- **The run (`calculate_matches`).** It makes up to `num_attempts` attempts
  over freshly shuffled orders of givers and receivers. After each attempt
  it checks that every participant has a match. It clears all matches after
  each failed attempt.

How the model is laid out:

- `options.dfy`: the `Option` type used for an empty `match`.
- `matching.dfy` (module `Matching`): the engine as functions on values.
  - A participant is its position in the participant list.
  - The `match` field of participant `i` is slot `i` of a sequence of
    `Option<nat>`.
  - `FirstFit`, `Serve` and `Assign` are one attempt; `Calculate` is a whole run.
  - The lemmas prove that a run that starts from cleared slots and uses orders
    that are permutations, and that succeeds, leaves a complete assignment. That
    assignment is a permutation, with no self-match and no excluded pair. Such a
    run can also fail.
- `engine.dfy` (module `Engine`): the class `SecretSanta`.
  - Its match slots are an array, updated in place.
  - Its four methods are the loops of the source: `TryMatching`,
    `CheckMatches`, `ResetMatches` and `CalculateMatches`.
  - Each method is proved equal to the specification function above.
  - `TryMatching` also returns the receiver list as the source's caller sees
    it after the pops.
- `user.dfy` (module `UserRecord`): the `User` class, with its constructor
  and the default gmail address rule.
- `scenarios.dfy` (module `Scenarios`): small participant lists on which the
  outcome is fixed.
  - Two participants with no exclusions always succeed on the first attempt.
  - A participant who excludes everyone else makes every run fail.
  - Four participants with no exclusions can still fail an attempt. Greedy
    first-fit does not backtrack: `Scenarios.GreedyCanFailWithoutExclusions`
    proves it for givers in order 0 1 2 3 and receivers in order 1 2 0 3.
  - A match left over from before a run survives into its result.

`shuffle` is not modelled as randomness. Each attempt's giver and receiver
orders are a parameter (`shuffles`, one `Shuffle` per attempt). The success
property holds for every choice of orders that are permutations of the
participants, which is what `list(...)` followed by `shuffle` produces.

## Model

| member | source | states |
|---|---|---|
| Matching.FirstFit | secret_santa.py:112-114 | finds nothing exactly when no remaining receiver is eligible; otherwise finds an eligible receiver, and every receiver before it is ineligible |
| Matching.FirstFitIs | secret_santa.py:112-117 | an eligible receiver preceded only by ineligible ones is the one the scan stops at |
| Matching.Serve | secret_santa.py:112-117 | a giver with no eligible receiver leaves the slots and the list unchanged; otherwise its slot gets an eligible receiver from the list, the list loses one element, and every other slot is unchanged |
| Matching.ServeTakes | secret_santa.py:113-117 | when position j is the first eligible one, the giver's slot becomes that receiver and position j is removed from the list (`pop(j)`) |
| Matching.ServePops | secret_santa.py:115-116 | the receiver given to the giver is exactly the element that leaves the list (multiset equality) |
| Matching.Assign | secret_santa.py:110-117 | the givers are served in order from one shared list; slots and list stay in range |
| Matching.AssignShrinks | secret_santa.py:116 | an attempt only removes receivers from the list, never adds one |
| Matching.AssignFrom | secret_santa.py:111 | serving the givers from position i is serving givers[i] and then the rest |
| Matching.AssignOnlySetsEligible | secret_santa.py:114-115 | every slot an attempt changes belongs to a giver and holds an eligible receiver taken from the list; every other slot is unchanged |
| Matching.MatchedCount | secret_santa.py:115-117 | number of filled slots: at most the number of slots, all of them when every slot is filled, none when every slot is empty |
| Matching.ServeKeepsConsistent | secret_santa.py:112-117 | one turn keeps the attempt's invariant: matches are eligible and pairwise distinct, none of them is still in the list, every receiver is in the list or matched, and list length plus filled slots is constant |
| Matching.AssignKeepsConsistent | secret_santa.py:110-117 | a whole attempt by distinct givers with empty slots keeps that invariant |
| Matching.StartConsistent | secret_santa.py:95-96 | cleared slots together with a full shuffled receiver list satisfy the invariant |
| Matching.ConsistentComplete | secret_santa.py:119-123 | under the invariant, when every slot is filled, every participant is someone's match |
| Matching.AttemptOutcome | secret_santa.py:95-102 | one attempt from cleared slots over two permutations: matches are eligible and pairwise distinct; the list shrinks by exactly the number of givers matched; a complete result is a valid assignment |
| Matching.Calculate | secret_santa.py:91-108 | a run: at most one attempt per shuffle; success means at least one attempt and every slot filled; failure means every shuffle was used and, if there was one, every slot is cleared; with no shuffles the slots are unchanged |
| Matching.CalculateFrom | secret_santa.py:92-106 | the run from attempt i is attempt i, then either success or the rest of the run from cleared slots |
| Matching.CalculateSucceedsWithValidAssignment | secret_santa.py:95-104 | a run from cleared slots over permutations that succeeds leaves a valid assignment: complete, injective and onto, with no self-match and no excluded pair |
| Matching.NobodyEligibleNeverSucceeds | secret_santa.py:111-123 | a participant who may give to nobody is never matched, so every run from a state where its slot is empty fails |
| Engine.SecretSanta.constructor | secret_santa.py:84-89 | the participants in load order, each with an empty match |
| Engine.SecretSanta.TryMatching | secret_santa.py:110-117 | the new slots and the remaining list are exactly what `Assign` yields from the old slots and the given lists |
| Engine.SecretSanta.CheckMatches | secret_santa.py:119-123 | true exactly when every slot is filled; changes nothing |
| Engine.SecretSanta.ResetMatches | secret_santa.py:125-127 | every slot is empty afterwards; the participants are untouched (they are a constant) |
| Engine.SecretSanta.CalculateMatches | secret_santa.py:91-108 | the verdict, the slots and the attempt count are those of `Calculate` over the first `num_attempts` shuffles; at most `num_attempts` attempts; with `num_attempts <= 0`: false with nothing changed; on failure with at least one attempt, every slot is empty; on success from empty slots over permutations, a valid assignment |
| Engine.AttemptResumes | secret_santa.py:100-106 | an attempt that fills every slot ends the run with success at that attempt; otherwise the run continues at the next attempt from cleared slots |
| Scenarios.FirstAttempt | secret_santa.py:100-104 | a complete first attempt decides the run with success at attempt 1; an incomplete one fails a one-attempt run |
| Scenarios.OneAttempt | secret_santa.py:92-108 | a one-attempt run succeeds exactly when its attempt fills every slot, and otherwise ends with every slot cleared |
| Scenarios.TwoParticipantsAlwaysSwap | secret_santa.py:110-117 | two participants without exclusions, any orders: each gets the other |
| Scenarios.TwoParticipantsOneAttempt | secret_santa.py:91-104 | a run for two such participants succeeds on its first attempt with the swap |
| Scenarios.GreedyCanFailWithoutExclusions | secret_santa.py:110-117 | four participants without exclusions, givers 0 1 2 3 and receivers 1 2 0 3: participant 3 is left unmatched and the one-attempt run fails |
| Scenarios.GreedyAttempt | secret_santa.py:110-117 | the turns of that attempt, giver by giver, ending with receiver 3 unused |
| Scenarios.TurnTakesFront | secret_santa.py:112-117 | a giver that may take the receiver at the front of the list takes it, and that receiver leaves the list |
| Scenarios.ExcludedFromEveryoneAlwaysFails | secret_santa.py:91-108 | when A excludes B and C, every run fails, whatever its orders and however many attempts it has |
| Scenarios.StaleMatchPassesCheck | secret_santa.py:110-123 | from stale slots 1 0, where giver 0 excludes participant 1 and so may give to nobody: the run reports success, its slots are still 1 0 (giver 0 keeps the receiver it excludes), and the result is not a valid assignment |
| UserRecord.User.constructor | user.py:2-9 | name and match stored as passed; a given email is kept; with no email the address is the name followed by `@gmail.com` |
| UserRecord.User.FormatGmailEmail | user.py:11-12 | exactly the name, then `@`, then `gmail.com`; the part before `@gmail.com` is the name |
| UserRecord.GmailEmailInjective | user.py:11-12 | a consequence of the fixed `@gmail.com` suffix, not a promise the source makes: different names never get the same default address |

## Left out

- Environment configuration (`get_email_sender`, `get_password`, `get_wish_list_link`, `get_exchange_name`, `get_year`, secret_santa.py:24-68): these read the process environment and the clock and call `sys.exit`.
- SMTP setup, sending and closing (secret_santa.py:70-82, 130-145): network I/O.
- E-mail rendering (secret_santa.py:147-226): MIME objects and `str.format` templates, with no logic to verify.
- The `print` progress messages and the module-level script (secret_santa.py:93, 103, 107, 228-233): console output and program entry.
- `send_emails.py` is not part of this model: it is separate e-mail glue, and its address rule duplicates the one in `user.py`.
- `shuffle` (secret_santa.py:98-99): its output is a parameter, not randomness. The model makes no claim about the probability of success.
- YAML loading (secret_santa.py:84-89): file I/O and a foreign parser.
  - Line 88 calls `User(name, email, exclusions)`, but user.py:2 declares `User(name, match, email=None)`. As written, the e-mail string lands in `match` and the exclusions in `email`.
  - No `exclusions` attribute is ever set, so line 114 could not run.
  - The engine model follows the record that lines 114, 121 and 127 use: a name, an exclusion list and an initially empty `match`. `Engine.SecretSanta.constructor` builds that record.
  - As written, the outcome is an attribute error in a dynamically typed program, which has no counterpart in the typed model.
- Engine.SecretSanta.CalculateMatches: the valid-assignment guarantee is stated only for runs that start with every match empty and whose orders are permutations of the participants.
  - The source gets these conditions from its loader and from `list(...)` followed by `shuffle`.
  - `Scenarios.StaleMatchPassesCheck` shows that the guarantee fails without the first condition.
- Object identity: `receiver != giver` compares objects. The model compares participant positions. Duplicate names are allowed, and exclusion is by name, as in the source.
- User `match` field: it is named `matched` in `UserRecord.User`, because `match` is a Dafny keyword. The engine keeps its matches in the `SecretSanta` array rather than in `User` objects. It never reads a user's e-mail, and `User` holds no exclusions.
