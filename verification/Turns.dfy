// Taking turns: a step is offered to each of some parties in order, round after round.
module Turns {
  // One step for each of the first `count` parties.
  function Round<S>(step: (S, nat) -> S, s: S, count: nat): S {
    if count == 0 then s else step(Round(step, s, count - 1), count - 1)
  }

  function Rounds<S>(step: (S, nat) -> S, s: S, parties: nat, rounds: nat): S
    decreases rounds
  {
    if rounds == 0 then s else Rounds(step, Round(step, s, parties), parties, rounds - 1)
  }

  // Every step keeps the invariant and changes nothing or makes the measure smaller.
  ghost predicate Descends<S(!new)>(step: (S, nat) -> S, inv: S -> bool, measure: S -> nat, parties: nat) {
    forall s, p: nat :: inv(s) && p < parties ==>
      inv(step(s, p)) && (step(s, p) == s || measure(step(s, p)) < measure(s))
  }

  // Where it goes on and has not ended, some step changes something.
  ghost predicate Moves<S(!new)>(step: (S, nat) -> S, goesOn: S -> bool, ended: S -> bool, parties: nat) {
    forall s :: goesOn(s) && !ended(s) ==> exists p: nat :: p < parties && step(s, p) != s
  }

  // It goes on at the start of every round.
  ghost predicate GoesOnFrom<S(!new)>(step: (S, nat) -> S, goesOn: S -> bool, s: S, parties: nat) {
    forall n: nat :: goesOn(Rounds(step, s, parties, n))
  }

  lemma NextGoesOn<S(!new)>(step: (S, nat) -> S, goesOn: S -> bool, s: S, parties: nat)
    requires GoesOnFrom(step, goesOn, s, parties)
    ensures goesOn(s) && GoesOnFrom(step, goesOn, Round(step, s, parties), parties)
  {
    assert Rounds(step, s, parties, 0) == s;
    forall n: nat
      ensures goesOn(Rounds(step, Round(step, s, parties), parties, n))
    {
      assert Rounds(step, s, parties, n + 1) == Rounds(step, Round(step, s, parties), parties, n);
    }
  }

  lemma {:induction false} LastRound<S>(step: (S, nat) -> S, s: S, parties: nat, rounds: nat)
    ensures Rounds(step, s, parties, rounds + 1) == Round(step, Rounds(step, s, parties, rounds), parties)
    decreases rounds
  {
    if rounds > 0 {
      LastRound(step, Round(step, s, parties), parties, rounds - 1);
    }
  }

  lemma {:induction false} RoundDescends<S(!new)>(step: (S, nat) -> S, inv: S -> bool, measure: S -> nat,
      parties: nat, s: S, count: nat)
    requires Descends(step, inv, measure, parties) && inv(s) && count <= parties
    ensures var next := Round(step, s, count);
      inv(next)
      && (next != s ==> measure(next) < measure(s))
      && (next == s ==> forall p: nat :: p < count ==> step(s, p) == s)
    decreases count
  {
    if count > 0 {
      RoundDescends(step, inv, measure, parties, s, count - 1);
    }
  }

  // So rounds come to an end, after no more of them than the measure at the start.
  lemma {:induction false} RoundsEnd<S(!new)>(step: (S, nat) -> S, inv: S -> bool, measure: S -> nat,
      goesOn: S -> bool, ended: S -> bool, parties: nat, s: S) returns (rounds: nat)
    requires Descends(step, inv, measure, parties) && Moves(step, goesOn, ended, parties)
    requires inv(s) && GoesOnFrom(step, goesOn, s, parties)
    ensures rounds <= measure(s) && ended(Rounds(step, s, parties, rounds))
    decreases measure(s)
  {
    NextGoesOn(step, goesOn, s, parties);
    if ended(s) {
      rounds := 0;
    } else {
      RoundDescends(step, inv, measure, parties, s, parties);
      rounds := RoundsEnd(step, inv, measure, goesOn, ended, parties, Round(step, s, parties));
      rounds := rounds + 1;
    }
  }

  // What holds where so many rounds are over and so many parties have had their turn.
  type Progress<!S> = (S, nat, nat) -> bool

  // Every step and every end of a round keep it, for the first `bound` rounds.
  ghost predicate Advances<S(!new)>(step: (S, nat) -> S, at: Progress<S>, parties: nat, bound: nat) {
    && (forall s, r: nat, p: nat :: at(s, r, p) && r < bound && p < parties ==> at(step(s, p), r, p + 1))
    && (forall s, r: nat :: at(s, r, parties) ==> at(s, r + 1, 0))
  }

  lemma {:induction false} RoundAdvances<S(!new)>(step: (S, nat) -> S, at: Progress<S>, parties: nat, bound: nat,
      s: S, rounds: nat, count: nat)
    requires Advances(step, at, parties, bound) && at(s, rounds, 0) && rounds < bound && count <= parties
    ensures at(Round(step, s, count), rounds, count)
    decreases count
  {
    if count > 0 {
      RoundAdvances(step, at, parties, bound, s, rounds, count - 1);
    }
  }

  lemma {:induction false} RoundsAdvance<S(!new)>(step: (S, nat) -> S, at: Progress<S>, parties: nat, bound: nat,
      s: S, rounds: nat)
    requires Advances(step, at, parties, bound) && at(s, 0, 0) && rounds <= bound
    ensures at(Rounds(step, s, parties, rounds), rounds, 0)
    decreases rounds
  {
    if rounds > 0 {
      RoundsAdvance(step, at, parties, bound, s, rounds - 1);
      LastRound(step, s, parties, rounds - 1);
      RoundAdvances(step, at, parties, bound, Rounds(step, s, parties, rounds - 1), rounds - 1, parties);
    }
  }
}
