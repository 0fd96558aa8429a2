/** The reveal-state machine as functions of the state: what `handleSubmit`,
    `handleGiveUp`, `handlePrev` and `handleNext` do to the ordered
    `revealed` positions, the `userRevealed` set and the `currentIndex`
    cursor, and what they report. The `Game` class runs these transitions in
    place and is proved to agree with them. */
module Reveal {
  import opened Seqs
  import opened Text
  import opened Catalog
  import opened Lookup

  datatype State = State(revealed: seq<nat>, userRevealed: set<nat>, currentIndex: int)

  /** The state after a reset, and when nothing is stored. */
  const Empty: State := State([], {}, -1)

  /** The cursor is -1 exactly when nothing is revealed, and otherwise on an entry. */
  predicate CursorOk(s: State) {
    if s.revealed == [] then s.currentIndex == -1 else 0 <= s.currentIndex < |s.revealed|
  }

  /** What holds of every state, however it was loaded: positions are in
      range for a catalogue of `n` entries and the cursor is in place. */
  predicate Valid(n: nat, s: State) {
    && AllBelow(s.revealed, n)
    && (forall u :: u in s.userRevealed ==> u < n)
    && CursorOk(s)
  }

  /** What the transitions keep: no position is revealed twice, and every
      position the user found is revealed. A revealed position outside
      `userRevealed` is a given-up one. */
  predicate Consistent(s: State) {
    NoDups(s.revealed) && forall u :: u in s.userRevealed ==> u in s.revealed
  }

  /** The test before `triggerCelebration`. */
  /** The celebration test of `handleSubmit`: as many found and as many
      revealed positions as the catalogue has. On a consistent state this is
      the same as the user having found every position. */
  predicate Complete(n: nat, s: State): (r: bool)
    ensures Valid(n, s) && Consistent(s) ==> (r <==> forall i :: 0 <= i < n ==> i in s.userRevealed)
  {
    CompleteIff(n, s);
    |s.userRevealed| == n && |s.revealed| == n
  }

  /** `t` only adds to `s`: revealed positions are appended, user finds added. */
  predicate Extends(s: State, t: State) {
    && |s.revealed| <= |t.revealed|
    && t.revealed[..|s.revealed|] == s.revealed
    && s.userRevealed <= t.userRevealed
  }

  /** What `handleSubmit` reports, in place of its messages and celebration. */
  datatype Outcome =
    | EmptyInput                                  // "Please type a word to guess."
    | NotASecret                                  // "... is not a secret word"
    | NewReveal(idx: nat, complete: bool)         // "Nice! ... revealed."
    | AlreadyRevealed(idx: nat, promoted: bool)   // "You already revealed ..."
    | BatchRevealed(count: nat, complete: bool)   // "Revealed N Nidoran!"
    | BatchAlreadyRevealed(converted: nat)        // "You already revealed Nidoran"
  {
    predicate Rejected() {
      EmptyInput? || NotASecret?
    }
  }

  // ---------------------------------------------------------------------
  // handleSubmit

  /** A new reveal: the position is appended, credited to the user and shown. */
  function RevealNew(n: nat, s: State, idx: nat): (r: (State, Outcome))
    requires idx < n && idx !in s.revealed
    ensures Valid(n, s) ==> Valid(n, r.0)
    ensures Consistent(s) ==> Consistent(r.0)
    ensures Extends(s, r.0)
    ensures r.0 == State(s.revealed + [idx], s.userRevealed + {idx}, |s.revealed|)
    ensures r.1 == NewReveal(idx, Complete(n, r.0))
  {
    var revealed := s.revealed + [idx];
    var t := State(revealed, s.userRevealed + {idx}, |revealed| - 1);
    assert Consistent(s) ==> NoDups(revealed) by {
      if Consistent(s) { NoDupsAppend(s.revealed, [idx]); }
    }
    assert revealed[..|s.revealed|] == s.revealed;
    (t, NewReveal(idx, Complete(n, t)))
  }

  /** An already revealed position: shown again, and credited to the user
      if it had been given up. */
  function ShowAgain(n: nat, s: State, idx: nat): (r: (State, Outcome))
    requires idx in s.revealed
    ensures Valid(n, s) ==> Valid(n, r.0)
    ensures Consistent(s) ==> Consistent(r.0)
    ensures Extends(s, r.0)
    ensures r.0.revealed == s.revealed && r.0.userRevealed == s.userRevealed + {idx}
    ensures r.1 == AlreadyRevealed(idx, idx !in s.userRevealed)
    ensures 0 <= r.0.currentIndex < |s.revealed| && s.revealed[r.0.currentIndex] == idx
    ensures forall i :: 0 <= i < r.0.currentIndex ==> s.revealed[i] != idx
  {
    var pos := IndexOf(s.revealed, idx);
    var t := State(s.revealed, s.userRevealed + {idx}, if pos != -1 then pos else s.currentIndex);
    assert s.revealed[..|s.revealed|] == s.revealed;
    (t, AlreadyRevealed(idx, idx !in s.userRevealed))
  }

  /** The Nidoran batch when every position under the key is revealed: the
      first is shown again and all of them are credited to the user; the
      report counts the ones newly credited. */
  function BatchShowAgain(matching: seq<nat>, s: State): (r: (State, Outcome))
    requires matching != [] && forall x :: x in matching ==> x in s.revealed
    ensures r.0.revealed == s.revealed
    ensures r.0.userRevealed == s.userRevealed + Elems(matching)
    ensures 0 <= r.0.currentIndex < |s.revealed| && s.revealed[r.0.currentIndex] == matching[0]
    ensures forall i :: 0 <= i < r.0.currentIndex ==> s.revealed[i] != matching[0]
    ensures r.1 == BatchAlreadyRevealed(|Elems(matching) - s.userRevealed|)
  {
    var pos := IndexOf(s.revealed, matching[0]);
    var t := State(s.revealed, s.userRevealed + Elems(matching), if pos != -1 then pos else s.currentIndex);
    (t, BatchAlreadyRevealed(|Elems(matching) - s.userRevealed|))
  }

  /** The Nidoran batch otherwise: the unrevealed positions are appended in
      index order and credited to the user, and the last one is shown. */
  function BatchReveal(n: nat, s: State, unrevealed: seq<nat>): (r: (State, Outcome))
    requires unrevealed != [] && NoDups(unrevealed) && AllBelow(unrevealed, n)
    requires forall x :: x in unrevealed ==> x !in s.revealed
    ensures Valid(n, s) ==> Valid(n, r.0)
    ensures Consistent(s) ==> Consistent(r.0)
    ensures r.0 == State(s.revealed + unrevealed, s.userRevealed + Elems(unrevealed), |s.revealed| + |unrevealed| - 1)
    ensures r.1 == BatchRevealed(|unrevealed|, Complete(n, r.0))
  {
    var revealed := s.revealed + unrevealed;
    var t := State(revealed, s.userRevealed + Elems(unrevealed), |revealed| - 1);
    assert Consistent(s) ==> NoDups(revealed) by {
      if Consistent(s) { NoDupsAppend(s.revealed, unrevealed); }
    }
    (t, BatchRevealed(|unrevealed|, Complete(n, t)))
  }

  /** The Nidoran batch: every unrevealed position under the key is appended
      in index order; if there is none, the first one is shown again. */
  function SubmitBatch(n: nat, matching: seq<nat>, s: State): (r: (State, Outcome))
    requires matching != [] && StrictlyAscending(matching) && AllBelow(matching, n)
    ensures Valid(n, s) ==> Valid(n, r.0)
    ensures Consistent(s) ==> Consistent(r.0)
    ensures Extends(s, r.0)
    ensures forall x :: x in matching ==> x in r.0.revealed
    ensures var u := Without(matching, s.revealed);
      u != [] ==>
        && r.0 == State(s.revealed + u, s.userRevealed + Elems(u), |s.revealed| + |u| - 1)
        && r.1 == BatchRevealed(|u|, Complete(n, r.0))
    ensures Without(matching, s.revealed) == [] ==> r == BatchShowAgain(matching, s)
  {
    var unrevealed := Without(matching, s.revealed);
    if unrevealed == [] then
      BatchShowAgain(matching, s)
    else
      WithoutAscending(matching, s.revealed);
      WithoutBelow(matching, s.revealed, n);
      var r := BatchReveal(n, s, unrevealed);
      assert r.0.revealed[..|s.revealed|] == s.revealed;
      assert forall x :: x in matching ==> x in r.0.revealed by {
        forall x | x in matching ensures x in r.0.revealed {
          if x !in s.revealed { assert x in unrevealed; }
        }
      }
      r
  }

  /** `handleSubmit` on the guess `input`. */
  function Submit(n: nat, index: map<string, seq<nat>>, s: State, input: string): (r: (State, Outcome))
    requires IndexFits(n, index)
    ensures Valid(n, s) ==> Valid(n, r.0)
    ensures Consistent(s) ==> Consistent(r.0)
    ensures Extends(s, r.0)
    ensures Trim(input) == [] ==> r == (s, EmptyInput)
    ensures Trim(input) != [] && FindIndexByInput(index, s.revealed, Trim(input)) == NoMatch ==> r == (s, NotASecret)
    ensures r.1.Rejected() ==> r.0 == s
  {
    var raw := Trim(input);
    if raw == [] then (s, EmptyInput)
    else
      var found := FindIndexByInput(index, s.revealed, raw);
      if found.NoMatch? then (s, NotASecret)
      else
        assert s.revealed[..|s.revealed|] == s.revealed;
        Accept(n, index, s, raw, found)
  }

  /** `handleSubmit` once the lookup has found a position. */
  function Accept(n: nat, index: map<string, seq<nat>>, s: State, raw: string, found: Found): (r: (State, Outcome))
    requires IndexFits(n, index)
    requires found.Match? && found == FindIndexByInput(index, s.revealed, raw)
    ensures Valid(n, s) ==> Valid(n, r.0)
    ensures Consistent(s) ==> Consistent(r.0)
    ensures Extends(s, r.0)
    ensures !r.1.Rejected()
  {
    var key := Normalize(raw);
    assert key in index && found.idx in index[key];
    if key == NidoranKey then SubmitBatch(n, index[NidoranKey], s)
    else if found.alreadyRevealed then ShowAgain(n, s, found.idx)
    else RevealNew(n, s, found.idx)
  }

  // ---------------------------------------------------------------------
  // handleGiveUp, handlePrev, handleNext

  datatype GiveUpOutcome = AllAlreadyRevealed | GiveUpCancelled | GaveUp

  /** `handleGiveUp`, with `confirmed` the answer to the confirmation dialog:
      every position not yet revealed is appended in ascending order, and
      none of them is credited to the user. */
  function GiveUp(n: nat, s: State, confirmed: bool): (r: (State, GiveUpOutcome))
    ensures r.0.userRevealed == s.userRevealed
    ensures Extends(s, r.0)
    ensures Valid(n, s) ==> Valid(n, r.0)
    ensures Consistent(s) ==> Consistent(r.0)
    ensures r.1 == AllAlreadyRevealed <==> |s.revealed| == n
    ensures r.1 == GaveUp <==> |s.revealed| != n && confirmed
    ensures r.1 != GaveUp ==> r.0 == s
    ensures r.1 == GaveUp ==>
      && r.0.revealed == s.revealed + Without(Range(n), s.revealed)
      && r.0.currentIndex == |r.0.revealed| - 1
      && forall i :: 0 <= i < n ==> i in r.0.revealed
  {
    if |s.revealed| == n then (s, AllAlreadyRevealed)
    else if !confirmed then (s, GiveUpCancelled)
    else
      var rest := Without(Range(n), s.revealed);
      var revealed := s.revealed + rest;
      assert StrictlyAscending(rest) by {
        WithoutAscending(Range(n), s.revealed);
      }
      assert Consistent(s) ==> NoDups(revealed) by {
        if Consistent(s) { NoDupsAppend(s.revealed, rest); }
      }
      assert AllBelow(rest, n) by {
        WithoutBelow(Range(n), s.revealed, n);
      }
      assert s.revealed == [] ==> 0 in rest by {
        if s.revealed == [] { assert Range(n)[0] == 0; }
      }
      assert forall i :: 0 <= i < n ==> i in revealed by {
        forall i | 0 <= i < n ensures i in revealed {
          assert Range(n)[i] == i;
          assert i in s.revealed || i in rest;
        }
      }
      (State(revealed, s.userRevealed, |revealed| - 1), GaveUp)
  }

  /** `handlePrev`: one entry back, unless at the first. */
  function Prev(s: State): (r: State)
    ensures r.revealed == s.revealed && r.userRevealed == s.userRevealed
    ensures CursorOk(s) ==> CursorOk(r)
    ensures s.currentIndex > 0 ==> r.currentIndex == s.currentIndex - 1
    ensures s.currentIndex <= 0 ==> r == s
  {
    if s.currentIndex > 0 then s.(currentIndex := s.currentIndex - 1) else s
  }

  /** `handleNext`: one entry on, unless at the last. */
  function Next(s: State): (r: State)
    ensures r.revealed == s.revealed && r.userRevealed == s.userRevealed
    ensures CursorOk(s) ==> CursorOk(r)
    ensures s.currentIndex < |s.revealed| - 1 ==> r.currentIndex == s.currentIndex + 1
    ensures s.currentIndex >= |s.revealed| - 1 ==> r == s
  {
    if s.currentIndex < |s.revealed| - 1 then s.(currentIndex := s.currentIndex + 1) else s
  }

  // ---------------------------------------------------------------------
  // What the transitions promise

  /** An index built by `buildNormalizedIndexMap` is one the transitions accept. */
  lemma IndexOkFits(catalog: seq<Entry>, index: map<string, seq<nat>>)
    requires IndexOk(index, Keys(catalog))
    ensures IndexFits(|catalog|, index)
  {
    forall k | k in index ensures AllBelow(index[k], |catalog|) {
      assert index[k] == Matches(Keys(catalog), k);
    }
  }

  /** The counting argument behind `Complete`: on a consistent state, a
      user set of catalogue size leaves no position unfound. */
  lemma CompleteIff(n: nat, s: State)
    ensures Valid(n, s) && Consistent(s) ==>
      (|s.userRevealed| == n && |s.revealed| == n <==> forall i :: 0 <= i < n ==> i in s.userRevealed)
  {
    if Valid(n, s) && Consistent(s) {
      PositionsCard(n);
      PositionsBelow(n);
      assert s.userRevealed <= Positions(n);
      FullIffCovers(s.revealed, n);
      if |s.userRevealed| == n && |s.revealed| == n {
        SubsetSameCard(s.userRevealed, Positions(n));
      }
      if forall i :: 0 <= i < n ==> i in s.userRevealed {
        assert Positions(n) <= s.userRevealed;
        assert s.userRevealed == Positions(n);
        assert forall i :: 0 <= i < n ==> i in s.revealed;
      }
    }
  }


  /** The `complete` flag `handleSubmit` reports on a consistent state means
      that after the guess the user has found every position. */
  lemma CelebrationIffAllFound(n: nat, index: map<string, seq<nat>>, s: State, input: string)
    requires IndexFits(n, index) && Valid(n, s) && Consistent(s)
    ensures var r := Submit(n, index, s, input);
      (r.1.NewReveal? || r.1.BatchRevealed?) ==>
        (r.1.complete <==> forall i :: 0 <= i < n ==> i in r.0.userRevealed)
  {
    var r := Submit(n, index, s, input);
    CompleteIff(n, r.0);
  }

  /** A guess whose key, other than Nidoran's, still has an unrevealed
      position reveals the smallest such position, credits it to the user and
      shows it; nothing else changes. */
  lemma GuessRevealsFirstUnrevealed(n: nat, index: map<string, seq<nat>>, s: State, input: string)
    requires IndexFits(n, index)
    requires var key := Normalize(Trim(input));
      key != [] && key != NidoranKey && key in index && exists x :: x in index[key] && x !in s.revealed
    ensures var key := Normalize(Trim(input));
      var r := Submit(n, index, s, input);
      && r.1.NewReveal?
      && r.1.idx in index[key] && r.1.idx !in s.revealed
      && (forall x :: x in index[key] && x < r.1.idx ==> x in s.revealed)
      && r.0 == State(s.revealed + [r.1.idx], s.userRevealed + {r.1.idx}, |s.revealed|)
  {
    var raw := Trim(input);
    var key := Normalize(raw);
    var m := index[key];
    assert raw != [];
    var found := FindIndexByInput(index, s.revealed, raw);
    assert found.Match? && !found.alreadyRevealed;
    var j :| 0 <= j < |m| && m[j] == found.idx && forall i :: 0 <= i < j ==> m[i] in s.revealed;
    forall x | x in m && x < found.idx ensures x in s.revealed {
      var i :| 0 <= i < |m| && m[i] == x;
      assert i < j;
    }
    assert Submit(n, index, s, input) == RevealNew(n, s, found.idx);
  }

  /** A guess whose positions, other than Nidoran's, are all revealed
      changes no position: the first one is shown again and credited to the
      user, and reported as promoted when it had been given up. */
  lemma GuessAllRevealedShowsFirst(n: nat, index: map<string, seq<nat>>, s: State, input: string)
    requires IndexFits(n, index)
    requires var key := Normalize(Trim(input));
      key != [] && key != NidoranKey && key in index && index[key] != []
      && forall x :: x in index[key] ==> x in s.revealed
    ensures var m := index[Normalize(Trim(input))];
      var r := Submit(n, index, s, input);
      && r.1 == AlreadyRevealed(m[0], m[0] !in s.userRevealed)
      && r.0.revealed == s.revealed
      && r.0.userRevealed == s.userRevealed + {m[0]}
      && 0 <= r.0.currentIndex < |s.revealed| && s.revealed[r.0.currentIndex] == m[0]
  {
    assert Trim(input) != [];
  }

  /** A Nidoran guess reveals every Nidoran position: those not yet revealed
      are appended in index order and counted in the report. */
  lemma NidoranRevealsAll(n: nat, index: map<string, seq<nat>>, s: State, input: string)
    requires IndexFits(n, index)
    requires Normalize(Trim(input)) == NidoranKey && NidoranKey in index && index[NidoranKey] != []
    ensures var m := index[NidoranKey];
      var r := Submit(n, index, s, input);
      && (forall x :: x in m ==> x in r.0.revealed)
      && r.0.revealed == s.revealed + Without(m, s.revealed)
      && (r.1.BatchRevealed? <==> exists x :: x in m && x !in s.revealed)
      && (r.1.BatchRevealed? ==> r.1.count == |r.0.revealed| - |s.revealed|)
      && (r.1.BatchAlreadyRevealed? <==> forall x :: x in m ==> x in s.revealed)
  {
    var m := index[NidoranKey];
    assert Trim(input) != [];
    var u := Without(m, s.revealed);
    if u == [] {
      assert s.revealed + u == s.revealed;
    } else {
      assert u[0] in u;
    }
  }

  /** Submitting a guess whose key has at most one position a second time
      changes nothing and reports it as already revealed. */
  lemma ResubmitSinglePosition(n: nat, index: map<string, seq<nat>>, s: State, input: string)
    requires IndexFits(n, index)
    requires var key := Normalize(Trim(input));
      key != NidoranKey && (key in index ==> |index[key]| <= 1)
    ensures var r1 := Submit(n, index, s, input);
      var r2 := Submit(n, index, r1.0, input);
      && r2.0 == r1.0
      && (r1.1.Rejected() ==> r2.1 == r1.1)
      && (!r1.1.Rejected() ==> r2.1.AlreadyRevealed? && !r2.1.promoted)
  {
    var r1 := Submit(n, index, s, input);
    var raw := Trim(input);
    if !r1.1.Rejected() {
      var key := Normalize(raw);
      var m := index[key];
      assert |m| == 1;
      var idx := m[0];
      assert idx in r1.0.revealed && idx in r1.0.userRevealed;
      assert forall x :: x in m ==> x == idx;
      assert FindIndexByInput(index, r1.0.revealed, raw) == Match(idx, true);
      if r1.1.NewReveal? {
        assert IndexOf(r1.0.revealed, idx) == |s.revealed| by {
          assert r1.0.revealed == s.revealed + [idx];
          assert r1.0.revealed[|s.revealed|] == idx;
        }
      }
    }
  }

  /** Submitting Nidoran twice credits every Nidoran position to the user
      without revealing anything more, and a third time changes nothing. */
  lemma ResubmitNidoran(n: nat, index: map<string, seq<nat>>, s: State, input: string)
    requires IndexFits(n, index)
    requires Normalize(Trim(input)) == NidoranKey && NidoranKey in index && index[NidoranKey] != []
    ensures var r1 := Submit(n, index, s, input);
      var r2 := Submit(n, index, r1.0, input);
      && r2.0.revealed == r1.0.revealed
      && r2.1.BatchAlreadyRevealed?
      && (forall x :: x in index[NidoranKey] ==> x in r2.0.userRevealed)
      && Submit(n, index, r2.0, input) == (r2.0, BatchAlreadyRevealed(0))
  {
    var m := index[NidoranKey];
    var r1 := Submit(n, index, s, input);
    NidoranRevealsAll(n, index, s, input);
    NidoranRevealsAll(n, index, r1.0, input);
    var r2 := Submit(n, index, r1.0, input);
    NidoranRevealsAll(n, index, r2.0, input);
    assert Elems(m) - r2.0.userRevealed == {};
  }

  /** A guess that `attemptAutoSubmit` passes over would, on a consistent
      state, reveal and credit nothing if submitted by hand. */
  lemma SkippedGuessChangesNothing(n: nat, index: map<string, seq<nat>>, s: State, raw: string)
    requires IndexFits(n, index) && Consistent(s)
    requires !AutoSubmitEligible(index, s.userRevealed, raw)
    ensures var r := Submit(n, index, s, raw);
      && r.0.revealed == s.revealed && r.0.userRevealed == s.userRevealed
      && (r.1.Rejected() || r.1 == BatchAlreadyRevealed(0) || (r.1.AlreadyRevealed? && !r.1.promoted))
  {
    TrimKeepsKey(raw);
    var r := Submit(n, index, s, raw);
    if !r.1.Rejected() {
      var key := Normalize(raw);
      var m := index[key];
      assert forall x :: x in m ==> x in s.userRevealed;
      if key == NidoranKey {
        WithoutAll(m, s.revealed);
        assert Elems(m) - s.userRevealed == {};
      }
    }
  }

  /** A guess that `attemptAutoSubmit` submits is never rejected. */
  lemma EligibleGuessAccepted(n: nat, index: map<string, seq<nat>>, s: State, raw: string)
    requires IndexFits(n, index)
    requires AutoSubmitEligible(index, s.userRevealed, raw)
    ensures !Submit(n, index, s, raw).1.Rejected()
  {
    TrimKeepsKey(raw);
  }

  /** On a consistent state giving up (confirmed) leaves every position
      revealed exactly once, and it reports that all are already revealed
      exactly when they were. */
  lemma GiveUpCoversAll(n: nat, s: State)
    requires Valid(n, s) && Consistent(s)
    ensures var r := GiveUp(n, s, true);
      |r.0.revealed| == n && forall i :: 0 <= i < n ==> i in r.0.revealed
    ensures GiveUp(n, s, true).1 == AllAlreadyRevealed <==> forall i :: 0 <= i < n ==> i in s.revealed
  {
    FullIffCovers(s.revealed, n);
    var r := GiveUp(n, s, true);
    FullIffCovers(r.0.revealed, n);
  }

  /** Stepping back and then on, or on and then back, returns to the same
      entry when the first step moves. */
  lemma PrevNextInverse(s: State)
    requires CursorOk(s)
    ensures s.currentIndex > 0 ==> Next(Prev(s)) == s
    ensures s.currentIndex < |s.revealed| - 1 ==> Prev(Next(s)) == s
  {
  }
}
