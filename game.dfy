/** The page's game state as the script keeps it: the catalogue and its
    index, fixed at start-up, and the `revealed` array, the `userRevealed`
    set, the `currentIndex` cursor and whether the guess input is enabled,
    which the handlers update in place. Each handler is proved to make the
    transition the `Reveal` functions describe. */
module Quiz {
  import opened Seqs
  import opened Text
  import opened Catalog
  import opened Lookup
  import opened Reveal
  import opened Storage

  class Game {
    const catalog: seq<Entry>
    const index: map<string, seq<nat>>
    var revealed: seq<nat>
    var userRevealed: set<nat>
    var currentIndex: int
    var inputEnabled: bool

    function Snapshot(): State
      reads this
    {
      State(revealed, userRevealed, currentIndex)
    }

    ghost predicate Valid()
      reads this
    {
      IndexOk(index, Keys(catalog)) && Reveal.Valid(|catalog|, Snapshot())
    }

    /** Start-up: the index is built and the stored progress loaded, with the
        cursor on the last revealed entry. */
    constructor (catalog: seq<Entry>, stored: Stored)
      ensures Valid()
      ensures this.catalog == catalog
      ensures Snapshot() == Load(catalog, stored)
      ensures inputEnabled
    {
      this.catalog := catalog;
      var idx := BuildIndexMap(catalog);
      this.index := idx;
      var r: seq<nat>, u: set<nat>;
      match stored {
        case Absent =>
          r, u := [], {};
        case Legacy(names) =>
          r, u := ConvertLegacy(catalog, names);
        case Current(all, user) =>
          r := FieldPositions(|catalog|, all);
          u := {};
          if user.Numbers? {
            u := CollectUser(|catalog|, user.values);
          }
      }
      revealed, userRevealed := r, u;
      currentIndex := if |r| > 0 then |r| - 1 else -1;
      inputEnabled := true;
    }

    /** `handleSubmit` on the guess `input`. */
    method Submit(input: string) returns (outcome: Outcome)
      requires Valid()
      modifies this
      ensures Valid()
      ensures (Snapshot(), outcome) == Reveal.Submit(|catalog|, index, old(Snapshot()), input)
      ensures inputEnabled == old(inputEnabled)
    {
      IndexOkFits(catalog, index);
      var raw := Trim(input);
      if raw == [] {
        return EmptyInput;
      }
      var res := FindIndexByInput(index, revealed, raw);
      if res.NoMatch? {
        return NotASecret;
      }
      if Normalize(raw) == NidoranKey {
        outcome := SubmitNidoran();
      } else if res.alreadyRevealed {
        outcome := ShowRevealed(res.idx);
      } else {
        outcome := RevealOne(res.idx);
      }
    }

    /** The Nidoran batch of `handleSubmit`. */
    method SubmitNidoran() returns (outcome: Outcome)
      requires Valid() && NidoranKey in index && index[NidoranKey] != []
      modifies this
      ensures Valid()
      ensures (Snapshot(), outcome) == SubmitBatch(|catalog|, index[NidoranKey], old(Snapshot()))
      ensures inputEnabled == old(inputEnabled)
    {
      IndexOkFits(catalog, index);
      var matching := index[NidoranKey];
      var unrevealed := Without(matching, revealed);
      if unrevealed == [] {
        outcome := NidoranAgain(matching);
      } else {
        WithoutAscending(matching, revealed);
        WithoutBelow(matching, revealed, |catalog|);
        outcome := NidoranReveal(unrevealed);
      }
    }

    /** The Nidoran batch when all of them are revealed. */
    method NidoranAgain(matching: seq<nat>) returns (outcome: Outcome)
      requires Valid() && matching != [] && forall x :: x in matching ==> x in revealed
      requires forall x :: x in matching ==> x < |catalog|
      modifies this
      ensures Valid()
      ensures (Snapshot(), outcome) == BatchShowAgain(matching, old(Snapshot()))
      ensures inputEnabled == old(inputEnabled)
    {
      var firstPos := IndexOf(revealed, matching[0]);
      if firstPos != -1 {
        currentIndex := firstPos;
      }
      var converted := Promote(matching);
      return BatchAlreadyRevealed(converted);
    }

    /** The Nidoran batch when some of them are not revealed yet. */
    method NidoranReveal(unrevealed: seq<nat>) returns (outcome: Outcome)
      requires Valid() && unrevealed != [] && NoDups(unrevealed) && AllBelow(unrevealed, |catalog|)
      requires forall x :: x in unrevealed ==> x !in revealed
      modifies this
      ensures Valid()
      ensures (Snapshot(), outcome) == BatchReveal(|catalog|, old(Snapshot()), unrevealed)
      ensures inputEnabled == old(inputEnabled)
    {
      PushAll(unrevealed);
      currentIndex := |revealed| - 1;
      return BatchRevealed(|unrevealed|, |userRevealed| == |catalog| && |revealed| == |catalog|);
    }

    /** `handleSubmit` on a guess whose positions are all revealed. */
    method ShowRevealed(idx: nat) returns (outcome: Outcome)
      requires Valid() && idx in revealed
      modifies this
      ensures Valid()
      ensures (Snapshot(), outcome) == ShowAgain(|catalog|, old(Snapshot()), idx)
      ensures inputEnabled == old(inputEnabled)
    {
      var firstPos := IndexOf(revealed, idx);
      if firstPos != -1 {
        currentIndex := firstPos;
      }
      var promoted := idx !in userRevealed;
      if promoted {
        userRevealed := userRevealed + {idx};
      } else {
        assert userRevealed + {idx} == userRevealed;
      }
      return AlreadyRevealed(idx, promoted);
    }

    /** `handleSubmit` on a guess with an unrevealed position: a new reveal. */
    method RevealOne(idx: nat) returns (outcome: Outcome)
      requires Valid() && idx < |catalog| && idx !in revealed
      modifies this
      ensures Valid()
      ensures (Snapshot(), outcome) == RevealNew(|catalog|, old(Snapshot()), idx)
      ensures inputEnabled == old(inputEnabled)
    {
      revealed := revealed + [idx];
      userRevealed := userRevealed + {idx};
      currentIndex := |revealed| - 1;
      return NewReveal(idx, |userRevealed| == |catalog| && |revealed| == |catalog|);
    }

    /** The loop crediting every position of `matching` to the user; it
        reports how many were not credited before. */
    method Promote(matching: seq<nat>) returns (converted: nat)
      modifies this
      ensures userRevealed == old(userRevealed) + Elems(matching)
      ensures converted == |Elems(matching) - old(userRevealed)|
      ensures revealed == old(revealed) && currentIndex == old(currentIndex) && inputEnabled == old(inputEnabled)
    {
      ghost var before := userRevealed;
      converted := 0;
      var k := 0;
      while k < |matching|
        invariant 0 <= k <= |matching|
        invariant userRevealed == before + Elems(matching[..k])
        invariant before <= userRevealed
        invariant converted == |userRevealed - before|
        invariant revealed == old(revealed) && currentIndex == old(currentIndex) && inputEnabled == old(inputEnabled)
      {
        var x := matching[k];
        assert matching[..k + 1] == matching[..k] + [x];
        ElemsSnoc(matching[..k], x);
        if x !in userRevealed {
          AddNewCounts(userRevealed, before, x);
          userRevealed := userRevealed + {x};
          converted := converted + 1;
        }
        k := k + 1;
      }
      assert matching[..|matching|] == matching;
      UnionMinus(before, Elems(matching));
    }

    /** The loop pushing each position of `unrevealed` onto `revealed` and
        crediting it to the user. */
    method PushAll(unrevealed: seq<nat>)
      modifies this
      ensures revealed == old(revealed) + unrevealed
      ensures userRevealed == old(userRevealed) + Elems(unrevealed)
      ensures currentIndex == old(currentIndex) && inputEnabled == old(inputEnabled)
    {
      var k := 0;
      while k < |unrevealed|
        invariant 0 <= k <= |unrevealed|
        invariant revealed == old(revealed) + unrevealed[..k]
        invariant userRevealed == old(userRevealed) + Elems(unrevealed[..k])
        invariant currentIndex == old(currentIndex) && inputEnabled == old(inputEnabled)
      {
        assert unrevealed[..k + 1] == unrevealed[..k] + [unrevealed[k]];
        ElemsSnoc(unrevealed[..k], unrevealed[k]);
        revealed := revealed + [unrevealed[k]];
        userRevealed := userRevealed + {unrevealed[k]};
        k := k + 1;
      }
      assert unrevealed[..|unrevealed|] == unrevealed;
    }

    /** `handleGiveUp`, with `confirmed` the answer to the confirmation
        dialog; giving up disables the guess input. */
    method GiveUp(confirmed: bool) returns (outcome: GiveUpOutcome)
      requires Valid()
      modifies this
      ensures Valid()
      ensures (Snapshot(), outcome) == Reveal.GiveUp(|catalog|, old(Snapshot()), confirmed)
      ensures inputEnabled == (old(inputEnabled) && outcome != GaveUp)
    {
      var n := |catalog|;
      if |revealed| == n {
        return AllAlreadyRevealed;
      }
      if !confirmed {
        return GiveUpCancelled;
      }
      AppendUnrevealed(n);
      currentIndex := |revealed| - 1;
      inputEnabled := false;
      outcome := GaveUp;
      assert (Snapshot(), outcome) == Reveal.GiveUp(n, old(Snapshot()), confirmed);
    }

    /** The give-up loop: every position not yet revealed is pushed, in
        ascending order. */
    method AppendUnrevealed(n: nat)
      modifies this
      ensures revealed == old(revealed) + Without(Range(n), old(revealed))
      ensures userRevealed == old(userRevealed) && currentIndex == old(currentIndex) && inputEnabled == old(inputEnabled)
    {
      ghost var before := revealed;
      var i := 0;
      while i < n
        invariant 0 <= i <= n
        invariant revealed == before + Without(Range(i), before)
        invariant userRevealed == old(userRevealed) && currentIndex == old(currentIndex) && inputEnabled == old(inputEnabled)
      {
        WithoutSnoc(Range(i), i, before);
        assert Range(i + 1) == Range(i) + [i];
        assert i !in Without(Range(i), before);
        if IndexOf(revealed, i) == -1 {
          revealed := revealed + [i];
        }
        i := i + 1;
      }
    }

    /** `handleReset`, with `confirmed` the answer to the confirmation
        dialog: everything is hidden again and the guess input re-enabled. */
    method Reset(confirmed: bool)
      requires Valid()
      modifies this
      ensures Valid()
      ensures confirmed ==> Snapshot() == Empty && inputEnabled
      ensures !confirmed ==> Snapshot() == old(Snapshot()) && inputEnabled == old(inputEnabled)
    {
      if !confirmed {
        return;
      }
      revealed := [];
      userRevealed := {};
      currentIndex := -1;
      inputEnabled := true;
    }

    /** `handlePrev`. */
    method Prev()
      requires Valid()
      modifies this
      ensures Valid()
      ensures Snapshot() == Reveal.Prev(old(Snapshot()))
      ensures inputEnabled == old(inputEnabled)
    {
      if currentIndex > 0 {
        currentIndex := currentIndex - 1;
      }
    }

    /** `handleNext`. */
    method Next()
      requires Valid()
      modifies this
      ensures Valid()
      ensures Snapshot() == Reveal.Next(old(Snapshot()))
      ensures inputEnabled == old(inputEnabled)
    {
      if currentIndex < |revealed| - 1 {
        currentIndex := currentIndex + 1;
      }
    }
  }

  /** Adding an element that was missing grows the new part by one. */
  lemma AddNewCounts(u: set<nat>, before: set<nat>, x: nat)
    requires x !in u && before <= u
    ensures |(u + {x}) - before| == |u - before| + 1
  {
    assert (u + {x}) - before == (u - before) + {x};
  }

  lemma UnionMinus(a: set<nat>, b: set<nat>)
    ensures (a + b) - a == b - a
  {
  }
}
