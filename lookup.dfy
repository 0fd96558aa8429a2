/** Matching a guess against the index (`findIndexByInput`) and the
    auto-submit eligibility test of `attemptAutoSubmit`. */
module Lookup {
  import opened Seqs
  import opened Text

  /** `null`, or the record `{ idx, alreadyRevealed }` (the record's `item`
      is `catalog[idx]` and is left implicit). */
  datatype Found = NoMatch | Match(idx: nat, alreadyRevealed: bool)

  /** The position in `matching` of its first element not yet revealed, or
      `|matching|` when every one is. */
  function FirstUnrevealed(matching: seq<nat>, revealed: seq<nat>): (j: nat)
    ensures j <= |matching|
    ensures j < |matching| ==> matching[j] !in revealed
    ensures forall i :: 0 <= i < j ==> matching[i] in revealed
  {
    if matching == [] then 0
    else if matching[0] !in revealed then 0
    else 1 + FirstUnrevealed(matching[1..], revealed)
  }

  /** `findIndexByInput`: no match for an empty key or a key without
      positions; otherwise the first position under the key that is not yet
      revealed, or, when all are, the first position flagged as already
      revealed. The key is looked up among the index's own keys. */
  function FindIndexByInput(index: map<string, seq<nat>>, revealed: seq<nat>, raw: string): (r: Found)
    ensures var key := Normalize(raw);
      r.NoMatch? <==> key == [] || key !in index || index[key] == []
    ensures r.Match? ==>
      var m := index[Normalize(raw)];
      && r.idx in m
      && (r.alreadyRevealed <==> forall x :: x in m ==> x in revealed)
      && (r.alreadyRevealed ==> r.idx == m[0])
      && (!r.alreadyRevealed ==>
            r.idx !in revealed &&
            exists j :: 0 <= j < |m| && m[j] == r.idx && forall i :: 0 <= i < j ==> m[i] in revealed)
  {
    var key := Normalize(raw);
    if key == [] || key !in index || index[key] == [] then NoMatch
    else
      var m := index[key];
      var j := FirstUnrevealed(m, revealed);
      if j < |m| then Match(m[j], false) else Match(m[0], true)
  }

  /** The test in `attemptAutoSubmit`: a non-blank guess whose key has
      positions, at least one of which the user has not entered yet. */
  predicate AutoSubmitEligible(index: map<string, seq<nat>>, userRevealed: set<nat>, raw: string): (r: bool)
    ensures r ==>
      var key := Normalize(Trim(raw));
      && Trim(raw) != []
      && key in index
      && exists x :: x in index[key] && x !in userRevealed
  {
    TrimKeepsKey(raw);
    var key := Normalize(raw);
    && Trim(raw) != []
    && key != []
    && key in index
    && index[key] != []
    && exists x :: x in index[key] && x !in userRevealed
  }

  // ---------------------------------------------------------------------
  // The lookup as written, on a plain JavaScript object

  /** The normalised keys (lower-case letters and digits only) that every
      plain object inherits from `Object.prototype`. */
  const InheritedKeys: set<string> := {"constructor"}

  /** What `normalizedIndexMap[key]` evaluates to on the object literal the
      source builds the index in. */
  datatype Property = OwnList(positions: seq<nat>) | InheritedFunction | Undefined

  function PropertyOf(index: map<string, seq<nat>>, key: string): Property {
    if key in index then OwnList(index[key])
    else if key in InheritedKeys then InheritedFunction
    else Undefined
  }

  datatype Completion = Returns(found: Found) | ThrowsTypeError

  /** `findIndexByInput` exactly as written: an inherited property is a
      function, which passes the `!matching` test, has `length` 1 and so
      passes the emptiness test, and then is not iterable in `for...of`. */
  function FindIndexByInputAsWritten(index: map<string, seq<nat>>, revealed: seq<nat>, raw: string): (r: Completion)
    ensures r.ThrowsTypeError? <==> Normalize(raw) in InheritedKeys && Normalize(raw) !in index
  {
    var key := Normalize(raw);
    if key == [] then Returns(NoMatch)
    else
      match PropertyOf(index, key)
      case Undefined => Returns(NoMatch)
      case InheritedFunction => ThrowsTypeError
      case OwnList(m) =>
        if m == [] then Returns(NoMatch)
        else
          var j := FirstUnrevealed(m, revealed);
          Returns(if j < |m| then Match(m[j], false) else Match(m[0], true))
  }

  /** The two agree on every guess except those whose key names an inherited
      property that the catalogue does not define. */
  lemma AsWrittenAgrees(index: map<string, seq<nat>>, revealed: seq<nat>, raw: string)
    requires Normalize(raw) !in InheritedKeys || Normalize(raw) in index
    ensures FindIndexByInputAsWritten(index, revealed, raw) == Returns(FindIndexByInput(index, revealed, raw))
  {
  }

  /** The guess "constructor" (in any ASCII case) makes the lookup as written
      throw instead of answering "not a secret word", whatever was revealed. */
  lemma ConstructorGuessThrows(index: map<string, seq<nat>>, revealed: seq<nat>)
    requires "constructor" !in index
    ensures FindIndexByInputAsWritten(index, revealed, "constructor") == ThrowsTypeError
    ensures FindIndexByInput(index, revealed, "constructor") == NoMatch
  {
    assert IsKey("constructor");
    NormalizeFixesKeys("constructor");
  }
}
