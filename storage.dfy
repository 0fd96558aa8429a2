/** Loading the saved progress at start-up (both the legacy list of
    normalised names and the current `{ all, user }` record) and the record
    `save` writes. */
module Storage {
  import opened Seqs
  import opened Text
  import opened Catalog
  import opened Reveal

  /** An array field of the stored record, or anything else in its place. */
  datatype Field = NotAnArray | Numbers(values: seq<int>)

  /** The parsed stored value: nothing usable (missing, unparsable or not an
      object), the legacy array of normalised names, or the current record. */
  datatype Stored = Absent | Legacy(names: seq<string>) | Current(all: Field, user: Field)

  // ---------------------------------------------------------------------
  // The legacy format

  /** `wordsData.findIndex((w, i) => !used[i] && normalizeText(w.word) === norm)`
      searching from `from`, where the used positions are those in `taken`. */
  function FirstUnusedFrom(catalog: seq<Entry>, taken: seq<nat>, norm: string, from: nat): (r: int)
    requires from <= |catalog|
    decreases |catalog| - from
    ensures r == -1 || from <= r < |catalog|
    ensures r != -1 ==> Normalize(catalog[r].word) == norm && r !in taken
    ensures forall j :: from <= j < |catalog| && (r == -1 || j < r) && Normalize(catalog[j].word) == norm ==> j in taken
  {
    if from == |catalog| then -1
    else if from !in taken && Normalize(catalog[from].word) == norm then from
    else FirstUnusedFrom(catalog, taken, norm, from + 1)
  }

  /** The positions the legacy converter assigns to `names`, in order: each
      name takes the first position with that key that no earlier name took,
      and a name with no such position is dropped. */
  function LegacyPositions(catalog: seq<Entry>, names: seq<string>): (r: seq<nat>)
    decreases |names|
    ensures NoDups(r) && AllBelow(r, |catalog|) && |r| <= |names|
    ensures forall x :: x in r ==> Normalize(catalog[x].word) in names
  {
    if names == [] then []
    else
      var init := names[..|names| - 1];
      var prev := LegacyPositions(catalog, init);
      var idx := FirstUnusedFrom(catalog, prev, names[|names| - 1], 0);
      if idx == -1 then prev
      else
        NoDupsAppend(prev, [idx]);
        prev + [idx]
  }

  /** The legacy conversion loop: a `used` flag per position, and each
      converted position pushed onto `revealed` and added to the user's set.
      The loaded positions are distinct, in range, and all credited to the
      user. */
  method ConvertLegacy(catalog: seq<Entry>, names: seq<string>) returns (revealed: seq<nat>, userRevealed: set<nat>)
    ensures revealed == LegacyPositions(catalog, names)
    ensures NoDups(revealed) && AllBelow(revealed, |catalog|)
    ensures userRevealed == Elems(revealed)
  {
    var used := new bool[|catalog|](_ => false);
    revealed, userRevealed := [], {};
    var i := 0;
    while i < |names|
      invariant 0 <= i <= |names|
      invariant revealed == LegacyPositions(catalog, names[..i])
      invariant userRevealed == Elems(revealed)
      invariant forall p :: 0 <= p < used.Length ==> (used[p] <==> p in revealed)
    {
      var norm := names[i];
      var idx := FindUnused(catalog, used, norm, revealed);
      assert names[..i + 1][..i] == names[..i];
      assert names[..i + 1][i] == norm;
      LegacyPositionsStep(catalog, names[..i + 1], revealed, idx);
      if idx != -1 {
        ElemsSnoc(revealed, idx);
        used[idx] := true;
        revealed := revealed + [idx];
        userRevealed := userRevealed + {idx};
      }
      i := i + 1;
    }
    assert names[..|names|] == names;
  }

  /** The `findIndex` call of the conversion loop, over the `used` flags. */
  method FindUnused(catalog: seq<Entry>, used: array<bool>, norm: string, ghost taken: seq<nat>) returns (idx: int)
    requires used.Length == |catalog|
    requires forall p :: 0 <= p < used.Length ==> (used[p] <==> p in taken)
    ensures idx == FirstUnusedFrom(catalog, taken, norm, 0)
  {
    var j := 0;
    while j < |catalog| && (used[j] || Normalize(catalog[j].word) != norm)
      invariant 0 <= j <= |catalog|
      invariant FirstUnusedFrom(catalog, taken, norm, j) == FirstUnusedFrom(catalog, taken, norm, 0)
    {
      j := j + 1;
    }
    idx := if j < |catalog| then j else -1;
  }

  /** The keys of `revealed` in order: what the legacy format stored. */
  function NamesOf(catalog: seq<Entry>, revealed: seq<nat>): (r: seq<string>)
    requires AllBelow(revealed, |catalog|)
    ensures |r| == |revealed|
    ensures forall i :: 0 <= i < |r| ==> r[i] == Normalize(catalog[revealed[i]].word)
  {
    seq(|revealed|, i requires 0 <= i < |revealed| => Normalize(catalog[revealed[i]].word))
  }

  /** Within `revealed`, the positions sharing a key appear from the lowest
      up, none skipped: every lower position with the same key comes earlier. */
  predicate FirstComeFirst(catalog: seq<Entry>, revealed: seq<nat>)
    requires AllBelow(revealed, |catalog|)
  {
    forall m, j ::
      (0 <= m < |revealed| && 0 <= j < revealed[m] &&
       Normalize(catalog[j].word) == Normalize(catalog[revealed[m]].word)) ==> j in revealed[..m]
  }

  /** The position the converter picks for a key is the lowest one not yet
      taken. */
  lemma FirstUnusedIs(catalog: seq<Entry>, taken: seq<nat>, norm: string, x: nat)
    requires x < |catalog| && Normalize(catalog[x].word) == norm && x !in taken
    requires forall j :: 0 <= j < x && Normalize(catalog[j].word) == norm ==> j in taken
    ensures FirstUnusedFrom(catalog, taken, norm, 0) == x
  {
  }

  /** One more name converts to one more position. */
  lemma LegacyPositionsStep(catalog: seq<Entry>, names: seq<string>, init: seq<nat>, x: int)
    requires names != [] && LegacyPositions(catalog, names[..|names| - 1]) == init
    requires FirstUnusedFrom(catalog, init, names[|names| - 1], 0) == x
    ensures LegacyPositions(catalog, names) == if x == -1 then init else init + [x]
  {
  }

  lemma SnocSplit(s: seq<nat>)
    requires s != []
    ensures s[..|s| - 1] + [s[|s| - 1]] == s
  {
  }

  lemma NoDupsLast(s: seq<nat>)
    requires NoDups(s) && s != []
    ensures s[|s| - 1] !in s[..|s| - 1]
  {
    var m := |s| - 1;
    forall p | 0 <= p < m ensures s[..m][p] != s[m] {
      assert s[..m][p] == s[p];
    }
  }

  lemma FirstComeFirstLast(catalog: seq<Entry>, revealed: seq<nat>)
    requires AllBelow(revealed, |catalog|) && FirstComeFirst(catalog, revealed) && revealed != []
    ensures var m := |revealed| - 1;
      forall j :: 0 <= j < revealed[m] && Normalize(catalog[j].word) == Normalize(catalog[revealed[m]].word) ==>
        j in revealed[..m]
  {
  }

  lemma FirstComeFirstPrefix(catalog: seq<Entry>, revealed: seq<nat>, m: nat)
    requires AllBelow(revealed, |catalog|) && FirstComeFirst(catalog, revealed) && m <= |revealed|
    ensures AllBelow(revealed[..m], |catalog|) && FirstComeFirst(catalog, revealed[..m])
  {
    var init := revealed[..m];
    forall p, j | 0 <= p < |init| && 0 <= j < init[p]
      && Normalize(catalog[j].word) == Normalize(catalog[init[p]].word)
      ensures j in init[..p]
    {
      assert init[p] == revealed[p] && init[..p] == revealed[..p];
    }
  }

  /** Converting the names of a reveal order back gives that order exactly
      when positions sharing a key were revealed lowest first; in particular
      for any order over a catalogue whose keys are distinct. */
  lemma {:induction false} LegacyRoundTrip(catalog: seq<Entry>, revealed: seq<nat>)
    requires NoDups(revealed) && AllBelow(revealed, |catalog|)
    requires FirstComeFirst(catalog, revealed)
    ensures LegacyPositions(catalog, NamesOf(catalog, revealed)) == revealed
  {
    if revealed != [] {
      var m := |revealed| - 1;
      var init := revealed[..m];
      var last := revealed[m];
      var names := NamesOf(catalog, revealed);
      assert names[..m] == NamesOf(catalog, init);
      FirstComeFirstPrefix(catalog, revealed, m);
      LegacyRoundTrip(catalog, init);
      var key := Normalize(catalog[last].word);
      NoDupsLast(revealed);
      FirstComeFirstLast(catalog, revealed);
      FirstUnusedIs(catalog, init, key, last);
      assert names[..|names| - 1] == names[..m] && names[|names| - 1] == key;
      LegacyPositionsStep(catalog, names, init, last);
      SnocSplit(revealed);
    }
  }

  // ---------------------------------------------------------------------
  // The current format

  /** `all.map(Number).filter(n => n >= 0 && n < len)`: the in-range entries,
      in order. */
  function InRange(n: nat, xs: seq<int>): (r: seq<nat>)
    ensures |r| <= |xs|
    ensures AllBelow(r, n)
    ensures forall x: int :: x in r <==> x in xs && 0 <= x < n
  {
    if xs == [] then []
    else
      var rest := InRange(n, xs[1..]);
      if 0 <= xs[0] < n then [xs[0] as nat] + rest else rest
  }

  /** The filter keeps a sequence that is already in range unchanged. */
  lemma {:induction false} InRangeKeeps(n: nat, xs: seq<int>)
    requires forall i :: 0 <= i < |xs| ==> 0 <= xs[i] < n
    ensures InRange(n, xs) == xs
  {
    if xs != [] {
      InRangeKeeps(n, xs[1..]);
    }
  }

  /** The filter distributes over concatenation, so it keeps the in-range
      entries in their stored order and with their repetitions. */
  lemma {:induction false} InRangeAppend(n: nat, a: seq<int>, b: seq<int>)
    ensures InRange(n, a + b) == InRange(n, a) + InRange(n, b)
  {
    if a == [] {
      assert a + b == b;
    } else {
      assert (a + b)[0] == a[0];
      assert (a + b)[1..] == a[1..] + b;
      InRangeAppend(n, a[1..], b);
    }
  }

  /** Loading a current-format record whose `all` entries are all catalogue
      positions restores that exact sequence, order and repetitions included. */
  lemma LoadKeepsStoredOrder(catalog: seq<Entry>, all: seq<int>, user: Field)
    requires forall i :: 0 <= i < |all| ==> 0 <= all[i] < |catalog|
    ensures Load(catalog, Current(Numbers(all), user)).revealed == all
  {
    InRangeKeeps(|catalog|, all);
  }

  /** The in-range entries of the stored `user` array, as a set. */
  function UserSet(n: nat, xs: seq<int>): (r: set<nat>)
    ensures forall x: int :: x in r <==> x in xs && 0 <= x < n
  {
    set x: nat | x in xs && x < n
  }

  /** `user.forEach(x => { if in range, userRevealed.add(x) })`. */
  method CollectUser(n: nat, xs: seq<int>) returns (user: set<nat>)
    ensures user == UserSet(n, xs)
  {
    user := {};
    var i := 0;
    while i < |xs|
      invariant 0 <= i <= |xs|
      invariant user == UserSet(n, xs[..i])
    {
      assert xs[..i + 1] == xs[..i] + [xs[i]];
      if 0 <= xs[i] < n {
        user := user + {xs[i] as nat};
      }
      i := i + 1;
    }
    assert xs[..|xs|] == xs;
  }

  function FieldPositions(n: nat, f: Field): seq<nat> {
    match f
    case NotAnArray => []
    case Numbers(xs) => InRange(n, xs)
  }

  function FieldSet(n: nat, f: Field): set<nat> {
    match f
    case NotAnArray => {}
    case Numbers(xs) => UserSet(n, xs)
  }

  /** The cursor set after loading: on the last revealed position. */
  function Loaded(revealed: seq<nat>, userRevealed: set<nat>): State {
    State(revealed, userRevealed, if |revealed| > 0 then |revealed| - 1 else -1)
  }

  /** The start-up state: the stored positions and the cursor on the last. */
  function Load(catalog: seq<Entry>, stored: Stored): (r: State)
    ensures Valid(|catalog|, r)
    ensures r.currentIndex == |r.revealed| - 1
    ensures stored.Absent? ==> r == Empty
    ensures stored.Legacy? ==> Consistent(r) && r.userRevealed == Elems(r.revealed)
    ensures stored.Current? ==>
      && (forall x: int :: x in r.revealed <==> stored.all.Numbers? && x in stored.all.values && 0 <= x < |catalog|)
      && (forall x: int :: x in r.userRevealed <==> stored.user.Numbers? && x in stored.user.values && 0 <= x < |catalog|)
  {
    match stored
    case Absent => Loaded([], {})
    case Legacy(names) =>
      var p := LegacyPositions(catalog, names);
      Loaded(p, Elems(p))
    case Current(all, user) => Loaded(FieldPositions(|catalog|, all), FieldSet(|catalog|, user))
  }

  /** `save`: the ordered positions and the user's set as a list. */
  function Save(n: nat, s: State): (r: Stored)
    ensures r.Current? && r.all == Numbers(s.revealed) && r.user.Numbers?
    ensures Valid(n, s) ==> forall x: int :: x in r.user.values <==> x in s.userRevealed
  {
    PositionsBelow(n);
    Current(Numbers(s.revealed), Numbers(Keep(Range(n), s.userRevealed)))
  }

  /** Loading what `save` wrote gives back the state, with the cursor moved
      to the last revealed position. */
  lemma SaveLoadRoundTrip(catalog: seq<Entry>, s: State)
    requires Valid(|catalog|, s)
    ensures Load(catalog, Save(|catalog|, s)) == s.(currentIndex := |s.revealed| - 1)
  {
    var n := |catalog|;
    InRangeKeeps(n, s.revealed);
    var saved := Save(n, s);
    assert UserSet(n, saved.user.values) == s.userRevealed;
  }
}
