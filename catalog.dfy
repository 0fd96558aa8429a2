/** The catalogue of secret entries and its key-to-positions index
    (`buildNormalizedIndexMap`). An entry's identity is its position. */
module Catalog {
  import opened Seqs
  import opened Text

  datatype Entry = Entry(word: string, secret: string)

  /** The key that two catalogue positions share on purpose and that a guess
      reveals as a batch. */
  const NidoranKey: string := "nidoran"

  /** The normalised name of every position. */
  function Keys(catalog: seq<Entry>): seq<string> {
    seq(|catalog|, i requires 0 <= i < |catalog| => Normalize(catalog[i].word))
  }

  function KeySet(keys: seq<string>): set<string> {
    set i | 0 <= i < |keys| :: keys[i]
  }

  /** The positions whose key is `k`, in catalogue order. */
  function Matches(keys: seq<string>, k: string): (r: seq<nat>)
    ensures forall j :: 0 <= j < |r| ==> r[j] < |keys| && keys[r[j]] == k
    ensures forall i :: 0 <= i < |keys| && keys[i] == k ==> i in r
    ensures StrictlyAscending(r)
  {
    if keys == [] then []
    else
      var last := |keys| - 1;
      var p := Matches(keys[..last], k);
      if keys[last] == k then p + [last] else p
  }

  /** The index maps exactly the keys that occur to their positions. */
  predicate IndexOk(index: map<string, seq<nat>>, keys: seq<string>) {
    && index.Keys == KeySet(keys)
    && forall k :: k in index ==> index[k] == Matches(keys, k)
  }

  /** What the reveal state machine relies on of an index over `n` positions. */
  predicate IndexFits(n: nat, index: map<string, seq<nat>>) {
    forall k :: k in index ==> StrictlyAscending(index[k]) && AllBelow(index[k], n)
  }

  /** `buildNormalizedIndexMap`: one pass over the catalogue pushing each
      position onto the list of its key. Every position lands in exactly one
      list, the one under its own key; each list is ascending and non-empty. */
  method BuildIndexMap(catalog: seq<Entry>) returns (index: map<string, seq<nat>>)
    ensures IndexOk(index, Keys(catalog))
    ensures var keys := Keys(catalog);
      forall i :: 0 <= i < |keys| ==> keys[i] in index && i in index[keys[i]]
    ensures var keys := Keys(catalog);
      forall k, x :: k in index && x in index[k] ==> x < |keys| && keys[x] == k
    ensures forall k :: k in index ==> index[k] != [] && StrictlyAscending(index[k])
  {
    ghost var keys := Keys(catalog);
    index := map[];
    var i := 0;
    while i < |catalog|
      invariant 0 <= i <= |catalog|
      invariant IndexOk(index, keys[..i])
    {
      ghost var before := index;
      var n := Normalize(catalog[i].word);
      assert keys[i] == n;
      if n !in index {
        index := index[n := []];
      }
      index := index[n := index[n] + [i]];
      IndexStep(keys, i, before, index);
      i := i + 1;
    }
    assert keys[..|catalog|] == keys;
    IndexOkPartitions(keys, index);
  }

  /** A correct index puts every position in the list of its own key and
      nowhere else, and no list is empty. */
  lemma IndexOkPartitions(keys: seq<string>, index: map<string, seq<nat>>)
    requires IndexOk(index, keys)
    ensures forall i :: 0 <= i < |keys| ==> keys[i] in index && i in index[keys[i]]
    ensures forall k, x :: k in index && x in index[k] ==> x < |keys| && keys[x] == k
    ensures forall k :: k in index ==> index[k] != [] && StrictlyAscending(index[k])
  {
    forall k | k in index ensures index[k] != [] {
      var j :| 0 <= j < |keys| && keys[j] == k;
      assert j in index[k];
    }
  }

  /** One push of `buildNormalizedIndexMap` extends a correct index of the
      first `i` positions to a correct index of the first `i + 1`. */
  lemma IndexStep(keys: seq<string>, i: nat, before: map<string, seq<nat>>, after: map<string, seq<nat>>)
    requires i < |keys| && IndexOk(before, keys[..i])
    requires after == before[keys[i] := (if keys[i] in before then before[keys[i]] else []) + [i]]
    ensures IndexOk(after, keys[..i + 1])
  {
    var pre, post := keys[..i], keys[..i + 1];
    assert post[..i] == pre && post[i] == keys[i];
    assert KeySet(post) == KeySet(pre) + {keys[i]} by {
      forall k | k in KeySet(post) ensures k in KeySet(pre) + {keys[i]} {
        var j :| 0 <= j < |post| && post[j] == k;
        if j < i { assert pre[j] == k; }
      }
      forall k | k in KeySet(pre) ensures k in KeySet(post) {
        var j :| 0 <= j < |pre| && pre[j] == k;
        assert post[j] == k;
      }
    }
    if keys[i] !in before {
      MatchedKeyOccurs(pre, keys[i]);
    }
  }

  /** A key with a match occurs in the catalogue. */
  lemma MatchedKeyOccurs(keys: seq<string>, k: string)
    ensures Matches(keys, k) != [] ==> k in KeySet(keys)
  {
    var m := Matches(keys, k);
    if m != [] {
      assert keys[m[0]] == k;
    }
  }
}
