/** The two ways the registry fills a Python dictionary from a list it appends
    to: unconditional assignment (`d[k] = i`, the later row wins) and assignment
    guarded by `if k in d` (the first row wins). Each is defined by the loop's
    step, one element at a time, and then characterised by lemmas. */
module IndexMaps {

  /** The dictionary left by `d[ks[i]] = i` for i = 0, 1, ... */
  function LastIndexMap<K>(ks: seq<K>): (m: map<K, int>)
    ensures forall k :: k in m ==> 0 <= m[k] < |ks| && ks[m[k]] == k
  {
    if ks == [] then map[]
    else LastIndexMap(ks[..|ks| - 1])[ks[|ks| - 1] := |ks| - 1]
  }

  /** The dictionary left by `if ks[i] not in d: d[ks[i]] = i` for i = 0, 1, ... */
  function FirstIndexMap<K>(ks: seq<K>): (m: map<K, int>)
    ensures forall k :: k in m ==> 0 <= m[k] < |ks| && ks[m[k]] == k
  {
    if ks == [] then map[]
    else
      var m := FirstIndexMap(ks[..|ks| - 1]);
      if ks[|ks| - 1] in m then m else m[ks[|ks| - 1] := |ks| - 1]
  }

  /** One more assignment: the appended key now maps to its own index. */
  lemma LastIndexMapAppend<K>(ks: seq<K>, k: K)
    ensures LastIndexMap(ks + [k]) == LastIndexMap(ks)[k := |ks|]
  {
    assert (ks + [k])[..|ks|] == ks;
  }

  /** One more guarded assignment: an unseen key maps to its own index, a seen one keeps its old index. */
  lemma FirstIndexMapAppend<K>(ks: seq<K>, k: K)
    ensures FirstIndexMap(ks + [k])
         == if k in FirstIndexMap(ks) then FirstIndexMap(ks) else FirstIndexMap(ks)[k := |ks|]
  {
    assert (ks + [k])[..|ks|] == ks;
  }

  /** Every listed key is in the dictionary, at the index of its LAST occurrence. */
  lemma {:induction false} LastIndexMapSpec<K>(ks: seq<K>, k: K)
    ensures k in LastIndexMap(ks) <==> k in ks
    ensures k in LastIndexMap(ks) ==>
              var i := LastIndexMap(ks)[k];
              0 <= i < |ks| && ks[i] == k && forall j :: i < j < |ks| ==> ks[j] != k
  {
    if ks != [] {
      var n := |ks| - 1;
      LastIndexMapSpec(ks[..n], k);
      assert ks == ks[..n] + [ks[n]];
      if k != ks[n] {
        assert k in ks <==> k in ks[..n];
      }
    }
  }

  /** Every listed key is in the dictionary, at the index of its FIRST occurrence. */
  lemma {:induction false} FirstIndexMapSpec<K>(ks: seq<K>, k: K)
    ensures k in FirstIndexMap(ks) <==> k in ks
    ensures k in FirstIndexMap(ks) ==>
              var i := FirstIndexMap(ks)[k];
              0 <= i < |ks| && ks[i] == k && forall j :: 0 <= j < i ==> ks[j] != k
  {
    if ks != [] {
      var n := |ks| - 1;
      FirstIndexMapSpec(ks[..n], k);
      assert ks == ks[..n] + [ks[n]];
      if k != ks[n] {
        assert k in ks <==> k in ks[..n];
      }
    }
  }

  /** Distinct keys never share an index. */
  lemma LastIndexMapInjective<K>(ks: seq<K>, k1: K, k2: K)
    requires k1 in LastIndexMap(ks) && k2 in LastIndexMap(ks)
    requires LastIndexMap(ks)[k1] == LastIndexMap(ks)[k2]
    ensures k1 == k2
  {
    LastIndexMapSpec(ks, k1);
    LastIndexMapSpec(ks, k2);
  }

  /** A key listed twice: the later index overwrites the earlier one. */
  lemma LastIndexMapOverwrites<K>(ks: seq<K>, i: int, j: int)
    requires 0 <= i < j < |ks| && ks[i] == ks[j]
    ensures ks[i] in LastIndexMap(ks) && LastIndexMap(ks)[ks[i]] >= j
  {
    LastIndexMapSpec(ks, ks[i]);
  }

  /** A key listed twice: the first index is kept. */
  lemma FirstIndexMapKeeps<K>(ks: seq<K>, i: int, j: int)
    requires 0 <= i < j < |ks| && ks[i] == ks[j]
    ensures ks[j] in FirstIndexMap(ks) && FirstIndexMap(ks)[ks[j]] <= i
  {
    FirstIndexMapSpec(ks, ks[j]);
  }

  /** Two lists that hold their keys at the same positions give the same
      dictionary, key for key. */
  lemma {:induction false} LastIndexMapParallel<A, B>(xs: seq<A>, ys: seq<B>, x: A, y: B)
    requires |xs| == |ys|
    requires forall i :: 0 <= i < |xs| ==> (xs[i] == x <==> ys[i] == y)
    ensures x in LastIndexMap(xs) <==> y in LastIndexMap(ys)
    ensures x in LastIndexMap(xs) ==> LastIndexMap(xs)[x] == LastIndexMap(ys)[y]
  {
    if xs != [] {
      var n := |xs| - 1;
      LastIndexMapParallel(xs[..n], ys[..n], x, y);
    }
  }
}
