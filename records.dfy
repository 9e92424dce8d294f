/** Shared value types: an Option, a byte, and the insertion-ordered string-keyed
    record that every JavaScript object used as a dictionary is modelled by
    (task maps, configuration maps, capture maps, asset maps, `--var` maps). */
module Records {

  datatype Option<T> = None | Some(value: T)

  /** An unsigned 8-bit value, an element of a `Uint8Array`. */
  type Byte = x: int | 0 <= x < 256

  /** A JavaScript object used as a dictionary: its own keys in insertion
      order, and the value stored under each. Assigning to a key that is
      already present keeps its position; a new key goes last. */
  datatype Rec<V> = Rec(keys: seq<string>, vals: map<string, V>) {

    /** The keys are listed once each, and exactly the listed keys have values. */
    ghost predicate Valid() {
      && (forall i, j :: 0 <= i < j < |keys| ==> keys[i] != keys[j])
      && (forall k :: k in vals <==> k in keys)
    }

    /** `obj[k] = v` */
    function Put(k: string, v: V): (r: Rec<V>)
      ensures Valid() ==> r.Valid()
      ensures r.vals == vals[k := v]
      ensures k in vals ==> r.keys == keys
      ensures k !in vals ==> r.keys == keys + [k]
    {
      if k in vals then Rec(keys, vals[k := v]) else Rec(keys + [k], vals[k := v])
    }

    /** `obj[k]`, with None standing for `undefined` (an absent key). */
    function Get(k: string): Option<V> {
      if k in vals then Some(vals[k]) else None
    }
  }

  /** `{}` */
  function Empty<V>(): (r: Rec<V>)
    ensures r.Valid() && r.keys == [] && r.vals == map[]
  {
    Rec([], map[])
  }

  /** `m || {}` for an optional record, and the `= {}` default of a record
      parameter. */
  function OrEmpty<V>(m: Option<Rec<V>>): (r: Rec<V>)
    ensures m.Some? ==> r == m.value
    ensures m.None? ==> r == Empty()
  {
    if m.Some? then m.value else Empty()
  }

  /** The record built by assigning the given pairs one after another, as
      `Object.fromEntries` and a loop of assignments both do. */
  function FromPairs<V>(pairs: seq<(string, V)>): (r: Rec<V>)
    ensures r.Valid()
    ensures forall i :: 0 <= i < |pairs| ==> pairs[i].0 in r.vals
    ensures forall k :: k in r.vals ==> exists i :: 0 <= i < |pairs| && pairs[i].0 == k
  {
    if |pairs| == 0 then Empty()
    else
      var init := FromPairs(pairs[..|pairs| - 1]);
      assert forall i :: 0 <= i < |pairs| - 1 ==> pairs[..|pairs| - 1][i] == pairs[i];
      init.Put(pairs[|pairs| - 1].0, pairs[|pairs| - 1].1)
  }

  /** The keys of the pairs, in order. */
  function PairKeys<V>(pairs: seq<(string, V)>): (ks: seq<string>)
    ensures |ks| == |pairs| && forall i :: 0 <= i < |pairs| ==> ks[i] == pairs[i].0
  {
    seq(|pairs|, i requires 0 <= i < |pairs| => pairs[i].0)
  }

  /** Each element once, where it first occurs. */
  function FirstOccurrences(ks: seq<string>): (r: seq<string>)
    ensures forall x :: x in r <==> x in ks
    decreases |ks|
  {
    if ks == [] then []
    else
      var init := ks[..|ks| - 1];
      assert ks == init + [ks[|ks| - 1]];
      var d := FirstOccurrences(init);
      if ks[|ks| - 1] in d then d else d + [ks[|ks| - 1]]
  }

  /** The index of the first occurrence of `x` in `s`. */
  function Position(s: seq<string>, x: string): (i: nat)
    requires x in s
    ensures i < |s| && s[i] == x && x !in s[..i]
  {
    if s[0] == x then 0 else 1 + Position(s[1..], x)
  }

  /** `FirstOccurrences` lists every element once, in the order of their
      first occurrences. */
  lemma {:induction false} FirstOccurrencesOrder(ks: seq<string>)
    ensures forall i, j :: 0 <= i < j < |FirstOccurrences(ks)| ==> FirstOccurrences(ks)[i] != FirstOccurrences(ks)[j]
    ensures forall i, j :: 0 <= i < j < |FirstOccurrences(ks)| ==>
      Position(ks, FirstOccurrences(ks)[i]) < Position(ks, FirstOccurrences(ks)[j])
    decreases |ks|
  {
    if ks != [] {
      var n := |ks| - 1;
      var init := ks[..n];
      FirstOccurrencesOrder(init);
      var d := FirstOccurrences(init);
      assert init + ks[n..] == ks;
      var r := FirstOccurrences(ks);
      if ks[n] !in d {
        assert ks[n] !in init;
        PositionLast(ks);
        assert r == d + [ks[n]];
        forall i, j | 0 <= i < j < |r|
          ensures r[i] != r[j] && Position(ks, r[i]) < Position(ks, r[j])
        {
          assert r[i] == d[i] && d[i] in d && d[i] in init;
          PositionPrefix(init, ks[n..], d[i]);
          if j < |d| {
            assert r[j] == d[j] && d[j] in d && d[j] in init;
            PositionPrefix(init, ks[n..], d[j]);
            assert d[i] != d[j] && Position(init, d[i]) < Position(init, d[j]);
          } else {
            assert r[j] == ks[n];
            assert Position(ks, ks[n]) == n;
            assert Position(init, d[i]) < n;
            assert r[i] != r[j];
          }
        }
      } else {
        assert r == d;
        forall i, j | 0 <= i < j < |r|
          ensures Position(ks, r[i]) < Position(ks, r[j])
        {
          assert d[i] in d && d[j] in d && d[i] in init && d[j] in init;
          PositionPrefix(init, ks[n..], d[i]);
          PositionPrefix(init, ks[n..], d[j]);
          assert Position(init, d[i]) < Position(init, d[j]);
        }
      }
    }
  }

  /** The first occurrence in a prefix is the first occurrence overall. */
  lemma {:induction false} PositionPrefix(a: seq<string>, b: seq<string>, x: string)
    requires x in a
    ensures x in a + b && Position(a + b, x) == Position(a, x)
    decreases |a|
  {
    assert (a + b)[0] == a[0];
    if a[0] != x {
      assert a == [a[0]] + a[1..];
      assert (a + b)[1..] == a[1..] + b;
      PositionPrefix(a[1..], b, x);
    }
  }

  /** An element that occurs only last is found last. */
  lemma {:induction false} PositionLast(ks: seq<string>)
    requires |ks| > 0 && ks[|ks| - 1] !in ks[..|ks| - 1]
    ensures Position(ks, ks[|ks| - 1]) == |ks| - 1
  {
  }

  /** Assigning the pairs in order lists each key once, at its first
      assignment: the key order of `Object.fromEntries`. */
  lemma {:induction false} FromPairsKeys<V>(pairs: seq<(string, V)>)
    ensures FromPairs(pairs).keys == FirstOccurrences(PairKeys(pairs))
    decreases |pairs|
  {
    if pairs != [] {
      var init := pairs[..|pairs| - 1];
      FromPairsKeys(init);
      assert PairKeys(pairs)[..|pairs| - 1] == PairKeys(init);
    }
  }

  /** The last assignment to a key decides its value. */
  lemma {:induction false} FromPairsLastWins<V>(pairs: seq<(string, V)>, i: nat)
    requires i < |pairs|
    requires forall j :: i < j < |pairs| ==> pairs[j].0 != pairs[i].0
    ensures pairs[i].0 in FromPairs(pairs).vals
    ensures FromPairs(pairs).vals[pairs[i].0] == pairs[i].1
  {
    if i < |pairs| - 1 {
      var init := pairs[..|pairs| - 1];
      assert forall j :: i < j < |init| ==> init[j] == pairs[j];
      FromPairsLastWins(init, i);
    }
  }
}
