/** Configuration helpers of src/utils.ts: the first-non-empty-wins merge of
    a plugin-derived configuration into the user's, the flattening of nested
    configuration into environment variables, and the extraction of a
    template's version from its URL. */
module ConfigUtils {
  import opened Records
  import opened Values
  import opened Strings

  /** A parsed configuration file. `spec` absent is modelled as "" (the only
      reader, `config.spec || ""`, cannot tell them apart); the three maps may
      be absent. Its fields are updated in place by `mergeConfigurations` and
      by `parseTasks`. */
  class Configuration {
    var spec: string
    var config: Option<Rec<Value>>
    var generates: Option<Rec<Value>>
    var tasks: Option<Rec<Value>>

    ghost predicate Valid()
      reads this
    {
      && (config.Some? ==> config.value.Valid())
      && (generates.Some? ==> generates.value.Valid())
      && (tasks.Some? ==> tasks.value.Valid())
    }

    constructor (spec: string, config: Option<Rec<Value>>, generates: Option<Rec<Value>>,
                 tasks: Option<Rec<Value>>)
      ensures this.spec == spec && this.config == config
      ensures this.generates == generates && this.tasks == tasks
    {
      this.spec := spec;
      this.config := config;
      this.generates := generates;
      this.tasks := tasks;
    }
  }

  // ---------------------------------------------------------------------------
  // merge

  /** `Object.fromEntries(Object.entries(m).map(([k, v]) => [k.trim(), v]))`:
      the same values under trimmed keys; when two keys trim alike the later
      value is kept at the earlier position. */
  function TrimKeys<V>(m: Rec<V>): (r: Rec<V>)
    requires m.Valid()
    ensures r.Valid()
  {
    FromPairs(TrimmedPairs(m))
  }

  function TrimmedPairs<V>(m: Rec<V>): (pairs: seq<(string, V)>)
    requires m.Valid()
    ensures |pairs| == |m.keys|
    ensures forall i :: 0 <= i < |m.keys| ==> pairs[i] == (Trim(m.keys[i]), m.vals[m.keys[i]])
  {
    seq(|m.keys|, i requires 0 <= i < |m.keys| => (Trim(m.keys[i]), m.vals[m.keys[i]]))
  }

  /** The keys of `TrimKeys(m)` are exactly the trimmed keys of `m`. */
  lemma TrimKeysKeys<V>(m: Rec<V>, k: string)
    requires m.Valid()
    ensures k in TrimKeys(m).vals <==> exists i :: 0 <= i < |m.keys| && Trim(m.keys[i]) == k
  {
    var pairs := TrimmedPairs(m);
    if k in TrimKeys(m).vals {
      var i :| 0 <= i < |pairs| && pairs[i].0 == k;
      assert Trim(m.keys[i]) == k;
    }
    if exists i :: 0 <= i < |m.keys| && Trim(m.keys[i]) == k {
      var i :| 0 <= i < |m.keys| && Trim(m.keys[i]) == k;
      assert pairs[i].0 == k;
    }
  }

  /** The keys of `m`, trimmed, in the record's order. */
  function TrimmedKeys<V>(m: Rec<V>): (ks: seq<string>)
    ensures |ks| == |m.keys| && forall i :: 0 <= i < |m.keys| ==> ks[i] == Trim(m.keys[i])
  {
    seq(|m.keys|, i requires 0 <= i < |m.keys| => Trim(m.keys[i]))
  }

  /** `TrimKeys` keeps the record's key order: each trimmed key once, at the
      position where it first appears. */
  lemma TrimKeysOrder<V>(m: Rec<V>)
    requires m.Valid()
    ensures TrimKeys(m).keys == FirstOccurrences(TrimmedKeys(m))
  {
    FromPairsKeys(TrimmedPairs(m));
    assert PairKeys(TrimmedPairs(m)) == TrimmedKeys(m);
  }

  /** A merged record lists the base's trimmed keys first, in the base's
      order; the addon's trimmed keys that the base lacks follow, in the
      addon's order. */
  lemma MergedKeyOrder(base: Rec<Value>, addon: Rec<Value>)
    requires base.Valid() && addon.Valid()
    ensures FirstOccurrences(TrimmedKeys(base)) <= Merged(base, addon).keys
    ensures Merged(base, addon).keys ==
      FirstOccurrences(TrimmedKeys(base))
        + NewKeys(FirstOccurrences(TrimmedKeys(addon)), FirstOccurrences(TrimmedKeys(base)))
  {
    TrimKeysOrder(base);
    TrimKeysOrder(addon);
    MergeAllKeyOrder(TrimKeys(base), TrimKeys(addon));
  }

  /** The whole merge loop appends the addon keys the base lacks. */
  lemma MergeAllKeyOrder(base: Rec<Value>, addon: Rec<Value>)
    requires base.Valid() && addon.Valid()
    ensures MergeAll(base, addon).keys == base.keys + NewKeys(addon.keys, base.keys)
  {
    MergePrefixKeyOrder(base, addon, |addon.keys|);
    assert addon.keys[..|addon.keys|] == addon.keys;
  }

  /** The elements of `ks` that `seen` lacks, in the order of `ks`. */
  function NewKeys(ks: seq<string>, seen: seq<string>): (r: seq<string>)
    ensures forall x :: x in r <==> x in ks && x !in seen
  {
    if ks == [] then []
    else
      var init := ks[..|ks| - 1];
      assert ks == init + [ks[|ks| - 1]];
      NewKeys(init, seen) + (if ks[|ks| - 1] in seen then [] else [ks[|ks| - 1]])
  }

  /** Each pass of the merge loop appends its key exactly when the record
      lacks it, so after `n` passes the keys are the base's followed by the
      visited addon keys the base lacks, in the addon's order. */
  lemma {:induction false} MergePrefixKeyOrder(base: Rec<Value>, addon: Rec<Value>, n: nat)
    requires n <= |addon.keys| && base.Valid() && addon.Valid()
    ensures MergePrefix(base, addon, n).keys == base.keys + NewKeys(addon.keys[..n], base.keys)
  {
    if n == 0 {
      assert addon.keys[..0] == [];
    } else {
      var key := addon.keys[n - 1];
      var acc := MergePrefix(base, addon, n - 1);
      MergePrefixKeyOrder(base, addon, n - 1);
      assert addon.keys[..n][..n - 1] == addon.keys[..n - 1];
      assert addon.keys[..n][n - 1] == key;
      LastKeyFresh(addon, n);
      MergePrefixHas(base, addon, n - 1, key);
      assert key in acc.vals <==> key in base.keys;
      assert MergePrefix(base, addon, n) == MergeStep(acc, addon, key);
    }
  }

  /** The state of `trimmedBase` after the merge loop has visited the first
      `n` keys of the trimmed addon. */
  function MergePrefix(base: Rec<Value>, addon: Rec<Value>, n: nat): (r: Rec<Value>)
    requires n <= |addon.keys| && base.Valid() && addon.Valid()
  {
    if n == 0 then base
    else MergeStep(MergePrefix(base, addon, n - 1), addon, addon.keys[n - 1])
  }

  /** Each pass keeps the record well formed. */
  lemma {:induction false} MergePrefixValid(base: Rec<Value>, addon: Rec<Value>, n: nat)
    requires n <= |addon.keys| && base.Valid() && addon.Valid()
    ensures MergePrefix(base, addon, n).Valid()
  {
    if n > 0 {
      MergePrefixValid(base, addon, n - 1);
    }
  }

  /** One pass of the merge loop: `key` is filled in from the addon when the
      accumulated value is null, undefined or `""`. */
  function MergeStep(acc: Rec<Value>, addon: Rec<Value>, key: string): (r: Rec<Value>)
    requires key in addon.vals
    ensures acc.Valid() ==> r.Valid()
  {
    if IsUnset(Lookup(acc, key)) then acc.Put(key, addon.vals[key]) else acc
  }

  /** What one pass changes: at most `key`, which is filled exactly when it
      was unset; the earlier keys stay first. */
  lemma MergeStepAt(acc: Rec<Value>, addon: Rec<Value>, key: string, k: string)
    requires key in addon.vals
    ensures acc.keys <= MergeStep(acc, addon, key).keys
    ensures k in MergeStep(acc, addon, key).vals <==> k in acc.vals || k == key
    ensures k != key ==> Lookup(MergeStep(acc, addon, key), k) == Lookup(acc, k)
    ensures k == key && IsUnset(Lookup(acc, k)) ==> MergeStep(acc, addon, key).vals[k] == addon.vals[k]
    ensures !IsUnset(Lookup(acc, k)) ==> Lookup(MergeStep(acc, addon, key), k) == Lookup(acc, k)
  {
  }

  /** The merge loop run over every key of an (already trimmed) addon. */
  function MergeAll(base: Rec<Value>, addon: Rec<Value>): (r: Rec<Value>)
    requires base.Valid() && addon.Valid()
    ensures r.Valid()
  {
    MergePrefixValid(base, addon, |addon.keys|);
    MergePrefix(base, addon, |addon.keys|)
  }

  /** `merge(base, addon)` as a value. */
  function Merged(base: Rec<Value>, addon: Rec<Value>): (r: Rec<Value>)
    requires base.Valid() && addon.Valid()
    ensures r.Valid()
  {
    MergeAll(TrimKeys(base), TrimKeys(addon))
  }

  /** After `n` steps the base keys still come first, in their order, and a
      key is present exactly when the base or a visited addon key has it. */
  lemma MergePrefixKeys(base: Rec<Value>, addon: Rec<Value>, n: nat, k: string)
    requires n <= |addon.keys| && base.Valid() && addon.Valid()
    ensures base.keys <= MergePrefix(base, addon, n).keys
    ensures k in MergePrefix(base, addon, n).vals <==> k in base.vals || k in addon.keys[..n]
  {
    MergePrefixOrder(base, addon, n);
    MergePrefixHas(base, addon, n, k);
  }

  /** The base keys stay first, in their order. */
  lemma {:induction false} MergePrefixOrder(base: Rec<Value>, addon: Rec<Value>, n: nat)
    requires n <= |addon.keys| && base.Valid() && addon.Valid()
    ensures base.keys <= MergePrefix(base, addon, n).keys
  {
    if n > 0 {
      var acc := MergePrefix(base, addon, n - 1);
      MergePrefixOrder(base, addon, n - 1);
      MergeStepAt(acc, addon, addon.keys[n - 1], "");
      PrefixTrans(base.keys, acc.keys, MergeStep(acc, addon, addon.keys[n - 1]).keys);
    }
  }

  /** A key is present exactly when the base or a visited addon key has it. */
  lemma {:induction false} MergePrefixHas(base: Rec<Value>, addon: Rec<Value>, n: nat, k: string)
    requires n <= |addon.keys| && base.Valid() && addon.Valid()
    ensures k in MergePrefix(base, addon, n).vals <==> k in base.vals || k in addon.keys[..n]
  {
    if n > 0 {
      MergePrefixHas(base, addon, n - 1, k);
      MergeStepAt(MergePrefix(base, addon, n - 1), addon, addon.keys[n - 1], k);
      PrefixStep(addon.keys, n, k);
    }
  }

  lemma PrefixTrans(a: seq<string>, b: seq<string>, c: seq<string>)
    requires a <= b && b <= c
    ensures a <= c
  {
  }

  /** `k` is among the first `n` elements exactly when it is among the first
      `n - 1` or is the `n`-th. */
  lemma PrefixStep(ks: seq<string>, n: nat, k: string)
    requires 0 < n <= |ks|
    ensures k in ks[..n] <==> k in ks[..n - 1] || k == ks[n - 1]
  {
    assert ks[..n] == ks[..n - 1] + [ks[n - 1]];
  }

  /** After `n` steps an addon value has been copied where the base value
      was unset. */
  lemma {:induction false} MergePrefixFills(base: Rec<Value>, addon: Rec<Value>, n: nat, k: string)
    requires n <= |addon.keys| && base.Valid() && addon.Valid()
    requires k in addon.keys[..n] && IsUnset(Lookup(base, k))
    ensures k in MergePrefix(base, addon, n).vals
    ensures MergePrefix(base, addon, n).vals[k] == addon.vals[k]
  {
    PrefixStep(addon.keys, n, k);
    var key := addon.keys[n - 1];
    var acc := MergePrefix(base, addon, n - 1);
    assert MergePrefix(base, addon, n) == MergeStep(acc, addon, key);
    if k == key {
      LastKeyFresh(addon, n);
      MergePrefixUntouched(base, addon, n - 1, k);
      MergeStepAt(acc, addon, key, k);
    } else {
      MergePrefixFills(base, addon, n - 1, k);
      MergeStepKeeps(acc, addon, key, k);
    }
  }

  /** A pass for another key keeps a present value. */
  lemma MergeStepKeeps(acc: Rec<Value>, addon: Rec<Value>, key: string, k: string)
    requires key in addon.vals && k != key && k in acc.vals
    ensures k in MergeStep(acc, addon, key).vals && MergeStep(acc, addon, key).vals[k] == acc.vals[k]
  {
  }

  /** The `n`-th key of a record is not among the keys before it. */
  lemma LastKeyFresh<V>(m: Rec<V>, n: nat)
    requires m.Valid() && 0 < n <= |m.keys|
    ensures m.keys[n - 1] !in m.keys[..n - 1]
  {
    assert forall j :: 0 <= j < n - 1 ==> m.keys[..n - 1][j] == m.keys[j];
  }

  /** A key no visited addon key names keeps its base value (or absence). */
  lemma {:induction false} MergePrefixUntouched(base: Rec<Value>, addon: Rec<Value>, n: nat, k: string)
    requires n <= |addon.keys| && base.Valid() && addon.Valid()
    requires k !in addon.keys[..n]
    ensures Lookup(MergePrefix(base, addon, n), k) == Lookup(base, k)
  {
    if n > 0 {
      PrefixStep(addon.keys, n, k);
      MergePrefixUntouched(base, addon, n - 1, k);
      MergeStepAt(MergePrefix(base, addon, n - 1), addon, addon.keys[n - 1], k);
    }
  }

  /** A base value that is set is never overwritten. */
  lemma {:induction false} MergePrefixKeepsSet(base: Rec<Value>, addon: Rec<Value>, n: nat, k: string)
    requires n <= |addon.keys| && base.Valid() && addon.Valid()
    requires k in base.vals && !IsUnset(base.vals[k])
    ensures Lookup(MergePrefix(base, addon, n), k) == base.vals[k]
  {
    if n > 0 {
      MergePrefixKeepsSet(base, addon, n - 1, k);
      MergeStepAt(MergePrefix(base, addon, n - 1), addon, addon.keys[n - 1], k);
    }
  }

  /** The properties of the merge loop over whole (trimmed) maps: the key set
      is the union of the two key sets, an addon value lands exactly where the
      base value is null, undefined or "", and every other base value (0 and
      false included) survives. */
  lemma MergeAllAt(base: Rec<Value>, addon: Rec<Value>, k: string)
    requires base.Valid() && addon.Valid()
    ensures base.keys <= MergeAll(base, addon).keys
    ensures k in MergeAll(base, addon).vals <==> k in base.vals || k in addon.vals
    ensures k in addon.vals && IsUnset(Lookup(base, k)) ==> MergeAll(base, addon).vals[k] == addon.vals[k]
    ensures k in base.vals && !IsUnset(base.vals[k]) ==> MergeAll(base, addon).vals[k] == base.vals[k]
    ensures k in base.vals && k !in addon.vals ==> MergeAll(base, addon).vals[k] == base.vals[k]
  {
    var n := |addon.keys|;
    assert addon.keys[..n] == addon.keys;
    MergePrefixKeys(base, addon, n, k);
    if k in addon.vals && IsUnset(Lookup(base, k)) {
      MergePrefixFills(base, addon, n, k);
    }
    if k in base.vals && !IsUnset(base.vals[k]) {
      MergePrefixKeepsSet(base, addon, n, k);
    }
    if k in base.vals && k !in addon.vals {
      MergePrefixUntouched(base, addon, n, k);
    }
  }

  /** Merging the same addon a second time changes nothing. */
  lemma MergedIdempotent(base: Rec<Value>, addon: Rec<Value>, k: string)
    requires base.Valid() && addon.Valid()
    requires forall i :: 0 <= i < |base.keys| ==> Trim(base.keys[i]) == base.keys[i]
    requires forall i :: 0 <= i < |addon.keys| ==> Trim(addon.keys[i]) == addon.keys[i]
    ensures var once := Merged(base, addon);
      k in once.vals ==> k in Merged(once, addon).vals && Merged(once, addon).vals[k] == once.vals[k]
  {
    var once := Merged(base, addon);
    var tb, ta := TrimKeys(base), TrimKeys(addon);
    MergeAllAt(tb, ta, k);
    MergedKeysTrimmed(base, addon);
    var to := TrimKeys(once);
    MergeAllAt(to, ta, k);
    TrimKeysIdentity(base, k);
    TrimKeysIdentity(addon, k);
    TrimKeysIdentity(once, k);
  }

  /** Every key of a merge result is already trimmed. */
  lemma MergedKeysTrimmed(base: Rec<Value>, addon: Rec<Value>)
    requires base.Valid() && addon.Valid()
    ensures var r := Merged(base, addon);
      forall i :: 0 <= i < |r.keys| ==> Trim(r.keys[i]) == r.keys[i]
  {
    var r := Merged(base, addon);
    var tb, ta := TrimKeys(base), TrimKeys(addon);
    forall i | 0 <= i < |r.keys| ensures Trim(r.keys[i]) == r.keys[i] {
      var k := r.keys[i];
      assert k in r.vals;
      MergeAllAt(tb, ta, k);
      TrimKeysKeys(base, k);
      TrimKeysKeys(addon, k);
      if k in tb.vals {
        var j :| 0 <= j < |base.keys| && Trim(base.keys[j]) == k;
        TrimIdempotent(base.keys[j]);
      } else {
        var j :| 0 <= j < |addon.keys| && Trim(addon.keys[j]) == k;
        TrimIdempotent(addon.keys[j]);
      }
    }
  }

  lemma TrimIdempotent(s: string)
    ensures Trim(Trim(s)) == Trim(s)
  {
    TrimOfTrimmed(Trim(s));
  }

  /** Trimming keys that are already trimmed changes neither keys nor values. */
  lemma TrimKeysIdentity(m: Rec<Value>, k: string)
    requires m.Valid()
    requires forall i :: 0 <= i < |m.keys| ==> Trim(m.keys[i]) == m.keys[i]
    ensures k in TrimKeys(m).vals <==> k in m.vals
    ensures k in m.vals ==> TrimKeys(m).vals[k] == m.vals[k]
  {
    var pairs := TrimmedPairs(m);
    TrimKeysKeys(m, k);
    if k in m.vals {
      var i :| 0 <= i < |m.keys| && m.keys[i] == k;
      assert pairs[i] == (k, m.vals[k]);
      forall j | i < j < |pairs| ensures pairs[j].0 != pairs[i].0 {
        assert pairs[j].0 == m.keys[j];
      }
      FromPairsLastWins(pairs, i);
    }
  }

  /** `merge`: trims the keys of both maps, then copies each addon value into
      the base where the base value is unset. */
  method Merge(base: Rec<Value>, addon: Rec<Value>) returns (r: Rec<Value>)
    requires base.Valid() && addon.Valid()
    ensures r == Merged(base, addon)
    ensures forall k :: k in r.vals <==> k in TrimKeys(base).vals || k in TrimKeys(addon).vals
  {
    var trimmedBase := TrimKeys(base);
    var trimmedAddon := TrimKeys(addon);
    for i := 0 to |trimmedAddon.keys|
      invariant trimmedBase == MergePrefix(TrimKeys(base), trimmedAddon, i)
    {
      var key := trimmedAddon.keys[i];
      var value := Lookup(trimmedBase, key);
      var isOriginalUnset := IsUnset(value);
      if isOriginalUnset {
        trimmedBase := trimmedBase.Put(key, trimmedAddon.vals[key]);
      }
    }
    r := trimmedBase;
    forall k | true ensures k in r.vals <==> k in TrimKeys(base).vals || k in TrimKeys(addon).vals {
      MergeAllAt(TrimKeys(base), trimmedAddon, k);
    }
  }

  /** `mergeConfigurations`: merges `config`, `generates` and `tasks`
      independently (absent maps read as `{}`), updates `base` in place and
      returns it. */
  method MergeConfigurations(base: Configuration, addon: Configuration) returns (r: Configuration)
    requires base.Valid() && addon.Valid()
    modifies base
    ensures r == base && base.Valid()
    ensures base.spec == old(base.spec)
    ensures base.config == Some(Merged(OrEmpty(old(base.config)), OrEmpty(old(addon.config))))
    ensures base.generates == Some(Merged(OrEmpty(old(base.generates)), OrEmpty(old(addon.generates))))
    ensures base.tasks == Some(Merged(OrEmpty(old(base.tasks)), OrEmpty(old(addon.tasks))))
  {
    var b1, a1 := OrEmpty(base.config), OrEmpty(addon.config);
    var b2, a2 := OrEmpty(base.generates), OrEmpty(addon.generates);
    var b3, a3 := OrEmpty(base.tasks), OrEmpty(addon.tasks);
    var config := Merge(b1, a1);
    var generates := Merge(b2, a2);
    var tasks := Merge(b3, a3);
    base.config := Some(config);
    base.generates := Some(generates);
    base.tasks := Some(tasks);
    r := base;
  }

  // ---------------------------------------------------------------------------
  // flatten

  /** `flatten(prefix, obj)`: one environment variable per scalar leaf, named
      by the path of array indexes and object keys joined with "_".
      Combining with map union keeps the later entry on a collision, as
      `Object.assign` in iteration order does. */
  function Flatten(prefix: string, v: Value): map<string, string>
    decreases v, 1
  {
    match v
    case Undefined => map[prefix := ""]
    case Null => map[prefix := ""]
    case Str(s) => map[prefix := s]
    case Arr(items) => FlattenItems(prefix, v, |items|)
    case Obj(entries) => FlattenEntries(prefix, v, |entries|)
    case Num(n) => map[prefix := IntToString(n)]
    case Bool(b) => map[prefix := if b then "true" else "false"]
  }

  /** The array loop after its first `n` elements. */
  function FlattenItems(prefix: string, v: Value, n: nat): map<string, string>
    requires v.Arr? && n <= |v.items|
    decreases v, 0, n
  {
    if n == 0 then map[]
    else FlattenItems(prefix, v, n - 1) + Flatten(prefix + "_" + IntToString(n - 1), v.items[n - 1])
  }

  /** The object loop after its first `n` entries. */
  function FlattenEntries(prefix: string, v: Value, n: nat): map<string, string>
    requires v.Obj? && n <= |v.entries|
    decreases v, 0, n
  {
    if n == 0 then map[]
    else
      assert v.entries[n - 1] in v.entries;
      FlattenEntries(prefix, v, n - 1) + Flatten(prefix + "_" + v.entries[n - 1].0, v.entries[n - 1].1)
  }

  /** A value that is neither an array nor an object gives one variable, named
      by the prefix: empty for null and undefined, the value's string form
      otherwise. */
  lemma FlattenScalar(prefix: string, v: Value)
    requires !v.Arr? && !v.Obj?
    ensures Flatten(prefix, v).Keys == {prefix}
    ensures Flatten(prefix, v)[prefix] == if v.Null? || v.Undefined? then "" else ToJsString(v)
  {
  }

  /** Every variable `flatten` produces is named with the prefix; below an
      array or object the prefix is followed by "_". */
  lemma {:induction false} FlattenPrefixed(prefix: string, v: Value)
    ensures forall k :: k in Flatten(prefix, v) ==> StartsWith(k, prefix)
    ensures v.Arr? || v.Obj? ==> forall k :: k in Flatten(prefix, v) ==> StartsWith(k, prefix + "_")
    decreases v, 1
  {
    match v
    case Arr(items) =>
      FlattenItemsPrefixed(prefix, v, |items|);
    case Obj(entries) =>
      FlattenEntriesPrefixed(prefix, v, |entries|);
    case _ =>
  }

  lemma {:induction false} FlattenItemsPrefixed(prefix: string, v: Value, n: nat)
    requires v.Arr? && n <= |v.items|
    ensures forall k :: k in FlattenItems(prefix, v, n) ==> StartsWith(k, prefix + "_") && StartsWith(k, prefix)
    decreases v, 0, n
  {
    if n > 0 {
      FlattenItemsPrefixed(prefix, v, n - 1);
      var p := prefix + "_" + IntToString(n - 1);
      FlattenPrefixed(p, v.items[n - 1]);
      forall k | k in Flatten(p, v.items[n - 1])
        ensures StartsWith(k, prefix + "_") && StartsWith(k, prefix)
      {
        StartsWithLonger(k, prefix + "_", p);
        StartsWithLonger(k, prefix, prefix + "_");
      }
    }
  }

  lemma {:induction false} FlattenEntriesPrefixed(prefix: string, v: Value, n: nat)
    requires v.Obj? && n <= |v.entries|
    ensures forall k :: k in FlattenEntries(prefix, v, n) ==> StartsWith(k, prefix + "_") && StartsWith(k, prefix)
    decreases v, 0, n
  {
    if n > 0 {
      FlattenEntriesPrefixed(prefix, v, n - 1);
      assert v.entries[n - 1] in v.entries;
      var p := prefix + "_" + v.entries[n - 1].0;
      FlattenPrefixed(p, v.entries[n - 1].1);
      forall k | k in Flatten(p, v.entries[n - 1].1)
        ensures StartsWith(k, prefix + "_") && StartsWith(k, prefix)
      {
        StartsWithLonger(k, prefix + "_", p);
        StartsWithLonger(k, prefix, prefix + "_");
      }
    }
  }

  /** Starting with a longer prefix implies starting with its own prefix. */
  lemma StartsWithLonger(k: string, short: string, long: string)
    requires StartsWith(long, short) && StartsWith(k, long)
    ensures StartsWith(k, short)
  {
    assert k[..|short|] == long[..|short|];
  }

  /** On a name collision inside an array, the element that comes later
      wins: the value under `k` is that of the last element producing `k`. */
  lemma {:induction false} FlattenItemsLastWins(prefix: string, v: Value, n: nat, i: nat, k: string)
    requires v.Arr? && i < n <= |v.items|
    requires k in Flatten(prefix + "_" + IntToString(i), v.items[i])
    requires forall j :: i < j < n ==> k !in Flatten(prefix + "_" + IntToString(j), v.items[j])
    ensures k in FlattenItems(prefix, v, n)
    ensures FlattenItems(prefix, v, n)[k] == Flatten(prefix + "_" + IntToString(i), v.items[i])[k]
  {
    if i < n - 1 {
      FlattenItemsLastWins(prefix, v, n - 1, i, k);
    }
  }

  /** On a name collision inside an object, the entry that comes later wins. */
  lemma {:induction false} FlattenEntriesLastWins(prefix: string, v: Value, n: nat, i: nat, k: string)
    requires v.Obj? && i < n <= |v.entries|
    requires k in Flatten(prefix + "_" + v.entries[i].0, v.entries[i].1)
    requires forall j :: i < j < n ==> k !in Flatten(prefix + "_" + v.entries[j].0, v.entries[j].1)
    ensures k in FlattenEntries(prefix, v, n)
    ensures FlattenEntries(prefix, v, n)[k] == Flatten(prefix + "_" + v.entries[i].0, v.entries[i].1)[k]
  {
    if i < n - 1 {
      FlattenEntriesLastWins(prefix, v, n - 1, i, k);
    }
  }

  // ---------------------------------------------------------------------------
  // calulateVersions

  /** An installed template as recorded in the template registry. */
  datatype InstalledTemplate = InstalledTemplate(name: string, url: string, version: Option<string>)

  predicate IsDigit(c: char) { '0' <= c <= '9' }

  /** The characters of `[.0-9a-zA-Z\-_^\/]`. */
  predicate IsVersionChar(c: char) {
    c == '.' || IsDigit(c) || ('a' <= c <= 'z') || ('A' <= c <= 'Z')
    || c == '-' || c == '_' || c == '^' || c == '/'
  }

  /** The capture of `/@(v[0-9][.0-9a-zA-Z\-_^\/]*?)\//` when a match starts
      at index `i`. The lazy repetition stops at the first "/" after the
      digit, so a match exists exactly when every character before that "/"
      is in the class. */
  function MatchAt(url: string, i: nat): (r: Option<string>)
    requires i <= |url|
  {
    if i + 3 <= |url| && url[i] == '@' && url[i + 1] == 'v' && IsDigit(url[i + 2]) && '/' in url[i + 3..] then
      var j := i + 3 + IndexOf(url[i + 3..], '/');
      if forall c :: c in url[i + 3..j] ==> IsVersionChar(c) then Some(url[i + 1..j]) else None
    else None
  }

  /** `versionRegex.exec(url)` searching from index `i`: the leftmost match. */
  function VersionFrom(url: string, i: nat): (r: Option<string>)
    requires i <= |url|
    decreases |url| - i
  {
    if i == |url| then None
    else if MatchAt(url, i).Some? then MatchAt(url, i)
    else VersionFrom(url, i + 1)
  }

  /** The version a template URL names, if any. */
  function VersionOf(url: string): (r: Option<string>)
  {
    VersionFrom(url, 0)
  }

  /** `exec` finds nothing exactly when no position from `i` on starts a
      match. */
  lemma {:induction false} VersionFromNone(url: string, i: nat)
    requires i <= |url|
    ensures VersionFrom(url, i).None? <==> forall k :: i <= k < |url| ==> MatchAt(url, k).None?
    decreases |url| - i
  {
    if i < |url| && MatchAt(url, i).None? {
      VersionFromNone(url, i + 1);
    }
  }

  /** The first position from `i` on that starts a match, or the length
      of the URL when there is none. */
  function FirstMatch(url: string, i: nat): (j: nat)
    requires i <= |url|
    ensures i <= j <= |url|
    decreases |url| - i
  {
    if i == |url| || MatchAt(url, i).Some? then i else FirstMatch(url, i + 1)
  }

  /** `exec` returns the leftmost match: no position before `FirstMatch`
      starts one, and the result is the match there, if any. */
  lemma {:induction false} VersionFromLeftmost(url: string, i: nat)
    requires i <= |url|
    ensures forall k :: i <= k < FirstMatch(url, i) ==> MatchAt(url, k).None?
    ensures FirstMatch(url, i) < |url| ==> MatchAt(url, FirstMatch(url, i)).Some?
    ensures VersionFrom(url, i) == if FirstMatch(url, i) < |url| then MatchAt(url, FirstMatch(url, i)) else None
    decreases |url| - i
  {
    if i < |url| && MatchAt(url, i).None? {
      VersionFromLeftmost(url, i + 1);
    }
  }

  /** What the extracted version looks like: "v", a digit, characters of the
      class and no "/"; and "@" + version + "/" occurs in the URL. */
  lemma {:induction false} VersionFromShape(url: string, i: nat)
    requires i <= |url|
    ensures var r := VersionFrom(url, i);
      r.Some? ==>
        && |r.value| >= 2 && r.value[0] == 'v' && IsDigit(r.value[1]) && '/' !in r.value
        && Contains(url, "@" + r.value + "/")
    decreases |url| - i
  {
    if i < |url| {
      var m := MatchAt(url, i);
      if m.Some? {
        var j := i + 3 + IndexOf(url[i + 3..], '/');
        assert m.value == url[i + 1..j];
        assert url[i..][..|m.value| + 2] == "@" + m.value + "/";
        assert '/' !in url[i + 3..j] by {
          assert url[i + 3..j] == url[i + 3..][..j - i - 3];
        }
        assert '/' !in m.value by {
          assert m.value == url[i + 1..i + 3] + url[i + 3..j];
        }
      } else {
        VersionFromShape(url, i + 1);
      }
    }
  }

  /** A URL of the form `<no @> "@" version "/" rest` yields that version. */
  lemma VersionOfWellFormed(pre: string, version: string, rest: string)
    requires '@' !in pre
    requires |version| >= 2 && version[0] == 'v' && IsDigit(version[1])
    requires forall c :: c in version ==> IsVersionChar(c) && c != '/'
    ensures VersionOf(pre + "@" + version + "/" + rest) == Some(version)
  {
    var url := pre + "@" + version + "/" + rest;
    var at := |pre|;
    var tail := url[at + 3..];
    assert tail == version[2..] + "/" + rest;
    assert forall c :: c in version[2..] ==> c in version;
    IndexOfPrefix(version[2..], '/', rest);
    var j := at + 3 + |version[2..]|;
    assert url[at] == '@' && url[at + 1] == 'v' && IsDigit(url[at + 2]);
    assert url[at + 3..j] == version[2..];
    assert url[at + 1..j] == version;
    assert MatchAt(url, at) == Some(version);
    VersionFromSkips(url, 0, at);
  }

  /** Positions that hold no "@" are skipped by the search. */
  lemma {:induction false} VersionFromSkips(url: string, i: nat, at: nat)
    requires i <= at < |url|
    requires forall j :: i <= j < at ==> url[j] != '@'
    ensures VersionFrom(url, i) == VersionFrom(url, at)
    decreases at - i
  {
    if i < at {
      VersionFromSkips(url, i + 1, at);
    }
  }

  /** One step of `calulateVersions`: a template with a version is kept; any
      other gets the version its URL names, when it names one. */
  function WithVersion(t: InstalledTemplate): (r: InstalledTemplate)
    ensures r.name == t.name && r.url == t.url
    ensures t.version.Some? && t.version.value != "" ==> r == t
    ensures r.version != t.version ==> r.version.Some? && r.version == VersionOf(t.url)
    // a template without a version takes the one its URL names, if any
    ensures !(t.version.Some? && t.version.value != "") && VersionOf(t.url).Some? ==> r.version == VersionOf(t.url)
    ensures !(t.version.Some? && t.version.value != "") && VersionOf(t.url).None? ==> r == t
  {
    if t.version.Some? && t.version.value != "" then t
    else
      match VersionOf(t.url)
      case Some(v) => t.(version := Some(v))
      case None => t
  }

  /** `calulateVersions`: fills in the version of every registry entry that
      lacks one; names, URLs, keys and set versions stay as they were. */
  method CalculateVersions(templates: Rec<InstalledTemplate>) returns (r: Rec<InstalledTemplate>)
    requires templates.Valid()
    ensures r.Valid() && r.keys == templates.keys
    ensures forall k :: k in r.vals ==> r.vals[k] == WithVersion(templates.vals[k])
    ensures forall k :: k in r.vals ==>
      && r.vals[k].name == templates.vals[k].name && r.vals[k].url == templates.vals[k].url
      && (templates.vals[k].version.Some? && templates.vals[k].version.value != "" ==> r.vals[k] == templates.vals[k])
    // every other entry gets the version its URL names, or stays as it was when it names none
    ensures forall k :: k in r.vals && !(templates.vals[k].version.Some? && templates.vals[k].version.value != "") ==>
      && (VersionOf(templates.vals[k].url).Some? ==> r.vals[k].version == VersionOf(templates.vals[k].url))
      && (VersionOf(templates.vals[k].url).None? ==> r.vals[k] == templates.vals[k])
  {
    r := templates;
    for i := 0 to |templates.keys|
      invariant r.Valid() && r.keys == templates.keys
      invariant forall j :: 0 <= j < i ==> r.vals[templates.keys[j]] == WithVersion(templates.vals[templates.keys[j]])
      invariant forall j :: i <= j < |templates.keys| ==> r.vals[templates.keys[j]] == templates.vals[templates.keys[j]]
    {
      var key := templates.keys[i];
      var tmpl := r.vals[key];
      if tmpl.version.Some? && tmpl.version.value != "" {
        continue;
      }
      var m := VersionOf(tmpl.url);
      if m.Some? {
        r := r.Put(key, tmpl.(version := m));
      }
    }
    forall k | k in r.vals ensures r.vals[k] == WithVersion(templates.vals[k]) {
      var j :| 0 <= j < |templates.keys| && templates.keys[j] == k;
    }
  }
}
