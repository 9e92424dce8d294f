/** The `--var key=value` option parser: each occurrence of the option is
    folded into the map of template variables collected so far. */
module VarOptions {
  import opened Records
  import opened Strings

  /** The parser's outcome: the updated map, or the validation error the
      command-line library reports with the given exit code. */
  datatype VarResult =
    | Collected(vars: Rec<string>)
    | ValidationError(message: string, exitCode: int)

  /** `varOptions.value(value, previous)`. An absent `previous` stands for
      the default `{}`. The key is the text before the first `=`, the value
      all the text after it. */
  function ParseVar(value: string, previous: Option<Rec<string>>): (r: VarResult)
    ensures r.ValidationError? <==> '=' !in value
    ensures r.ValidationError? ==>
      r.exitCode == 1 && r.message == "Variables must be in [key]=[value] syntax, but got \"" + value + "\"."
    ensures r.Collected? ==>
      exists i :: (0 <= i < |value| && value[i] == '=' && '=' !in value[..i]
        && r.vars == OrEmpty(previous).Put(value[..i], value[i + 1..]))
  {
    var idx := IndexOfOrMinus(value, '=');
    if idx == -1 then
      ValidationError("Variables must be in [key]=[value] syntax, but got \"" + value + "\".", 1)
    else
      var key := value[..idx];
      var val := value[idx + 1..];
      Collected(OrEmpty(previous).Put(key, val))
  }

  /** Writing a pair as `key=value` and parsing it gives the pair back,
      stored over the previous map; the value may be empty or hold more `=`. */
  lemma ParseVarRoundTrip(key: string, val: string, previous: Rec<string>)
    requires '=' !in key
    ensures ParseVar(key + "=" + val, Some(previous)) == Collected(previous.Put(key, val))
  {
    var s := key + "=" + val;
    IndexOfPrefix(key, '=', val);
    assert s[..|key|] == key;
    assert s[|key| + 1..] == val;
  }

  /** Only the parsed key changes: every other entry, and the key order up to
      a new key appended last, is as before. */
  lemma ParseVarFrame(value: string, previous: Rec<string>, k: string)
    requires previous.Valid()
    requires ParseVar(value, Some(previous)).Collected?
    ensures var r := ParseVar(value, Some(previous)).vars;
      && r.Valid()
      && (k != value[..IndexOf(value, '=')] ==> r.Get(k) == previous.Get(k))
      && (r.keys == previous.keys || r.keys == previous.keys + [value[..IndexOf(value, '=')]])
  {
  }

  /** The occurrences of the option, folded left to right as the
      command-line library does for a collecting option. */
  function CollectVars(values: seq<string>): (r: VarResult)
    ensures r.Collected? <==> AllAssign(values)
    ensures r.Collected? ==> r.vars.Valid()
    decreases |values|
  {
    if values == [] then Collected(Empty())
    else
      LastSplit(values);
      match CollectVars(values[..|values| - 1])
      case ValidationError(m, c) => ValidationError(m, c)
      case Collected(vars) => ParseVar(values[|values| - 1], Some(vars))
  }

  /** Every occurrence is written `key=value`. */
  predicate AllAssign(values: seq<string>) {
    forall i :: 0 <= i < |values| ==> '=' in values[i]
  }

  /** Every occurrence holds `=` exactly when all but the last do and the
      last does. */
  lemma LastSplit(values: seq<string>)
    requires values != []
    ensures AllAssign(values) <==> AllAssign(values[..|values| - 1]) && '=' in values[|values| - 1]
  {
    var init := values[..|values| - 1];
    assert forall i :: 0 <= i < |init| ==> init[i] == values[i];
  }

  /** The error reported is the one for the first occurrence without `=`;
      the occurrences after it are not looked at. */
  lemma {:induction false} CollectFirstError(values: seq<string>, i: nat)
    requires i < |values| && '=' !in values[i]
    requires forall j :: 0 <= j < i ==> '=' in values[j]
    ensures CollectVars(values) == ParseVar(values[i], None)
    decreases |values|
  {
    var init := values[..|values| - 1];
    if i < |values| - 1 {
      CollectFirstError(init, i);
    } else {
      assert forall j :: 0 <= j < |init| ==> '=' in init[j];
    }
  }

  /** A repeated key keeps the value of its last occurrence. */
  lemma {:induction false} CollectLastWins(values: seq<string>, key: string, val: string, i: nat)
    requires CollectVars(values).Collected?
    requires '=' !in key && i < |values| && values[i] == key + "=" + val
    requires forall j :: i < j < |values| ==> !StartsWith(values[j], key + "=")
    ensures CollectVars(values).vars.Get(key) == Some(val)
    decreases |values|
  {
    var init := values[..|values| - 1];
    var before := CollectVars(init);
    var last := values[|values| - 1];
    assert before.Collected?;
    assert CollectVars(values) == ParseVar(last, Some(before.vars));
    if i == |values| - 1 {
      ParseVarRoundTrip(key, val, before.vars);
    } else {
      CollectLastWins(init, key, val, i);
      OtherKey(last, key);
    }
  }

  /** An occurrence that does not start with `key=` writes some other key. */
  lemma OtherKey(value: string, key: string)
    requires '=' in value && '=' !in key && !StartsWith(value, key + "=")
    ensures value[..IndexOf(value, '=')] != key
  {
  }
}
