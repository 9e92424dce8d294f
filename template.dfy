/** Project templates: the `{{ .name }}` placeholder substitution of
    `renderTemplate`, the `.tmpl` handling of `processFile`, and the split of
    template variables into provided and unresolved ones in `getUnresolved`. */
module Templates {
  import opened Records
  import opened Strings
  import opened Values

  // ---------------------------------------------------------------------------
  // One global replacement of `\{\{\s*\.KEY\s*\}\}`
  // ---------------------------------------------------------------------------

  /** The length of the placeholder for `key` that `s` starts with, if any:
      `{{`, white space, `.`, the key, white space, `}}`. Both white-space runs
      are followed by a non-space (`.` or `}`), so the only way the regular
      expression can match is with the longest runs. */
  function MatchLen(s: string, key: string): (r: Option<nat>)
    ensures r.Some? ==> 5 + |key| <= r.value <= |s|
  {
    if |s| >= 2 && s[..2] == "{{" then MatchDot(s, key, SkipSpaces(s, 2)) else None
  }

  /** The rest of a match once the white space after `{{` ends at `j`. */
  function MatchDot(s: string, key: string, j: nat): (r: Option<nat>)
    requires j <= |s|
    ensures r.Some? ==> j + 3 + |key| <= r.value <= |s|
  {
    if j < |s| && s[j] == '.' && StartsWith(s[j + 1..], key) then
      MatchClose(s, SkipSpaces(s, j + 1 + |key|))
    else None
  }

  /** The closing `}}` once the white space after the key ends at `k`. */
  function MatchClose(s: string, k: nat): (r: Option<nat>)
    ensures r.Some? ==> r.value == k + 2 <= |s|
  {
    if k + 2 <= |s| && s[k..k + 2] == "}}" then Some(k + 2) else None
  }

  /** `s.replaceAll(new RegExp("\\{\\{\\s*\\." + key + "\\s*\\}\\}", "gm"), rep)`:
      matches are taken left to right and never overlap; the scan resumes
      after each match. */
  function ReplaceAll(s: string, key: string, rep: string): string
    decreases |s|
  {
    if s == [] then []
    else match MatchLen(s, key)
      case Some(n) => rep + ReplaceAll(s[n..], key, rep)
      case None => [s[0]] + ReplaceAll(s[1..], key, rep)
  }

  /** A placeholder for `key` written with the white space `before` and
      `after` around the name. */
  function Placeholder(before: string, key: string, after: string): (p: string)
    ensures |p| == 5 + |before| + |key| + |after|
  {
    "{{" + before + "." + key + after + "}}"
  }

  predicate AllSpace(s: string) {
    forall i :: 0 <= i < |s| ==> IsSpace(s[i])
  }

  /** A placeholder at the head of the text is recognised whole. */
  lemma MatchPlaceholder(before: string, key: string, after: string, u: string)
    requires AllSpace(before) && AllSpace(after)
    ensures MatchLen(Placeholder(before, key, after) + u, key) == Some(|Placeholder(before, key, after)|)
  {
    PlaceholderShape(before, key, after, u);
    MatchShaped(Placeholder(before, key, after) + u, before, key, after);
  }

  /** Text laid out as a placeholder, followed by anything, is matched up to
      the closing `}}`. */
  lemma MatchShaped(s: string, before: string, key: string, after: string)
    requires AllSpace(before) && AllSpace(after)
    requires var j := 2 + |before|;
      var k := j + 1 + |key| + |after|;
      && |s| >= k + 2 && s[..2] == "{{" && s[2..j] == before && s[j] == '.'
      && StartsWith(s[j + 1..], key) && s[j + 1 + |key|..k] == after
      && s[k] == '}' && s[k..k + 2] == "}}"
    ensures MatchLen(s, key) == Some(5 + |before| + |key| + |after|)
  {
    var j := 2 + |before|;
    var k := j + 1 + |key| + |after|;
    SkipOver(s, 2, before);
    SkipOver(s, j + 1 + |key|, after);
    MatchFound(s, key, j, k);
  }

  /** The match `MatchLen` finds, given where its parts lie. */
  lemma MatchFound(s: string, key: string, j: nat, k: nat)
    requires 2 <= j < |s| && j + 1 + |key| <= k && k + 2 <= |s|
    requires s[..2] == "{{" && SkipSpaces(s, 2) == j && s[j] == '.' && StartsWith(s[j + 1..], key)
    requires SkipSpaces(s, j + 1 + |key|) == k && s[k..k + 2] == "}}"
    ensures MatchLen(s, key) == Some(k + 2)
  {
    assert MatchClose(s, k) == Some(k + 2);
    assert MatchDot(s, key, j) == Some(k + 2);
  }

  /** Where the parts of a placeholder lie in text that starts with it. */
  lemma PlaceholderShape(before: string, key: string, after: string, u: string)
    ensures var s := Placeholder(before, key, after) + u;
      var j := 2 + |before|;
      var k := j + 1 + |key| + |after|;
      && |s| >= k + 2 && s[..2] == "{{" && s[2..j] == before && s[j] == '.'
      && StartsWith(s[j + 1..], key) && s[j + 1 + |key|..k] == after
      && s[k] == '}' && s[k..k + 2] == "}}" && k + 2 == |Placeholder(before, key, after)|
  {
    var s := Placeholder(before, key, after) + u;
    var j := 2 + |before|;
    assert s[j + 1..][..|key|] == key;
  }

  /** Skipping white space from `i` passes exactly over a run `w` of spaces
      that is followed by a non-space. */
  lemma SkipOver(s: string, i: nat, w: string)
    requires i + |w| < |s| && s[i..i + |w|] == w && AllSpace(w) && !IsSpace(s[i + |w|])
    ensures SkipSpaces(s, i) == i + |w|
    decreases |w|
  {
    if |w| > 0 {
      assert s[i] == w[0];
      assert s[i + 1..i + |w|] == w[1..];
      SkipOver(s, i + 1, w[1..]);
    }
  }

  /** Text without `{` cannot start a match: it is copied unchanged. */
  lemma {:induction false} ReplaceLiteralPrefix(a: string, b: string, key: string, rep: string)
    requires '{' !in a
    ensures ReplaceAll(a + b, key, rep) == a + ReplaceAll(b, key, rep)
    decreases |a|
  {
    if a != [] {
      ReplaceLiteralStep(a, b, key, rep);
      ReplaceLiteralPrefix(a[1..], b, key, rep);
      ConsAppend(a, ReplaceAll(b, key, rep));
    } else {
      assert a + b == b;
    }
  }

  /** A first character other than `{` is copied and the scan goes on after
      it. */
  lemma ReplaceLiteralStep(a: string, b: string, key: string, rep: string)
    requires a != [] && '{' !in a
    ensures '{' !in a[1..]
    ensures ReplaceAll(a + b, key, rep) == [a[0]] + ReplaceAll(a[1..] + b, key, rep)
  {
    var s := a + b;
    assert s[0] == a[0] && a[0] in a;
    assert s[1..] == a[1..] + b;
    ReplaceNoMatchStep(s, key, rep);
    assert forall c :: c in a[1..] ==> c in a;
  }

  lemma ConsAppend(a: string, r: string)
    requires a != []
    ensures [a[0]] + (a[1..] + r) == a + r
  {
  }

  /** A text that does not open with `{` is copied one character and the
      scan goes on at the next. */
  lemma ReplaceNoMatchStep(s: string, key: string, rep: string)
    requires s != [] && s[0] != '{'
    ensures ReplaceAll(s, key, rep) == [s[0]] + ReplaceAll(s[1..], key, rep)
  {
    assert MatchLen(s, key) == None by {
      if |s| >= 2 { assert s[..2][0] == s[0]; }
    }
  }

  /** A placeholder at the head of the text is replaced by `rep`, and the
      scan goes on after it. */
  lemma ReplacePlaceholder(before: string, key: string, after: string, u: string, rep: string)
    requires AllSpace(before) && AllSpace(after)
    ensures ReplaceAll(Placeholder(before, key, after) + u, key, rep) == rep + ReplaceAll(u, key, rep)
  {
    var p := Placeholder(before, key, after);
    MatchPlaceholder(before, key, after, u);
    assert (p + u)[|p|..] == u;
  }

  /** Text without `{` is left as it is. */
  lemma ReplaceNoBrace(s: string, key: string, rep: string)
    requires '{' !in s
    ensures ReplaceAll(s, key, rep) == s
  {
    ReplaceLiteralPrefix(s, [], key, rep);
    assert s + [] == s;
  }

  // ---------------------------------------------------------------------------
  // renderTemplate
  // ---------------------------------------------------------------------------

  /** One iteration of the loop in `renderTemplate`: a falsy value is skipped,
      a truthy one replaces every placeholder of its key by its string form. */
  function RenderKey(contents: string, data: Rec<Value>, key: string): string {
    var value := Lookup(data, key);
    if !Truthy(value) then contents else ReplaceAll(contents, key, ToJsString(value))
  }

  /** The keys processed in order, each over the output of the previous one. */
  function RenderKeys(contents: string, data: Rec<Value>, keys: seq<string>): string
    decreases |keys|
  {
    if keys == [] then contents else RenderKeys(RenderKey(contents, data, keys[0]), data, keys[1..])
  }

  /** What `renderTemplate(contents, data)` returns: every key of `data`, in
      `Object.keys` order. */
  function Render(contents: string, data: Rec<Value>): string {
    RenderKeys(contents, data, data.keys)
  }

  /** `renderTemplate`: the loop over `Object.keys(data)`. */
  method RenderTemplate(contents: string, data: Rec<Value>) returns (r: string)
    ensures r == Render(contents, data)
  {
    r := contents;
    for i := 0 to |data.keys|
      invariant RenderKeys(r, data, data.keys[i..]) == Render(contents, data)
    {
      assert data.keys[i..][1..] == data.keys[i + 1..];
      var key := data.keys[i];
      var value := Lookup(data, key);
      if !Truthy(value) {
        continue;
      }
      r := ReplaceAll(r, key, ToJsString(value));
    }
  }

  /** Keys whose values are all falsy change nothing. */
  lemma {:induction false} RenderFalsy(contents: string, data: Rec<Value>, keys: seq<string>)
    requires forall i :: 0 <= i < |keys| ==> !Truthy(Lookup(data, keys[i]))
    ensures RenderKeys(contents, data, keys) == contents
    decreases |keys|
  {
    if keys != [] {
      RenderFalsy(contents, data, keys[1..]);
    }
  }

  /** When every value is falsy the template comes back verbatim,
      placeholders included. */
  lemma RenderAllFalsy(contents: string, data: Rec<Value>)
    requires forall k :: k in data.vals ==> !Truthy(data.vals[k])
    ensures Render(contents, data) == contents
  {
    RenderFalsy(contents, data, data.keys);
  }

  /** Text without `{` holds no placeholder: rendering leaves it unchanged. */
  lemma {:induction false} RenderNoBrace(contents: string, data: Rec<Value>, keys: seq<string>)
    requires '{' !in contents
    ensures RenderKeys(contents, data, keys) == contents
    decreases |keys|
  {
    if keys != [] {
      var v := Lookup(data, keys[0]);
      if Truthy(v) {
        ReplaceNoBrace(contents, keys[0], ToJsString(v));
      }
      RenderNoBrace(contents, data, keys[1..]);
    }
  }

  /** The keys the placeholder pattern can only match literally and whole:
      template variable names, which hold no brace and no white space. */
  predicate PlainKey(key: string) {
    forall i :: 0 <= i < |key| ==> key[i] != '{' && key[i] != '}' && !IsSpace(key[i])
  }

  /** Keys processed one after another, split anywhere. */
  lemma {:induction false} RenderKeysAppend(contents: string, data: Rec<Value>, a: seq<string>, b: seq<string>)
    ensures RenderKeys(contents, data, a + b) == RenderKeys(RenderKeys(contents, data, a), data, b)
    decreases |a|
  {
    if a != [] {
      assert (a + b)[1..] == a[1..] + b;
      RenderKeysAppend(RenderKey(contents, data, a[0]), data, a[1..], b);
    } else {
      assert a + b == b;
    }
  }

  /** Rendering a template with several keys: up to and including the turn of
      the key `data.keys[i]`, every placeholder of that key is replaced by its
      value and the text on either side is rendered on its own; the keys after
      it then work on the text with the value in place. Braces elsewhere in the
      text and placeholders of other keys are allowed. */
  lemma RenderPlaceholder(t: string, before: string, after: string, u: string, data: Rec<Value>, i: nat)
    requires data.Valid() && i < |data.keys|
    requires forall j :: 0 <= j < |data.keys| ==> PlainKey(data.keys[j])
    requires AllSpace(before) && AllSpace(after) && Truthy(Lookup(data, data.keys[i]))
    ensures var key := data.keys[i];
      var upto := data.keys[..i + 1];
      Render(t + Placeholder(before, key, after) + u, data)
      == RenderKeys(RenderKeys(t, data, upto) + ToJsString(Lookup(data, key)) + RenderKeys(u, data, upto),
                    data, data.keys[i + 1..])
  {
    var ks := data.keys;
    KeysAround(ks, i);
    RenderThrough(t, before, ks[i], after, u, data, ks[..i]);
    RenderKeysAppend(t + Placeholder(before, ks[i], after) + u, data, ks[..i + 1], ks[i + 1..]);
  }

  /** The plain, distinct keys before the `i`-th are plain and differ from it. */
  lemma KeysAround(ks: seq<string>, i: nat)
    requires i < |ks|
    requires forall j :: 0 <= j < |ks| ==> PlainKey(ks[j])
    requires forall a, b :: 0 <= a < b < |ks| ==> ks[a] != ks[b]
    ensures ks[..i + 1] == ks[..i] + [ks[i]] && ks[..i + 1] + ks[i + 1..] == ks
    ensures PlainKey(ks[i])
    ensures forall j :: 0 <= j < |ks[..i]| ==> PlainKey(ks[..i][j]) && ks[..i][j] != ks[i]
  {
    assert forall j :: 0 <= j < i ==> ks[..i][j] == ks[j];
  }

  /** Keys other than `key` and then a truthy `key` itself replace a
      placeholder for `key` by its value and render the text on either side
      as they do on its own. */
  lemma RenderThrough(t: string, before: string, key: string, after: string, u: string,
                      data: Rec<Value>, pre: seq<string>)
    requires PlainKey(key) && AllSpace(before) && AllSpace(after) && Truthy(Lookup(data, key))
    requires forall j :: 0 <= j < |pre| ==> PlainKey(pre[j]) && pre[j] != key
    ensures RenderKeys(t + Placeholder(before, key, after) + u, data, pre + [key])
      == RenderKeys(t, data, pre + [key]) + ToJsString(Lookup(data, key)) + RenderKeys(u, data, pre + [key])
  {
    var v := ToJsString(Lookup(data, key));
    var p := Placeholder(before, key, after);
    var t1 := RenderKeys(t, data, pre);
    var u1 := RenderKeys(u, data, pre);
    // the keys before `key` leave the placeholder in place
    RenderKeysAppend(t + p + u, data, pre, [key]);
    RenderKeysAround(t, before, key, after, u, data, pre);
    // `key` itself replaces it
    RenderOneKey(t1 + p + u1, data, key);
    PlainNoBrace(key);
    ReplaceAround(t1, before, key, after, u1, v);
    // and renders either side as the same keys do on their own
    RenderKeysAppend(t, data, pre, [key]);
    RenderOneKey(t1, data, key);
    RenderKeysAppend(u, data, pre, [key]);
    RenderOneKey(u1, data, key);
  }

  /** A single truthy key replaces its placeholders by its value. */
  lemma RenderOneKey(contents: string, data: Rec<Value>, key: string)
    requires Truthy(Lookup(data, key))
    ensures RenderKeys(contents, data, [key]) == ReplaceAll(contents, key, ToJsString(Lookup(data, key)))
  {
    assert [key][1..] == [];
  }

  /** Keys other than `key` render the text on either side of a placeholder
      for `key` and leave the placeholder itself alone. */
  lemma {:induction false} RenderKeysAround(t: string, before: string, key: string, after: string, u: string,
                                            data: Rec<Value>, ks: seq<string>)
    requires PlainKey(key) && AllSpace(before) && AllSpace(after)
    requires forall j :: 0 <= j < |ks| ==> PlainKey(ks[j]) && ks[j] != key
    ensures RenderKeys(t + Placeholder(before, key, after) + u, data, ks)
      == RenderKeys(t, data, ks) + Placeholder(before, key, after) + RenderKeys(u, data, ks)
    decreases |ks|
  {
    if ks != [] {
      var k := ks[0];
      var v := Lookup(data, k);
      if Truthy(v) {
        ReplaceOther(t, before, key, after, u, k, ToJsString(v));
      }
      RenderKeysAround(RenderKey(t, data, k), before, key, after, RenderKey(u, data, k), data, ks[1..]);
    }
  }

  lemma PlainNoBrace(key: string)
    requires PlainKey(key)
    ensures '{' !in key
  {
  }

  /** Every match of `MatchLen` is a placeholder for `key`: `{{`, white
      space, `.`, the key, white space, `}}`. With MatchPlaceholder, this
      says the matches are exactly the placeholders. */
  lemma MatchSound(s: string, key: string)
    requires MatchLen(s, key).Some?
    ensures exists before, after ::
      (AllSpace(before) && AllSpace(after) && s[..MatchLen(s, key).value] == Placeholder(before, key, after))
  {
    var j := SkipSpaces(s, 2);
    var m := j + 1 + |key|;
    assert MatchDot(s, key, j).Some?;
    assert j < |s| && s[j] == '.' && StartsWith(s[j + 1..], key);
    var k := SkipSpaces(s, m);
    assert MatchLen(s, key).value == k + 2;
    assert s[j + 1..m] == key by {
      assert s[j + 1..][..|key|] == s[j + 1..m];
    }
    SlicesOfMatch(s, j, m, k);
  }

  /** The text of a match, cut at the ends of its parts. */
  lemma SlicesOfMatch(s: string, j: nat, m: nat, k: nat)
    requires 2 <= j < m <= k && k + 2 <= |s|
    requires s[..2] == "{{" && s[j] == '.' && s[k..k + 2] == "}}"
    requires forall i :: 2 <= i < j ==> IsSpace(s[i])
    requires forall i :: m <= i < k ==> IsSpace(s[i])
    ensures AllSpace(s[2..j]) && AllSpace(s[m..k])
    ensures s[..k + 2] == Placeholder(s[2..j], s[j + 1..m], s[m..k])
  {
    assert s[..k + 2] == s[..2] + s[2..j] + [s[j]] + s[j + 1..m] + s[m..k] + s[k..k + 2];
  }

  /** A match depends only on the text it covers. */
  lemma MatchPrefix(s: string, x: string, key: string)
    requires MatchLen(s, key).Some?
    ensures MatchLen(s + x, key) == MatchLen(s, key)
  {
    MatchSound(s, key);
    var n := MatchLen(s, key).value;
    var before, after :| AllSpace(before) && AllSpace(after) && s[..n] == Placeholder(before, key, after);
    assert s == s[..n] + s[n..];
    assert s + x == s[..n] + (s[n..] + x);
    MatchPlaceholder(before, key, after, s[n..]);
    MatchPlaceholder(before, key, after, s[n..] + x);
  }

  /** Past its opening `{{`, a placeholder for a key without `{` holds no
      `{`. */
  lemma PlaceholderBraces(before: string, key: string, after: string, i: nat)
    requires AllSpace(before) && AllSpace(after) && '{' !in key
    requires 2 <= i < |Placeholder(before, key, after)|
    ensures Placeholder(before, key, after)[i] != '{'
  {
    var p := Placeholder(before, key, after);
    var j := 2 + |before|;
    if i < j {
      assert p[i] == before[i - 2];
    } else if i == j {
    } else if i < j + 1 + |key| {
      assert p[i] == key[i - j - 1];
    } else if i < j + 1 + |key| + |after| {
      assert p[i] == after[i - j - 1 - |key|];
    }
  }

  /** A match that starts before text opening with `{{` ends before it: for
      a key without `{`, no `{` follows the first two characters of a match. */
  lemma NoCrossing(r: string, w: string, key: string)
    requires r != [] && '{' !in key
    requires |w| >= 2 && w[0] == '{' && w[1] == '{'
    requires MatchLen(r + w, key).Some?
    ensures MatchLen(r + w, key).value <= |r|
  {
    var s := r + w;
    var n := MatchLen(s, key).value;
    MatchSound(s, key);
    var before, after :| AllSpace(before) && AllSpace(after) && s[..n] == Placeholder(before, key, after);
    forall i | 2 <= i < n
      ensures s[i] != '{'
    {
      PlaceholderBraces(before, key, after, i);
      assert s[..n][i] == s[i];
    }
    assert s[|r|] == '{' && s[|r| + 1] == '{';
  }

  /** The replacement works independently on either side of a point where
      `{{` begins. */
  lemma {:induction false} ReplaceSplit(t: string, w: string, key: string, rep: string)
    requires '{' !in key
    requires |w| >= 2 && w[0] == '{' && w[1] == '{'
    ensures ReplaceAll(t + w, key, rep) == ReplaceAll(t, key, rep) + ReplaceAll(w, key, rep)
    decreases |t|
  {
    if t == [] {
      assert t + w == w;
    } else {
      var rw := ReplaceAll(w, key, rep);
      match MatchLen(t + w, key)
      case Some(n) =>
        SplitMatchCase(t, w, key, n);
        ReplaceSplit(t[n..], w, key, rep);
        ConcatAssoc(rep, ReplaceAll(t[n..], key, rep), rw);
      case None =>
        SplitNoneCase(t, w, key);
        ReplaceSplit(t[1..], w, key, rep);
        ConcatAssoc([t[0]], ReplaceAll(t[1..], key, rep), rw);
    }
  }

  lemma ConcatAssoc(a: string, b: string, c: string)
    ensures a + (b + c) == a + b + c
  {
  }

  /** A match at the head of `t + w` lies within `t` and is a match of `t`
      itself. */
  lemma SplitMatchCase(t: string, w: string, key: string, n: nat)
    requires t != [] && '{' !in key
    requires |w| >= 2 && w[0] == '{' && w[1] == '{'
    requires MatchLen(t + w, key) == Some(n)
    ensures 0 < n <= |t| && MatchLen(t, key) == Some(n) && (t + w)[n..] == t[n..] + w
  {
    var s := t + w;
    NoCrossing(t, w, key);
    MatchSound(s, key);
    var before, after :| AllSpace(before) && AllSpace(after) && s[..n] == Placeholder(before, key, after);
    HeadIsPlaceholder(t, w, n, Placeholder(before, key, after));
    MatchPlaceholder(before, key, after, t[n..]);
  }

  /** A head of `t + w` that ends within `t` is a head of `t`. */
  lemma HeadIsPlaceholder(t: string, w: string, n: nat, p: string)
    requires n <= |t| && (t + w)[..n] == p
    ensures t == p + t[n..] && (t + w)[n..] == t[n..] + w
  {
    assert t[..n] == p;
  }

  /** No match at the head of `t + w` means none at the head of `t`. */
  lemma SplitNoneCase(t: string, w: string, key: string)
    requires t != [] && MatchLen(t + w, key) == None
    ensures MatchLen(t, key) == None && (t + w)[0] == t[0] && (t + w)[1..] == t[1..] + w
  {
    if MatchLen(t, key).Some? {
      MatchPrefix(t, w, key);
    }
  }

  /** Around a placeholder, the replacement works on the text before it and
      the text after it separately, for any text on either side: braces and
      further placeholders included. The replacement text is not scanned
      again. */
  lemma ReplaceAround(t: string, before: string, key: string, after: string, u: string, rep: string)
    requires '{' !in key && AllSpace(before) && AllSpace(after)
    ensures ReplaceAll(t + Placeholder(before, key, after) + u, key, rep)
      == ReplaceAll(t, key, rep) + rep + ReplaceAll(u, key, rep)
  {
    var p := Placeholder(before, key, after);
    assert t + p + u == t + (p + u);
    ReplaceSplit(t, p + u, key, rep);
    ReplacePlaceholder(before, key, after, u, rep);
  }

  /** Text in which no position starts a match is left as it is. */
  lemma {:induction false} ReplaceInert(s: string, key: string, rep: string)
    requires forall i :: 0 <= i < |s| ==> MatchLen(s[i..], key).None?
    ensures ReplaceAll(s, key, rep) == s
    decreases |s|
  {
    if s != [] {
      assert s[0..] == s;
      assert forall i :: 0 <= i < |s| - 1 ==> s[1..][i..] == s[i + 1..];
      ReplaceInert(s[1..], key, rep);
    }
  }

  /** A placeholder for one plain key is no match for another. */
  lemma OtherKeyNoMatch(before: string, key: string, after: string, x: string, k: string)
    requires PlainKey(key) && PlainKey(k) && k != key && AllSpace(before) && AllSpace(after)
    ensures MatchLen(Placeholder(before, key, after) + x, k) == None
  {
    var s := Placeholder(before, key, after) + x;
    PlaceholderShape(before, key, after, x);
    var j := 2 + |before|;
    var m := j + 1 + |key|;
    SkipOver(s, 2, before);
    assert s[j + 1..m] == key by {
      assert s[j + 1..][..|key|] == s[j + 1..m];
    }
    if |k| < |key| {
      var c := j + 1 + |k|;
      assert s[c] == key[|k|];
      assert SkipSpaces(s, c) == c;
    } else if |k| == |key| {
      assert s[j + 1..][..|k|] == key;
    } else {
      assert s[m] == (if |after| > 0 then after[0] else '}');
      assert |s[j + 1..]| < |k| || s[j + 1..][..|k|][|key|] == s[m];
    }
  }

  /** Past its opening `{{`, a placeholder holds no `{`. */
  lemma PlaceholderTail(before: string, key: string, after: string)
    requires AllSpace(before) && AllSpace(after) && '{' !in key
    ensures '{' !in Placeholder(before, key, after)[2..]
  {
    var p := Placeholder(before, key, after);
    forall c | 2 <= c < |p|
      ensures p[c] != '{'
    {
      PlaceholderBraces(before, key, after, c);
    }
  }

  /** A placeholder for `key` is copied as it is by the replacement for
      another plain key. */
  lemma ReplaceSkipsPlaceholder(before: string, key: string, after: string, u: string, k: string, rep: string)
    requires PlainKey(key) && PlainKey(k) && k != key && AllSpace(before) && AllSpace(after)
    ensures ReplaceAll(Placeholder(before, key, after) + u, k, rep)
      == Placeholder(before, key, after) + ReplaceAll(u, k, rep)
  {
    var p := Placeholder(before, key, after);
    PlainNoBrace(key);
    OtherKeyNoMatch(before, key, after, u, k);
    PlaceholderTail(before, key, after);
    ReplaceSkipsBraced(p, u, k, rep);
  }

  /** Text that opens with two characters that start no match, then holds
      no `{`, is copied as it is. */
  lemma ReplaceSkipsBraced(p: string, u: string, k: string, rep: string)
    requires |p| >= 3 && '{' !in p[2..] && MatchLen(p + u, k) == None
    ensures ReplaceAll(p + u, k, rep) == p + ReplaceAll(u, k, rep)
  {
    var s := p + u;
    var t := p[2..];
    var r := ReplaceAll(u, k, rep);
    assert p[2] in t;
    PlaceholderSplit(p, u);
    // `{{` is no match for `k`, and neither is `{` followed by the rest
    ReplaceNoneStep(s, k, rep);
    SecondNotBrace(s[1..], p[2], k);
    ReplaceNoneStep(s[1..], k, rep);
    // the rest holds no `{` and is copied
    ReplaceLiteralPrefix(t, u, k, rep);
    calc {
      ReplaceAll(s, k, rep);
      [p[0]] + ReplaceAll(s[1..], k, rep);
      [p[0]] + ([p[1]] + ReplaceAll(t + u, k, rep));
      [p[0]] + ([p[1]] + (t + r));
      { TwoCons(p, r); }
      p + r;
    }
  }

  /** Where no match starts, one character is copied. */
  lemma ReplaceNoneStep(s: string, key: string, rep: string)
    requires s != [] && MatchLen(s, key) == None
    ensures ReplaceAll(s, key, rep) == [s[0]] + ReplaceAll(s[1..], key, rep)
  {
  }

  /** Text whose second character is not `{` does not start a match. */
  lemma SecondNotBrace(s: string, c: char, key: string)
    requires |s| >= 2 && s[1] == c && c != '{'
    ensures MatchLen(s, key) == None
  {
    assert s[..2][1] == s[1];
  }

  /** The first characters of a text that starts with at least three. */
  lemma PlaceholderSplit(p: string, u: string)
    requires |p| >= 3
    ensures (p + u)[0] == p[0] && |(p + u)[1..]| >= 2
    ensures (p + u)[1..][0] == p[1] && (p + u)[1..][1] == p[2]
    ensures (p + u)[1..][1..] == p[2..] + u
  {
  }

  /** A text is its first two characters followed by the rest. */
  lemma TwoCons(p: string, r: string)
    requires |p| >= 2
    ensures [p[0]] + ([p[1]] + (p[2..] + r)) == p + r
  {
    assert p == [p[0]] + [p[1]] + p[2..];
  }

  /** A replacement for another plain key leaves a placeholder for `key` as
      it is and works on either side of it. */
  lemma ReplaceOther(t: string, before: string, key: string, after: string, u: string, k: string, rep: string)
    requires PlainKey(key) && PlainKey(k) && k != key && AllSpace(before) && AllSpace(after)
    ensures ReplaceAll(t + Placeholder(before, key, after) + u, k, rep)
      == ReplaceAll(t, k, rep) + Placeholder(before, key, after) + ReplaceAll(u, k, rep)
  {
    var p := Placeholder(before, key, after);
    PlainNoBrace(k);
    assert t + p + u == t + (p + u);
    ReplaceSplit(t, p + u, k, rep);
    ReplaceSkipsPlaceholder(before, key, after, u, k, rep);
  }

  // ---------------------------------------------------------------------------
  // processFile
  // ---------------------------------------------------------------------------

  /** The extension `fileExtension` reports: the text after the last `.` of
      the path, or `""` when that text is not in the last path component. */
  function Extension(path: string): (e: string)
    ensures e != "" ==> EndsWith(path, "." + e)
    decreases |path|
  {
    if path == [] || path[|path| - 1] == '/' then ""
    else if path[|path| - 1] == '.' then ""
    else if |path| >= 2 && path[|path| - 2] == '.' then [path[|path| - 1]]
    else
      var e := Extension(path[..|path| - 1]);
      if e == "" then "" else e + [path[|path| - 1]]
  }

  /** `processFile`: a `.tmpl` file loses its extension and has its contents
      rendered; any other file is copied as it is. */
  method ProcessFile(path: string, contents: string, variables: Rec<Value>)
    returns (target: string, output: string)
    ensures Extension(path) == "tmpl" ==> target + ".tmpl" == path && output == Render(contents, variables)
    ensures Extension(path) != "tmpl" ==> target == path && output == contents
  {
    target := path;
    output := contents;
    var ext := Extension(path);
    if ext == "tmpl" {
      target := target[..|target| - 5];
      output := RenderTemplate(contents, variables);
    }
  }

  // ---------------------------------------------------------------------------
  // getUnresolved
  // ---------------------------------------------------------------------------

  /** A template variable definition: its name and its optional prompt type. */
  datatype Variable = Variable(name: string, typ: Option<string>)

  /** `variable.type || "input"` */
  function TypeOf(v: Variable): (r: string)
    ensures r != "" && (r == "input" || v.typ == Some(r))
    ensures v.typ.Some? && v.typ.value != "" ==> r == v.typ.value
  {
    if v.typ.Some? && v.typ.value != "" then v.typ.value else "input"
  }

  /** The coercion applied to a provided value: `parseFloat` for a number
      (given as a parameter), `("" + value).toLowerCase() == "true"` for a
      confirmation, and nothing for any other type. */
  function Coerce(typ: string, value: Value, parseNumber: Value -> int): (r: Value)
    ensures value != Undefined ==> r != Undefined
    ensures typ != "number" && typ != "confirm" ==> r == value
  {
    if typ == "number" then Num(parseNumber(value))
    else if typ == "confirm" then Bool(ToLowerAscii(ToJsString(value)) == "true")
    else value
  }

  /** The definitions, in order, whose name has no value (`undefined`). */
  function Unresolved(variables: Rec<Value>, defs: seq<Variable>): (r: seq<Variable>)
    ensures |r| <= |defs|
    decreases |defs|
  {
    if defs == [] then []
    else
      var rest := Unresolved(variables, defs[..|defs| - 1]);
      var d := defs[|defs| - 1];
      if Lookup(variables, d.name) == Undefined then rest + [d] else rest
  }

  /** The variables after every provided definition's value has been coerced,
      definitions taken in order. */
  function Coerced(variables: Rec<Value>, defs: seq<Variable>, parseNumber: Value -> int): Rec<Value>
    decreases |defs|
  {
    if defs == [] then variables
    else
      var before := Coerced(variables, defs[..|defs| - 1], parseNumber);
      var d := defs[|defs| - 1];
      var value := Lookup(before, d.name);
      if value != Undefined then before.Put(d.name, Coerce(TypeOf(d), value, parseNumber)) else before
  }

  /** `getUnresolved(variables, definitions)`: the unresolved definitions, and
      the variables object as the loop leaves it. */
  method GetUnresolved(variables: Rec<Value>, defs: seq<Variable>, parseNumber: Value -> int)
    returns (unresolved: seq<Variable>, coerced: Rec<Value>)
    ensures unresolved == Unresolved(variables, defs)
    ensures coerced == Coerced(variables, defs, parseNumber)
  {
    unresolved := [];
    coerced := variables;
    for i := 0 to |defs|
      invariant unresolved == Unresolved(variables, defs[..i])
      invariant coerced == Coerced(variables, defs[..i], parseNumber)
    {
      assert defs[..i + 1][..i] == defs[..i];
      var variable := defs[i];
      CoercedDefined(variables, defs[..i], parseNumber, variable.name);
      var value := Lookup(coerced, variable.name);
      if value != Undefined {
        var typ := TypeOf(variable);
        coerced := coerced.Put(variable.name, Coerce(typ, value, parseNumber));
      } else {
        unresolved := unresolved + [variable];
      }
    }
    assert defs[..|defs|] == defs;
  }

  /** Coercion never removes or adds a value: a name is provided afterwards
      exactly when it was before, and the key order is kept. */
  lemma {:induction false} CoercedDefined(variables: Rec<Value>, defs: seq<Variable>, parseNumber: Value -> int, k: string)
    ensures (Lookup(Coerced(variables, defs, parseNumber), k) == Undefined) == (Lookup(variables, k) == Undefined)
    ensures Coerced(variables, defs, parseNumber).keys == variables.keys
    decreases |defs|
  {
    if defs != [] {
      CoercedDefined(variables, defs[..|defs| - 1], parseNumber, k);
      CoercedDefined(variables, defs[..|defs| - 1], parseNumber, defs[|defs| - 1].name);
    }
  }

  /** The unresolved definitions are exactly those, in definition order,
      whose name has no value. */
  lemma {:induction false} UnresolvedExactly(variables: Rec<Value>, defs: seq<Variable>)
    ensures forall d :: d in Unresolved(variables, defs) <==> d in defs && Lookup(variables, d.name) == Undefined
    decreases |defs|
  {
    if defs != [] {
      var init := defs[..|defs| - 1];
      UnresolvedExactly(variables, init);
      assert defs == init + [defs[|defs| - 1]];
    }
  }

  /** A provided confirm-type variable ends up as the boolean
      `("" + value).toLowerCase() == "true"`; coercing again keeps it, so a
      repeated definition does not change the outcome. */
  lemma {:induction false} CoercedConfirm(variables: Rec<Value>, defs: seq<Variable>, parseNumber: Value -> int, i: nat)
    requires i < |defs| && TypeOf(defs[i]) == "confirm"
    requires forall j :: 0 <= j < |defs| && j != i ==> defs[j].name != defs[i].name
    requires Lookup(variables, defs[i].name) != Undefined
    ensures Lookup(Coerced(variables, defs, parseNumber), defs[i].name)
      == Bool(ToLowerAscii(ToJsString(Lookup(variables, defs[i].name))) == "true")
    decreases |defs|
  {
    var init := defs[..|defs| - 1];
    var name := defs[i].name;
    if i == |defs| - 1 {
      UnchangedByOthers(variables, init, parseNumber, name);
    } else {
      CoercedConfirm(variables, init, parseNumber, i);
    }
  }

  /** Definitions of other names leave a variable as it was. */
  lemma {:induction false} UnchangedByOthers(variables: Rec<Value>, defs: seq<Variable>, parseNumber: Value -> int, name: string)
    requires forall j :: 0 <= j < |defs| ==> defs[j].name != name
    ensures Lookup(Coerced(variables, defs, parseNumber), name) == Lookup(variables, name)
    decreases |defs|
  {
    if defs != [] {
      UnchangedByOthers(variables, defs[..|defs| - 1], parseNumber, name);
    }
  }

  /** Confirmation coercion is idempotent: the string form of a boolean reads
      back as the same boolean. */
  lemma ConfirmIdempotent(value: Value)
    ensures var b := Coerce("confirm", value, _ => 0);
      Coerce("confirm", b, _ => 0) == b
  {
    var b := Coerce("confirm", value, _ => 0);
    if b == Bool(true) {
      assert ToLowerAscii("true") == "true";
    } else {
      assert ToLowerAscii("false") != "true";
    }
  }
}
