/** The remote-file cache: the hexadecimal file names, the cache and
    metadata paths of a URL, the staleness policy, and the choice `get` makes
    between the cached copy and a fresh download. The clock, the file system,
    the download and the SHA-256 digest are parameters. */
module CacheFile {
  import opened Records
  import opened Strings

  // ---------------------------------------------------------------------------
  // buf2hex
  // ---------------------------------------------------------------------------

  /** `d.toString(16)` for one hexadecimal digit: lower-case letters. */
  function HexDigit(d: int): (c: char)
    requires 0 <= d < 16
    ensures IsHexDigit(c)
  {
    if d < 10 then ('0' as int + d) as char else ('a' as int + d - 10) as char
  }

  predicate IsHexDigit(c: char) {
    '0' <= c <= '9' || 'a' <= c <= 'f'
  }

  /** The value of a lower-case hexadecimal digit. */
  function HexValue(c: char): (d: int)
    requires IsHexDigit(c)
    ensures 0 <= d < 16 && HexDigit(d) == c
  {
    if c <= '9' then c as int - '0' as int else c as int - 'a' as int + 10
  }

  /** `x.toString(16).padStart(2, "0")`: two digits, high nibble first. */
  function HexPair(x: Byte): (r: string)
    ensures |r| == 2 && r[0] == HexDigit(x / 16) && r[1] == HexDigit(x % 16)
  {
    [HexDigit(x / 16), HexDigit(x % 16)]
  }

  /** `buf2hex`: each byte as two lower-case digits, in byte order. */
  function Buf2Hex(buffer: seq<Byte>): (r: string)
    ensures |r| == 2 * |buffer|
    ensures forall i :: 0 <= i < |r| ==> IsHexDigit(r[i])
  {
    if buffer == [] then "" else HexPair(buffer[0]) + Buf2Hex(buffer[1..])
  }

  /** Byte `i` is spelled by characters `2i` and `2i + 1`. */
  lemma {:induction false} Buf2HexAt(buffer: seq<Byte>, i: nat)
    requires i < |buffer|
    ensures Buf2Hex(buffer)[2 * i..2 * i + 2] == HexPair(buffer[i])
  {
    if i > 0 {
      Buf2HexAt(buffer[1..], i - 1);
      assert Buf2Hex(buffer)[2 * i..2 * i + 2] == Buf2Hex(buffer[1..])[2 * (i - 1)..2 * (i - 1) + 2];
    }
  }

  /** Reading a hexadecimal string back two digits at a time. */
  function Hex2Buf(s: string): (r: seq<Byte>)
    requires |s| % 2 == 0 && forall i :: 0 <= i < |s| ==> IsHexDigit(s[i])
    ensures |r| == |s| / 2
  {
    if s == [] then [] else [16 * HexValue(s[0]) + HexValue(s[1])] + Hex2Buf(s[2..])
  }

  /** The digit value inverts the digit. */
  lemma HexValueDigit(d: int)
    requires 0 <= d < 16
    ensures HexValue(HexDigit(d)) == d
  {
  }

  /** The hexadecimal form loses nothing: decoding it gives the bytes back,
      so distinct digests give distinct file names. */
  lemma {:induction false} Buf2HexRoundTrip(buffer: seq<Byte>)
    ensures Hex2Buf(Buf2Hex(buffer)) == buffer
  {
    if buffer != [] {
      var x := buffer[0];
      var s := Buf2Hex(buffer);
      assert s == HexPair(x) + Buf2Hex(buffer[1..]);
      assert s[2..] == Buf2Hex(buffer[1..]);
      HexValueDigit(x / 16);
      HexValueDigit(x % 16);
      Buf2HexRoundTrip(buffer[1..]);
    }
  }

  /** Distinct byte strings have distinct hexadecimal forms. */
  lemma Buf2HexInjective(a: seq<Byte>, b: seq<Byte>)
    requires Buf2Hex(a) == Buf2Hex(b)
    ensures a == b
  {
    Buf2HexRoundTrip(a);
    Buf2HexRoundTrip(b);
  }

  // ---------------------------------------------------------------------------
  // Policy
  // ---------------------------------------------------------------------------

  /** A cache policy: the largest age in whole seconds of a usable copy, and
      whether a copy whose age cannot be known must be refetched. */
  datatype Policy = Policy(maxAge: int, strict: bool)

  /** `RELOAD_POLICY`: a negative age, so a copy is never fresh enough. */
  const RELOAD_POLICY: Policy := Policy(-1, false)

  /** `checkPolicy` as written. `birthtime` is the file's creation time in
      milliseconds, when the platform reports one; `now` is the clock. The
      result is `stale`: true when the copy is OLDER than `maxAge`. */
  function CheckPolicyAsWritten(birthtime: Option<int>, policy: Policy, now: int): (r: bool)
    ensures birthtime.None? ==> r == !policy.strict
    ensures birthtime.Some? && policy.maxAge < 0 ==> !r
    ensures birthtime.Some? && policy.maxAge >= 0 ==>
      (r <==> now - birthtime.value > policy.maxAge * 1000)
  {
    if birthtime.None? && !policy.strict then true
    else if birthtime.None? then false
    else if policy.maxAge < 0 then false
    else
      var delta := now - birthtime.value;
      delta > policy.maxAge * 1000
  }

  /** `get` serves the cached copy when `checkPolicy` holds, so as written a
      copy two minutes old is served under a one-minute policy, and a copy
      made this instant is downloaded again. */
  lemma CheckPolicyAsWrittenInverted()
    ensures CheckPolicyAsWritten(Some(0), Policy(60, false), 120000)
    ensures !CheckPolicyAsWritten(Some(0), Policy(60, false), 0)
  {
  }

  /** The corrected check: true when the cached copy may be used, that is
      when it is no older than `maxAge`; the cases without a birth time and
      with a negative age are as written. */
  function CheckPolicy(birthtime: Option<int>, policy: Policy, now: int): (r: bool)
    ensures birthtime.None? ==> r == !policy.strict
    ensures birthtime.Some? && policy.maxAge < 0 ==> !r
    ensures birthtime.Some? && policy.maxAge >= 0 ==>
      (r <==> now - birthtime.value <= policy.maxAge * 1000)
  {
    if birthtime.None? && !policy.strict then true
    else if birthtime.None? then false
    else if policy.maxAge < 0 then false
    else
      var delta := now - birthtime.value;
      !(delta > policy.maxAge * 1000)
  }

  /** Under the corrected check a copy is used only while it is fresh, the
      reload policy never uses a copy that has a birth time, and the check
      agrees with the written one exactly on the cases the age does not
      decide. */
  lemma CheckPolicyFresh(birthtime: Option<int>, policy: Policy, now: int)
    ensures CheckPolicy(birthtime, policy, now) && birthtime.Some?
      ==> now - birthtime.value <= policy.maxAge * 1000
    ensures birthtime.Some? ==> !CheckPolicy(birthtime, RELOAD_POLICY, now)
    ensures (birthtime.None? || policy.maxAge < 0)
      ==> CheckPolicy(birthtime, policy, now) == CheckPolicyAsWritten(birthtime, policy, now)
    ensures (birthtime.Some? && policy.maxAge >= 0)
      ==> CheckPolicy(birthtime, policy, now) == !CheckPolicyAsWritten(birthtime, policy, now)
  {
  }

  // ---------------------------------------------------------------------------
  // Paths
  // ---------------------------------------------------------------------------

  /** The parts of a `URL` the cache looks at. `protocol` ends with `:`, and
      `search` is `""` or starts with `?`. */
  datatype Url = Url(protocol: string, hostname: string, pathname: string, search: string)

  /** The text `hash` digests: the path, then `"?" + url.search` when there is
      a query. */
  function HashInput(url: Url): (r: string)
    ensures url.search == "" ==> r == url.pathname
    ensures url.search != "" ==> r == url.pathname + "?" + url.search
  {
    url.pathname + (if url.search != "" then "?" + url.search else "")
  }

  /** `hash(url)`: the SHA-256 digest (a parameter) of the UTF-8 text, in
      hexadecimal. */
  function HashOf(url: Url, digest: string -> seq<Byte>): (h: string)
    ensures forall i :: 0 <= i < |h| ==> IsHexDigit(h[i])
  {
    Buf2Hex(digest(HashInput(url)))
  }

  /** `url.protocol.slice(0, -1)` */
  function Scheme(url: Url): (r: string)
    ensures url.protocol == "" ==> r == ""
    ensures url.protocol != "" ==> r + [url.protocol[|url.protocol| - 1]] == url.protocol
  {
    if url.protocol == "" then "" else url.protocol[..|url.protocol| - 1]
  }

  /** The last path component, after any trailing `/` is dropped. */
  function Basename(p: string): (b: string)
    ensures '/' !in b
    decreases |p|
  {
    if p == [] then ""
    else if p[|p| - 1] == '/' then Basename(p[..|p| - 1])
    else LastSegment(p)
  }

  function LastSegment(p: string): (b: string)
    ensures '/' !in b
    decreases |p|
  {
    if p == [] || p[|p| - 1] == '/' then "" else LastSegment(p[..|p| - 1]) + [p[|p| - 1]]
  }

  /** `extname(p)`: from the last `.` of the last component to its end; `""`
      when that component has no `.` other than a leading one, or is `..`. */
  function Extname(p: string): (e: string)
    ensures e == "" || (e[0] == '.' && '/' !in e && EndsWith(Basename(p), e))
  {
    var b := Basename(p);
    var dot := LastDot(b, |b|);
    if b == ".." || dot <= 0 then "" else b[dot..]
  }

  /** The index of the last `.` in `b[..i]`, or -1. */
  function LastDot(b: string, i: nat): (d: int)
    requires i <= |b|
    ensures -1 <= d < i
    ensures d >= 0 ==> b[d] == '.'
    ensures forall k :: d < k < i ==> b[k] != '.'
  {
    if i == 0 then -1 else if b[i - 1] == '.' then i - 1 else LastDot(b, i - 1)
  }

  /** The components `path` joins: the cache directory, the namespace when
      one is given, the scheme, the host and the hash. */
  function Components(dir: string, url: Url, ns: Option<string>, hash: string): (r: seq<string>)
    ensures |r| == (if ns.Some? && ns.value != "" then 5 else 4)
    ensures r[0] == dir && r[|r| - 3] == Scheme(url) && r[|r| - 2] == url.hostname && r[|r| - 1] == hash
    ensures |r| == 5 ==> r[1] == ns.value
  {
    [dir] + (if ns.Some? && ns.value != "" then [ns.value] else []) + [Scheme(url), url.hostname, hash]
  }

  /** `join(...)`: the non-empty components separated by `/`, or `.` when
      there are none. */
  function JoinPath(parts: seq<string>): (r: string)
    ensures r != ""
    ensures parts != [] && (forall i :: 0 <= i < |parts| ==> parts[i] != "") ==> r == Join(parts, "/")
  {
    var kept := NonEmpty(parts);
    if kept == [] then "." else Join(kept, "/")
  }

  function NonEmpty(parts: seq<string>): (r: seq<string>)
    ensures forall i :: 0 <= i < |r| ==> r[i] != "" && r[i] in parts
    ensures (forall i :: 0 <= i < |parts| ==> parts[i] != "") ==> r == parts
    decreases |parts|
  {
    if parts == [] then []
    else if parts[0] == "" then NonEmpty(parts[1..])
    else [parts[0]] + NonEmpty(parts[1..])
  }

  /** `path(url, ns)`: where the cached copy of `url` is stored. */
  function Path(dir: string, url: Url, ns: Option<string>, hash: string): (r: string)
    ensures EndsWith(r, Extname(url.pathname)) && |r| > |Extname(url.pathname)|
    ensures dir != "" && Scheme(url) != "" && url.hostname != "" && hash != "" ==>
      r == Join(Components(dir, url, ns, hash), "/") + Extname(url.pathname)
  {
    JoinPath(Components(dir, url, ns, hash)) + Extname(url.pathname)
  }

  /** `metapath(url, ns)`: the file holding the copy's metadata. */
  function Metapath(dir: string, url: Url, ns: Option<string>, hash: string): (m: string)
    ensures EndsWith(m, ".metadata.json")
    ensures m[..|m| - |".metadata.json"|] == Path(dir, url, ns, hash)
  {
    Path(dir, url, ns, hash) + ".metadata.json"
  }

  /** The cache path splits back into the pieces of the cache directory
      (an absolute path, so its own `/`s are allowed), then the namespace,
      the scheme, the host and the hash with the URL's extension, in that
      order, when none of those is empty or holds a `/`. */
  lemma PathSplits(dir: string, url: Url, ns: Option<string>, hash: string)
    requires dir != ""
    requires var c := Components(dir, url, ns, hash);
      forall i :: 1 <= i < |c| ==> c[i] != "" && '/' !in c[i]
    ensures var c := Components(dir, url, ns, hash);
      Split(Path(dir, url, ns, hash), '/') == Split(dir, '/') + c[1..|c| - 1] + [hash + Extname(url.pathname)]
  {
    var c := Components(dir, url, ns, hash);
    var ext := Extname(url.pathname);
    assert |c| >= 4 && c[0] == dir && c[|c| - 1] == hash;
    JoinFront(c);
    assert Path(dir, url, ns, hash) == dir + "/" + Join(c[1..], "/") + ext;
    assert forall i :: 0 <= i < |c[1..]| ==> '/' !in c[1..][i] by {
      assert forall i :: 0 <= i < |c[1..]| ==> c[1..][i] == c[i + 1];
    }
    SplitTail(dir, c[1..], ext);
    TailSlices(c);
  }

  /** Dropping the first and then the last element is the inner slice. */
  lemma TailSlices(c: seq<string>)
    requires |c| >= 2
    ensures c[1..][..|c[1..]| - 1] == c[1..|c| - 1] && c[1..][|c[1..]| - 1] == c[|c| - 1]
  {
  }

  /** Joining non-empty components puts the first one, then `/`, then the
      join of the rest. */
  lemma JoinFront(parts: seq<string>)
    requires |parts| >= 2 && forall i :: 0 <= i < |parts| ==> parts[i] != ""
    ensures JoinPath(parts) == parts[0] + "/" + Join(parts[1..], "/")
  {
    assert NonEmpty(parts) == parts;
    JoinCons(parts[0], parts[1..], "/");
    assert [parts[0]] + parts[1..] == parts;
  }

  /** A directory, `/`, and slash-free components with text appended to the
      last one split into the directory's pieces and those components. */
  lemma SplitTail(dir: string, rest: seq<string>, ext: string)
    requires |rest| >= 1 && forall i :: 0 <= i < |rest| ==> '/' !in rest[i]
    requires '/' !in ext
    ensures Split(dir + "/" + Join(rest, "/") + ext, '/')
      == Split(dir, '/') + rest[..|rest| - 1] + [rest[|rest| - 1] + ext]
  {
    var rest' := rest[..|rest| - 1] + [rest[|rest| - 1] + ext];
    var j := Join(rest, "/");
    var j' := Join(rest', "/");
    JoinAppendLast(rest, ext);
    assert j + ext == j';
    assert forall i :: 0 <= i < |rest'| ==> '/' !in rest'[i] by {
      assert forall i :: 0 <= i < |rest| - 1 ==> rest'[i] == rest[i];
    }
    SplitJoin(rest', '/');
    assert dir + "/" + j + ext == dir + ['/'] + (j + ext);
    SplitAppend(dir, j', '/');
  }

  /** Text appended after a join lands in the last part. */
  lemma {:induction false} JoinAppendLast(parts: seq<string>, e: string)
    requires |parts| >= 1
    ensures Join(parts, "/") + e == Join(parts[..|parts| - 1] + [parts[|parts| - 1] + e], "/")
    decreases |parts|
  {
    if |parts| > 1 {
      JoinAppendLast(parts[1..], e);
      var q := parts[..|parts| - 1] + [parts[|parts| - 1] + e];
      assert q[1..] == parts[1..][..|parts[1..]| - 1] + [parts[1..][|parts[1..]| - 1] + e];
    }
  }

  // ---------------------------------------------------------------------------
  // FileWrapper
  // ---------------------------------------------------------------------------

  datatype Origin = CACHE | FETCH

  /** What `get` hands back: where the copy is, and where it came from. */
  datatype File = File(path: string, origin: Origin, birthtime: Option<int>)

  /** One cached URL. `metapath` starts empty and is filled in by `remove`. */
  class FileWrapper {
    const url: Url
    const hash: string
    const path: string
    const policy: Option<Policy>
    const ns: Option<string>
    var metapath: string

    constructor(url: Url, hash: string, path: string, policy: Option<Policy>, ns: Option<string>)
      ensures this.url == url && this.hash == hash && this.path == path
      ensures this.policy == policy && this.ns == ns
      ensures metapath == ""
    {
      this.url := url;
      this.hash := hash;
      this.path := path;
      this.policy := policy;
      this.ns := ns;
      metapath := "";
    }

    /** `FileWrapper.create`: the hash and the path computed from the URL. */
    static method Create(url: Url, policy: Option<Policy>, ns: Option<string>, dir: string,
                         digest: string -> seq<Byte>) returns (w: FileWrapper)
      ensures fresh(w)
      ensures w.url == url && w.policy == policy && w.ns == ns && w.metapath == ""
      ensures w.hash == HashOf(url, digest)
      ensures w.path == Path(dir, url, ns, HashOf(url, digest))
    {
      var h := HashOf(url, digest);
      var p := Path(dir, url, ns, h);
      w := new FileWrapper(url, h, p, policy, ns);
    }

    /** `remove`: the metadata path is computed (from the URL, hashing it
        again) only when it is still unknown; returns the two files deleted,
        the copy first. */
    method Remove(dir: string, digest: string -> seq<Byte>) returns (deleted: seq<string>)
      modifies this
      ensures old(metapath) == "" ==> metapath == Metapath(dir, url, ns, HashOf(url, digest))
      ensures old(metapath) != "" ==> metapath == old(metapath)
      ensures deleted == [path, metapath]
    {
      if metapath == "" {
        metapath := Metapath(dir, url, ns, HashOf(url, digest));
      }
      deleted := [path, metapath];
    }

    /** `get`: the cached copy when there is one and either no policy or a
        policy it satisfies; otherwise a download. `present` (`exists()`)
        and the two birth times come from the file system, `now` from the
        clock. This is `get` with the corrected check. */
    method Get(present: bool, cachedBirth: Option<int>, fetchedBirth: Option<int>, now: int)
      returns (f: File)
      ensures f.path == path
      ensures f.origin == CACHE <==>
        present && (policy.None? || CheckPolicy(cachedBirth, policy.value, now))
      ensures f.birthtime == if f.origin == CACHE then cachedBirth else fetchedBirth
    {
      f := Decide(present, cachedBirth, fetchedBirth, now, CheckPolicy);
    }

    /** `get` as the source has it, with `checkPolicy` as written: a present
        copy with a birth time that is older than a non-negative `maxAge` is
        served from the cache. */
    method GetAsWritten(present: bool, cachedBirth: Option<int>, fetchedBirth: Option<int>, now: int)
      returns (f: File)
      ensures f.path == path
      ensures f.origin == CACHE <==>
        present && (policy.None? || CheckPolicyAsWritten(cachedBirth, policy.value, now))
      ensures f.birthtime == if f.origin == CACHE then cachedBirth else fetchedBirth
      ensures (present && policy.Some? && policy.value.maxAge >= 0 && cachedBirth.Some?
               && now - cachedBirth.value > policy.value.maxAge * 1000) ==> f.origin == CACHE
    {
      f := Decide(present, cachedBirth, fetchedBirth, now, CheckPolicyAsWritten);
    }

    /** The body of `get`, for a given policy check. */
    method Decide(present: bool, cachedBirth: Option<int>, fetchedBirth: Option<int>, now: int,
                  check: (Option<int>, Policy, int) -> bool)
      returns (f: File)
      ensures f.path == path
      ensures f.origin == CACHE <==>
        present && (policy.None? || check(cachedBirth, policy.value, now))
      ensures f.birthtime == if f.origin == CACHE then cachedBirth else fetchedBirth
    {
      if present {
        var file := File(path, CACHE, cachedBirth);
        if policy.None? {
          return file;
        }
        if check(file.birthtime, policy.value, now) {
          return file;
        }
      }
      f := File(path, FETCH, fetchedBirth);
    }
  }
}
