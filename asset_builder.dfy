/** The asset map a generator builds from files and templates next to its
    module: each path is checked, turned into a key, loaded (and, for a
    template, rendered) and stored under that key. Resolving a path against
    the base URL and loading it, and rendering a template, are parameters. */
module Assets {
  import opened Records
  import opened Strings

  /** What loading `new URL(path, baseURL)`, or rendering a template, gives:
      the bytes, or the message of the error thrown (the promise rejected). */
  datatype Loaded = Data(bytes: seq<Byte>) | Failure(message: string)

  type Loader = (string, string) -> Loaded

  /** Which of the two methods is adding paths. A template's bytes go through
      `render` (decoded, rendered and encoded again), which may reject. */
  datatype Mode = Files | Templates(render: seq<Byte> -> Loaded)

  /** The asset map so far and, once a path failed, the error that ended the
      call. */
  datatype Outcome = Outcome(assets: Rec<seq<Byte>>, error: Option<string>)

  /** The path that is resolved and loaded. `addFiles` prefixes `./` to a path
      that already starts with `./`; `addTemplates` prefixes it to a path that
      does not. */
  function LoadPath(mode: Mode, path: string): (p: string)
    ensures mode.Templates? ==> StartsWith(p, "./")
  {
    match mode
    case Files => if StartsWith(path, "./") then "./" + path else path
    case Templates(_) => if !StartsWith(path, "./") then "./" + path else path
  }

  /** The key the loaded data is stored under: the load path, without a
      template's `.tmpl` suffix. */
  function Key(mode: Mode, path: string): (k: string)
    ensures mode.Files? ==> k == LoadPath(mode, path)
    ensures mode.Templates? && EndsWith(LoadPath(mode, path), ".tmpl") ==> k + ".tmpl" == LoadPath(mode, path)
    ensures mode.Templates? && !EndsWith(LoadPath(mode, path), ".tmpl") ==> k == LoadPath(mode, path)
  {
    var p := LoadPath(mode, path);
    if mode.Templates? && EndsWith(p, ".tmpl") then p[..|p| - 5] else p
  }

  /** The bytes stored for loaded data, or the error of a rejected render. */
  function Stored(mode: Mode, data: seq<Byte>): (r: Loaded)
    ensures mode.Files? ==> r == Data(data)
  {
    match mode
    case Files => Data(data)
    case Templates(render) => render(data)
  }

  /** One iteration of either loop: a path holding `..` is refused before it
      is loaded; otherwise it is loaded, rendered when a template, and
      stored, or the error of the load or of the render ends the call with
      the map unchanged. */
  function AddOne(assets: Rec<seq<Byte>>, mode: Mode, path: string, baseURL: string, load: Loader): (o: Outcome)
    ensures Contains(path, "..") ==> o == Outcome(assets, Some("invalid path " + path))
    ensures o.error.Some? ==> o.assets == assets
    ensures !Contains(path, "..") && load(LoadPath(mode, path), baseURL).Failure? ==>
      o.error == Some(load(LoadPath(mode, path), baseURL).message)
    ensures (!Contains(path, "..") && load(LoadPath(mode, path), baseURL).Data?
             && Stored(mode, load(LoadPath(mode, path), baseURL).bytes).Failure?) ==>
      o.error == Some(Stored(mode, load(LoadPath(mode, path), baseURL).bytes).message)
  {
    if Contains(path, "..") then Outcome(assets, Some("invalid path " + path))
    else match load(LoadPath(mode, path), baseURL)
      case Failure(m) => Outcome(assets, Some(m))
      case Data(d) =>
        match Stored(mode, d)
        case Failure(m) => Outcome(assets, Some(m))
        case Data(b) => Outcome(assets.Put(Key(mode, path), b), None)
  }

  /** The paths taken in order until one fails. */
  function AddAll(assets: Rec<seq<Byte>>, mode: Mode, paths: seq<string>, baseURL: string, load: Loader): (r: Outcome)
    ensures assets.keys <= r.assets.keys
    ensures forall k :: k in assets.vals ==> k in r.assets.vals
    ensures assets.Valid() ==> r.assets.Valid()
    decreases |paths|
  {
    if paths == [] then Outcome(assets, None)
    else
      var before := AddAll(assets, mode, paths[..|paths| - 1], baseURL, load);
      if before.error.Some? then before else AddOne(before.assets, mode, paths[|paths| - 1], baseURL, load)
  }

  /** The builder: the base URL paths are resolved against, and `_assets`. */
  class AssetsBuilder {
    const baseURL: string
    var assets: Rec<seq<Byte>>

    constructor(baseURL: string)
      ensures this.baseURL == baseURL && assets == Empty()
    {
      this.baseURL := baseURL;
      assets := Empty();
    }

    /** `addFiles(...paths)` */
    method AddFiles(paths: seq<string>, load: Loader) returns (error: Option<string>)
      modifies this
      ensures Outcome(assets, error) == AddAll(old(assets), Files, paths, baseURL, load)
    {
      error := AddPaths(Files, paths, load);
    }

    /** `addTemplates(render, ...paths)` */
    method AddTemplates(render: seq<Byte> -> Loaded, paths: seq<string>, load: Loader)
      returns (error: Option<string>)
      modifies this
      ensures Outcome(assets, error) == AddAll(old(assets), Templates(render), paths, baseURL, load)
    {
      error := AddPaths(Templates(render), paths, load);
    }

    /** The loop both methods share. */
    method AddPaths(mode: Mode, paths: seq<string>, load: Loader) returns (error: Option<string>)
      modifies this
      ensures Outcome(assets, error) == AddAll(old(assets), mode, paths, baseURL, load)
    {
      error := None;
      for i := 0 to |paths|
        invariant AddAll(old(assets), mode, paths[..i], baseURL, load) == Outcome(assets, None)
      {
        assert paths[..i + 1][..i] == paths[..i];
        var path := paths[i];
        if Contains(path, "..") {
          error := Some("invalid path " + path);
          FailureSticks(old(assets), mode, paths, i + 1, baseURL, load);
          return;
        }
        var key := Key(mode, path);
        match load(LoadPath(mode, path), baseURL) {
          case Failure(m) =>
            error := Some(m);
            FailureSticks(old(assets), mode, paths, i + 1, baseURL, load);
            return;
          case Data(d) =>
            match Stored(mode, d) {
              case Failure(m) =>
                error := Some(m);
                FailureSticks(old(assets), mode, paths, i + 1, baseURL, load);
                return;
              case Data(b) =>
                assets := assets.Put(key, b);
            }
        }
      }
      assert paths[..|paths|] == paths;
    }

    /** `getAssets()` */
    function GetAssets(): (r: Rec<seq<Byte>>)
      reads this
      ensures r == assets
    {
      assets
    }
  }

  /** Once a path has failed, the remaining paths are neither loaded nor
      stored: the outcome is that of the prefix ending at the failure. */
  lemma {:induction false} FailureSticks(assets: Rec<seq<Byte>>, mode: Mode, paths: seq<string>, i: nat,
                                         baseURL: string, load: Loader)
    requires i <= |paths| && AddAll(assets, mode, paths[..i], baseURL, load).error.Some?
    ensures AddAll(assets, mode, paths, baseURL, load) == AddAll(assets, mode, paths[..i], baseURL, load)
    decreases |paths|
  {
    if i < |paths| {
      var init := paths[..|paths| - 1];
      assert init[..i] == paths[..i];
      FailureSticks(assets, mode, init, i, baseURL, load);
    } else {
      assert paths[..i] == paths;
    }
  }

  /** A path holding `..` is refused with `invalid path`, after the paths
      before it and before it is loaded: the map is the one those earlier
      paths built, and no later path is added. */
  lemma InvalidPathRefused(assets: Rec<seq<Byte>>, mode: Mode, paths: seq<string>, i: nat,
                           baseURL: string, load: Loader)
    requires i < |paths| && Contains(paths[i], "..")
    requires AddAll(assets, mode, paths[..i], baseURL, load).error.None?
    ensures AddAll(assets, mode, paths, baseURL, load)
      == Outcome(AddAll(assets, mode, paths[..i], baseURL, load).assets, Some("invalid path " + paths[i]))
  {
    assert paths[..i + 1][..i] == paths[..i];
    FailureSticks(assets, mode, paths, i + 1, baseURL, load);
  }

  /** When the call succeeds, every path was valid and loaded, and its key
      is in the map. */
  lemma {:induction false} AddAllPresent(assets: Rec<seq<Byte>>, mode: Mode, paths: seq<string>,
                                         baseURL: string, load: Loader)
    requires AddAll(assets, mode, paths, baseURL, load).error.None?
    ensures forall i :: 0 <= i < |paths| ==>
      && !Contains(paths[i], "..") && load(LoadPath(mode, paths[i]), baseURL).Data?
      && Stored(mode, load(LoadPath(mode, paths[i]), baseURL).bytes).Data?
      && Key(mode, paths[i]) in AddAll(assets, mode, paths, baseURL, load).assets.vals
    decreases |paths|
  {
    if paths != [] {
      var init := paths[..|paths| - 1];
      var last := paths[|paths| - 1];
      var before := AddAll(assets, mode, init, baseURL, load);
      assert before.error.None?;
      AddAllPresent(assets, mode, init, baseURL, load);
      var after := AddOne(before.assets, mode, last, baseURL, load);
      assert AddAll(assets, mode, paths, baseURL, load) == after;
      assert before.assets.vals.Keys <= after.assets.vals.Keys;
      forall i | 0 <= i < |paths|
        ensures && !Contains(paths[i], "..") && load(LoadPath(mode, paths[i]), baseURL).Data?
                && Stored(mode, load(LoadPath(mode, paths[i]), baseURL).bytes).Data?
                && Key(mode, paths[i]) in after.assets.vals
      {
        if i < |init| {
          assert init[i] == paths[i];
        }
      }
    }
  }

  /** A key no path produces keeps its earlier value. */
  lemma {:induction false} AddAllOthers(assets: Rec<seq<Byte>>, mode: Mode, paths: seq<string>,
                                        baseURL: string, load: Loader, k: string)
    requires forall i :: 0 <= i < |paths| ==> Key(mode, paths[i]) != k
    ensures AddAll(assets, mode, paths, baseURL, load).assets.Get(k) == assets.Get(k)
    decreases |paths|
  {
    if paths != [] {
      var init := paths[..|paths| - 1];
      assert forall i :: 0 <= i < |init| ==> init[i] == paths[i];
      AddAllOthers(assets, mode, init, baseURL, load, k);
    }
  }

  /** When the call succeeds, the last path with a given key decides the
      bytes stored under it. */
  lemma {:induction false} AddAllLastWins(assets: Rec<seq<Byte>>, mode: Mode, paths: seq<string>,
                                          baseURL: string, load: Loader, i: nat)
    requires AddAll(assets, mode, paths, baseURL, load).error.None?
    requires i < |paths| && forall j :: i < j < |paths| ==> Key(mode, paths[j]) != Key(mode, paths[i])
    ensures load(LoadPath(mode, paths[i]), baseURL).Data?
    ensures Stored(mode, load(LoadPath(mode, paths[i]), baseURL).bytes).Data?
    ensures AddAll(assets, mode, paths, baseURL, load).assets.Get(Key(mode, paths[i]))
      == Some(Stored(mode, load(LoadPath(mode, paths[i]), baseURL).bytes).bytes)
    decreases |paths|
  {
    var init := paths[..|paths| - 1];
    var before := AddAll(assets, mode, init, baseURL, load);
    assert before.error.None?;
    if i < |paths| - 1 {
      assert forall j :: 0 <= j < |init| ==> init[j] == paths[j];
      AddAllLastWins(assets, mode, init, baseURL, load, i);
    }
  }

  /** As written, `addFiles` doubles a leading `./` and keeps any other path
      as it is, while every key `addTemplates` stores starts with `./`. */
  lemma KeyPrefixes(path: string, render: seq<Byte> -> Loaded)
    ensures StartsWith(path, "./") ==> Key(Files, path) == "./" + path
    ensures !StartsWith(path, "./") ==> Key(Files, path) == path
    ensures StartsWith(Key(Templates(render), path), "./")
  {
    var p := LoadPath(Templates(render), path);
    if EndsWith(p, ".tmpl") {
      assert p[|p| - 5] == '.' && p[|p| - 4] == 't';
      assert p[0] == '.' && p[1] == '/';
      assert |p| >= 7;
      assert Key(Templates(render), path)[..2] == p[..2];
    }
  }
}
