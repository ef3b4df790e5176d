/**
 * `withBasePath`: the URL of a bundled asset under the site's base path. The
 * base path, a build-time setting, is a parameter here; a missing one counts
 * as "/".
 */
module Assets {
  import opened Wrappers
  import opened JsString

  /** `/^(https?:)?\/\//` or a `data:` prefix: a URL that is used as it is. */
  predicate IsAbsoluteUrl(path: string): (r: bool)
    ensures r ==> |path| >= 2
    ensures StartsWith(path, "/") && !StartsWith(path, "//") ==> !r
    ensures path != [] && path[0] != '/' && path[0] != 'h' && path[0] != 'd' ==> !r
  {
    StartsWithHead(path, "//");
    StartsWithHead(path, "http://");
    StartsWithHead(path, "https://");
    StartsWithHead(path, "data:");
    StartsWith(path, "//") || StartsWith(path, "http://") || StartsWith(path, "https://")
    || StartsWith(path, "data:")
  }

  /** The base with a trailing "/" added when it has none. */
  function NormalizeBase(base: string): (r: string)
    ensures EndsWith(r, "/")
    ensures StartsWith(r, base) && |base| <= |r| <= |base| + 1
    ensures EndsWith(base, "/") <==> r == base
  {
    if EndsWith(base, "/") then base else base + "/"
  }

  /** The path with one leading "/" removed, if it has one. */
  function NormalizePath(path: string): (r: string)
    ensures EndsWith(path, r) && |path| - 1 <= |r| <= |path|
    ensures StartsWith(path, "/") <==> |r| < |path|
  {
    if StartsWith(path, "/") then path[1..] else path
  }

  /**
   * `withBasePath(assetPath)` with `BASE_URL` as `baseUrl`: the empty string
   * for a missing or empty path, an absolute URL unchanged, and otherwise the
   * normalised base followed by the normalised path.
   */
  function WithBasePath(assetPath: Option<string>, baseUrl: Option<string>): (r: string)
    ensures assetPath == None || assetPath == Some("") ==> r == ""
    ensures assetPath.Some? && IsAbsoluteUrl(assetPath.value) ==> r == assetPath.value
    ensures assetPath.Some? && assetPath.value != "" && !IsAbsoluteUrl(assetPath.value) ==>
      var base := NormalizeBase(baseUrl.GetOr("/"));
      StartsWith(r, base) && EndsWith(r, NormalizePath(assetPath.value))
      && |r| == |base| + |NormalizePath(assetPath.value)|
  {
    match assetPath
    case None => ""
    case Some(path) =>
      if path == "" then ""
      else if IsAbsoluteUrl(path) then path
      else
        NormalizeBase(baseUrl.GetOr("/")) + NormalizePath(path)
  }

  /**
   * Where a relative path joins the base, the base part ends with "/" and the
   * path part does not start with one: the join adds no second "/" of its
   * own (a base that already ends with "//" keeps both).
   */
  lemma {:induction false} OneSlashAtJoin(path: string, baseUrl: Option<string>)
    requires path != "" && !IsAbsoluteUrl(path)
    ensures var base := NormalizeBase(baseUrl.GetOr("/"));
      var r := WithBasePath(Some(path), baseUrl);
      r[|base| - 1] == '/' && (|r| > |base| ==> r[|base|] != '/')
  {
    var base := NormalizeBase(baseUrl.GetOr("/"));
    var p := NormalizePath(path);
    var r := WithBasePath(Some(path), baseUrl);
    assert r == base + p;
    assert base[|base| - 1..] == "/";
    assert r[|base| - 1] == base[|base| - 1];
    if p != [] {
      assert r[|base|] == p[0];
      if StartsWith(path, "/") {
        assert path[..2] == "/" + [p[0]];
      } else {
        assert path[..1] == [p[0]];
      }
    }
  }

  /** Under the default base "/", a path rooted at "/" is its own URL. */
  lemma {:induction false} RootedPathUnderDefaultBase(path: string)
    requires StartsWith(path, "/")
    ensures WithBasePath(Some(path), None) == path
    ensures WithBasePath(Some(path), Some("/")) == path
  {
    assert "/" + path[1..] == path;
  }

  /** Under the default base a relative path gains a leading "/". */
  lemma {:induction false} RelativePathUnderDefaultBase(path: string)
    requires path != "" && !StartsWith(path, "/") && !IsAbsoluteUrl(path)
    ensures WithBasePath(Some(path), None) == "/" + path
  {
  }
}
