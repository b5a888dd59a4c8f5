/**
 * What the server sends: the public view of the catalog served as
 * `/config.json`, and the lookup that maps any other request path to a local
 * file through the catalog.
 */
module Router {
  import opened Wrappers
  import opened Text
  import opened PosixPath
  import opened Sanitize
  import opened Catalog
  import opened Lists

  /** The directory the image files and the configuration live in. */
  const BackgroundRoot: string := "backgrounds"

  /** The path the public catalog is served at. */
  const CatalogPath: string := "/config.json"

  // -------------------------------------------------------------- public view

  /**
   * One entry of the served catalog: the block without its `$` keys, with the
   * src and thumbnail passed through the prefixing once more.
   */
  datatype PublicEntry = PublicEntry(
    id: string,
    name: string,
    src: string,
    thumbSrc: string,
    filetype: string,
    others: map<string, string>)

  /** Keys starting with `$` are server-side directives, never served. */
  predicate IsInternalKey(k: string) {
    k != [] && k[0] == '$'
  }

  /** The keys of `fields` that are not internal, with their values. */
  function PublicFields(fields: map<string, string>): (r: map<string, string>)
    ensures forall k :: k in r <==> k in fields && !IsInternalKey(k)
    ensures forall k :: k in r ==> r[k] == fields[k]
  {
    map k | k in fields && !IsInternalKey(k) :: fields[k]
  }

  /** The served form of a block. */
  function PublicView(b: Entry): PublicEntry {
    PublicEntry(b.id, b.name,
                EnsureBackgroundImagePath(b.src), EnsureBackgroundImagePath(b.thumbSrc),
                b.filetype, PublicFields(b.others))
  }

  /**
   * The served view keeps what identifies the block, serves no internal key,
   * and places a src or thumbnail without `..` pieces under the prefix.
   */
  lemma PublicViewSpec(b: Entry)
    ensures var v := PublicView(b);
      && v.id == b.id && v.name == b.name && v.filetype == b.filetype
      && (forall k :: k in v.others ==> !IsInternalKey(k) && k in b.others && v.others[k] == b.others[k])
      && (forall k :: k in b.others && !IsInternalKey(k) ==> k in v.others)
      && v.src != [] && v.thumbSrc != []
      && (".." !in Split(NormalizeServingPath(b.src)) ==> UnderPrefix(v.src))
      && (".." !in Split(NormalizeServingPath(b.thumbSrc)) ==> UnderPrefix(v.thumbSrc))
  {
    if ".." !in Split(NormalizeServingPath(b.src)) {
      EnsureShape(b.src);
    }
    if ".." !in Split(NormalizeServingPath(b.thumbSrc)) {
      EnsureShape(b.thumbSrc);
    }
  }

  /** A finalized block whose src has no `.` or `..` piece is served with the src the lookup answers to. */
  lemma PublicViewKeepsSrc(e: Entry, used: set<string>)
    requires DotFree(NormalizeServingPath(e.src))
    ensures PublicView(FinalizedBlock(e, used)).src == FinalizedBlock(e, used).src
  {
    FinalizedBlockSpec(e, used);
    EnsureIdempotent(e.src);
  }

  /**
   * A src that climbs out of the prefix is catalogued as `/<w>` but served as
   * `/backgroundimages/<w>`: the prefixing applied a second time moves it.
   */
  lemma EscapedSrcIsMoved(e: Entry, used: set<string>, w: string)
    requires PlainWord(w) && e.src == "/" + (".." + "/" + w)
    ensures FinalizedBlock(e, used).src == "/" + w
    ensures PublicView(FinalizedBlock(e, used)).src == PublicPrefix + "/" + w
    ensures PublicView(FinalizedBlock(e, used)).src != FinalizedBlock(e, used).src
  {
    FinalizedBlockSpec(e, used);
    EnsureEscapes(w);
    EnsureNotIdempotent(w);
  }

  /**
   * The `for ... in` loop that deletes every `$` key from the copy of a block;
   * the other keys keep their values.
   */
  method StripInternalKeys(fields: map<string, string>) returns (r: map<string, string>)
    ensures forall k :: k in r <==> k in fields && !IsInternalKey(k)
    ensures forall k :: k in r ==> r[k] == fields[k]
  {
    r := fields;
    var keys := fields.Keys;
    while keys != {}
      invariant keys <= fields.Keys
      invariant forall k :: k in r <==> k in fields && (k in keys || !IsInternalKey(k))
      invariant forall k :: k in r ==> r[k] == fields[k]
      decreases |keys|
    {
      var k :| k in keys;
      if IsInternalKey(k) {
        r := r - {k};
      }
      keys := keys - {k};
    }
  }

  /** A map keeping exactly the public keys with their values is the public part. */
  lemma StrippedIsPublic(fields: map<string, string>, r: map<string, string>)
    requires forall k :: k in r <==> k in fields && !IsInternalKey(k)
    requires forall k :: k in r ==> r[k] == fields[k]
    ensures r == PublicFields(fields)
  {
  }

  /**
   * The copy of one block that is served: its fields without the `$` keys, the
   * src and thumbnail prefixed again.
   */
  method ViewOf(b: Entry) returns (view: PublicEntry)
    ensures view == PublicView(b)
  {
    var others := StripInternalKeys(b.others);
    StrippedIsPublic(b.others, others);
    view := PublicEntry(b.id, b.name,
                        EnsureBackgroundImagePath(b.src), EnsureBackgroundImagePath(b.thumbSrc),
                        b.filetype, others);
  }

  /** The list served as `/config.json`: every block of the catalog in its public form, in order. */
  method ServedCatalog(catalog: seq<Entry>) returns (served: seq<PublicEntry>)
    ensures |served| == |catalog|
    ensures forall i :: 0 <= i < |catalog| ==> served[i] == PublicView(catalog[i])
  {
    served := [];
    for i := 0 to |catalog|
      invariant |served| == i
      invariant forall j :: 0 <= j < i ==> served[j] == PublicView(catalog[j])
    {
      var view := ViewOf(catalog[i]);
      ServedStep(catalog, served, view, PublicView);
      served := served + [view];
    }
  }

  /** Appending the image of the next element extends a list of images by one. */
  lemma ServedStep<T, U>(xs: seq<T>, ys: seq<U>, y: U, f: T -> U)
    requires |ys| < |xs| && y == f(xs[|ys|])
    requires forall j :: 0 <= j < |ys| ==> ys[j] == f(xs[j])
    ensures forall j :: 0 <= j < |ys| + 1 ==> (ys + [y])[j] == f(xs[j])
  {
  }

  // ------------------------------------------------------ local file lookup

  /** The prefix `computeLocalPathFromSrc` strips, after the leading slashes. */
  const ServedDir: string := PrefixDir + "/"

  /**
   * `computeLocalPathFromSrc`: nothing for an empty src; otherwise the src
   * without its leading slashes and without `backgroundimages/`, joined under
   * the background directory.
   */
  function ComputeLocalPathFromSrc(src: string): (r: Option<string>)
    ensures r.None? <==> src == []
    ensures r.Some? ==> r.value != []
  {
    if src == [] then None
    else
      var normalized := SkipRun(src, IsSlash);
      var relative := if ServedDir <= normalized then normalized[|ServedDir|..] else normalized;
      Some(Join(BackgroundRoot, relative))
  }

  /**
   * The inverse of the prefixing: the served path `/backgroundimages/<t>` is
   * looked up as `backgrounds` joined with `t`.
   */
  lemma LocalPathOfPrefixed(t: string)
    requires t == [] || t[0] != '/'
    ensures ComputeLocalPathFromSrc(PublicPrefix + "/" + t) == Some(Join(BackgroundRoot, t))
  {
    var src := PublicPrefix + "/" + t;
    PrefixDirClean();
    assert src == "/" + (ServedDir + t);
    var normalized := SkipRun(src, IsSlash);
    assert normalized == ServedDir + t by {
      assert src[1..] == ServedDir + t;
      assert !IsSlash(src[1]);
    }
    assert ServedDir <= normalized && normalized[|ServedDir|..] == t;
  }

  /** For a clean relative `t`, the served path `/backgroundimages/<t>` is looked up as `backgrounds/<t>`. */
  lemma LocalPathOfServed(t: string)
    requires IsCleanRelative(t)
    ensures ComputeLocalPathFromSrc(PublicPrefix + "/" + t) == Some(BackgroundRoot + "/" + t)
  {
    LocalPathOfPrefixed(t);
    BackgroundJoin(t);
  }

  /** A clean relative path joined under the background directory is appended to it. */
  lemma BackgroundJoin(t: string)
    requires IsCleanRelative(t)
    ensures Join(BackgroundRoot, t) == BackgroundRoot + "/" + t
  {
    BackgroundRootClean();
    JoinClean(false, BackgroundRoot, t);
    assert [] + BackgroundRoot == BackgroundRoot;
  }

  /**
   * A src outside the prefix keeps all of its path: `/<t>` is looked up as
   * `backgrounds` joined with `t`.
   */
  lemma LocalPathOutsidePrefix(t: string)
    requires t == [] || t[0] != '/'
    requires !(ServedDir <= t)
    ensures ComputeLocalPathFromSrc("/" + t) == Some(Join(BackgroundRoot, t))
  {
    var src := "/" + t;
    assert src[1..] == t;
    assert SkipRun(src, IsSlash) == t by {
      if t != [] { assert !IsSlash(src[1]); }
    }
  }

  /**
   * A src that escaped the prefix, `/<w>` for a plain word, is looked up as
   * `backgrounds/<w>`.
   */
  lemma LocalPathOfEscaped(w: string)
    requires PlainWord(w)
    ensures ComputeLocalPathFromSrc("/" + w) == Some(BackgroundRoot + "/" + w)
  {
    assert !(ServedDir <= w) by {
      assert ServedDir[|ServedDir| - 1] == '/';
      assert |w| < |ServedDir| || w[|ServedDir| - 1] != '/';
    }
    LocalPathOutsidePrefix(w);
    WordIsClean(w);
    BackgroundJoin(w);
  }

  lemma BackgroundRootClean()
    ensures IsCleanRelative(BackgroundRoot) && BackgroundRoot[|BackgroundRoot| - 1] != '/'
  {
    WordIsClean(BackgroundRoot);
  }

  /** The file a matching block names: its local path, else the one computed from the matched path. */
  function LocalFor(localPath: string, path: string): (r: Option<string>)
    ensures localPath != [] ==> r == Some(localPath)
    ensures localPath == [] ==> r == ComputeLocalPathFromSrc(path)
  {
    if localPath != [] then Some(localPath) else ComputeLocalPathFromSrc(path)
  }

  /** The file one block names for `url`, if it answers to it: the src is tested before the thumbnail. */
  function Match(b: Entry, url: string): Option<Option<string>> {
    if b.src == url then Some(LocalFor(b.srcLocalPath, b.src))
    else if b.thumbSrc == url then Some(LocalFor(b.thumbSrcLocalPath, b.thumbSrc))
    else None
  }

  /**
   * The file the lookup loop settles on: every matching block overwrites the
   * previous answer, so the last match decides (`None` for no file).
   */
  function Lookup(catalog: seq<Entry>, url: string): Option<string> {
    Latest(catalog, url, Match, None)
  }

  /** The `forEach` over the catalog that records the file of every block answering to the path. */
  method LookupFile(catalog: seq<Entry>, url: string) returns (file: Option<string>)
    ensures file == Lookup(catalog, url)
  {
    file := None;
    for i := 0 to |catalog|
      invariant file == Lookup(catalog[..i], url)
    {
      var b := catalog[i];
      LatestStep(catalog, i, url, Match, None);
      if b.src == url {
        file := LocalFor(b.srcLocalPath, b.src);
      } else if b.thumbSrc == url {
        file := LocalFor(b.thumbSrcLocalPath, b.thumbSrc);
      }
    }
    assert catalog[..|catalog|] == catalog;
  }

  /**
   * The block that decides: when block `j` answers to `url` and no later one
   * does, the file is the one block `j` names, its src taking precedence and
   * its local path preferred to the computed one.
   */
  lemma LookupLast(catalog: seq<Entry>, url: string, j: nat)
    requires j < |catalog| && (catalog[j].src == url || catalog[j].thumbSrc == url)
    requires forall k :: j < k < |catalog| ==> catalog[k].src != url && catalog[k].thumbSrc != url
    ensures catalog[j].src == url ==> Lookup(catalog, url) == LocalFor(catalog[j].srcLocalPath, url)
    ensures catalog[j].src != url ==> Lookup(catalog, url) == LocalFor(catalog[j].thumbSrcLocalPath, url)
  {
    forall k | j < k < |catalog| ensures Match(catalog[k], url).None? {
      assert catalog[k].src != url && catalog[k].thumbSrc != url;
    }
    LatestAt(catalog, url, Match, None, j);
  }

  /**
   * For a nonempty path, the lookup finds a file exactly when some block's src
   * or thumbnail is that path.
   */
  lemma LookupFinds(catalog: seq<Entry>, url: string)
    requires url != []
    ensures Lookup(catalog, url).Some?
        <==> exists k :: 0 <= k < |catalog| && (catalog[k].src == url || catalog[k].thumbSrc == url)
  {
    if exists k :: 0 <= k < |catalog| && (catalog[k].src == url || catalog[k].thumbSrc == url) {
      var k :| 0 <= k < |catalog| && (catalog[k].src == url || catalog[k].thumbSrc == url);
      assert Match(catalog[k], url).Some?;
      var j := LastAnswered(catalog, url, Match);
      LatestAt(catalog, url, Match, None, j);
    } else {
      forall k | 0 <= k < |catalog| ensures Match(catalog[k], url).None? {
        assert catalog[k].src != url && catalog[k].thumbSrc != url;
      }
      LatestNone(catalog, url, Match, None);
    }
  }

  // ------------------------------------------------------------------ requests

  /** `url.split('?')[0]`: the request path before the first `?`. */
  function PathPart(url: string): (r: string)
    ensures r <= url
    ensures '?' !in r
    ensures |r| < |url| ==> url[|r|] == '?'
  {
    var k := IndexOf(url, '?');
    if k < 0 then url else url[..k]
  }

  /** A request for the catalog: its path, without the query, is `/config.json`. */
  predicate IsCatalogRequest(url: string) {
    PathPart(url) == CatalogPath
  }

  /** The path part of `url` is `a` (free of `?`) exactly when `url` is `a`, or `a` followed by a query. */
  lemma PathPartIs(a: string, url: string)
    requires '?' !in a
    ensures PathPart(url) == a <==> url == a || a + "?" <= url
  {
    var p := PathPart(url);
    if p == a && |p| < |url| {
      assert url[..|p| + 1] == a + "?";
    }
    if url == a {
      assert IndexOf(url, '?') < 0;
    } else if a + "?" <= url {
      var n := |a|;
      assert url[n] == '?';
      assert forall j :: 0 <= j < n ==> url[j] == a[j];
      assert IndexOf(url, '?') == n;
      assert url[..n] == a;
    }
  }

  /** Exactly `/config.json` itself, or it followed by a query, is a request for the catalog. */
  lemma CatalogRequestShape(url: string)
    ensures IsCatalogRequest(url) <==> url == CatalogPath || CatalogPath + "?" <= url
  {
    assert forall i :: 0 <= i < |CatalogPath| ==> CatalogPath[i] != '?';
    PathPartIs(CatalogPath, url);
  }

  /** What the body of a response holds. */
  datatype Body =
    | NoBody
    | CatalogJson(entries: seq<PublicEntry>)  // `{"videoBackgroundImages": [...]}`
    | FileContents(path: string)              // the bytes of the local file at `path`
    | Message(text: string)

  datatype Response = Response(status: nat, headers: map<string, string>, body: Body)

  /** The header every response carries, set before anything can fail. */
  const CorsHeaders: map<string, string> := map["Access-Control-Allow-Origin" := "*"]

  /**
   * The loaded server: the finished catalog the lookup goes through, and its
   * public view served as `/config.json`.
   */
  datatype Server = Server(catalog: seq<Entry>, served: seq<PublicEntry>)

  /** Builds the catalog from the configured entries and derives the public view, once, at start. */
  method Load(raw: seq<Entry>, listing: Listing) returns (server: Server)
    ensures server.catalog == BuiltCatalog(raw, listing)
    ensures |server.served| == |server.catalog|
    ensures forall i :: 0 <= i < |server.catalog| ==> server.served[i] == PublicView(server.catalog[i])
  {
    var catalog := BuildVideoBackgrounds(raw, listing);
    var served := ServedCatalog(catalog);
    server := Server(catalog, served);
  }

  /** The lookup settled on a file, and that file exists. */
  predicate Found(file: Option<string>, existing: set<string>) {
    file.Some? && file.value in existing
  }

  /**
   * The request handler. `decoded` is the result of `decodeURIComponent` on the
   * url (`None` when it throws) and `existing` the local paths that exist.
   */
  function Route(server: Server, verb: string, url: string, decoded: Option<string>,
                 existing: set<string>): Response
  {
    if IsCatalogRequest(url) then
      if verb == "OPTIONS" then
        Response(200, CorsHeaders["Allow" := "GET, OPTIONS"], NoBody)
      else
        Response(200, CorsHeaders["Content-Type" := "application/json"], CatalogJson(server.served))
    else if decoded.None? then
      Response(503, CorsHeaders, Message("Internal error: URI malformed"))
    else
      var file := Lookup(server.catalog, decoded.value);
      if !Found(file, existing) then
        Response(404, CorsHeaders, Message("Not found"))
      else
        Response(200, CorsHeaders, FileContents(file.value))
  }

  /**
   * What the handler promises across its branches: every response allows any
   * origin; the status is 200, 404 or 503; 503 exactly for an undecodable path
   * outside the catalog; 404 exactly when such a path names no existing file;
   * the catalog is sent for every non-preflight request for it; and a file is
   * only ever sent when it exists and the lookup settled on it.
   */
  lemma RouteSpec(server: Server, verb: string, url: string, decoded: Option<string>,
                  existing: set<string>)
    ensures var r := Route(server, verb, url, decoded, existing);
      && "Access-Control-Allow-Origin" in r.headers && r.headers["Access-Control-Allow-Origin"] == "*"
      && (r.status == 200 || r.status == 404 || r.status == 503)
      && (r.status == 503 <==> !IsCatalogRequest(url) && decoded.None?)
      && (r.status == 404 <==>
            && !IsCatalogRequest(url) && decoded.Some?
            && !Found(Lookup(server.catalog, decoded.value), existing))
      && (IsCatalogRequest(url) && verb != "OPTIONS" ==> r.body == CatalogJson(server.served))
      && (r.body.FileContents? ==>
            && decoded.Some?
            && Lookup(server.catalog, decoded.value) == Some(r.body.path)
            && r.body.path in existing)
  {
  }

  /**
   * A request for the served src of a block that no later block answers to
   * is served from that block's local file when it exists.
   */
  lemma RouteServesBlock(server: Server, verb: string, url: string, existing: set<string>, j: nat)
    requires !IsCatalogRequest(url)
    requires j < |server.catalog| && server.catalog[j].src == url
    requires server.catalog[j].srcLocalPath in existing && server.catalog[j].srcLocalPath != []
    requires forall k :: j < k < |server.catalog| ==> server.catalog[k].src != url && server.catalog[k].thumbSrc != url
    ensures Route(server, verb, url, Some(url), existing)
         == Response(200, CorsHeaders, FileContents(server.catalog[j].srcLocalPath))
  {
    LookupLast(server.catalog, url, j);
  }
}
