/**
 * Building the catalog of background images: `finalizeBlock`, the per-file
 * templates of `generateBlocksFromScan`, and `buildVideoBackgrounds`, which runs
 * every entry of the configuration through them with one shared set of ids.
 */
module Catalog {
  import opened Text
  import opened PosixPath
  import opened Sanitize
  import opened UniqueIds
  import opened Lists

  /**
   * One object of the `videoBackgroundImages` list. A key that is absent reads
   * as "" (or false for the two flags): every use of these keys in the server
   * only asks whether the value is truthy, so the two cannot be told apart.
   * `others` holds the remaining keys, copied along untouched; it never holds
   * one of the keys given a field here (`id`, `name`, `src`, `thumbSrc`,
   * `filetype`, `$src_localpath`, `$thumb_src_localpath`, `$scan_dir`,
   * `$recurse`, `$use_relative_path_as_filename_and_id`).
   */
  datatype Entry = Entry(
    id: string,
    name: string,
    src: string,
    thumbSrc: string,
    filetype: string,
    srcLocalPath: string,       // `$src_localpath`
    thumbSrcLocalPath: string,  // `$thumb_src_localpath`
    scanDir: string,            // `$scan_dir`
    recurse: bool,              // `$recurse`
    useRelative: bool,          // `$use_relative_path_as_filename_and_id`
    others: map<string, string>)

  /** JavaScript `a || b` on strings: "" is the only falsy string. */
  function Or(a: string, b: string): string {
    if a != [] then a else b
  }

  /** `.replace(/^\./, "")`: one leading dot removed. */
  function DropLeadingDot(s: string): string {
    if s != [] && s[0] == '.' then s[1..] else s
  }

  // ------------------------------------------------------------ finalizeBlock

  /** The extension `finalizeBlock` infers, from the local path or else the src. */
  function InferredExt(e: Entry): (r: string)
    ensures r == [] || (r[0] != '.' && '.' !in r && '/' !in r)
    ensures var ext := ExtName(Or(e.srcLocalPath, e.src));
      && (r == [] <==> ext == [] || ext == ".")
      && (r != [] ==> "." + r == ext)
  {
    var ext := ExtName(Or(e.srcLocalPath, e.src));
    DropLeadingDotExt(ext);
    DropLeadingDot(ext)
  }

  /** An extension without its dot: empty exactly for "" and ".", and the rest of the extension otherwise. */
  lemma DropLeadingDotExt(ext: string)
    requires ext == [] || ext[0] == '.'
    requires forall i :: 0 < i < |ext| ==> ext[i] != '.' && ext[i] != '/'
    ensures var r := DropLeadingDot(ext);
      && (r == [] || (r[0] != '.' && '.' !in r && '/' !in r))
      && (r == [] <==> ext == [] || ext == ".")
      && (r != [] ==> "." + r == ext)
  {
    if ext != [] {
      var r := ext[1..];
      assert ext == [ext[0]] + r;
      assert forall i :: 0 <= i < |r| ==> r[i] == ext[i + 1];
    }
  }

  /** The fallback handed to `ensureUniqueId`: the name, else the base name of the src or local path. */
  function IdFallback(e: Entry): string {
    Or(e.name, BaseName(Or(e.src, e.srcLocalPath)))
  }

  /**
   * The block `finalizeBlock` makes of `e` when `used` holds the ids taken so far:
   * a fresh id, a sanitized name, the src and thumbnail moved under the public
   * prefix, and a file type; every other key as it was.
   */
  function FinalizedBlock(e: Entry, used: set<string>): Entry {
    var id := UniqueId(IdBase(e.id, IdFallback(e)), used);
    var src := EnsureBackgroundImagePath(e.src);
    e.(id := id,
       name := Or(SanitizeName(Or(StripExtension(e.name), id)), id),
       src := src,
       thumbSrc := EnsureBackgroundImagePath(Or(e.thumbSrc, src)),
       filetype := Or(e.filetype, Or(InferredExt(e), "png")))
  }

  /** What `finalizeBlock` promises about the block it returns. */
  lemma FinalizedBlockSpec(e: Entry, used: set<string>)
    ensures var b := FinalizedBlock(e, used);
      // the id: fresh, clean, and the sanitized raw id whenever that is usable and free
      && b.id != [] && b.id !in used && IsCleanId(b.id)
      && (var base := SanitizeId(StripExtension(e.id));
          base != [] && base !in used ==> b.id == base)
      // ... else the sanitized fallback whenever that is usable and free
      && (var fromFallback := SanitizeId(StripExtension(IdFallback(e)));
          SanitizeId(StripExtension(e.id)) == [] && fromFallback != [] && fromFallback !in used ==>
            b.id == fromFallback)
      // the name: a clean, nonempty display name, the sanitized name when there is one, else the id
      && b.name != [] && IsCleanName(b.name)
      && (SanitizeName(StripExtension(e.name)) != [] ==> b.name == SanitizeName(StripExtension(e.name)))
      && (SanitizeName(StripExtension(e.name)) == [] ==> b.name == b.id)
      // src and thumbnail: always set; the thumbnail defaults to the finished src
      && b.src == EnsureBackgroundImagePath(e.src) && b.src != []
      && (e.thumbSrc == [] ==> b.thumbSrc == EnsureBackgroundImagePath(b.src))
      && (e.thumbSrc != [] ==> b.thumbSrc == EnsureBackgroundImagePath(e.thumbSrc))
      // file type: explicit, else inferred, else "png"
      && b.filetype != []
      && (e.filetype != [] ==> b.filetype == e.filetype)
      && (e.filetype == [] && InferredExt(e) != [] ==> b.filetype == InferredExt(e))
      && (e.filetype == [] && InferredExt(e) == [] ==> b.filetype == "png")
      // everything else is copied
      && b.(id := e.id, name := e.name, src := e.src, thumbSrc := e.thumbSrc, filetype := e.filetype) == e
  {
    var b := FinalizedBlock(e, used);
    var base := IdBase(e.id, IdFallback(e));
    IdBaseClean(e.id, IdFallback(e));
    UniqueIdFresh(base, used);
    UniqueIdClean(e.id, IdFallback(e), used);
    FinalName(e.name, b.id);
  }

  /** The name `finalizeBlock` gives: the sanitized name without extension, else the (clean) id. */
  lemma FinalName(name: string, id: string)
    requires id != [] && IsCleanId(id)
    ensures var n := Or(SanitizeName(Or(StripExtension(name), id)), id);
      && n != [] && IsCleanName(n)
      && (SanitizeName(StripExtension(name)) != [] ==> n == SanitizeName(StripExtension(name)))
      && (SanitizeName(StripExtension(name)) == [] ==> n == id)
  {
    var stem := StripExtension(name);
    if stem == [] {
      SanitizeNameEmpty();
      CleanIdIsCleanName(id);
      SanitizeNameClean(id);
    } else if SanitizeName(stem) == [] {
      CleanIdIsCleanName(id);
      SanitizeNameClean(id);
    } else {
      SanitizeNameClean(stem);
    }
  }

  /** When the src has no `.` or `..` piece, the thumbnail of a src-only entry is the src itself. */
  lemma FinalizedThumbDefaultsToSrc(e: Entry, used: set<string>)
    requires e.thumbSrc == [] && DotFree(NormalizeServingPath(e.src))
    ensures FinalizedBlock(e, used).thumbSrc == FinalizedBlock(e, used).src
    ensures UnderPrefix(FinalizedBlock(e, used).src)
  {
    EnsureIdempotent(e.src);
    EnsureShape(e.src);
  }

  /**
   * `finalizeBlock`: copies the entry, then overwrites its id (claiming it in
   * `usedIds`), name, src, thumbnail and file type in turn.
   */
  method FinalizeBlock(entry: Entry, usedIds: IdSet) returns (block: Entry)
    modifies usedIds
    ensures block == FinalizedBlock(entry, old(usedIds.ids))
    ensures usedIds.ids == old(usedIds.ids) + {block.id}
  {
    block := entry;
    var inferredExt := InferredExt(block);
    var id := usedIds.EnsureUniqueId(block.id, IdFallback(block));
    block := block.(id := id);
    var sanitizedName := SanitizeName(Or(StripExtension(block.name), block.id));
    block := block.(name := Or(sanitizedName, block.id));
    block := block.(src := EnsureBackgroundImagePath(block.src));
    if block.src == [] {
      // never taken: the prefixing never yields ""
      assert false;
    }
    block := block.(thumbSrc := EnsureBackgroundImagePath(Or(block.thumbSrc, block.src)));
    block := block.(filetype := Or(block.filetype, Or(inferredExt, "png")));
  }

  // ------------------------------------------------------------ the whole list

  function IdOf(b: Entry): string {
    b.id
  }

  /** The ids of a list of blocks. */
  function IdsOf(bs: seq<Entry>): set<string> {
    KeysOf(bs, IdOf)
  }

  /**
   * Finalizing a list in order, each entry seeing the ids of `used` and of the
   * blocks before it.
   */
  function FinalizeAll(es: seq<Entry>, used: set<string>): seq<Entry> {
    Thread(es, used, FinalizedBlock, IdOf)
  }

  /**
   * Block `i` of a finalized list is entry `i` finalized against the ids taken
   * before it; the ids are clean, none was taken beforehand, and no two blocks
   * share one.
   */
  lemma FinalizeAllSpec(es: seq<Entry>, used: set<string>)
    ensures var r := FinalizeAll(es, used);
      && |r| == |es|
      && (forall i :: 0 <= i < |es| ==> r[i] == FinalizedBlock(es[i], used + IdsOf(r[..i])))
      && (forall i :: 0 <= i < |r| ==> r[i].id != [] && IsCleanId(r[i].id) && r[i].id !in used)
      && (forall i, j :: 0 <= i < j < |r| ==> r[i].id != r[j].id)
  {
    var r := FinalizeAll(es, used);
    ThreadAt(es, used, FinalizedBlock, IdOf);
    forall e, u ensures IdOf(FinalizedBlock(e, u)) !in u {
      FinalizedBlockSpec(e, u);
    }
    ThreadFresh(es, used, FinalizedBlock, IdOf);
    forall i | 0 <= i < |r| ensures r[i].id != [] && IsCleanId(r[i].id) {
      FinalizedBlockSpec(es[i], used + IdsOf(r[..i]));
    }
  }

  /** Finalizing one more entry appends its block, finalized against every id taken before it. */
  lemma FinalizeAllStep(es: seq<Entry>, i: nat, used: set<string>)
    requires i < |es|
    ensures FinalizeAll(es[..i + 1], used)
         == FinalizeAll(es[..i], used) + [FinalizedBlock(es[i], used + IdsOf(FinalizeAll(es[..i], used)))]
  {
    TakeOneMore(es, i);
    ThreadAppend(es[..i], [es[i]], used, FinalizedBlock, IdOf);
    ThreadSingle(es[i], used + IdsOf(FinalizeAll(es[..i], used)), FinalizedBlock, IdOf);
  }

  /** An empty list finalizes to nothing and takes no id. */
  lemma NothingFinalized(used: set<string>)
    ensures FinalizeAll([], used) == [] && IdsOf([]) == {}
  {
  }

  /** Adding a block to a list adds its id to the list's ids. */
  lemma IdsOfSnoc(bs: seq<Entry>, b: Entry)
    ensures IdsOf(bs + [b]) == IdsOf(bs) + {b.id}
  {
    KeysOfAppend(bs, [b], IdOf);
    KeysOfSingle(b, IdOf);
  }

  // ---------------------------------------------------- generateBlocksFromScan

  /**
   * What the walk of a scan directory finds: for each directory and recurse
   * flag, the image files under it, as paths relative to it with `/` as the
   * separator, in the order the server sorts them. A directory that cannot be
   * read as one has no key.
   */
  type Listing = map<(string, bool), seq<string>>

  /** The files a scan entry expands to. */
  function ScanFiles(entry: Entry, listing: Listing): seq<string> {
    if entry.scanDir != [] && (entry.scanDir, entry.recurse) in listing
    then listing[(entry.scanDir, entry.recurse)]
    else []
  }

  /** `path.basename(filePath)`, or the path relative to the scan directory. */
  function PreferredPath(entry: Entry, rel: string): string {
    if entry.useRelative then rel else BaseName(Join(entry.scanDir, rel))
  }

  /**
   * The template `generateBlocksFromScan` builds for one file: the entry without
   * its three scan directives, with id and name from the file, the file as local
   * path, the served path under the prefix, and the lower-cased extension as the
   * file type when the entry has none.
   */
  function ScanTemplate(entry: Entry, rel: string): Entry {
    var filePath := Join(entry.scanDir, rel);
    var ext := ExtName(filePath);
    var baseName := if entry.useRelative then StripExtension(rel) else BaseNameWithoutExt(filePath);
    var src := Join(PublicPrefix, PreferredPath(entry, rel));
    entry.(scanDir := [], recurse := false, useRelative := false,
           id := baseName, name := baseName,
           filetype := Or(entry.filetype, AsciiLower(DropLeadingDot(ext))),
           srcLocalPath := filePath, thumbSrcLocalPath := filePath,
           src := src, thumbSrc := src)
  }

  /** What a scan template keeps, drops and sets. */
  lemma ScanTemplateSpec(entry: Entry, rel: string)
    ensures var t := ScanTemplate(entry, rel);
      && t.scanDir == [] && !t.recurse && !t.useRelative
      && t.id == t.name
      && (entry.useRelative ==> t.id == StripExtension(rel))
      && (!entry.useRelative ==> t.id + ExtName(t.srcLocalPath) == BaseName(t.srcLocalPath))
      && t.srcLocalPath == t.thumbSrcLocalPath == Join(entry.scanDir, rel)
      && t.src == t.thumbSrc
      && (entry.filetype != [] ==> t.filetype == entry.filetype)
      && (entry.filetype == [] ==> t.filetype == AsciiLower(DropLeadingDot(ExtName(t.srcLocalPath))))
      && (forall i :: 0 <= i < |t.filetype| && entry.filetype == [] ==> !('A' <= t.filetype[i] <= 'Z'))
      && t.others == entry.others
  {
  }

  /** A clean preferred path is served as `/backgroundimages/<path>`, which finalizing keeps. */
  lemma ScanTemplateSrc(entry: Entry, rel: string)
    requires IsCleanRelative(PreferredPath(entry, rel))
    ensures ScanTemplate(entry, rel).src == PublicPrefix + "/" + PreferredPath(entry, rel)
  {
    PrefixDirClean();
    PublicPrefixSplit();
    JoinClean(true, PrefixDir, PreferredPath(entry, rel));
  }

  /** The templates of a scan entry, one per file, in the listing's order. */
  function ScanExpansion(entry: Entry, listing: Listing): seq<Entry> {
    Map(ScanFiles(entry, listing), entry, FileTemplate)
  }

  /** `ScanTemplate` with the file first, as `Map` takes it. */
  function FileTemplate(rel: string, entry: Entry): Entry {
    ScanTemplate(entry, rel)
  }

  /** Template `i` of a scan entry is the template of file `i` of its listing. */
  lemma ScanExpansionSpec(entry: Entry, listing: Listing)
    ensures var r := ScanExpansion(entry, listing);
      && |r| == |ScanFiles(entry, listing)|
      && (forall i :: 0 <= i < |r| ==> r[i] == ScanTemplate(entry, ScanFiles(entry, listing)[i]))
      && (entry.scanDir == [] || (entry.scanDir, entry.recurse) !in listing ==> r == [])
  {
    MapAt(ScanFiles(entry, listing), entry, FileTemplate);
  }

  /**
   * `generateBlocksFromScan`: nothing for a missing or unreadable directory,
   * otherwise each file's template finalized in order.
   */
  method GenerateBlocksFromScan(entry: Entry, usedIds: IdSet, listing: Listing)
    returns (generated: seq<Entry>)
    modifies usedIds
    ensures generated == FinalizeAll(ScanExpansion(entry, listing), old(usedIds.ids))
    ensures usedIds.ids == old(usedIds.ids) + IdsOf(generated)
  {
    if entry.scanDir == [] || (entry.scanDir, entry.recurse) !in listing {
      ScanExpansionSpec(entry, listing);
      NothingFinalized(old(usedIds.ids));
      return [];
    }
    generated := FinalizeEach(ScanExpansion(entry, listing), usedIds);
  }

  /** The loop of `generateBlocksFromScan`: finalizes the templates one after another. */
  method FinalizeEach(templates: seq<Entry>, usedIds: IdSet) returns (generated: seq<Entry>)
    modifies usedIds
    ensures generated == FinalizeAll(templates, old(usedIds.ids))
    ensures usedIds.ids == old(usedIds.ids) + IdsOf(generated)
  {
    generated := [];
    for i := 0 to |templates|
      invariant generated == FinalizeAll(templates[..i], old(usedIds.ids))
      invariant usedIds.ids == old(usedIds.ids) + IdsOf(generated)
    {
      var block := FinalizeBlock(templates[i], usedIds);
      FinalizeAllStep(templates, i, old(usedIds.ids));
      IdsOfSnoc(generated, block);
      generated := generated + [block];
    }
    assert templates[..|templates|] == templates;
  }

  // ------------------------------------------------------ buildVideoBackgrounds

  /** A scan entry becomes its templates; any other entry stays itself. */
  function Expand(entry: Entry, listing: Listing): seq<Entry> {
    if entry.scanDir != [] then ScanExpansion(entry, listing) else [entry]
  }

  /** The entries of the configuration with every scan entry expanded, in order. */
  function ExpandAll(raw: seq<Entry>, listing: Listing): seq<Entry> {
    Flatten(raw, listing, Expand)
  }

  /** The finished catalog `buildVideoBackgrounds` makes of the configured entries. */
  function BuiltCatalog(raw: seq<Entry>, listing: Listing): seq<Entry> {
    FinalizeAll(ExpandAll(raw, listing), {})
  }

  /**
   * `buildVideoBackgrounds`: one fresh id set for the whole list; each scan
   * entry appends its generated blocks, each other entry its finalized block.
   */
  method BuildVideoBackgrounds(raw: seq<Entry>, listing: Listing) returns (result: seq<Entry>)
    ensures result == BuiltCatalog(raw, listing)
  {
    var usedIds := new IdSet();
    result := [];
    NothingFinalized({});
    for i := 0 to |raw|
      invariant result == BuiltCatalog(raw[..i], listing)
      invariant usedIds.ids == IdsOf(result)
    {
      var entry := raw[i];
      BuiltCatalogStep(raw, i, listing);
      if entry.scanDir != [] {
        var generated := GenerateBlocksFromScan(entry, usedIds, listing);
        KeysOfAppend(result, generated, IdOf);
        result := result + generated;
      } else {
        var block := FinalizeBlock(entry, usedIds);
        ThreadSingle(entry, IdsOf(result), FinalizedBlock, IdOf);
        IdsOfSnoc(result, block);
        result := result + [block];
      }
    }
    assert raw[..|raw|] == raw;
  }

  /** One more configured entry appends its expansion, finalized against the ids taken so far. */
  lemma BuiltCatalogStep(raw: seq<Entry>, i: nat, listing: Listing)
    requires i < |raw|
    ensures BuiltCatalog(raw[..i + 1], listing)
         == BuiltCatalog(raw[..i], listing)
            + FinalizeAll(Expand(raw[i], listing), IdsOf(BuiltCatalog(raw[..i], listing)))
  {
    TakeOneMore(raw, i);
    BuiltCatalogAppend(raw[..i], [raw[i]], listing);
    FlattenSingle(raw[i], listing, Expand);
  }

  /** Every id of the catalog is a nonempty clean identifier, and no two blocks share one. */
  lemma BuiltCatalogIds(raw: seq<Entry>, listing: Listing)
    ensures var c := BuiltCatalog(raw, listing);
      && (forall i :: 0 <= i < |c| ==> c[i].id != [] && IsCleanId(c[i].id))
      && (forall i, j :: 0 <= i < j < |c| ==> c[i].id != c[j].id)
  {
    FinalizeAllSpec(ExpandAll(raw, listing), {});
  }

  /**
   * Without scan entries, entry `i` becomes block `i`, finalized against the
   * ids of the blocks before it.
   */
  lemma BuiltCatalogNoScan(raw: seq<Entry>, listing: Listing)
    requires forall i :: 0 <= i < |raw| ==> raw[i].scanDir == []
    ensures var c := BuiltCatalog(raw, listing);
      && |c| == |raw|
      && forall i :: 0 <= i < |raw| ==> c[i] == FinalizedBlock(raw[i], IdsOf(c[..i]))
  {
    FlattenIdentity(raw, listing, Expand);
    FinalizeAllSpec(raw, {});
    var c := BuiltCatalog(raw, listing);
    forall i | 0 <= i < |raw| ensures {} + IdsOf(c[..i]) == IdsOf(c[..i]) { }
  }

  /**
   * Appending entries to the configuration appends their blocks to the catalog,
   * finalized against the ids already taken: earlier blocks never change.
   */
  lemma BuiltCatalogAppend(a: seq<Entry>, b: seq<Entry>, listing: Listing)
    ensures BuiltCatalog(a + b, listing)
         == BuiltCatalog(a, listing) + FinalizeAll(ExpandAll(b, listing), IdsOf(BuiltCatalog(a, listing)))
  {
    FlattenAppend(a, b, listing, Expand);
    ThreadAppend(ExpandAll(a, listing), ExpandAll(b, listing), {}, FinalizedBlock, IdOf);
    assert {} + IdsOf(BuiltCatalog(a, listing)) == IdsOf(BuiltCatalog(a, listing));
  }
}
