# Background-image server: catalog building and request lookup

This project models the core of `server.js`, a small Node.js server. The server
reads a configuration list of background images (`videoBackgroundImages`). It
turns that list into a finished catalog and serves two things over HTTP:

- the public view of the catalog, at `/config.json`;
- the image files the catalog points to.

Building the catalog works entry by entry:

- Each configured entry becomes a *block*. It gets a unique, sanitized id and a
  sanitized display name. Its `src` and `thumb_src` are moved under the
  `/backgroundimages` serving prefix. It gets a file type.
- An entry with a `$scan_dir` directive instead expands into one block per image
  file found under that directory.
- One set of used ids is shared by the whole list, so ids are unique across the
  catalog.

Serving works as follows:

- The public view drops every key starting with `$`.
- A request for any other path goes through the catalog. The last block whose
  `src` (tested first) or `thumb_src` equals the decoded path names the local
  file. That file is its `$src_localpath` / `$thumb_src_localpath`, or else a
  path computed from the served path under `backgrounds/`.

Modules:

- `Text`: character classes; the regular-expression rewrites `X+ → r` and
  `trim`; `lastIndexOf` and `indexOf`; lower-casing; decimal numerals.
- `PosixPath`: Node's `path.posix` operations that the server uses: `normalize`
  (segment resolution of `.` and `..`), `join`, `basename` and `extname`.
- `Sanitize`: `stripExtension`, `sanitizeId`, `sanitizeName`,
  `normalizeServingPath` and `ensureBackgroundImagePath`.
- `UniqueIds`: `ensureUniqueId`. The shared `usedIds` set is the class `IdSet`,
  whose `while` loop tries `base`, `base_1`, `base_2`, ….
- `Lists`: the two list shapes of the builder, stated once:
  - concatenating each element's expansion (`Flatten`);
  - mapping a list in order while threading the set of keys taken so far
    (`Thread`).
- `Catalog`:
  - the `Entry` record;
  - `finalizeBlock`;
  - the per-file templates of `generateBlocksFromScan`;
  - `buildVideoBackgrounds`.
- `Router`:
  - the `$`-key projection;
  - `computeLocalPathFromSrc`;
  - the lookup loop;
  - the request handler's decision between catalog, file, 404 and 503.

The model follows the code as written. Two behaviours of
`ensureBackgroundImagePath` follow from its use of `path.posix.join`:

- A `..` piece can climb out of the prefix: `/../w` becomes `/w`
  (`Sanitize.EnsureEscapes`).
- The function is then not idempotent: `/w` becomes `/backgroundimages/w`
  (`Sanitize.EnsureNotIdempotent`).

The public view applies the function a second time. A block whose src climbs out
of the prefix is therefore catalogued under one path and served under another
(`Router.EscapedSrcIsMoved`). A `.` piece is harmless for the prefix, but it
can leave a trailing blank behind: `/w /.` becomes `/backgroundimages/w `
(`Sanitize.EnsureDotKeepsBlank`). So the prefix property is proved for paths
without `..` pieces, and the serving-path form and idempotence for paths
without `.` or `..` pieces.

The branch of `finalizeBlock` that recomputes an empty src (server.js:116-119)
is never taken, because `ensureBackgroundImagePath` never returns "". The model
keeps it as a dead branch. A src-less entry gets the bare `/backgroundimages`.

## Model

| member | source | states |
|---|---|---|
| Sanitize.StripExtension | server.js:7-18 | the result is a prefix of the input |
| Sanitize.StripExtensionSpec | server.js:12-17 | a strip removes exactly the last `.` and what follows, and only when no `/` or `\` follows it; an unchanged string has a separator after each of its dots |
| Sanitize.StripExtensionExamples | server.js:7-18 | `a.b/c` is unchanged, `a.b/c.txt` becomes `a.b/c`, "" gives "" |
| Sanitize.SanitizeIdClean | server.js:20-28 | the output holds only `[A-Za-z0-9_]`, has no `__`, and neither starts nor ends with `_` |
| Sanitize.SanitizeIdFixes | server.js:24-27 | a string that is already a clean id is returned unchanged |
| Sanitize.SanitizeIdIdempotent | server.js:20-28 | sanitizing an id twice equals sanitizing it once |
| Sanitize.SanitizeIdKeeps | server.js:24-27 | the letters and digits of the input all survive, in their order; only `_` is added, merged or dropped |
| Sanitize.SanitizeIdEmpty | server.js:20-28 | the id is "" exactly when the input holds no letter or digit; "" gives "" |
| Sanitize.SanitizeNameClean | server.js:30-39 | the output holds only alphanumerics, `_`, `-` and single blanks, has no leading or trailing blank, and holds no `/` or `\` |
| Sanitize.SanitizeNameFixes | server.js:34-38 | a clean name is returned unchanged |
| Sanitize.SanitizeNameIdempotent | server.js:30-39 | sanitizing a name twice equals sanitizing it once |
| Sanitize.SanitizeNameKeeps | server.js:34-38 | the letters, digits, `_` and `-` of the output are those of the input in their order, each run of `/` or `\` standing as one `-` |
| Sanitize.SanitizeNameKeepsPlain | server.js:34-38 | a name without `/` or `\` keeps exactly its letters, digits, `_` and `-`, in order |
| Sanitize.SanitizeNameKeepsId | server.js:34-38 | the letters, digits and `_` of the input always survive, in order |
| Sanitize.CleanIdIsCleanName | server.js:113-114 | an id used as the name fallback survives `sanitizeName` unchanged |
| Sanitize.NormalizeServingPathShape | server.js:52-66 | the result is "" exactly when the trimmed input is ""; otherwise it starts with `/`, has no `\`, no `//` and no trailing blank |
| Sanitize.NormalizeServingPathFixes | server.js:60-64 | a path already in serving form is unchanged |
| Sanitize.NormalizeServingPathIdempotent | server.js:52-66 | normalizing twice equals normalizing once |
| Sanitize.NormalizeServingPathKeeps | server.js:56-64 | every character of the trimmed input other than `/` and `\` survives, in its order |
| Sanitize.NormalizeRelative | server.js:56-64 | a value starting with neither blank nor separator normalizes to `/` followed by the value with each `\` read as `/`, when that is a serving path |
| Sanitize.NormalizeLetterPair | server.js:56-64 | two lower-case letters around a `/` or a `\` normalize to `/`, the first letter, `/`, the second |
| Sanitize.NormalizeBackslashExample | server.js:60-64 | `a\b` normalizes to `/a/b` |
| Sanitize.EnsureBackgroundImagePath | server.js:97-107 | the result is never empty |
| Sanitize.EnsureBlank | server.js:98-101 | a blank input gives `/backgroundimages` |
| Sanitize.EnsureKeepsPublic | server.js:102-104 | a serving path equal to or under `/backgroundimages/` is returned unchanged |
| Sanitize.PlaceUnderPrefixRelative | server.js:102-106 | a serving path outside the prefix and without `.` or `..` pieces is placed as the prefix followed by the path (`/` as the prefix itself), which is a serving path under the prefix |
| Sanitize.EnsureRelative | server.js:105-106 | any other normalized path without `.` or `..` pieces is put under the prefix: `/backgroundimages` + the path |
| Sanitize.EnsureLetterPair | server.js:97-107 | two lower-case letters around a `/`, the first not `b`, are placed under the prefix as they are: `/backgroundimages/` followed by them |
| Sanitize.EnsureExample | server.js:97-107 | `x/y` becomes `/backgroundimages/x/y` |
| Sanitize.PlaceClimbFree | server.js:102-106 | a serving path outside the prefix and without `..` pieces is placed equal to or under `/backgroundimages`, still starting with `/`, with no `\` and no `//` |
| Sanitize.EnsureShape | server.js:97-107 | when the normalized input has no `..` piece, the result starts with `/`, is equal to or under `/backgroundimages`, and has no `\` and no `//`; without `.` pieces as well, it is a serving path |
| Sanitize.EnsureIdempotent | server.js:97-107 | for an input without `.` or `..` pieces, applying the function twice equals applying it once |
| Sanitize.EnsureEscapes | server.js:105-106 | `/../w` is resolved by the join to `/w`, outside the prefix |
| Sanitize.EnsureNotIdempotent | server.js:102-106 | `/w` (not under the prefix) becomes `/backgroundimages/w`, a different path |
| Sanitize.EnsureDotKeepsBlank | server.js:102-106 | `/w /.` becomes `/backgroundimages/w `, which ends in a blank and is not a serving path |
| PosixPath.JoinClean | server.js:106 | joining a clean relative path under a clean root puts one `/` between them and changes nothing else |
| PosixPath.JoinParent | server.js:106 | joining `../w` under `/root` climbs to `/w` |
| PosixPath.ResolveNoParent | server.js:106 | without `..` pieces, resolution keeps exactly the pieces that are neither empty nor `.`, in order |
| PosixPath.JoinNoParent | server.js:106 | joining a path without `..` pieces onto `/root` gives `/root` or a path starting with `/root/`, with no `//`, and in every character class that holds `/`, the root and the path |
| PosixPath.JoinTrailingDot | server.js:106 | joining `x/.` onto `/root` drops the `.` piece and gives `/root/x` |
| PosixPath.BaseNameSpec | server.js:112 | the base name is the last piece of the path once its trailing `/`s are dropped: a suffix of it, preceded by `/` when shorter |
| PosixPath.BaseNameWithoutExt | server.js:146-149 | the base name without extension followed by the extension is the base name |
| PosixPath.ExtName | server.js:111 | the extension is empty or a dot followed by no dot, strictly shorter than the base name and its suffix; it is empty exactly when the base name is `..` or has no `.` after its first character |
| UniqueIds.IdBase | server.js:42 | the base is never empty |
| UniqueIds.IdBaseClean | server.js:42 | the base is a clean id, fixed by `sanitizeId`; it is the sanitized raw id whenever that is nonempty, else the sanitized fallback whenever that is nonempty, else `background` |
| UniqueIds.CandidateInjective | server.js:46 | different counters give different candidates |
| UniqueIds.FirstFreeFrom | server.js:43-47 | the counter found is free and every earlier candidate is taken |
| UniqueIds.UniqueIdFresh | server.js:41-50 | the id is nonempty and not already used; it is the base when the base is free; it is a candidate whose predecessors are all taken |
| UniqueIds.UniqueIdIsFirstFree | server.js:43-47 | a free candidate whose predecessors are all taken is the one chosen |
| UniqueIds.UniqueIdClean | server.js:41-50 | the id handed out matches `[A-Za-z0-9_]+` with no `__` and no edge `_` |
| UniqueIds.UniqueIdSuffixes | server.js:43-47 | the base, then `_1`, then `_2` |
| UniqueIds.IdSet.constructor | server.js:172 | a fresh id set is empty |
| UniqueIds.IdSet.EnsureUniqueId | server.js:41-50 | the id returned is the first free candidate of the derived base, and exactly that id is added to the set |
| UniqueIds.IdSet.Claim | server.js:43-49 | the loop ends at the first free candidate, adds it and nothing else |
| Lists.FlattenAppend | server.js:174-181 | expanding `a + b` is expanding `a`, then `b` |
| Lists.ThreadAt | server.js:174-181 | result `i` is element `i` stepped against the keys taken before it |
| Lists.ThreadAppend | server.js:174-181 | threading `a + b` is threading `a`, then `b` against the keys `a` took |
| Lists.ThreadFresh | server.js:172-181 | when each step avoids the keys it is given, no result key was used before and no two results share one |
| Lists.MapAt | server.js:145-167 | element `i` of the mapped list is the function applied to element `i` |
| Lists.LatestStep | server.js:244-250 | visiting one more block replaces the answer so far by that block's answer, if it has one |
| Lists.LatestAt | server.js:244-250 | when block `j` answers and no later block does, the scan ends with the answer of `j` |
| Lists.LatestNone | server.js:244-250 | when no block answers, the scan ends with its initial value |
| Lists.LastAnswered | server.js:244-250 | where some block answers, there is a last block that answers |
| Catalog.InferredExt | server.js:111 | the inferred extension is empty or has no leading dot, no other dot and no `/` (it is not lower-cased); it is empty exactly when the extension of the local path, else the src, is "" or `.`, and otherwise is that extension without its dot |
| Catalog.FinalizedBlockSpec | server.js:109-123 | the id is fresh, clean, the sanitized raw id when that is usable and free, and else the sanitized fallback when that is usable and free; the name is nonempty, clean, the sanitized name without extension when that is nonempty, and the id otherwise; src is the prefixed src and nonempty; thumb_src is the prefixed thumbnail or else the prefixed final src; filetype is explicit, else inferred, else `png`; every other key is copied |
| Catalog.FinalName | server.js:113-114 | the name is clean and nonempty: the sanitized name without extension when that is nonempty, else the id |
| Catalog.FinalizedThumbDefaultsToSrc | server.js:120 | without a thumbnail and for a src without `.` or `..` pieces, thumb_src equals the final src, which lies under the prefix |
| Catalog.FinalizeBlock | server.js:109-123 | the block is the one specified above for the ids used before the call, and exactly its id is added to the set |
| Catalog.FinalizeAllSpec | server.js:171-183 | block `i` is entry `i` finalized against the ids taken before it; every id is nonempty, clean and fresh; no two blocks share an id |
| Catalog.FinalizeAllStep | server.js:166 | finalizing one more entry appends its block, finalized against every id taken so far |
| Catalog.IdsOfSnoc | server.js:48 | a new block adds exactly its id to the ids of the list |
| Catalog.ScanTemplateSpec | server.js:145-165 | the template drops the three scan directives; id = name = the relative path without extension or the base name without extension; both local paths are the file; src = thumb_src; the explicit filetype is kept, otherwise it is the lower-cased extension of the file without its dot; other keys are copied |
| Catalog.ScanTemplateSrc | server.js:162-165 | a clean preferred path is served as `/backgroundimages/<path>` |
| Catalog.ScanExpansionSpec | server.js:129-145 | a scan entry has one template per listed file, in the listing's order, and none for a missing or unreadable directory |
| Catalog.GenerateBlocksFromScan | server.js:125-168 | the blocks are the templates finalized in order against the shared ids, and their ids are added to the set |
| Catalog.FinalizeEach | server.js:144-168 | the loop finalizes the templates in order and adds exactly their ids |
| Catalog.BuildVideoBackgrounds | server.js:171-183 | the result is the whole configuration expanded and finalized in order against one initially empty id set |
| Catalog.BuiltCatalogStep | server.js:174-181 | one more configured entry appends its expansion, finalized against the ids already taken |
| Catalog.BuiltCatalogIds | server.js:171-183 | every id of the catalog is a nonempty clean identifier and no two blocks share one |
| Catalog.BuiltCatalogNoScan | server.js:178-180 | without scan entries, entry `i` becomes block `i`, finalized against the ids of the blocks before it |
| Catalog.BuiltCatalogAppend | server.js:171-183 | appending entries to the configuration appends their blocks and leaves earlier blocks unchanged |
| Router.PublicFields | server.js:212-216 | exactly the keys not starting with `$` remain, with their values |
| Router.PublicViewSpec | server.js:210-219 | the served entry keeps id, name and filetype, serves no `$` key, keeps every other key with its value; src and thumb_src are nonempty and lie under the prefix when their normalization has no `..` piece |
| Router.PublicViewKeepsSrc | server.js:217-218 | for a src free of `.` and `..` pieces, the served src is the one the lookup answers to |
| Router.EscapedSrcIsMoved | server.js:217-218 | a src `/../w` is catalogued as `/w` but served as `/backgroundimages/w` |
| Router.StripInternalKeys | server.js:212-216 | the loop leaves exactly the keys not starting with `$`, each with its value |
| Router.ViewOf | server.js:211-218 | the copy of one block is its public view |
| Router.ServedCatalog | server.js:207-220 | the served list has one public view per block, in catalog order |
| Router.ComputeLocalPathFromSrc | server.js:189-197 | there is no path exactly when the src is empty; a path that is found is nonempty |
| Router.LocalPathOfPrefixed | server.js:193-196 | `/backgroundimages/<t>` is looked up as `backgrounds` joined with `t` |
| Router.LocalPathOfServed | server.js:193-196 | for a clean relative `t`, `/backgroundimages/<t>` is looked up as `backgrounds/<t>` |
| Router.LocalPathOutsidePrefix | server.js:193-196 | a src `/<t>` outside the prefix keeps its whole path: it is looked up as `backgrounds` joined with `t` |
| Router.LocalPathOfEscaped | server.js:193-196 | a src that escaped the prefix as `/w` is looked up as `backgrounds/w` |
| Router.LookupFile | server.js:242-250 | the loop settles on the file of the last matching block |
| Router.LookupLast | server.js:244-250 | the last block that answers to the path decides; its src is tested before its thumbnail, and its local path is preferred to the computed one |
| Router.LookupFinds | server.js:244-250 | for a nonempty path there is a file exactly when some block's src or thumbnail is that path |
| Router.PathPart | server.js:229 | the path part is a prefix of the url without `?`, followed in the url by `?` when shorter |
| Router.PathPartIs | server.js:229 | the path part of a url is a `?`-free `a` exactly when the url is `a` or `a` followed by `?` and a query |
| Router.CatalogRequestShape | server.js:229 | a request is for the catalog exactly when its url is `/config.json` or `/config.json?…` |
| Router.Load | server.js:202-220 | the server holds the built catalog and its public view, one entry per block |
| Router.RouteSpec | server.js:222-277 | every response allows any origin; the status is 200, 404 or 503; 503 exactly for an undecodable url outside the catalog; 404 exactly when a decodable url outside the catalog names no existing file; every non-`OPTIONS` request for the catalog gets the public catalog; a file is sent only when it exists and the lookup settled on it |
| Router.RouteServesBlock | server.js:244-262 | a request for the src of a block that no later block answers to is served from that block's existing local file |

## Left out

- Reading the configuration file and parsing it as JSON (server.js:199-203) are
  left out. The configured entries are an input.
- Non-string JSON values are left out. Every key is a string, an absent key
  reads as "", and the two directive flags are booleans. The `value !== 0` tests
  of the sanitizers (server.js:8, 21, 31, 53) only matter for the number 0.
- The directory walk `collectImageFiles` (server.js:68-95) and `statSync`
  (server.js:132-142) are left out. Their result is the input `Listing`: for a
  directory and a recurse flag, the image files as paths relative to that
  directory, or no key when the directory cannot be read.
- The `localeCompare` sort (server.js:143) is left out. The listing is taken to
  be in the order the server sorts it.
- Platform separators are left out. Paths use `/` only: `path.sep`, and
  `path.join` and `path.basename` on native paths, are `path.posix`.
  `path.relative(scanDir, filePath)` is taken to be the listed relative path.
- `toLowerCase` (server.js:159) is modelled on ASCII letters only.
- `decodeURIComponent` (server.js:243) is an input. `None` stands for the
  malformed-URI error.
- `fs.existsSync` (server.js:251) is an input: the set of existing paths.
- Errors of `fs.readFileSync` on an existing path (server.js:259) are left out.
- HTTP transport is left out: listening, `process.argv` (server.js:185-186),
  JSON serialization of the body, writing the response, logging, and the
  secondary `try` around the 503 reply.
- Sanitize.EnsureShape: proved only for inputs whose normalization has no `..`
  piece, because such a piece lets `path.posix.join` leave the prefix (see
  `Sanitize.EnsureEscapes`). The serving-path form is proved only without `.`
  pieces as well, because a `.` piece can leave a trailing blank (see
  `Sanitize.EnsureDotKeepsBlank`).
- Sanitize.EnsureIdempotent: proved only for inputs without `.` or `..` pieces,
  because the function is not idempotent otherwise: a `..` piece can leave the
  prefix (see `Sanitize.EnsureNotIdempotent`), and a `.` piece can leave a
  trailing blank that the next pass trims (see `Sanitize.EnsureDotKeepsBlank`).
- Catalog.FinalizedThumbDefaultsToSrc: proved only for a src without `.` or `..`
  pieces, for the same reason.
- Router.PublicViewSpec: the prefix property of the served paths is stated only
  for paths whose normalization has no `..` piece, because such a piece can
  leave the prefix.
- Sanitize.NormalizeServingPathKeeps: states that every character other than a
  separator survives in order, but not where the separators of the result fall.
  `Sanitize.NormalizeRelative` gives the exact result when the value, after a
  leading `/`, is already in serving form.
