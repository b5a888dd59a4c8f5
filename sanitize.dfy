/**
 * The string sanitizers of server.js: `stripExtension`, `sanitizeId`,
 * `sanitizeName`, `normalizeServingPath` and `ensureBackgroundImagePath`.
 * A JavaScript value that is absent or falsy reaches these as the empty string.
 */
module Sanitize {
  import opened Text
  import opened PosixPath

  /** The public URL prefix every served asset lives under. */
  const PublicPrefix: string := "/" + PrefixDir

  /** The directory name of the public prefix. */
  const PrefixDir: string := "backgroundimages"

  // --------------------------------------------------------- stripExtension

  /**
   * `stripExtension`: drops the text from the last `.` on, unless a `/` or `\`
   * comes after that dot (a dot in a directory name is not an extension).
   */
  function StripExtension(s: string): (r: string)
    ensures r <= s
  {
    var lastSlash := Max(LastIndexOf(s, '/'), LastIndexOf(s, '\\'));
    var lastDot := LastIndexOf(s, '.');
    if lastDot == -1 || (lastSlash != -1 && lastDot < lastSlash) then s
    else s[..lastDot]
  }

  function Max(a: int, b: int): int {
    if a < b then b else a
  }

  /**
   * What `StripExtension` removes, exactly: nothing when every dot has a
   * separator after it; otherwise the last dot and what follows it, which holds
   * no further dot and no separator.
   */
  lemma StripExtensionSpec(s: string)
    ensures var r := StripExtension(s);
      && (r != s ==>
            && s[|r|] == '.'
            && (forall i :: |r| < i < |s| ==> s[i] != '.')
            && (forall i :: |r| <= i < |s| ==> !IsSep(s[i])))
      && (r == s ==>
            forall i :: 0 <= i < |s| && s[i] == '.' ==> exists j :: i < j < |s| && IsSep(s[j]))
  {
    var r := StripExtension(s);
    var slash := LastIndexOf(s, '/');
    var backslash := LastIndexOf(s, '\\');
    var lastDot := LastIndexOf(s, '.');
    if r == s && lastDot != -1 {
      var j := Max(slash, backslash);
      assert IsSep(s[j]);
      forall i | 0 <= i < |s| && s[i] == '.' ensures exists j :: i < j < |s| && IsSep(s[j]) {
        assert i <= lastDot < j;
      }
    }
  }

  /** A dot inside a directory name is not an extension; an empty value stays empty. */
  lemma StripExtensionExamples()
    ensures StripExtension("a.b/c") == "a.b/c"
    ensures StripExtension("a.b/c.txt") == "a.b/c"
    ensures StripExtension("") == ""
  {
    assert StripExtension("a.b/c") == "a.b/c" by {
      StripExtensionSpec("a.b/c");
      assert "a.b/c"[3] == '/';
    }
    assert StripExtension("a.b/c.txt") == "a.b/c" by {
      var s := "a.b/c.txt";
      assert s[5] == '.' && s[3] == '/';
      assert LastIndexOf(s, '.') == 5;
      assert LastIndexOf(s, '/') == 3;
    }
  }

  // ------------------------------------------------------------- sanitizeId

  predicate NotIdChar(c: char) {
    !IsIdChar(c)
  }

  /**
   * `sanitizeId`: every run of characters outside `[A-Za-z0-9_]` becomes one
   * `_`, runs of `_` collapse to one, and leading and trailing `_` are removed.
   */
  function SanitizeId(s: string): string {
    Trim(CollapseId(s), IsUnderscore)
  }

  /** The first two replacements of `sanitizeId`. */
  function CollapseId(s: string): string {
    ReplaceRuns(ReplaceRuns(s, NotIdChar, "_"), IsUnderscore, "_")
  }

  /** Only `[A-Za-z0-9_]`, no `__`, no leading or trailing `_`. */
  ghost predicate IsCleanId(s: string) {
    && AllIn(s, IsIdChar)
    && NoAdjacent(s, IsUnderscore)
    && (s == [] || (s[0] != '_' && s[|s| - 1] != '_'))
  }

  /** The output of `sanitizeId` is a clean identifier. */
  lemma SanitizeIdClean(s: string)
    ensures IsCleanId(SanitizeId(s))
  {
    CollapseIdClean(s);
    TrimKeeps(CollapseId(s), IsUnderscore, IsIdChar);
  }

  lemma CollapseIdClean(s: string)
    ensures AllIn(CollapseId(s), IsIdChar) && NoAdjacent(CollapseId(s), IsUnderscore)
  {
    var a := ReplaceRuns(s, NotIdChar, "_");
    ReplaceRunsClass(s, NotIdChar, "_", IsIdChar);
    ReplaceRunsClass(a, IsUnderscore, "_", IsIdChar);
    ReplaceRunsNoAdjacent(a, IsUnderscore, '_');
  }

  /** A clean identifier is left as it is. */
  lemma SanitizeIdFixes(s: string)
    requires IsCleanId(s)
    ensures SanitizeId(s) == s
  {
    ReplaceRunsIdentity(s, NotIdChar, "_");
    ReplaceRunsIdentity(s, IsUnderscore, "_");
    TrimIdentity(s, IsUnderscore);
  }

  /** `sanitizeId` is idempotent. */
  lemma SanitizeIdIdempotent(s: string)
    ensures SanitizeId(SanitizeId(s)) == SanitizeId(s)
  {
    SanitizeIdClean(s);
    SanitizeIdFixes(SanitizeId(s));
  }

  /**
   * `sanitizeId` only rewrites, merges and drops separators: the letters and
   * digits of the input all survive, in their order.
   */
  lemma SanitizeIdKeeps(s: string)
    ensures Filter(SanitizeId(s), IsAlnum) == Filter(s, IsAlnum)
  {
    var a := ReplaceRuns(s, NotIdChar, "_");
    FilterNone("_", IsAlnum);
    ReplaceRunsKeeps(s, NotIdChar, "_", IsAlnum);
    ReplaceRunsKeeps(a, IsUnderscore, "_", IsAlnum);
    TrimFilter(CollapseId(s), IsUnderscore, IsAlnum);
  }

  /** The id is empty exactly when the input holds no letter or digit; "" gives "". */
  lemma SanitizeIdEmpty(s: string)
    ensures SanitizeId(s) == [] <==> Filter(s, IsAlnum) == []
    ensures SanitizeId([]) == []
  {
    var r := SanitizeId(s);
    SanitizeIdKeeps(s);
    if r != [] {
      SanitizeIdClean(s);
      assert IsAlnum(r[0]);
    }
    assert CollapseId([]) == [];
  }

  // ----------------------------------------------------------- sanitizeName

  /** Outside `[A-Za-z0-9_\-\s]`. */
  predicate NotNameOrSpace(c: char) {
    !IsNameChar(c) && !IsJsSpace(c)
  }

  predicate IsNameOrSpace(c: char) {
    IsNameChar(c) || IsJsSpace(c)
  }

  predicate IsNameOrBlank(c: char) {
    IsNameChar(c) || c == ' '
  }

  /**
   * `sanitizeName`: runs of `/` and `\` become " - ", other runs of characters
   * outside `[A-Za-z0-9_\-\s]` become one space, whitespace runs become one
   * space, and the result is trimmed.
   */
  function SanitizeName(s: string): string {
    Trim(CollapseName(s), IsJsSpace)
  }

  /** The three replacements of `sanitizeName`, before trimming. */
  function CollapseName(s: string): string {
    var a := ReplaceRuns(s, IsSep, " - ");
    var b := ReplaceRuns(a, NotNameOrSpace, " ");
    ReplaceRuns(b, IsJsSpace, " ")
  }

  /**
   * Only letters, digits, `_`, `-` and single spaces, without leading or trailing
   * space (and so without `/` or `\`).
   */
  ghost predicate IsCleanName(s: string) {
    && AllIn(s, IsNameOrBlank)
    && NoAdjacent(s, IsJsSpace)
    && (s == [] || (!IsJsSpace(s[0]) && !IsJsSpace(s[|s| - 1])))
  }

  /** The output of `sanitizeName` is a clean display name, free of path separators. */
  lemma SanitizeNameClean(s: string)
    ensures IsCleanName(SanitizeName(s))
    ensures forall i :: 0 <= i < |SanitizeName(s)| ==> !IsSep(SanitizeName(s)[i])
  {
    CollapseNameClean(s);
    TrimKeeps(CollapseName(s), IsJsSpace, IsNameOrBlank);
    CleanNameHasNoSep(SanitizeName(s));
  }

  /** Nothing sanitizes to nothing. */
  lemma SanitizeNameEmpty()
    ensures SanitizeName([]) == []
  {
    assert CollapseName([]) == [];
  }

  /** A clean display name holds no path separator. */
  lemma CleanNameHasNoSep(r: string)
    requires AllIn(r, IsNameOrBlank)
    ensures forall i :: 0 <= i < |r| ==> !IsSep(r[i])
  {
    forall i | 0 <= i < |r| ensures !IsSep(r[i]) {
      assert IsNameOrBlank(r[i]);
    }
  }

  lemma CollapseNameClean(s: string)
    ensures AllIn(CollapseName(s), IsNameOrBlank) && NoAdjacent(CollapseName(s), IsJsSpace)
  {
    var a := ReplaceRuns(s, IsSep, " - ");
    var b := ReplaceRuns(a, NotNameOrSpace, " ");
    ReplaceRunsClass(a, NotNameOrSpace, " ", IsNameOrSpace);
    ReplaceRunsClass(b, IsJsSpace, " ", IsNameOrBlank);
    ReplaceRunsNoAdjacent(b, IsJsSpace, ' ');
  }

  /** No character is both a name character and whitespace. */
  lemma NameCharNotSpace(c: char)
    requires IsNameChar(c)
    ensures !IsJsSpace(c)
  {
  }

  /** A clean display name is left as it is. */
  lemma SanitizeNameFixes(s: string)
    requires IsCleanName(s)
    ensures SanitizeName(s) == s
  {
    forall i | 0 <= i < |s| ensures !IsSep(s[i]) && !NotNameOrSpace(s[i]) {
      assert IsNameOrBlank(s[i]);
    }
    ReplaceRunsIdentity(s, IsSep, " - ");
    ReplaceRunsIdentity(s, NotNameOrSpace, " ");
    forall i | 0 <= i < |s| && IsJsSpace(s[i]) ensures [s[i]] == " " {
      assert IsNameOrBlank(s[i]);
      if IsNameChar(s[i]) { NameCharNotSpace(s[i]); }
    }
    ReplaceRunsIdentity(s, IsJsSpace, " ");
    TrimIdentity(s, IsJsSpace);
  }

  /** `sanitizeName` is idempotent. */
  lemma SanitizeNameIdempotent(s: string)
    ensures SanitizeName(SanitizeName(s)) == SanitizeName(s)
  {
    SanitizeNameClean(s);
    SanitizeNameFixes(SanitizeName(s));
  }

  /**
   * `sanitizeName` keeps the letters, digits, `_` and `-` of the input in their
   * order, each run of `/` and `\` standing as one `-`.
   */
  lemma SanitizeNameKeeps(s: string)
    ensures Filter(SanitizeName(s), IsNameChar) == Filter(ReplaceRuns(s, IsSep, "-"), IsNameChar)
  {
    DashKept();
    NameKeeps(s, IsNameChar, "-");
  }

  /** A name without separators keeps exactly its letters, digits, `_` and `-`. */
  lemma SanitizeNameKeepsPlain(s: string)
    requires forall i :: 0 <= i < |s| ==> !IsSep(s[i])
    ensures Filter(SanitizeName(s), IsNameChar) == Filter(s, IsNameChar)
  {
    SanitizeNameKeeps(s);
    ReplaceRunsIdentity(s, IsSep, "-");
  }

  /** Letters, digits and `_` always survive `sanitizeName` as they were, in order. */
  lemma SanitizeNameKeepsId(s: string)
    ensures Filter(SanitizeName(s), IsIdChar) == Filter(s, IsIdChar)
  {
    calc {
      Filter(SanitizeName(s), IsIdChar);
      { DashDropped(); NameKeeps(s, IsIdChar, ""); }
      Filter(ReplaceRuns(s, IsSep, ""), IsIdChar);
      { ReplaceRunsKeeps(s, IsSep, "", IsIdChar); }
      Filter(s, IsIdChar);
    }
  }

  /** Of " - ", the name characters are the `-`. */
  lemma DashKept()
    ensures Filter(" - ", IsNameChar) == Filter("-", IsNameChar) == "-"
  {
    var d := " - ";
    assert d[1..][1..][1..] == [];
  }

  /** " - " holds no letter, digit or `_`. */
  lemma DashDropped()
    ensures Filter(" - ", IsIdChar) == Filter("", IsIdChar) == ""
  {
    FilterNone(" - ", IsIdChar);
  }

  /**
   * For a class `q` of name characters, the characters of `q` that survive
   * `sanitizeName` are those of `s` with every separator run read as `sep`.
   */
  lemma NameKeeps(s: string, q: char -> bool, sep: string)
    requires forall c :: q(c) ==> IsNameChar(c)
    requires Filter(" - ", q) == Filter(sep, q)
    ensures Filter(SanitizeName(s), q) == Filter(ReplaceRuns(s, IsSep, sep), q)
  {
    calc {
      Filter(SanitizeName(s), q);
      { SpaceNotKept(q); TrimFilter(CollapseName(s), IsJsSpace, q); }
      Filter(CollapseName(s), q);
      { CollapseNameKeeps(s, q); }
      Filter(ReplaceRuns(s, IsSep, " - "), q);
      { ReplaceRunsFilter(s, IsSep, " - ", sep, q); }
      Filter(ReplaceRuns(s, IsSep, sep), q);
    }
  }

  /** The two blank-producing replacements of `sanitizeName` keep every name character. */
  lemma CollapseNameKeeps(s: string, q: char -> bool)
    requires forall c :: q(c) ==> IsNameChar(c)
    ensures Filter(CollapseName(s), q) == Filter(ReplaceRuns(s, IsSep, " - "), q)
  {
    var a := ReplaceRuns(s, IsSep, " - ");
    var b := ReplaceRuns(a, NotNameOrSpace, " ");
    FilterNone(" ", q);
    SpaceNotKept(q);
    ReplaceRunsKeeps(b, IsJsSpace, " ", q);
    ReplaceRunsKeeps(a, NotNameOrSpace, " ", q);
  }

  /** Whitespace holds no name character. */
  lemma SpaceNotKept(q: char -> bool)
    requires forall c :: q(c) ==> IsNameChar(c)
    ensures forall c :: IsJsSpace(c) ==> !q(c)
  {
    forall c | IsJsSpace(c) ensures !q(c) {
      if q(c) { NameCharNotSpace(c); }
    }
  }

  /** A clean identifier is already a clean display name. */
  lemma CleanIdIsCleanName(s: string)
    requires IsCleanId(s)
    ensures SanitizeName(s) == s
  {
    SanitizeNameFixes(s);
  }

  // --------------------------------------------------- normalizeServingPath

  predicate NotBackslash(c: char) {
    c != '\\'
  }

  /**
   * `normalizeServingPath`: trimmed; blank gives ""; otherwise every `\` becomes
   * `/`, a leading `/` is added when missing, and runs of `/` collapse to one.
   */
  function NormalizeServingPath(s: string): string {
    var t := Trim(s, IsJsSpace);
    if t == [] then ""
    else ReplaceRuns(WithLeadingSlash(ReplaceChar(t, '\\', '/')), IsSlash, "/")
  }

  function WithLeadingSlash(u: string): (v: string)
    requires u != []
    ensures v != [] && v[0] == '/' && v[|v| - 1] == u[|u| - 1]
  {
    if u[0] == '/' then u else "/" + u
  }

  /**
   * What `normalizeServingPath` produces from a non-blank value: a path that
   * starts with `/`, holds no `\` and no `//`, and does not end in whitespace.
   */
  ghost predicate IsServingPath(p: string) {
    && p != []
    && p[0] == '/'
    && !IsJsSpace(p[|p| - 1])
    && AllIn(p, NotBackslash)
    && NoAdjacent(p, IsSlash)
  }

  lemma WithLeadingSlashClass(u: string)
    requires u != [] && AllIn(u, NotBackslash)
    ensures AllIn(WithLeadingSlash(u), NotBackslash)
  {
    var v := WithLeadingSlash(u);
    forall i | 0 <= i < |v| ensures NotBackslash(v[i]) {
      if u[0] != '/' && i > 0 { assert v[i] == u[i - 1]; }
    }
  }

  /** Collapsing the slashes of a path that starts with `/` gives a serving path. */
  lemma CollapsedServingPath(v: string)
    requires v != [] && v[0] == '/' && !IsJsSpace(v[|v| - 1]) && AllIn(v, NotBackslash)
    ensures IsServingPath(ReplaceRuns(v, IsSlash, "/"))
  {
    ReplaceRunsClass(v, IsSlash, "/", NotBackslash);
    ReplaceRunsNoAdjacent(v, IsSlash, '/');
  }

  /** Blank values normalize to ""; every other value to a serving path. */
  lemma NormalizeServingPathShape(s: string)
    ensures (NormalizeServingPath(s) == []) == (Trim(s, IsJsSpace) == [])
    ensures NormalizeServingPath(s) != [] ==> IsServingPath(NormalizeServingPath(s))
  {
    var t := Trim(s, IsJsSpace);
    if t != [] {
      NonBlankServing(t);
    }
  }

  /** A trimmed, non-blank value goes through the rest of the normalization to a serving path. */
  lemma NonBlankServing(t: string)
    requires t != [] && !IsJsSpace(t[|t| - 1])
    ensures IsServingPath(ReplaceRuns(WithLeadingSlash(ReplaceChar(t, '\\', '/')), IsSlash, "/"))
  {
    var u := ReplaceChar(t, '\\', '/');
    assert AllIn(u, NotBackslash);
    assert !IsJsSpace(u[|u| - 1]);
    WithLeadingSlashClass(u);
    CollapsedServingPath(WithLeadingSlash(u));
  }

  /**
   * Normalization only rewrites, adds and merges separators: every other
   * character of the trimmed value survives, in its order.
   */
  lemma NormalizeServingPathKeeps(s: string)
    ensures Filter(NormalizeServingPath(s), NotSep) == Filter(Trim(s, IsJsSpace), NotSep)
  {
    var t := Trim(s, IsJsSpace);
    if t != [] {
      NonBlankKeeps(t);
    }
  }

  /** The rest of the normalization keeps the characters of a trimmed value other than separators. */
  lemma NonBlankKeeps(t: string)
    requires t != []
    ensures Filter(ReplaceRuns(WithLeadingSlash(ReplaceChar(t, '\\', '/')), IsSlash, "/"), NotSep)
         == Filter(t, NotSep)
  {
    var u := ReplaceChar(t, '\\', '/');
    FilterNone("/", NotSep);
    ReplaceRunsKeeps(WithLeadingSlash(u), IsSlash, "/", NotSep);
    LeadingSlashKeeps(u);
    ReplaceCharKeeps(t, '\\', '/', NotSep);
  }

  /** Adding a leading `/` keeps the characters other than separators. */
  lemma LeadingSlashKeeps(u: string)
    requires u != []
    ensures Filter(WithLeadingSlash(u), NotSep) == Filter(u, NotSep)
  {
    if u[0] != '/' {
      FilterConcat("/", u, NotSep);
      FilterNone("/", NotSep);
    }
  }

  /**
   * A value starting with neither blank nor separator, whose `\`s read as `/`
   * give a serving path once a `/` is put in front, normalizes to that path.
   */
  lemma NormalizeRelative(t: string)
    requires t != [] && !IsJsSpace(t[0])
    requires var u := ReplaceChar(t, '\\', '/'); u[0] != '/' && IsServingPath("/" + u)
    ensures NormalizeServingPath(t) == "/" + ReplaceChar(t, '\\', '/')
  {
    var u := ReplaceChar(t, '\\', '/');
    var v := "/" + u;
    assert v[|v| - 1] == u[|u| - 1];
    assert !IsJsSpace(t[|t| - 1]) by {
      if t[|t| - 1] == '\\' { assert u[|u| - 1] == '/'; } else { assert u[|u| - 1] == t[|t| - 1]; }
    }
    TrimIdentity(t, IsJsSpace);
    ReplaceRunsIdentity(v, IsSlash, "/");
  }

  /** `a\b` normalizes to `/a/b`. */
  lemma NormalizeBackslashExample()
    ensures NormalizeServingPath("a\\b") == "/a/b"
  {
    NormalizeLetterPair('a', 'b', '\\');
  }

  /** Two letters around either separator normalize to `/x/y`. */
  lemma NormalizeLetterPair(x: char, y: char, sep: char)
    requires 'a' <= x <= 'z' && 'a' <= y <= 'z' && IsSep(sep)
    ensures NormalizeServingPath([x, sep, y]) == ['/', x, '/', y]
  {
    var t := [x, sep, y];
    assert ReplaceChar(t, '\\', '/') == [x, '/', y];
    LetterPairPath(x, y);
    NormalizeRelative(t);
  }

  /** `/x/y` for two lower-case letters is a serving path without `.` or `..` pieces. */
  lemma LetterPairPath(x: char, y: char)
    requires 'a' <= x <= 'z' && 'a' <= y <= 'z'
    ensures IsServingPath("/" + [x, '/', y]) && DotFree("/" + [x, '/', y])
    ensures "/" + [x, '/', y] == ['/', x, '/', y]
  {
    PlainLetter(x);
    PlainLetter(y);
    TwoWordServing([x], [y]);
    TwoWordDotFree([x], [y]);
    assert "/" + [x] + "/" + [y] == "/" + [x, '/', y];
  }

  /** `/x/y` for two plain words is a serving path. */
  lemma TwoWordServing(x: string, y: string)
    requires PlainWord(x) && PlainWord(y)
    ensures IsServingPath("/" + x + "/" + y)
  {
    SlashWordServing(x);
    SlashWordServing(y);
    ConcatServingPath("/" + x, "/" + y);
    Assoc("/" + x, "/", y);
  }

  /** The pieces of `/x/y` for two plain words are `""`, `x` and `y`: none is `.` or `..`. */
  lemma TwoWordDotFree(x: string, y: string)
    requires PlainWord(x) && PlainWord(y)
    ensures DotFree("/" + x + "/" + y)
  {
    var ps := Split("/" + x + "/" + y);
    assert ps == [[], x, y] by {
      RootPieces(x);
      SplitNoSlash(y);
      SplitConcat("/" + x, y);
    }
    assert "." !in ps && ".." !in ps;
  }

  /** A serving path is left as it is. */
  lemma NormalizeServingPathFixes(p: string)
    requires IsServingPath(p)
    ensures NormalizeServingPath(p) == p
  {
    TrimIdentity(p, IsJsSpace);
    var u := ReplaceChar(p, '\\', '/');
    assert u == p by {
      forall i | 0 <= i < |p| ensures u[i] == p[i] {
        assert NotBackslash(p[i]);
      }
    }
    ReplaceRunsIdentity(p, IsSlash, "/");
  }

  /** `normalizeServingPath` is idempotent. */
  lemma NormalizeServingPathIdempotent(s: string)
    ensures NormalizeServingPath(NormalizeServingPath(s)) == NormalizeServingPath(s)
  {
    NormalizeServingPathShape(s);
    if NormalizeServingPath(s) != [] {
      NormalizeServingPathFixes(NormalizeServingPath(s));
    }
  }

  // ---------------------------------------------- ensureBackgroundImagePath

  /** The prefix itself, or a path in the prefix directory. */
  predicate UnderPrefix(p: string) {
    p == PublicPrefix || PublicPrefix + "/" <= p
  }

  /**
   * `ensureBackgroundImagePath`: the prefix for a blank value; otherwise the
   * normalized value, placed under the prefix when it is not there already.
   */
  function EnsureBackgroundImagePath(s: string): (r: string)
    ensures r != []
  {
    var n := NormalizeServingPath(s);
    if n == [] then PublicPrefix else PlaceUnderPrefix(n)
  }

  /**
   * The last two steps of `ensureBackgroundImagePath` on a normalized value:
   * kept when already under the prefix, else its leading `/`s removed and the
   * rest joined onto the prefix with `path.posix.join`.
   */
  function PlaceUnderPrefix(n: string): string {
    if UnderPrefix(n) then n else Join(PublicPrefix, SkipRun(n, IsSlash))
  }

  lemma PublicPrefixSplit()
    ensures Split(PublicPrefix) == [[], PrefixDir]
    ensures IsCleanRelative(PrefixDir) && PrefixDir[|PrefixDir| - 1] != '/'
  {
    PrefixDirWord();
    WordIsClean(PrefixDir);
    SplitAbsolute(PrefixDir);
    SplitNoSlash(PrefixDir);
  }

  /** The prefix directory is a nonempty word without `/` other than `.` and `..`. */
  lemma PrefixDirWord()
    ensures PrefixDir != [] && '/' !in PrefixDir && PrefixDir != "." && PrefixDir != ".."
  {
    assert |PrefixDir| == 16;
    forall i | 0 <= i < 16 ensures PrefixDir[i] != '/' {
      assert PrefixDir[i] in "abcdegikmnorsu";
    }
  }

  /** The prefix is a serving path that normalization keeps. */
  lemma PublicPrefixIsServingPath()
    ensures IsServingPath(PublicPrefix)
    ensures Normalize(PublicPrefix) == PublicPrefix
  {
    PublicPrefixSplit();
    assert Resolve([[], PrefixDir], false) == [PrefixDir] by {
      assert [[], PrefixDir][..1] == [[]];
      assert Resolve([[]], false) == [];
      assert |PrefixDir| == 16;
    }
  }

  /** Two serving paths, the first not ending in `/`, concatenate to a serving path. */
  lemma ConcatServingPath(a: string, b: string)
    requires IsServingPath(a) && IsServingPath(b) && a[|a| - 1] != '/'
    ensures IsServingPath(a + b)
  {
    var r := a + b;
    forall i | 0 <= i < |r| ensures NotBackslash(r[i]) {
      if i >= |a| { assert r[i] == b[i - |a|]; } else { assert r[i] == a[i]; }
    }
    forall i | 0 < i < |r| && IsSlash(r[i]) ensures !IsSlash(r[i - 1]) {
      if i > |a| {
        assert r[i] == b[i - |a|] && r[i - 1] == b[i - 1 - |a|];
      } else if i < |a| {
        assert r[i] == a[i] && r[i - 1] == a[i - 1];
      }
    }
  }

  /** Stripping the single leading `/` of a serving path other than "/". */
  lemma SlashTail(n: string) returns (t: string)
    requires IsServingPath(n) && n != "/"
    ensures n == "/" + t && SkipRun(n, IsSlash) == t
    ensures t != [] && t[0] != '/' && AllIn(t, NotBackslash) && NoAdjacent(t, IsSlash)
    ensures Split(n) == [[]] + Split(t)
  {
    t := n[1..];
    assert n == "/" + t;
    assert n[1] != '/';
    var r := SkipRun(n, IsSlash);
    assert |n| - |r| == 1;
    SliceKeeps(n, 1, |n| - 1, IsSlash, NotBackslash);
    assert n[1..1 + (|n| - 1)] == t;
    SplitAbsolute(t);
  }

  /** The tail of a serving path without `.` or `..` pieces is a clean relative path. */
  lemma ServingTail(n: string) returns (t: string)
    requires IsServingPath(n) && n != "/" && DotFree(n)
    ensures n == "/" + t && SkipRun(n, IsSlash) == t
    ensures IsCleanRelative(t)
  {
    t := SlashTail(n);
  }

  /**
   * A serving path outside the prefix without `..` pieces is placed under the
   * prefix, still starting with `/`, without `\` and without `//`.
   */
  lemma PlaceClimbFree(n: string)
    requires IsServingPath(n) && !UnderPrefix(n) && ".." !in Split(n)
    ensures var r := PlaceUnderPrefix(n);
      r[0] == '/' && UnderPrefix(r) && AllIn(r, NotBackslash) && NoAdjacent(r, IsSlash)
  {
    if n == "/" {
      PlaceRoot();
    } else {
      var t := ClimbFreeTail(n);
      assert PlaceUnderPrefix(n) == Join(PublicPrefix, t);
      PrefixDirPlain();
      JoinNoParent(PrefixDir, t, NotBackslash);
    }
  }

  /** The tail of a serving path without `..` pieces has none either. */
  lemma ClimbFreeTail(n: string) returns (t: string)
    requires IsServingPath(n) && n != "/" && ".." !in Split(n)
    ensures n == "/" + t && SkipRun(n, IsSlash) == t
    ensures t != [] && AllIn(t, NotBackslash) && ".." !in Split(t)
  {
    t := SlashTail(n);
    NotInRest(Split(n), Split(t), "..");
  }

  /** What a sequence lacks, its rest after the first element lacks too. */
  lemma NotInRest(xs: seq<string>, ys: seq<string>, x: string)
    requires xs == [[]] + ys && x !in xs
    ensures x !in ys
  {
    assert forall k :: 0 <= k < |ys| ==> ys[k] == xs[k + 1];
  }

  /** The prefix directory is a clean piece without `\`. */
  lemma PrefixDirPlain()
    ensures CleanSegment(PrefixDir) && AllIn(PrefixDir, NotBackslash)
    ensures PublicPrefix == "/" + PrefixDir
  {
    PrefixDirClean();
    PublicPrefixIsServingPath();
    SliceKeeps(PublicPrefix, 1, |PrefixDir|, IsSlash, NotBackslash);
    assert PublicPrefix[1..1 + |PrefixDir|] == PrefixDir;
  }

  /**
   * A serving path outside the prefix and free of `.` and `..` pieces is placed
   * under the prefix as it is; "/" maps to the prefix, and the result is a
   * serving path under the prefix.
   */
  lemma PlaceUnderPrefixRelative(n: string)
    requires IsServingPath(n) && !UnderPrefix(n) && DotFree(n)
    ensures PlaceUnderPrefix(n) == if n == "/" then PublicPrefix else PublicPrefix + n
    ensures IsServingPath(PlaceUnderPrefix(n)) && UnderPrefix(PlaceUnderPrefix(n))
  {
    if n == "/" {
      PlaceRoot();
    } else {
      PlaceTail(n);
      PrefixedServing(n);
    }
  }

  /** "/" is placed as the prefix itself. */
  lemma PlaceRoot()
    ensures PlaceUnderPrefix("/") == PublicPrefix
    ensures IsServingPath(PublicPrefix) && UnderPrefix(PublicPrefix)
  {
    PublicPrefixIsServingPath();
    assert SkipRun("/", IsSlash) == [];
  }

  /** The prefix followed by a serving path is a serving path under the prefix. */
  lemma PrefixedServing(n: string)
    requires IsServingPath(n)
    ensures IsServingPath(PublicPrefix + n) && UnderPrefix(PublicPrefix + n)
  {
    PublicPrefixIsServingPath();
    ConcatServingPath(PublicPrefix, n);
    assert PublicPrefix + "/" <= PublicPrefix + n;
  }

  /** A serving path other than "/" outside the prefix is appended to the prefix. */
  lemma PlaceTail(n: string)
    requires IsServingPath(n) && !UnderPrefix(n) && DotFree(n) && n != "/"
    ensures PlaceUnderPrefix(n) == PublicPrefix + n
  {
    var t := ServingTail(n);
    assert Join(PublicPrefix, t) == PublicPrefix + "/" + t by {
      PrefixDirClean();
      PublicPrefixSplit();
      JoinClean(true, PrefixDir, t);
    }
    Assoc(PublicPrefix, "/", t);
  }

  /** Blank values map to the prefix itself. */
  lemma EnsureBlank(s: string)
    requires Trim(s, IsJsSpace) == []
    ensures EnsureBackgroundImagePath(s) == PublicPrefix
  {
    NormalizeServingPathShape(s);
  }

  /** `x/y` is served as `/backgroundimages/x/y`. */
  lemma EnsureExample()
    ensures EnsureBackgroundImagePath("x/y") == "/backgroundimages/x/y"
  {
    EnsureLetterPair('x', 'y');
    PrefixedExample();
  }

  lemma PrefixedExample()
    ensures PublicPrefix + "/" + ['x', '/', 'y'] == "/backgroundimages/x/y"
  {
  }

  /** `x/y` for two letters, the first not `b`, is placed under the prefix as it is. */
  lemma EnsureLetterPair(x: char, y: char)
    requires 'a' <= x <= 'z' && x != 'b' && 'a' <= y <= 'z'
    ensures EnsureBackgroundImagePath([x, '/', y]) == PublicPrefix + "/" + [x, '/', y]
  {
    var t := [x, '/', y];
    NormalizeLetterPair(x, y, '/');
    LetterPairPath(x, y);
    NotUnderPrefix("/" + t);
    EnsureRelative(t);
    Assoc(PublicPrefix, "/", t);
  }

  /** A one-letter word is a plain word. */
  lemma PlainLetter(c: char)
    requires 'a' <= c <= 'z'
    ensures PlainWord([c])
  {
    assert [c] != PrefixDir by { assert |PrefixDir| == 16; }
  }

  /** A serving path already under the prefix is returned unchanged. */
  lemma EnsureKeepsPublic(p: string)
    requires IsServingPath(p) && UnderPrefix(p)
    ensures EnsureBackgroundImagePath(p) == p
  {
    NormalizeServingPathFixes(p);
  }

  /**
   * A value whose normalization lies outside the prefix and has no `.` or `..`
   * piece is placed under the prefix as it is.
   */
  lemma EnsureRelative(s: string)
    requires var n := NormalizeServingPath(s); n != [] && n != "/" && !UnderPrefix(n) && DotFree(n)
    ensures EnsureBackgroundImagePath(s) == PublicPrefix + NormalizeServingPath(s)
  {
    NormalizeServingPathShape(s);
    PlaceUnderPrefixRelative(NormalizeServingPath(s));
  }

  /**
   * When normalization leaves no `..` piece, the result lies under the prefix,
   * starts with `/` and has no `\` and no `//`; when it leaves no `.` piece
   * either, the result is a serving path.
   */
  lemma EnsureShape(s: string)
    requires ".." !in Split(NormalizeServingPath(s))
    ensures var r := EnsureBackgroundImagePath(s);
      && r[0] == '/' && UnderPrefix(r) && AllIn(r, NotBackslash) && NoAdjacent(r, IsSlash)
      && (DotFree(NormalizeServingPath(s)) ==> IsServingPath(r))
  {
    var n := NormalizeServingPath(s);
    NormalizeServingPathShape(s);
    PublicPrefixIsServingPath();
    if n != [] && !UnderPrefix(n) {
      PlaceClimbFree(n);
      if DotFree(n) {
        PlaceUnderPrefixRelative(n);
      }
    }
  }

  /** Under the same condition, `ensureBackgroundImagePath` is idempotent. */
  lemma EnsureIdempotent(s: string)
    requires DotFree(NormalizeServingPath(s))
    ensures EnsureBackgroundImagePath(EnsureBackgroundImagePath(s)) == EnsureBackgroundImagePath(s)
  {
    EnsureShape(s);
    EnsureKeepsPublic(EnsureBackgroundImagePath(s));
  }

  /** A piece that normalization and the prefix check leave as it is. */
  ghost predicate PlainWord(w: string) {
    CleanSegment(w) && AllIn(w, NotBackslash) && !IsJsSpace(w[|w| - 1]) && w != PrefixDir
  }

  /** `/word` is a serving path outside the prefix, free of `.` and `..` pieces. */
  lemma PlainWordPath(w: string)
    requires PlainWord(w)
    ensures IsServingPath("/" + w) && !UnderPrefix("/" + w) && DotFree("/" + w)
  {
    SlashWordServing(w);
    SlashWordDotFree(w);
    SlashWordOutside(w);
  }

  /** `/word` for a clean segment has the pieces `""` and the word: no `.` or `..`. */
  lemma SlashWordDotFree(w: string)
    requires CleanSegment(w)
    ensures DotFree("/" + w)
  {
    RootPieces(w);
  }

  /** `/word` for a nonempty word without `/`, `\` or a trailing blank is a serving path. */
  lemma SlashWordServing(w: string)
    requires w != [] && '/' !in w && AllIn(w, NotBackslash) && !IsJsSpace(w[|w| - 1])
    ensures IsServingPath("/" + w)
  {
    var q := "/" + w;
    forall i | 0 <= i < |q| ensures NotBackslash(q[i]) {
      if i > 0 { assert q[i] == w[i - 1]; }
    }
    forall i | 0 < i < |q| ensures !IsSlash(q[i]) {
      assert q[i] == w[i - 1];
    }
    assert q[|q| - 1] == w[|w| - 1];
  }

  /** `/word` for a slash-free word other than the prefix directory is outside the prefix. */
  lemma SlashWordOutside(w: string)
    requires '/' !in w && w != PrefixDir
    ensures !UnderPrefix("/" + w)
  {
    var q := "/" + w;
    assert q[1..] == w;
    assert PublicPrefix[1..] == PrefixDir;
    if |q| > |PublicPrefix| {
      assert q[|PublicPrefix|] == w[|PublicPrefix| - 1];
    }
  }

  /** `/../word` is a serving path whose leading `/` is a single one. */
  lemma ParentWordPath(w: string)
    requires CleanSegment(w) && AllIn(w, NotBackslash) && !IsJsSpace(w[|w| - 1])
    ensures IsServingPath("/" + (".." + "/" + w))
    ensures SkipRun("/" + (".." + "/" + w), IsSlash) == ".." + "/" + w
    ensures ("/" + (".." + "/" + w))[1] == '.'
  {
    var t := ".." + "/" + w;
    var p := "/" + t;
    assert p[1] == '.' && p[2] == '.' && p[3] == '/';
    assert IsServingPath(p) by {
      forall i | 0 <= i < |p| ensures NotBackslash(p[i]) {
        if i > 3 { assert p[i] == w[i - 4]; }
      }
      forall i | 4 <= i < |p| ensures !IsSlash(p[i]) {
        assert p[i] == w[i - 4];
      }
      assert p[|p| - 1] == w[|w| - 1];
    }
    assert SkipRun(p, IsSlash) == t by {
      assert p[1..] == t;
      assert SkipRun(t, IsSlash) == t;
    }
  }

  /** `/<w> /.` is a serving path whose leading `/` is a single one. */
  lemma DotWordPath(w: string)
    requires PlainWord(w)
    ensures CleanSegment(w + " ")
    ensures var p := "/" + (w + " ") + "/" + ".";
      IsServingPath(p) && SkipRun(p, IsSlash) == (w + " ") + "/" + "." && p[1] == w[0]
  {
    var x := w + " ";
    BlankWord(w);
    DotWordServing(x);
    var p := "/" + x + "/" + ".";
    var t := SlashTail(p);
    assert t == x + "/" + ".";
  }

  /** A plain word followed by a blank is still a clean piece without `\`. */
  lemma BlankWord(w: string)
    requires PlainWord(w)
    ensures CleanSegment(w + " ") && AllIn(w + " ", NotBackslash)
  {
    var x := w + " ";
    assert x[|x| - 1] == ' ';
    forall i | 0 <= i < |x| ensures x[i] != '/' && NotBackslash(x[i]) {
      if i < |w| { assert x[i] == w[i]; }
    }
  }

  /** `/x/.` is a serving path for a nonempty `x` without `/` or `\`. */
  lemma DotWordServing(x: string)
    requires x != [] && '/' !in x && AllIn(x, NotBackslash)
    ensures IsServingPath("/" + x + "/" + ".")
  {
    var p := "/" + x + "/" + ".";
    var n := |x|;
    assert p[n + 1] == '/' && p[n + 2] == '.';
    forall i | 0 < i <= n ensures p[i] == x[i - 1] && !IsSlash(p[i]) && NotBackslash(p[i]) {
      assert x[i - 1] in x;
    }
    assert AllIn(p, NotBackslash);
    assert NoAdjacent(p, IsSlash);
  }

  /**
   * A `.` piece can leave a trailing blank: the join drops the last piece of
   * `/<w> /.` and gives `/backgroundimages/<w> `, which is not a serving path.
   */
  lemma EnsureDotKeepsBlank(w: string)
    requires PlainWord(w) && w[0] != 'b'
    ensures var r := EnsureBackgroundImagePath("/" + (w + " ") + "/" + ".");
      r == PublicPrefix + "/" + (w + " ") && IsJsSpace(r[|r| - 1]) && !IsServingPath(r)
  {
    var p := "/" + (w + " ") + "/" + ".";
    DotWordPath(w);
    NormalizeServingPathFixes(p);
    NotUnderPrefix(p);
    PrefixDirClean();
    JoinTrailingDot(PrefixDir, w + " ");
  }

  /** A path whose second character is not `b` is outside the prefix. */
  lemma NotUnderPrefix(p: string)
    requires |p| >= 2 && p[1] != 'b'
    ensures !UnderPrefix(p)
  {
    assert PublicPrefix[1] == 'b';
  }

  lemma PrefixDirClean()
    ensures CleanSegment(PrefixDir) && PublicPrefix == "/" + PrefixDir
  {
    PrefixDirWord();
    WordIsClean(PrefixDir);
  }

  /** A `..` piece climbs out of the prefix: `/../word` is served as `/word`. */
  lemma EnsureEscapes(w: string)
    requires PlainWord(w)
    ensures EnsureBackgroundImagePath("/" + (".." + "/" + w)) == "/" + w
  {
    var p := "/" + (".." + "/" + w);
    ParentWordPath(w);
    NormalizeServingPathFixes(p);
    NotUnderPrefix(p);
    PrefixDirClean();
    JoinParent(PrefixDir, w);
  }

  /**
   * The escaped result is moved back under the prefix on a second pass, so
   * without the `.`/`..` condition `ensureBackgroundImagePath` is not idempotent.
   */
  lemma EnsureNotIdempotent(w: string)
    requires PlainWord(w)
    ensures EnsureBackgroundImagePath("/" + w) == PublicPrefix + "/" + w
    ensures PublicPrefix + "/" + w != "/" + w
  {
    var q := "/" + w;
    PlainWordPath(w);
    NormalizeServingPathFixes(q);
    PlaceUnderPrefixRelative(q);
    assert |q| == 1 + |w| && q != "/";
    Assoc(PublicPrefix, "/", w);
  }
}
