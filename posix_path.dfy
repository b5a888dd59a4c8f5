/**
 * The parts of Node's `path.posix` the server relies on: `normalize` (resolving
 * `.` and `..` segments on a stack of segments), `join`, `basename` and `extname`.
 * The server runs these with `/` as the separator.
 */
module PosixPath {
  import opened Text

  // ------------------------------------------------------------- segments

  /**
   * The pieces of `s` between `/` characters, empty pieces kept:
   * "a/b" has ["a", "b"], "/a/" has ["", "a", ""], "" has [""].
   */
  function Split(s: string): (r: seq<string>)
    ensures |r| >= 1
    ensures forall i :: 0 <= i < |r| ==> '/' !in r[i]
    ensures (r[|r| - 1] == []) == (s == [] || s[|s| - 1] == '/')
    decreases |s|
  {
    if s == [] then [[]] else AddChar(Split(s[..|s| - 1]), s[|s| - 1])
  }

  /** The pieces after one more character: a `/` opens a new piece, anything else extends the last. */
  function AddChar(pieces: seq<string>, c: char): (r: seq<string>)
    requires |pieces| >= 1
  {
    if c == '/' then pieces + [[]]
    else pieces[..|pieces| - 1] + [pieces[|pieces| - 1] + [c]]
  }

  /** The pieces put back together with `/` between them. */
  function JoinSegs(xs: seq<string>): string
    decreases |xs|
  {
    if |xs| == 0 then []
    else if |xs| == 1 then xs[0]
    else JoinSegs(xs[..|xs| - 1]) + "/" + xs[|xs| - 1]
  }

  /** What appending one character does to the pieces. */
  lemma SplitSnoc(s: string, c: char)
    ensures Split(s + [c]) == AddChar(Split(s), c)
  {
    assert (s + [c])[..|s|] == s;
  }

  /** Splitting loses nothing: joining the pieces gives the string back. */
  lemma {:induction false} JoinSplit(s: string)
    ensures JoinSegs(Split(s)) == s
    decreases |s|
  {
    if s != [] {
      var s' := s[..|s| - 1];
      var c := s[|s| - 1];
      assert s == s' + [c];
      JoinSplit(s');
      SplitSnoc(s', c);
      JoinAddChar(Split(s'), c);
    }
  }

  /** Adding a character to the pieces adds it to their join. */
  lemma JoinAddChar(pieces: seq<string>, c: char)
    requires |pieces| >= 1
    ensures JoinSegs(AddChar(pieces, c)) == JoinSegs(pieces) + [c]
  {
    if c == '/' {
      assert (pieces + [[]])[..|pieces|] == pieces;
    } else {
      var xs := AddChar(pieces, c);
      if |pieces| > 1 {
        assert xs[..|xs| - 1] == pieces[..|pieces| - 1];
      }
    }
  }

  /** Splitting at a `/` splits the pieces there. */
  lemma {:induction false} SplitConcat(a: string, b: string)
    ensures Split(a + "/" + b) == Split(a) + Split(b)
    decreases |b|
  {
    if b == [] {
      SplitSnoc(a, '/');
      assert a + "/" + b == a + ['/'];
    } else {
      var b' := b[..|b| - 1];
      var c := b[|b| - 1];
      calc {
        Split(a + "/" + b);
        { assert a + "/" + b == (a + "/" + b') + [c]; SplitSnoc(a + "/" + b', c); }
        AddChar(Split(a + "/" + b'), c);
        { SplitConcat(a, b'); }
        AddChar(Split(a) + Split(b'), c);
        { AddCharAppend(Split(a), Split(b'), c); }
        Split(a) + AddChar(Split(b'), c);
        { assert b == b' + [c]; SplitSnoc(b', c); }
        Split(a) + Split(b);
      }
    }
  }

  /** Adding a character to two lists of pieces put together touches only the second. */
  lemma AddCharAppend(left: seq<string>, right: seq<string>, c: char)
    requires |right| >= 1
    ensures AddChar(left + right, c) == left + AddChar(right, c)
  {
    var init := left + right;
    if c != '/' {
      assert init[..|init| - 1] == left + right[..|right| - 1];
      assert init[|init| - 1] == right[|right| - 1];
    }
  }

  /** A string without `/` is a single piece. */
  lemma {:induction false} SplitNoSlash(s: string)
    requires '/' !in s
    ensures Split(s) == [s]
    decreases |s|
  {
    if s != [] {
      var s' := s[..|s| - 1];
      assert '/' !in s' by {
        forall i | 0 <= i < |s'| ensures s'[i] != '/' { assert s'[i] == s[i]; }
      }
      var c := s[|s| - 1];
      assert s == s' + [c];
      calc {
        Split(s);
        { SplitSnoc(s', c); }
        AddChar(Split(s'), c);
        { SplitNoSlash(s'); }
        AddChar([s'], c);
        { assert c in s; AddCharSingle(s', c); }
        [s' + [c]];
      }
    }
  }

  /** A character other than `/` extends a single piece. */
  lemma AddCharSingle(x: string, c: char)
    requires c != '/'
    ensures AddChar([x], c) == [x + [c]]
  {
  }

  /** Joining two nonempty lists of pieces puts one `/` between their joins. */
  lemma {:induction false} JoinSegsAppend(a: seq<string>, b: seq<string>)
    requires |a| >= 1 && |b| >= 1
    ensures JoinSegs(a + b) == JoinSegs(a) + "/" + JoinSegs(b)
    decreases |b|
  {
    if |b| > 1 {
      var b' := b[..|b| - 1];
      JoinSegsAppend(a, b');
      assert (a + b)[..|a + b| - 1] == a + b';
    } else {
      assert (a + b)[..|a + b| - 1] == a;
    }
  }

  // ------------------------------------------------------------ resolution

  /**
   * One step of `normalizeString`: empty and `.` pieces are skipped, `..` pops
   * the last piece (kept as `..` only for a relative path, when there is
   * nothing to pop), anything else is pushed.
   */
  function Push(stack: seq<string>, seg: string, allowAboveRoot: bool): seq<string> {
    if seg == [] || seg == "." then stack
    else if seg == ".." then
      if |stack| > 0 && stack[|stack| - 1] != ".." then stack[..|stack| - 1]
      else if allowAboveRoot then stack + [".."]
      else stack
    else stack + [seg]
  }

  /** The stack of pieces left after resolving every piece from left to right. */
  function Resolve(parts: seq<string>, allowAboveRoot: bool): (r: seq<string>)
    ensures forall i :: 0 <= i < |r| ==> r[i] != [] && r[i] != "."
    ensures !allowAboveRoot ==> forall i :: 0 <= i < |r| ==> r[i] != ".."
    decreases |parts|
  {
    if parts == [] then []
    else Push(Resolve(parts[..|parts| - 1], allowAboveRoot), parts[|parts| - 1], allowAboveRoot)
  }

  /** `path.posix.normalize`. */
  function Normalize(p: string): (r: string)
    ensures r != []
  {
    if p == [] then "."
    else
      var isAbsolute := p[0] == '/';
      var trailingSeparator := p[|p| - 1] == '/';
      var body := JoinSegs(Resolve(Split(p), !isAbsolute));
      if body == [] then
        (if isAbsolute then "/" else if trailingSeparator then "./" else ".")
      else
        (if isAbsolute then "/" else "") + body + (if trailingSeparator then "/" else "")
  }

  /** `path.posix.join(a, b)`: the nonempty arguments joined by `/`, then normalized. */
  function Join(a: string, b: string): (r: string)
    ensures r != []
  {
    if a == [] && b == [] then "."
    else Normalize(if a == [] then b else if b == [] then a else a + "/" + b)
  }

  // ----------------------------------------------------- paths that are clean

  /** A piece that resolution keeps as it is. */
  predicate CleanSegment(x: string) {
    x != [] && x != "." && x != ".." && '/' !in x
  }

  /** No piece of `p` is `.` or `..`. */
  predicate DotFree(p: string) {
    "." !in Split(p) && ".." !in Split(p)
  }

  /**
   * A relative path that normalization keeps as it is: nonempty, no leading `/`,
   * no `//`, no `.` or `..` piece (a trailing `/` is allowed).
   */
  ghost predicate IsCleanRelative(t: string) {
    t != [] && t[0] != '/' && NoAdjacent(t, IsSlash) && DotFree(t)
  }

  /** Pieces that are all clean are pushed unchanged. */
  lemma {:induction false} ResolveAppendClean(pre: seq<string>, xs: seq<string>, allow: bool)
    requires forall i :: 0 <= i < |xs| ==> CleanSegment(xs[i])
    ensures Resolve(pre + xs, allow) == Resolve(pre, allow) + xs
    decreases |xs|
  {
    if xs == [] {
      assert pre + xs == pre;
    } else {
      var xs' := xs[..|xs| - 1];
      ResolveAppendClean(pre, xs', allow);
      assert (pre + xs)[..|pre + xs| - 1] == pre + xs';
    }
  }

  /** In a path without a leading `/` and without `//`, only the last piece can be empty. */
  lemma {:induction false} SplitInnerNonEmpty(t: string)
    requires t != [] && t[0] != '/' && NoAdjacent(t, IsSlash)
    ensures forall i :: 0 <= i < |Split(t)| - 1 ==> Split(t)[i] != []
    decreases |t|
  {
    var t' := t[..|t| - 1];
    if t' != [] {
      assert NoAdjacent(t', IsSlash) by {
        forall i | 0 < i < |t'| && IsSlash(t'[i]) ensures !IsSlash(t'[i - 1]) {
          assert t'[i] == t[i] && t'[i - 1] == t[i - 1];
        }
      }
      SplitInnerNonEmpty(t');
      if t[|t| - 1] == '/' {
        assert t'[|t'| - 1] != '/';
      }
    }
  }

  /** The clean pieces of a clean relative path: all of them but a trailing empty one. */
  lemma CleanPieces(t: string) returns (xs: seq<string>)
    requires IsCleanRelative(t)
    ensures |xs| >= 1 && forall i :: 0 <= i < |xs| ==> CleanSegment(xs[i])
    ensures Split(t) == if t[|t| - 1] == '/' then xs + [[]] else xs
    ensures JoinSegs(xs) + (if t[|t| - 1] == '/' then "/" else "") == t
  {
    var ps := Split(t);
    SplitInnerNonEmpty(t);
    JoinSplit(t);
    if t[|t| - 1] == '/' {
      xs := ps[..|ps| - 1];
      assert ps == xs + [[]];
      assert forall i :: 0 <= i < |xs| ==> xs[i] in ps;
      JoinSegsAppend(xs, [[]]);
    } else {
      xs := ps;
      assert forall i :: 0 <= i < |xs| ==> xs[i] in ps;
    }
  }

  /** Resolving clean pieces after pieces that resolve to nothing keeps the clean pieces. */
  lemma ResolvePieces(pre: seq<string>, rs: seq<string>, ts: seq<string>, trailing: bool, allow: bool)
    requires Resolve(pre, allow) == []
    requires forall i :: 0 <= i < |rs| ==> CleanSegment(rs[i])
    requires forall i :: 0 <= i < |ts| ==> CleanSegment(ts[i])
    ensures Resolve(pre + rs + ts + (if trailing then [[]] else []), allow) == rs + ts
  {
    var xs := rs + ts;
    forall i | 0 <= i < |xs| ensures CleanSegment(xs[i]) {
      if i >= |rs| { assert xs[i] == ts[i - |rs|]; }
    }
    ResolveAppendClean(pre, xs, allow);
    Assoc(pre, rs, ts);
    if trailing {
      ResolveEmptyLast(pre + xs, allow);
    } else {
      assert pre + rs + ts + [] == pre + xs;
    }
  }

  /** A trailing empty piece changes nothing. */
  lemma ResolveEmptyLast(ps: seq<string>, allow: bool)
    ensures Resolve(ps + [[]], allow) == Resolve(ps, allow)
  {
    assert (ps + [[]])[..|ps|] == ps;
  }

  /** An absolute path has an empty first piece. */
  lemma SplitAbsolute(root: string)
    ensures Split("/" + root) == [[]] + Split(root)
  {
    SplitConcat([], root);
    assert [] + "/" + root == "/" + root;
  }

  /** The pieces of `lead + root + "/" + t` are those of the root, then those of t. */
  lemma JoinedSplit(isAbsolute: bool, root: string, t: string)
    ensures Split((if isAbsolute then "/" else "") + root + "/" + t)
         == (if isAbsolute then [[]] else []) + Split(root) + Split(t)
  {
    if isAbsolute {
      SplitAbsolute(root);
      SplitConcat("/" + root, t);
    } else {
      assert [] + root == root;
      assert [] + Split(root) == Split(root);
      SplitConcat(root, t);
    }
  }

  /** The stack left by resolving `lead + root + "/" + t` when root and t are clean. */
  lemma JoinedPieces(isAbsolute: bool, root: string, t: string) returns (rs: seq<string>, ts: seq<string>)
    requires IsCleanRelative(root) && root[|root| - 1] != '/'
    requires IsCleanRelative(t)
    ensures JoinSegs(rs) == root
    ensures JoinSegs(ts) + (if t[|t| - 1] == '/' then "/" else "") == t
    ensures |rs| >= 1 && |ts| >= 1
    ensures Resolve(Split((if isAbsolute then "/" else "") + root + "/" + t), !isAbsolute) == rs + ts
  {
    var pre: seq<string> := if isAbsolute then [[]] else [];
    var trailing := t[|t| - 1] == '/';
    var tail: seq<string> := if trailing then [[]] else [];
    rs := CleanPieces(root);
    ts := CleanPieces(t);
    assert Split(root) == rs;
    assert Split(t) == ts + tail;
    JoinedSplit(isAbsolute, root, t);
    Assoc(pre + rs, ts, tail);
    ResolvePieces(pre, rs, ts, trailing, !isAbsolute);
  }

  /** Normalizing `lead + root + "/" + t` keeps it, for a clean root and clean t. */
  lemma NormalizeJoined(isAbsolute: bool, root: string, t: string)
    requires IsCleanRelative(root) && root[|root| - 1] != '/'
    requires IsCleanRelative(t)
    ensures var lead := if isAbsolute then "/" else "";
      Normalize(lead + root + "/" + t) == lead + root + "/" + t
  {
    var lead := if isAbsolute then "/" else "";
    var p := lead + root + "/" + t;
    var rs, ts := JoinedPieces(isAbsolute, root, t);
    JoinSegsAppend(rs, ts);
    var body := JoinSegs(rs + ts);
    assert body == root + "/" + JoinSegs(ts);
    assert p[0] == '/' <==> isAbsolute;
    assert p[|p| - 1] == t[|t| - 1];
    var trailStr := if t[|t| - 1] == '/' then "/" else "";
    assert Normalize(p) == lead + body + trailStr;
    calc {
      lead + body + trailStr;
      { Assoc(lead, body, trailStr); }
      lead + (root + "/" + JoinSegs(ts) + trailStr);
      { Assoc(root + "/", JoinSegs(ts), trailStr); }
      lead + (root + "/" + t);
      { Assoc(lead, root + "/", t); Assoc(lead, root, "/"); }
      lead + root + "/" + t;
    }
  }

  /**
   * Joining a clean relative path under a clean root just puts a `/` between
   * them: `join("/backgroundimages", "a/b.png") == "/backgroundimages/a/b.png"`.
   */
  lemma JoinClean(isAbsolute: bool, root: string, t: string)
    requires IsCleanRelative(root) && root[|root| - 1] != '/'
    requires IsCleanRelative(t)
    ensures Join((if isAbsolute then "/" else "") + root, t)
         == (if isAbsolute then "/" else "") + root + "/" + t
  {
    NormalizeJoined(isAbsolute, root, t);
  }

  lemma ParentSplit(root: string, w: string)
    requires CleanSegment(root) && CleanSegment(w)
    ensures Split("/" + root + "/" + (".." + "/" + w)) == [[], root, "..", w]
  {
    PairPieces("..", w);
    RootPieces(root);
    SplitConcat("/" + root, ".." + "/" + w);
  }

  /** Two slash-free strings joined by `/` are two pieces. */
  lemma PairPieces(x: string, y: string)
    requires '/' !in x && '/' !in y
    ensures Split(x + "/" + y) == [x, y]
  {
    SplitConcat(x, y);
    SplitNoSlash(x);
    SplitNoSlash(y);
  }

  lemma RootPieces(root: string)
    requires CleanSegment(root)
    ensures Split("/" + root) == [[], root]
  {
    SplitAbsolute(root);
    SplitNoSlash(root);
  }

  lemma ParentResolve(root: string, w: string)
    requires CleanSegment(root) && CleanSegment(w)
    ensures Resolve([[], root, "..", w], false) == [w]
  {
    var parts := [[], root, "..", w];
    assert Resolve(parts[..2], false) == [root] by {
      assert parts[..2][..1] == [[]];
      assert Resolve([[]], false) == [];
    }
    assert parts[..3][..2] == parts[..2];
    assert Resolve(parts[..3], false) == [];
    assert parts[..4] == parts;
  }

  /** Joining `../w` onto the one-piece absolute path `/root` climbs out of it. */
  lemma JoinParent(root: string, w: string)
    requires CleanSegment(root) && CleanSegment(w)
    ensures Join("/" + root, ".." + "/" + w) == "/" + w
  {
    var joined := "/" + root + "/" + (".." + "/" + w);
    ParentSplit(root, w);
    ParentResolve(root, w);
    assert JoinSegs([w]) == w;
    assert joined[0] == '/' && joined[|joined| - 1] == w[|w| - 1];
  }

  // ---------------------------------------------- paths without `..` pieces

  /** The pieces resolution keeps when none is `..`: the nonempty ones other than `.`, in order. */
  function Kept(ps: seq<string>): (r: seq<string>)
    ensures forall i :: 0 <= i < |r| ==> r[i] in ps && r[i] != [] && r[i] != "."
    decreases |ps|
  {
    if ps == [] then []
    else
      var x := ps[|ps| - 1];
      var init := Kept(ps[..|ps| - 1]);
      assert forall i :: 0 <= i < |init| ==> init[i] in ps;
      if x == [] || x == "." then init else init + [x]
  }

  /** Keeping distributes over concatenation. */
  lemma {:induction false} KeptAppend(a: seq<string>, b: seq<string>)
    ensures Kept(a + b) == Kept(a) + Kept(b)
    decreases |b|
  {
    if b == [] {
      assert a + b == a;
    } else {
      var n := |b| - 1;
      KeptAppend(a, b[..n]);
      assert (a + b)[..|a + b| - 1] == a + b[..n];
      assert (a + b)[|a + b| - 1] == b[n];
    }
  }

  /** Without `..` pieces nothing is ever popped: resolution keeps exactly the kept pieces. */
  lemma {:induction false} ResolveNoParent(ps: seq<string>, allow: bool)
    requires ".." !in ps
    ensures Resolve(ps, allow) == Kept(ps)
    decreases |ps|
  {
    if ps != [] {
      var init := ps[..|ps| - 1];
      assert ".." !in init by {
        forall k | 0 <= k < |init| ensures init[k] != ".." {
          assert init[k] == ps[k];
        }
      }
      ResolveNoParent(init, allow);
    }
  }

  /** A slash-free string has no two neighbouring slashes. */
  lemma NoSlashNoAdjacent(x: string)
    requires '/' !in x
    ensures NoAdjacent(x, IsSlash)
  {
    forall i | 0 < i < |x| ensures !IsSlash(x[i]) {
      assert x[i] in x;
    }
  }

  /**
   * Nonempty slash-free pieces join to a string that neither starts nor ends
   * with `/` and has no `//`.
   */
  lemma {:induction false} JoinSegsShape(xs: seq<string>)
    requires |xs| >= 1
    requires forall i :: 0 <= i < |xs| ==> xs[i] != [] && '/' !in xs[i]
    ensures var j := JoinSegs(xs);
      j != [] && j[0] != '/' && j[|j| - 1] != '/' && NoAdjacent(j, IsSlash)
    decreases |xs|
  {
    var last := xs[|xs| - 1];
    NoSlashNoAdjacent(last);
    assert last[0] in last && last[|last| - 1] in last;
    if |xs| > 1 {
      var init := xs[..|xs| - 1];
      assert forall i :: 0 <= i < |init| ==> init[i] == xs[i];
      JoinSegsShape(init);
      var a := JoinSegs(init);
      NoAdjacentConcat(a, "/", IsSlash);
      NoAdjacentConcat(a + "/", last, IsSlash);
      assert (a + "/" + last)[0] == a[0];
    }
  }

  /** Pieces in a class that contains `/` join to a string in that class. */
  lemma {:induction false} JoinSegsIn(xs: seq<string>, q: char -> bool)
    requires q('/')
    requires forall i :: 0 <= i < |xs| ==> AllIn(xs[i], q)
    ensures AllIn(JoinSegs(xs), q)
    decreases |xs|
  {
    if |xs| > 1 {
      var init := xs[..|xs| - 1];
      assert forall i :: 0 <= i < |init| ==> init[i] == xs[i];
      JoinSegsIn(init, q);
      AllInConcat(JoinSegs(init), "/", q);
      AllInConcat(JoinSegs(init) + "/", xs[|xs| - 1], q);
    }
  }

  /** Adding a character of a class keeps every piece in that class. */
  lemma AddCharIn(pieces: seq<string>, c: char, q: char -> bool)
    requires |pieces| >= 1 && q(c)
    requires forall i :: 0 <= i < |pieces| ==> AllIn(pieces[i], q)
    ensures forall i :: 0 <= i < |AddChar(pieces, c)| ==> AllIn(AddChar(pieces, c)[i], q)
  {
    if c != '/' {
      var last := pieces[|pieces| - 1];
      AllInConcat(last, [c], q);
    }
  }

  /** Every piece of a string in a class is in that class. */
  lemma {:induction false} SplitPiecesIn(s: string, q: char -> bool)
    requires AllIn(s, q)
    ensures forall i :: 0 <= i < |Split(s)| ==> AllIn(Split(s)[i], q)
    decreases |s|
  {
    if s != [] {
      var s' := s[..|s| - 1];
      var c := s[|s| - 1];
      assert AllIn(s', q) by {
        forall i | 0 <= i < |s'| ensures q(s'[i]) { assert s'[i] == s[i]; }
      }
      SplitPiecesIn(s', q);
      assert s == s' + [c];
      SplitSnoc(s', c);
      AddCharIn(Split(s'), c, q);
    }
  }

  /** The stack left by resolving `/root/t` when `t` has no `..` piece: the root, then the kept pieces of `t`. */
  lemma NoParentStack(root: string, t: string)
    requires CleanSegment(root) && ".." !in Split(t)
    ensures Resolve(Split("/" + root + "/" + t), false) == [root] + Kept(Split(t))
  {
    var ts := Split(t);
    var ps := [[], root] + ts;
    assert Split("/" + root + "/" + t) == ps by {
      JoinedSplit(true, root, t);
      SplitNoSlash(root);
    }
    assert ".." !in ps by {
      forall k | 0 <= k < |ps| ensures ps[k] != ".." {
        if k >= 2 { assert ps[k] == ts[k - 2]; }
      }
    }
    calc {
      Resolve(ps, false);
      { ResolveNoParent(ps, false); }
      Kept(ps);
      { KeptAppend([[], root], ts); }
      Kept([[], root]) + Kept(ts);
      { KeptRoot(root); }
      [root] + Kept(ts);
    }
  }

  /** Of an empty piece and a clean one, the clean one is kept. */
  lemma KeptRoot(root: string)
    requires CleanSegment(root)
    ensures Kept([[], root]) == [root]
  {
    var ps: seq<string> := [[], root];
    var one: seq<string> := [[]];
    assert ps[..1] == one && one[..0] == [];
    assert Kept(one) == [];
  }

  /** The kept pieces of a string in a class are nonempty, slash-free and in that class. */
  lemma KeptPiecesIn(t: string, q: char -> bool)
    requires AllIn(t, q)
    ensures forall i :: 0 <= i < |Kept(Split(t))| ==>
      var x := Kept(Split(t))[i]; x != [] && '/' !in x && AllIn(x, q)
  {
    var ts := Split(t);
    var ks := Kept(ts);
    SplitPiecesIn(t, q);
    forall i | 0 <= i < |ks| ensures ks[i] != [] && '/' !in ks[i] && AllIn(ks[i], q) {
      var k :| 0 <= k < |ts| && ts[k] == ks[i];
    }
  }

  /** Joining `t` onto `/root` when `t` has no `..` piece: the root and the kept pieces of `t`, below `/`. */
  lemma JoinNoParentForm(root: string, t: string)
    requires CleanSegment(root) && t != [] && ".." !in Split(t)
    ensures Join("/" + root, t)
      == "/" + JoinSegs([root] + Kept(Split(t))) + (if t[|t| - 1] == '/' then "/" else "")
  {
    var p := "/" + root + "/" + t;
    NoParentStack(root, t);
    var xs := [root] + Kept(Split(t));
    assert JoinSegs(xs) != [] by {
      if |xs| > 1 { JoinSegsAppend([root], Kept(Split(t))); }
    }
    assert p[0] == '/' && p[|p| - 1] == t[|t| - 1];
  }

  /** A body with no `/` at either end and no `//`, put below `/` with an optional trailing `/`. */
  lemma RootedShape(body: string, trail: string, q: char -> bool)
    requires body != [] && body[0] != '/' && body[|body| - 1] != '/' && NoAdjacent(body, IsSlash)
    requires q('/') && AllIn(body, q) && (trail == "" || trail == "/")
    ensures var r := "/" + body + trail;
      r[0] == '/' && AllIn(r, q) && NoAdjacent(r, IsSlash)
  {
    AllInConcat("/", body, q);
    AllInConcat("/" + body, trail, q);
    NoAdjacentConcat("/", body, IsSlash);
    NoAdjacentConcat("/" + body, trail, IsSlash);
  }

  /** Joining pieces after a first one keeps that first one, followed by `/` when more come. */
  lemma JoinSegsHead(root: string, ks: seq<string>)
    ensures JoinSegs([root] + ks) == root || root + "/" <= JoinSegs([root] + ks)
  {
    if ks != [] {
      JoinSegsAppend([root], ks);
      assert JoinSegs([root] + ks) == root + "/" + JoinSegs(ks);
    }
  }

  /**
   * Joining a path without `..` pieces onto `/root` never leaves it: the
   * result is `/root` or starts with `/root/`, stays in any class holding `/`,
   * the root and the path, and has no `//`.
   */
  lemma JoinNoParent(root: string, t: string, q: char -> bool)
    requires CleanSegment(root) && AllIn(root, q) && q('/')
    requires t != [] && ".." !in Split(t) && AllIn(t, q)
    ensures var r := Join("/" + root, t);
      && r[0] == '/'
      && (r == "/" + root || "/" + root + "/" <= r)
      && AllIn(r, q) && NoAdjacent(r, IsSlash)
  {
    var body := JoinSegs([root] + Kept(Split(t)));
    var trail := if t[|t| - 1] == '/' then "/" else "";
    JoinNoParentForm(root, t);
    RootedBody(root, t, q);
    RootedShape(body, trail, q);
    RootedPrefix(root, body, trail);
  }

  /** The root and the kept pieces of a path in a class, joined: the shape `RootedShape` asks for, led by the root. */
  lemma RootedBody(root: string, t: string, q: char -> bool)
    requires CleanSegment(root) && AllIn(root, q) && q('/') && AllIn(t, q)
    ensures var body := JoinSegs([root] + Kept(Split(t)));
      && body != [] && body[0] != '/' && body[|body| - 1] != '/' && NoAdjacent(body, IsSlash)
      && AllIn(body, q) && (body == root || root + "/" <= body)
  {
    var ks := Kept(Split(t));
    var xs := [root] + ks;
    KeptPiecesIn(t, q);
    assert forall i :: 0 < i < |xs| ==> xs[i] == ks[i - 1];
    JoinSegsShape(xs);
    JoinSegsIn(xs, q);
    JoinSegsHead(root, ks);
  }

  /** A body that is `root` or starts with `root/`, put below `/`, is `/root` or starts with `/root/`. */
  lemma RootedPrefix(root: string, body: string, trail: string)
    requires body == root || root + "/" <= body
    requires trail == "" || trail == "/"
    ensures var r := "/" + body + trail;
      r == "/" + root || "/" + root + "/" <= r
  {
    var r := "/" + body + trail;
    if body == root {
      assert r == "/" + root + trail;
    } else {
      var n := |root| + 1;
      assert body[..n] == root + "/";
      assert r[..n + 1] == "/" + body[..n];
    }
  }

  /** A trailing `.` piece is dropped: joining `x/.` onto `/root` gives `/root/x`, with no trailing `/`. */
  lemma JoinTrailingDot(root: string, x: string)
    requires CleanSegment(root) && CleanSegment(x)
    ensures Join("/" + root, x + "/" + ".") == "/" + root + "/" + x
  {
    var t := x + "/" + ".";
    SplitDot(x);
    KeptDot(x);
    JoinPair(root, x);
    assert t[|t| - 1] == '.';
    calc {
      Join("/" + root, t);
      { JoinNoParentForm(root, t); }
      "/" + JoinSegs([root] + Kept(Split(t))) + "";
      "/" + JoinSegs([root] + [x]) + "";
      "/" + root + "/" + x;
    }
  }

  /** `x/.` has the pieces `x` and `.`. */
  lemma SplitDot(x: string)
    requires '/' !in x
    ensures Split(x + "/" + ".") == [x, "."]
  {
    assert '/' !in ".";
    PairPieces(x, ".");
  }

  /** Two pieces join with one `/` between them. */
  lemma JoinPair(a: string, b: string)
    ensures JoinSegs([a] + [b]) == a + "/" + b
  {
    var two: seq<string> := [a] + [b];
    assert two[..1] == [a];
  }

  /** Of a clean piece and a `.` piece, the clean one is kept. */
  lemma KeptDot(x: string)
    requires CleanSegment(x)
    ensures Kept([x, "."]) == [x]
  {
    var ps: seq<string> := [x, "."];
    var one: seq<string> := [x];
    assert ps[..1] == one && one[..0] == [];
    assert ps[1] == ".";
    assert Kept(one) == [x];
  }

  /** A word without `/`, `.`-only pieces or emptiness is a clean relative path. */
  lemma WordIsClean(w: string)
    requires w != [] && '/' !in w && w != "." && w != ".."
    ensures IsCleanRelative(w) && w[|w| - 1] != '/'
  {
    SplitNoSlash(w);
  }

  // ------------------------------------------------------- basename, extname

  /** `path.posix.basename(p)`: the last piece, ignoring trailing `/`s. */
  function BaseName(p: string): (r: string)
    ensures '/' !in r
  {
    var q := TrimEnd(p, IsSlash);
    var i := LastIndexOf(q, '/');
    q[i + 1..]
  }

  /** The base name is the last piece of the path once its trailing `/`s are dropped. */
  lemma BaseNameSpec(p: string)
    ensures var q := TrimEnd(p, IsSlash); var r := BaseName(p);
      |r| <= |q| && r == q[|q| - |r|..] && (|r| < |q| ==> q[|q| - |r| - 1] == '/')
  {
    var q := TrimEnd(p, IsSlash);
    var i := LastIndexOf(q, '/');
    assert BaseName(p) == q[i + 1..];
    assert |q| - |q[i + 1..]| == i + 1;
  }

  /**
   * `path.posix.extname(p)`: from the last `.` of the base name to its end,
   * or "" when the base name has no `.`, starts with its only leading `.`, or is `..`.
   */
  function ExtName(p: string): (r: string)
    ensures r == [] || (r[0] == '.' && |r| < |BaseName(p)|)
    ensures r == BaseName(p)[|BaseName(p)| - |r|..]
    ensures forall i :: 0 < i < |r| ==> r[i] != '.'
    ensures var b := BaseName(p);
      r == [] <==> b == ".." || forall i :: 0 < i < |b| ==> b[i] != '.'
  {
    var b := BaseName(p);
    var d := LastIndexOf(b, '.');
    NoExtension(b);
    if d <= 0 || b == ".." then [] else b[d..]
  }

  /** A name has no extension exactly when it has no `.` after its first character, or is `..`. */
  lemma NoExtension(b: string)
    ensures var d := LastIndexOf(b, '.');
      (d <= 0 || b == "..") <==> (b == ".." || forall i :: 0 < i < |b| ==> b[i] != '.')
  {
  }

  /** `path.posix.basename(p, path.posix.extname(p))`: the base name without its extension. */
  function BaseNameWithoutExt(p: string): (r: string)
    ensures r + ExtName(p) == BaseName(p)
  {
    var b := BaseName(p);
    var e := ExtName(p);
    var k := |b| - |e|;
    assert b[..k] + b[k..] == b;
    b[..k]
  }
}
