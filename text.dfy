/**
 * String primitives that the server's regular expressions and `String.prototype`
 * calls are built from: character classes, "replace every maximal run of a class"
 * (the meaning of a global `/[...]+/g` replacement), trimming, last-index search,
 * ASCII lower-casing and decimal rendering of counters.
 */
module Text {

  // ---------------------------------------------------------------- classes

  /** `[A-Za-z0-9_]` */
  predicate IsIdChar(c: char) {
    ('A' <= c <= 'Z') || ('a' <= c <= 'z') || ('0' <= c <= '9') || c == '_'
  }

  /** `[A-Za-z0-9_\-]`: the non-blank characters a display name may keep. */
  predicate IsNameChar(c: char) {
    IsIdChar(c) || c == '-'
  }

  /** A path separator, `/` or `\`. */
  predicate IsSep(c: char) {
    c == '/' || c == '\\'
  }

  predicate NotSep(c: char) {
    !IsSep(c)
  }

  predicate IsSlash(c: char) {
    c == '/'
  }

  predicate IsUnderscore(c: char) {
    c == '_'
  }

  /**
   * ECMAScript WhiteSpace and LineTerminator code points: what the regex class
   * `\s` matches and what `String.prototype.trim` removes.
   */
  predicate IsJsSpace(c: char) {
    var n := c as int;
    n == 0x09 || n == 0x0A || n == 0x0B || n == 0x0C || n == 0x0D || n == 0x20 ||
    n == 0xA0 || n == 0x1680 || (0x2000 <= n <= 0x200A) || n == 0x2028 || n == 0x2029 ||
    n == 0x202F || n == 0x205F || n == 0x3000 || n == 0xFEFF
  }

  /** Concatenation regrouped (a helper for proofs about concatenated strings). */
  lemma Assoc<T>(x: seq<T>, y: seq<T>, z: seq<T>)
    ensures (x + y) + z == x + (y + z)
  {
  }

  // ------------------------------------------------------------ run replacing

  /** Drops the longest prefix of `s` whose characters all satisfy `p`. */
  function SkipRun(s: string, p: char -> bool): (r: string)
    ensures |r| <= |s| && r == s[|s| - |r|..]
    ensures r == [] || !p(r[0])
    ensures forall i :: 0 <= i < |s| - |r| ==> p(s[i])
    ensures s != [] && p(s[0]) ==> |r| < |s|
    decreases |s|
  {
    if s != [] && p(s[0]) then SkipRun(s[1..], p) else s
  }

  /**
   * Replaces every maximal run of characters satisfying `p` by `repl`, as a
   * global replacement of the regular expression `[class]+` does.
   */
  function ReplaceRuns(s: string, p: char -> bool, repl: string): (r: string)
    ensures s != [] && repl != [] ==> r != [] && r[0] == (if p(s[0]) then repl[0] else s[0])
    ensures s != [] && repl != [] ==>
              r != [] && r[|r| - 1] == (if p(s[|s| - 1]) then repl[|repl| - 1] else s[|s| - 1])
    decreases |s|
  {
    if s == [] then []
    else if p(s[0]) then
      var rest := SkipRun(s, p);
      assert rest != [] ==> rest[|rest| - 1] == s[|s| - 1];
      repl + ReplaceRuns(rest, p, repl)
    else
      [s[0]] + ReplaceRuns(s[1..], p, repl)
  }

  /** Every character of a replacement is from `repl` or a kept character of `s`. */
  ghost predicate AllIn(s: string, q: char -> bool) {
    forall i :: 0 <= i < |s| ==> q(s[i])
  }

  /**
   * If every character of `s` outside `p`, and every character of `repl`, lies in
   * the class `q`, then so does every character of the replacement.
   */
  lemma {:induction false} ReplaceRunsClass(s: string, p: char -> bool, repl: string, q: char -> bool)
    requires forall i :: 0 <= i < |s| && !p(s[i]) ==> q(s[i])
    requires AllIn(repl, q)
    ensures AllIn(ReplaceRuns(s, p, repl), q)
    decreases |s|
  {
    if s == [] {
    } else if p(s[0]) {
      var rest := SkipRun(s, p);
      ReplaceRunsClass(rest, p, repl, q);
    } else {
      ReplaceRunsClass(s[1..], p, repl, q);
    }
  }

  /** No two neighbouring characters both satisfy `p`. */
  ghost predicate NoAdjacent(s: string, p: char -> bool) {
    forall i :: 0 < i < |s| && p(s[i]) ==> !p(s[i - 1])
  }

  /** Collapsing runs of `p` into one `p`-character leaves no two neighbours in `p`. */
  lemma {:induction false} ReplaceRunsNoAdjacent(s: string, p: char -> bool, c: char)
    requires p(c)
    ensures NoAdjacent(ReplaceRuns(s, p, [c]), p)
    decreases |s|
  {
    if s == [] {
    } else if p(s[0]) {
      var rest := SkipRun(s, p);
      ReplaceRunsNoAdjacent(rest, p, c);
      var tail := ReplaceRuns(rest, p, [c]);
      assert ReplaceRuns(s, p, [c]) == [c] + tail;
      assert tail != [] ==> !p(tail[0]);
    } else {
      ReplaceRunsNoAdjacent(s[1..], p, c);
      assert ReplaceRuns(s, p, [c]) == [s[0]] + ReplaceRuns(s[1..], p, [c]);
    }
  }

  /**
   * A string in which every `p`-run is already exactly `repl` (a single
   * character) is left unchanged; in particular a string without `p`-characters.
   */
  lemma {:induction false} ReplaceRunsIdentity(s: string, p: char -> bool, repl: string)
    requires forall i :: 0 <= i < |s| && p(s[i]) ==> [s[i]] == repl
    requires NoAdjacent(s, p)
    ensures ReplaceRuns(s, p, repl) == s
    decreases |s|
  {
    if s != [] {
      var t := s[1..];
      NoAdjacentTail(s, p);
      assert forall i :: 0 <= i < |t| && p(t[i]) ==> [t[i]] == repl by {
        forall i | 0 <= i < |t| && p(t[i]) ensures [t[i]] == repl {
          assert t[i] == s[i + 1];
        }
      }
      ReplaceRunsIdentity(t, p, repl);
      assert s == [s[0]] + t;
      if p(s[0]) {
        SkipSingle(s, p);
        assert [s[0]] == repl;
      }
    }
  }

  /** Dropping the first character keeps the no-neighbours property. */
  lemma NoAdjacentTail(s: string, p: char -> bool)
    requires s != [] && NoAdjacent(s, p)
    ensures NoAdjacent(s[1..], p)
  {
    var t := s[1..];
    forall i | 0 < i < |t| && p(t[i]) ensures !p(t[i - 1]) {
      assert t[i] == s[i + 1] && t[i - 1] == s[i];
    }
  }

  /** A run of one character is skipped alone. */
  lemma SkipSingle(s: string, p: char -> bool)
    requires s != [] && p(s[0]) && NoAdjacent(s, p)
    ensures SkipRun(s, p) == s[1..]
  {
    if |s| > 1 {
      assert !p(s[1]);
    }
  }

  /** Class membership and the no-neighbours property survive taking a slice. */
  lemma SliceKeeps(s: string, k: nat, n: nat, p: char -> bool, q: char -> bool)
    requires k + n <= |s|
    ensures AllIn(s, q) ==> AllIn(s[k..k + n], q)
    ensures NoAdjacent(s, p) ==> NoAdjacent(s[k..k + n], p)
  {
    var r := s[k..k + n];
    if NoAdjacent(s, p) {
      forall i | 0 < i < |r| && p(r[i]) ensures !p(r[i - 1]) {
        assert r[i] == s[k + i] && r[i - 1] == s[k + i - 1];
      }
    }
  }

  // ---------------------------------------------------------------- keeping

  /** `[A-Za-z0-9]` */
  predicate IsAlnum(c: char) {
    ('A' <= c <= 'Z') || ('a' <= c <= 'z') || ('0' <= c <= '9')
  }

  /** The characters of `s` that satisfy `q`, in their order. */
  function Filter(s: string, q: char -> bool): (r: string)
    ensures |r| <= |s|
    ensures AllIn(r, q)
    decreases |s|
  {
    if s == [] then []
    else (if q(s[0]) then [s[0]] else []) + Filter(s[1..], q)
  }

  /** Keeping distributes over concatenation. */
  lemma {:induction false} FilterConcat(a: string, b: string, q: char -> bool)
    ensures Filter(a + b, q) == Filter(a, q) + Filter(b, q)
    decreases |a|
  {
    if a == [] {
      assert a + b == b;
    } else {
      var h: string := if q(a[0]) then [a[0]] else [];
      assert (a + b)[0] == a[0] && (a + b)[1..] == a[1..] + b;
      FilterConcat(a[1..], b, q);
      calc {
        Filter(a + b, q);
        h + Filter(a[1..] + b, q);
        h + (Filter(a[1..], q) + Filter(b, q));
        { Assoc(h, Filter(a[1..], q), Filter(b, q)); }
        Filter(a, q) + Filter(b, q);
      }
    }
  }

  /** A string holding no character of `q` keeps nothing. */
  lemma {:induction false} FilterNone(s: string, q: char -> bool)
    requires forall i :: 0 <= i < |s| ==> !q(s[i])
    ensures Filter(s, q) == []
    decreases |s|
  {
    if s != [] {
      FilterNone(s[1..], q);
    }
  }

  /** When nothing is kept, no character of `s` is in `q`. */
  lemma {:induction false} FilterEmpty(s: string, q: char -> bool)
    requires Filter(s, q) == []
    ensures forall i :: 0 <= i < |s| ==> !q(s[i])
    decreases |s|
  {
    if s != [] {
      FilterEmpty(s[1..], q);
      assert forall i :: 1 <= i < |s| ==> s[i] == s[1..][i - 1];
    }
  }

  /** Skipping a run of characters outside `q` keeps the same characters of `q`. */
  lemma {:induction false} SkipRunFilter(s: string, p: char -> bool, q: char -> bool)
    requires forall c :: p(c) ==> !q(c)
    ensures Filter(SkipRun(s, p), q) == Filter(s, q)
    decreases |s|
  {
    if s != [] && p(s[0]) {
      SkipRunFilter(s[1..], p, q);
    }
  }

  /**
   * Replacing runs of characters outside `q` by a string that keeps the same
   * characters of `q` as `repl2` does leaves the kept characters as replacing by
   * `repl2` would.
   */
  lemma {:induction false} ReplaceRunsFilter(s: string, p: char -> bool, repl: string, repl2: string, q: char -> bool)
    requires forall c :: p(c) ==> !q(c)
    requires Filter(repl, q) == Filter(repl2, q)
    ensures Filter(ReplaceRuns(s, p, repl), q) == Filter(ReplaceRuns(s, p, repl2), q)
    decreases |s|
  {
    if s == [] {
    } else if p(s[0]) {
      var rest := SkipRun(s, p);
      ReplaceRunsFilter(rest, p, repl, repl2, q);
      FilterConcat(repl, ReplaceRuns(rest, p, repl), q);
      FilterConcat(repl2, ReplaceRuns(rest, p, repl2), q);
    } else {
      ReplaceRunsFilter(s[1..], p, repl, repl2, q);
      FilterConcat([s[0]], ReplaceRuns(s[1..], p, repl), q);
      FilterConcat([s[0]], ReplaceRuns(s[1..], p, repl2), q);
    }
  }

  /**
   * Replacing runs of characters outside `q` by a string that holds none of `q`
   * keeps exactly the characters of `q` the input had, in order.
   */
  lemma {:induction false} ReplaceRunsKeeps(s: string, p: char -> bool, repl: string, q: char -> bool)
    requires forall c :: p(c) ==> !q(c)
    requires Filter(repl, q) == []
    ensures Filter(ReplaceRuns(s, p, repl), q) == Filter(s, q)
    decreases |s|
  {
    if s == [] {
    } else if p(s[0]) {
      var rest := SkipRun(s, p);
      ReplaceRunsKeeps(rest, p, repl, q);
      FilterConcat(repl, ReplaceRuns(rest, p, repl), q);
      SkipRunFilter(s, p, q);
    } else {
      ReplaceRunsKeeps(s[1..], p, repl, q);
      FilterConcat([s[0]], ReplaceRuns(s[1..], p, repl), q);
    }
  }

  /** Rewriting one character outside `q` into another keeps the characters of `q`. */
  lemma {:induction false} ReplaceCharKeeps(s: string, from: char, to: char, q: char -> bool)
    requires !q(from) && !q(to)
    ensures Filter(ReplaceChar(s, from, to), q) == Filter(s, q)
    decreases |s|
  {
    if s != [] {
      var r := ReplaceChar(s, from, to);
      assert r[1..] == ReplaceChar(s[1..], from, to);
      ReplaceCharKeeps(s[1..], from, to, q);
    }
  }

  // ----------------------------------------------------------------- trimming

  /** A character class survives concatenation. */
  lemma AllInConcat(a: string, b: string, q: char -> bool)
    requires AllIn(a, q) && AllIn(b, q)
    ensures AllIn(a + b, q)
  {
    var r := a + b;
    forall i | 0 <= i < |r| ensures q(r[i]) {
      if i < |a| { assert r[i] == a[i]; } else { assert r[i] == b[i - |a|]; }
    }
  }

  /** No two neighbours in `p` survives concatenation, unless the seam joins two of them. */
  lemma NoAdjacentConcat(a: string, b: string, p: char -> bool)
    requires NoAdjacent(a, p) && NoAdjacent(b, p)
    requires a == [] || b == [] || !p(a[|a| - 1]) || !p(b[0])
    ensures NoAdjacent(a + b, p)
  {
    var r := a + b;
    forall i | 0 < i < |r| && p(r[i]) ensures !p(r[i - 1]) {
      if i < |a| {
        assert r[i] == a[i] && r[i - 1] == a[i - 1];
      } else if i == |a| {
        assert r[i] == b[0] && r[i - 1] == a[|a| - 1];
      } else {
        assert r[i] == b[i - |a|] && r[i - 1] == b[i - 1 - |a|];
      }
    }
  }

  /** Drops the longest suffix of `s` whose characters all satisfy `p`. */
  function TrimEnd(s: string, p: char -> bool): (r: string)
    ensures |r| <= |s| && r == s[..|r|]
    ensures r == [] || !p(r[|r| - 1])
    ensures forall i :: |r| <= i < |s| ==> p(s[i])
    decreases |s|
  {
    if s != [] && p(s[|s| - 1]) then TrimEnd(s[..|s| - 1], p) else s
  }

  /** Removes leading and trailing characters in `p` (`trim()` for `IsJsSpace`). */
  function Trim(s: string, p: char -> bool): (r: string)
    ensures |r| <= |s|
    ensures r == [] || (!p(r[0]) && !p(r[|r| - 1]))
  {
    var a := SkipRun(s, p);
    var r := TrimEnd(a, p);
    assert r == [] || r[0] == a[0];
    r
  }

  /** The trimmed string is a slice of the original, starting at `k`. */
  lemma TrimSlice(s: string, p: char -> bool) returns (k: nat)
    ensures k + |Trim(s, p)| <= |s|
    ensures Trim(s, p) == s[k..k + |Trim(s, p)|]
  {
    var a := SkipRun(s, p);
    k := |s| - |a|;
    var r := TrimEnd(a, p);
    assert a == s[k..] && r == a[..|r|];
    assert r == s[k..k + |r|];
  }

  /** Trimming keeps a character class and the absence of adjacent `p` characters. */
  lemma TrimKeeps(s: string, p: char -> bool, q: char -> bool)
    requires AllIn(s, q) && NoAdjacent(s, p)
    ensures AllIn(Trim(s, p), q) && NoAdjacent(Trim(s, p), p)
  {
    var k := TrimSlice(s, p);
    var n := |Trim(s, p)|;
    SliceKeeps(s, k, n, p, q);
    assert Trim(s, p) == s[k..k + n];
  }

  /** Dropping characters outside `q` from the end keeps the characters of `q`. */
  lemma {:induction false} TrimEndFilter(s: string, p: char -> bool, q: char -> bool)
    requires forall c :: p(c) ==> !q(c)
    ensures Filter(TrimEnd(s, p), q) == Filter(s, q)
    decreases |s|
  {
    if s != [] && p(s[|s| - 1]) {
      var init := s[..|s| - 1];
      TrimEndFilter(init, p, q);
      assert s == init + [s[|s| - 1]];
      FilterConcat(init, [s[|s| - 1]], q);
    }
  }

  /** Trimming characters outside `q` keeps every character of `q`, in order. */
  lemma TrimFilter(s: string, p: char -> bool, q: char -> bool)
    requires forall c :: p(c) ==> !q(c)
    ensures Filter(Trim(s, p), q) == Filter(s, q)
  {
    SkipRunFilter(s, p, q);
    TrimEndFilter(SkipRun(s, p), p, q);
  }

  /** A string that starts and ends outside `p` is its own trim. */
  lemma TrimIdentity(s: string, p: char -> bool)
    requires s == [] || (!p(s[0]) && !p(s[|s| - 1]))
    ensures Trim(s, p) == s
  {
  }

  // ------------------------------------------------------------------ search

  /** `s.lastIndexOf(c)`: the last position holding `c`, or -1. */
  function LastIndexOf(s: string, c: char): (r: int)
    ensures -1 <= r < |s|
    ensures r >= 0 ==> s[r] == c
    ensures forall j :: r < j < |s| ==> s[j] != c
    decreases |s|
  {
    if s == [] then -1
    else if s[|s| - 1] == c then |s| - 1
    else LastIndexOf(s[..|s| - 1], c)
  }

  /** `s.indexOf(c)`: the first position holding `c`, or -1. */
  function IndexOf(s: string, c: char): (r: int)
    ensures -1 <= r < |s|
    ensures r >= 0 ==> s[r] == c
    ensures forall j :: 0 <= j < (if r < 0 then |s| else r) ==> s[j] != c
    decreases |s|
  {
    if s == [] then -1
    else if s[0] == c then 0
    else var k := IndexOf(s[1..], c); if k < 0 then -1 else k + 1
  }

  // --------------------------------------------------------------- rewriting

  /** Every `from` replaced by `to` (a global one-character replacement). */
  function ReplaceChar(s: string, from: char, to: char): (r: string)
    ensures |r| == |s|
    ensures forall i :: 0 <= i < |s| ==> r[i] == (if s[i] == from then to else s[i])
  {
    seq(|s|, i requires 0 <= i < |s| => if s[i] == from then to else s[i])
  }

  /** ASCII upper-case letters mapped to lower case; everything else kept. */
  function AsciiLower(s: string): (r: string)
    ensures |r| == |s|
    ensures forall i :: 0 <= i < |r| ==> !('A' <= r[i] <= 'Z')
    ensures forall i :: 0 <= i < |s| && !('A' <= s[i] <= 'Z') ==> r[i] == s[i]
    ensures forall i :: 0 <= i < |s| && 'A' <= s[i] <= 'Z' ==> r[i] as int == s[i] as int + 32
  {
    seq(|s|, i requires 0 <= i < |s| =>
      if 'A' <= s[i] <= 'Z' then (s[i] as int - 'A' as int + 'a' as int) as char else s[i])
  }

  // ----------------------------------------------------------------- decimal

  function Digit(d: nat): (c: char)
    requires d < 10
    ensures '0' <= c <= '9'
  {
    ('0' as int + d) as char
  }

  /** The decimal rendering of `n`, as a template literal `${n}` produces it. */
  function NatToDecimal(n: nat): (r: string)
    ensures r != []
    ensures forall i :: 0 <= i < |r| ==> '0' <= r[i] <= '9'
    decreases n
  {
    if n < 10 then [Digit(n)] else NatToDecimal(n / 10) + [Digit(n % 10)]
  }

  /** The value of a string of decimal digits. */
  function DecimalValue(s: string): nat
    requires forall i :: 0 <= i < |s| ==> '0' <= s[i] <= '9'
    decreases |s|
  {
    if s == [] then 0
    else DecimalValue(s[..|s| - 1]) * 10 + (s[|s| - 1] as int - '0' as int)
  }

  /** Reading back a rendered counter gives the counter. */
  lemma {:induction false} DecimalRoundTrip(n: nat)
    ensures DecimalValue(NatToDecimal(n)) == n
    decreases n
  {
    var r := NatToDecimal(n);
    if n >= 10 {
      DecimalRoundTrip(n / 10);
      assert r[..|r| - 1] == NatToDecimal(n / 10);
    }
  }

  /** Distinct counters render to distinct strings. */
  lemma DecimalInjective(m: nat, n: nat)
    requires NatToDecimal(m) == NatToDecimal(n)
    ensures m == n
  {
    DecimalRoundTrip(m);
    DecimalRoundTrip(n);
  }
}
