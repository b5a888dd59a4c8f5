/**
 * `ensureUniqueId`: the set of ids handed out so far, and the choice of a fresh
 * id from a base (`base`, then `base_1`, `base_2`, ...).
 */
module UniqueIds {
  import opened Text
  import opened Sanitize

  /** The id used when neither the raw id nor the fallback sanitizes to anything. */
  const DefaultBase: string := "background"

  /**
   * The base of `ensureUniqueId`: the sanitized raw id without its extension,
   * else the sanitized fallback without its extension, else "background".
   */
  function IdBase(rawId: string, fallback: string): (r: string)
    ensures r != []
  {
    var fromRaw := SanitizeId(StripExtension(rawId));
    if fromRaw != [] then fromRaw
    else
      var fromFallback := SanitizeId(StripExtension(fallback));
      if fromFallback != [] then fromFallback else DefaultBase
  }

  /** The base is never empty, is a clean identifier, and comes from the first usable source. */
  lemma IdBaseClean(rawId: string, fallback: string)
    ensures IdBase(rawId, fallback) != []
    ensures IsCleanId(IdBase(rawId, fallback))
    ensures SanitizeId(IdBase(rawId, fallback)) == IdBase(rawId, fallback)
    ensures SanitizeId(StripExtension(rawId)) != [] ==>
              IdBase(rawId, fallback) == SanitizeId(StripExtension(rawId))
    ensures SanitizeId(StripExtension(rawId)) == [] && SanitizeId(StripExtension(fallback)) != [] ==>
              IdBase(rawId, fallback) == SanitizeId(StripExtension(fallback))
    ensures SanitizeId(StripExtension(rawId)) == [] && SanitizeId(StripExtension(fallback)) == [] ==>
              IdBase(rawId, fallback) == DefaultBase
  {
    SanitizeIdClean(StripExtension(rawId));
    SanitizeIdClean(StripExtension(fallback));
    var b := IdBase(rawId, fallback);
    if b == DefaultBase {
      DefaultBaseClean();
    }
    SanitizeIdFixes(b);
  }

  lemma DefaultBaseClean()
    ensures IsCleanId(DefaultBase)
  {
    var b := DefaultBase;
    forall i | 0 <= i < |b| ensures 'a' <= b[i] <= 'z' {
    }
  }

  /** The `k`-th candidate: the base itself, then `base_k` for k = 1, 2, ... */
  function Candidate(base: string, k: nat): (r: string)
    ensures base <= r && (k == 0 <==> |r| == |base|)
  {
    if k == 0 then base else base + "_" + NatToDecimal(k)
  }

  /** Distinct counters give distinct candidates. */
  lemma CandidateInjective(base: string, j: nat, k: nat)
    requires Candidate(base, j) == Candidate(base, k)
    ensures j == k
  {
    if j != 0 && k != 0 {
      var n := |base| + 1;
      assert Candidate(base, j)[n..] == NatToDecimal(j);
      assert Candidate(base, k)[n..] == NatToDecimal(k);
      DecimalInjective(j, k);
    }
  }

  /** The first `n` candidates. */
  ghost function Candidates(base: string, n: nat): set<string> {
    set j | 0 <= j < n :: Candidate(base, j)
  }

  /** The first `n` candidates are `n` different strings. */
  lemma {:induction false} CandidatesCount(base: string, n: nat)
    ensures |Candidates(base, n)| == n
  {
    if n > 0 {
      CandidatesCount(base, n - 1);
      assert Candidates(base, n) == Candidates(base, n - 1) + {Candidate(base, n - 1)};
      if Candidate(base, n - 1) in Candidates(base, n - 1) {
        var j :| 0 <= j < n - 1 && Candidate(base, j) == Candidate(base, n - 1);
        CandidateInjective(base, j, n - 1);
      }
    }
  }

  /** If the first `n` candidates are all taken, there are at least `n` taken ids. */
  lemma CandidatesTaken(base: string, used: set<string>, n: nat)
    requires forall j :: 0 <= j < n ==> Candidate(base, j) in used
    ensures n <= |used|
  {
    CandidatesCount(base, n);
    assert Candidates(base, n) <= used;
    SubsetCard(Candidates(base, n), used);
  }

  lemma SubsetCard<T>(a: set<T>, b: set<T>)
    requires a <= b
    ensures |a| <= |b|
  {
    assert b == a + (b - a);
  }

  /** A candidate is taken when it is empty or already used, as the loop tests it. */
  predicate Taken(candidate: string, used: set<string>) {
    candidate == [] || candidate in used
  }

  /**
   * The first counter, from `k` on, whose candidate is free (the candidates
   * before `k` being all taken).
   */
  function FirstFreeFrom(base: string, used: set<string>, k: nat): (r: nat)
    requires base != []
    requires forall j :: 0 <= j < k ==> Candidate(base, j) in used
    ensures k <= r
    ensures !Taken(Candidate(base, r), used)
    ensures forall j :: 0 <= j < r ==> Candidate(base, j) in used
    decreases |used| - k
  {
    CandidatesTaken(base, used, k);
    if !Taken(Candidate(base, k), used) then k
    else
      CandidatesTaken(base, used, k + 1);
      FirstFreeFrom(base, used, k + 1)
  }

  /**
   * The id `ensureUniqueId` hands out for `base` when `used` is taken: the first
   * free candidate.
   */
  function UniqueId(base: string, used: set<string>): string
    requires base != []
  {
    Candidate(base, FirstFreeFrom(base, used, 0))
  }

  /**
   * The chosen id is fresh, it is the base itself when the base is free, and
   * every earlier candidate is taken: it is the first free candidate.
   */
  lemma UniqueIdFresh(base: string, used: set<string>)
    requires base != []
    ensures UniqueId(base, used) != [] && UniqueId(base, used) !in used
    ensures base !in used ==> UniqueId(base, used) == base
    ensures exists k: nat :: UniqueId(base, used) == Candidate(base, k)
              && forall j :: 0 <= j < k ==> Candidate(base, j) in used
  {
    var k := FirstFreeFrom(base, used, 0);
    assert UniqueId(base, used) == Candidate(base, k);
  }

  /** A counter whose candidate is free, with all earlier ones taken, is the one chosen. */
  lemma UniqueIdIsFirstFree(base: string, used: set<string>, k: nat)
    requires base != []
    requires !Taken(Candidate(base, k), used)
    requires forall j :: 0 <= j < k ==> Candidate(base, j) in used
    ensures UniqueId(base, used) == Candidate(base, k)
  {
    var r := FirstFreeFrom(base, used, 0);
    assert Candidate(base, r) !in used && Candidate(base, k) !in used;
  }

  /** Every candidate of a clean base is a clean identifier. */
  lemma CandidateClean(base: string, k: nat)
    requires base != [] && IsCleanId(base)
    ensures IsCleanId(Candidate(base, k))
  {
    if k > 0 {
      var d := NatToDecimal(k);
      var c := base + "_" + d;
      forall i | 0 <= i < |base| ensures c[i] == base[i] { }
      forall i | |base| < i < |c| ensures '0' <= c[i] <= '9' {
        assert c[i] == d[i - |base| - 1];
      }
      assert c[|base|] == '_';
      assert c[|c| - 1] == d[|d| - 1];
    }
  }

  /** The id handed out for a raw id and fallback is a fresh, clean identifier. */
  lemma UniqueIdClean(rawId: string, fallback: string, used: set<string>)
    ensures IdBase(rawId, fallback) != []
    ensures IsCleanId(UniqueId(IdBase(rawId, fallback), used))
  {
    IdBaseClean(rawId, fallback);
    CandidateClean(IdBase(rawId, fallback), FirstFreeFrom(IdBase(rawId, fallback), used, 0));
  }

  /** Three blocks sharing one base get the base, then `_1`, then `_2`. */
  lemma UniqueIdSuffixes()
    ensures UniqueId("x", {}) == "x"
    ensures UniqueId("x", {"x"}) == "x_1"
    ensures UniqueId("x", {"x", "x_1"}) == "x_2"
  {
    assert NatToDecimal(1) == "1" && NatToDecimal(2) == "2";
    assert Candidate("x", 1) == "x_1" && Candidate("x", 2) == "x_2";
    UniqueIdIsFirstFree("x", {}, 0);
    UniqueIdIsFirstFree("x", {"x"}, 1);
    UniqueIdIsFirstFree("x", {"x", "x_1"}, 2);
  }

  /** The `usedIds` set shared by every block of one catalog build. */
  class IdSet {
    var ids: set<string>

    constructor()
      ensures ids == {}
    {
      ids := {};
    }

    /**
     * `ensureUniqueId`: derives the base from the raw id and the fallback, then
     * claims its first free candidate.
     */
    method EnsureUniqueId(rawId: string, fallback: string) returns (id: string)
      modifies this
      ensures IdBase(rawId, fallback) != []
      ensures id == UniqueId(IdBase(rawId, fallback), old(ids))
      ensures ids == old(ids) + {id}
    {
      IdBaseClean(rawId, fallback);
      var base := IdBase(rawId, fallback);
      id := Claim(base);
    }

    /**
     * The loop of `ensureUniqueId`: tries the base, then `base_1`, `base_2`, ...
     * until one is neither empty nor taken, records it as taken and returns it.
     */
    method Claim(base: string) returns (id: string)
      requires base != []
      modifies this
      ensures id == UniqueId(base, old(ids))
      ensures ids == old(ids) + {id}
    {
      var candidate := base;
      var counter := 1;
      while candidate == [] || candidate in ids
        invariant ids == old(ids)
        invariant 1 <= counter
        invariant candidate == Candidate(base, counter - 1)
        invariant forall j :: 0 <= j < counter - 1 ==> Candidate(base, j) in ids
        decreases |ids| - counter + 1
      {
        CandidatesTaken(base, ids, counter);
        candidate := base + "_" + NatToDecimal(counter);
        counter := counter + 1;
      }
      UniqueIdIsFirstFree(base, ids, counter - 1);
      ids := ids + {candidate};
      id := candidate;
    }
  }
}
