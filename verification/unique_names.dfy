/**
 The repair that makes display names unique before the case-insensitive unique indexes are
 created: candidate names, the search for a free one, and the pass over a table.
 */
module UniqueNames {
  import opened Text
  import opened Tables

  /** Lower-casing of a name; the model only needs that it leaves a numeric suffix alone. */
  type CaseMap = string -> string

  ghost predicate KeepsSuffixes(lower: CaseMap) {
    forall t, n: nat :: lower(t + Suffix(n)) == lower(t) + Suffix(n)
  }

  function Key(lower: CaseMap, tenant: string, name: string): string {
    tenant + "\0" + lower(name)
  }

  // ---------- candidates ----------

  function Suffix(n: nat): string {
    " (" + Numeral(n) + ")"
  }

  /** The truncation at the n-th try: the base is cut so that it would leave room for that suffix. */
  function Cut(base: string, n: nat): string {
    var room := 128 - |Suffix(n)|;
    if |base| > room && room >= 0 then base[..room] else base
  }

  /** The base after the truncations of the tries before number n. */
  function BaseAt(base: string, n: nat): string
    requires n >= 2
  {
    if n == 2 then base else Cut(BaseAt(base, n - 1), n - 1)
  }

  /** The n-th candidate: the base as it stands before this try's own truncation, trimmed, with the suffix. */
  function Candidate(base: string, n: nat): string
    requires n >= 2
  {
    TrimSpace(BaseAt(base, n)) + Suffix(n)
  }

  /** A suffix is a space, a parenthesis, digits, a parenthesis: no space after its first character. */
  lemma SuffixShape(n: nat)
    ensures |Suffix(n)| >= 4 && Suffix(n)[0] == ' '
    ensures forall i | 0 < i < |Suffix(n)| :: Suffix(n)[i] != ' '
    ensures Suffix(n)[2..|Suffix(n)| - 1] == Numeral(n)
  {
    var s := Suffix(n);
    assert s == [' ', '('] + Numeral(n) + [')'];
    assert forall i | 0 <= i < |Numeral(n)| :: s[i + 2] == Numeral(n)[i];
    assert forall i | 2 <= i < |s| - 1 :: s[i] == Numeral(n)[i - 2];
  }

  /** A name with each character mapped on its own. */
  function MapEach(f: char -> char, s: string): (r: string)
    ensures |r| == |s|
    ensures forall i | 0 <= i < |s| :: r[i] == f(s[i])
  {
    seq(|s|, i requires 0 <= i < |s| => f(s[i]))
  }

  /** The source maps character by character; such a map keeps suffixes if it keeps spaces, parentheses and digits. */
  lemma MappingKeepsSuffixes(f: char -> char)
    requires f(' ') == ' ' && f('(') == '(' && f(')') == ')'
    requires forall c: char | '0' <= c <= '9' :: f(c) == c
    ensures KeepsSuffixes(s => MapEach(f, s))
  {
    forall t, n: nat
      ensures MapEach(f, t + Suffix(n)) == MapEach(f, t) + Suffix(n)
    {
      var s := Suffix(n);
      assert s == [' ', '('] + Numeral(n) + [')'];
      forall i | 0 <= i < |s|
        ensures f(s[i]) == s[i]
      {
        if 2 <= i < |s| - 1 { assert s[i] == Numeral(n)[i - 2]; }
      }
    }
  }

  /** Texts that end in different suffixes differ, whatever comes before. */
  lemma SuffixesDecide(x: string, m: nat, y: string, n: nat)
    requires x + Suffix(m) == y + Suffix(n)
    ensures m == n
  {
    SuffixShape(m);
    SuffixShape(n);
    var a, b, whole := Suffix(m), Suffix(n), x + Suffix(m);
    assert whole[|x|] == ' ' && whole[|y|] == ' ';
    assert forall i | |x| < i < |whole| :: whole[i] == a[i - |x|];
    assert forall i | |y| < i < |whole| :: whole[i] == b[i - |y|];
    assert |x| == |y|;
    assert a == whole[|x|..] == b;
    NumeralInjective(m, n);
  }

  /** Different tries always have different keys, although the base is cut shorter between them. */
  lemma CandidateKeysDiffer(lower: CaseMap, tenant: string, base: string, m: nat, n: nat)
    requires KeepsSuffixes(lower) && m >= 2 && n >= 2
    requires Key(lower, tenant, Candidate(base, m)) == Key(lower, tenant, Candidate(base, n))
    ensures m == n
  {
    var x, y := TrimSpace(BaseAt(base, m)), TrimSpace(BaseAt(base, n));
    var cut := |tenant| + 1;
    assert Key(lower, tenant, Candidate(base, m))[cut..] == lower(x) + Suffix(m);
    assert Key(lower, tenant, Candidate(base, n))[cut..] == lower(y) + Suffix(n);
    SuffixesDecide(lower(x), m, lower(y), n);
  }

  // ---------- the search ----------

  const FIRST: nat := 2
  const LIMIT: nat := 1_000_000

  datatype Result = Name(name: string) | Exhausted

  function TryKey(lower: CaseMap, tenant: string, base: string, n: nat): string
    requires n >= FIRST
  {
    Key(lower, tenant, Candidate(base, n))
  }

  /** Distinct keys that all lie in a set are no more than its elements. */
  lemma {:induction false} Pigeonhole(keys: seq<string>, used: set<string>)
    requires forall i, j | 0 <= i < j < |keys| :: keys[i] != keys[j]
    requires forall i | 0 <= i < |keys| :: keys[i] in used
    ensures |keys| <= |used|
  {
    if keys != [] {
      var n := |keys| - 1;
      Pigeonhole(keys[..n], used - {keys[n]});
    }
  }

  /** If the tries before n all found their key taken, at least that many keys are taken. */
  lemma TriesAreBounded(lower: CaseMap, tenant: string, base: string, used: set<string>, keys: seq<string>)
    requires KeepsSuffixes(lower)
    requires AllTaken(lower, tenant, base, used, keys)
    ensures |keys| <= |used|
  {
    forall i, j | 0 <= i < j < |keys|
      ensures keys[i] != keys[j]
    {
      if keys[i] == keys[j] {
        CandidateKeysDiffer(lower, tenant, base, FIRST + i, FIRST + j);
      }
    }
    Pigeonhole(keys, used);
  }

  /** The n-th try is the first one that finds its key free. */
  ghost predicate FirstFree(lower: CaseMap, tenant: string, base: string, used: set<string>, n: nat) {
    && n >= FIRST
    && TryKey(lower, tenant, base, n) !in used
    && forall i | FIRST <= i < n :: TryKey(lower, tenant, base, i) in used
  }

  /**
   Tries suffixes 2, 3, ... below the limit and returns the first candidate whose key is
   free. It gives up exactly when the key of every try is taken, which takes at least
   limit - 2 keys.
   */
  method NextUniqueName(lower: CaseMap, tenant: string, base: string, used: set<string>, limit: nat) returns (r: Result)
    requires KeepsSuffixes(lower) && limit >= FIRST
    ensures r.Name? ==> Key(lower, tenant, r.name) !in used
    ensures r.Name? ==> exists n: nat :: n < limit && FirstFree(lower, tenant, base, used, n) && r.name == Candidate(base, n)
    ensures r.Exhausted? <==> forall n | FIRST <= n < limit :: TryKey(lower, tenant, base, n) in used
    ensures r.Exhausted? ==> |used| >= limit - FIRST
  {
    var current := base;
    var sequence := FIRST;
    ghost var keys: seq<string> := [];
    while sequence < limit
      invariant FIRST <= sequence <= limit
      invariant current == BaseAt(base, sequence)
      invariant |keys| == sequence - FIRST
      invariant AllTaken(lower, tenant, base, used, keys)
    {
      var candidate := TrimSpace(current) + Suffix(sequence);
      var key := Key(lower, tenant, candidate);
      current := Cut(current, sequence);
      assert key == TryKey(lower, tenant, base, sequence);
      if key !in used {
        TakenBefore(lower, tenant, base, used, keys, sequence);
        return Name(candidate);
      }
      OneMoreTaken(lower, tenant, base, used, keys, sequence);
      keys := keys + [key];
      sequence := sequence + 1;
    }
    TriesAreBounded(lower, tenant, base, used, keys);
    forall n | FIRST <= n < limit
      ensures TryKey(lower, tenant, base, n) in used
    {
      assert keys[n - FIRST] == TryKey(lower, tenant, base, FIRST + (n - FIRST));
    }
    return Exhausted;
  }

  /** The keys of the tries from the first on, all of them taken. */
  ghost predicate AllTaken(lower: CaseMap, tenant: string, base: string, used: set<string>, keys: seq<string>) {
    forall i | 0 <= i < |keys| :: keys[i] == TryKey(lower, tenant, base, FIRST + i) && keys[i] in used
  }

  lemma OneMoreTaken(lower: CaseMap, tenant: string, base: string, used: set<string>, keys: seq<string>, n: nat)
    requires AllTaken(lower, tenant, base, used, keys) && n == |keys| + FIRST
    requires TryKey(lower, tenant, base, n) in used
    ensures AllTaken(lower, tenant, base, used, keys + [TryKey(lower, tenant, base, n)])
  {
    var more := keys + [TryKey(lower, tenant, base, n)];
    forall i | 0 <= i < |more|
      ensures more[i] == TryKey(lower, tenant, base, FIRST + i) && more[i] in used
    {
      if i < |keys| {
        assert more[i] == keys[i];
      } else {
        assert FIRST + i == n;
      }
    }
  }

  lemma TakenBefore(lower: CaseMap, tenant: string, base: string, used: set<string>, keys: seq<string>, n: nat)
    requires AllTaken(lower, tenant, base, used, keys) && n == |keys| + FIRST
    requires TryKey(lower, tenant, base, n) !in used
    ensures FirstFree(lower, tenant, base, used, n)
  {
    forall i | FIRST <= i < n
      ensures TryKey(lower, tenant, base, i) in used
    {
      assert keys[i - FIRST] == TryKey(lower, tenant, base, FIRST + (i - FIRST));
    }
  }

  // ---------- how long a candidate gets ----------

  const MAX_RUNES: nat := 128

  function Head(s: string, k: nat): string {
    if |s| <= k then s else s[..k]
  }

  /** How much of a name leaves room for a suffix with d digits. */
  function Room(d: nat): nat
    requires d <= 6
  {
    MAX_RUNES - 3 - d
  }

  /** The number of digits of a try's number. */
  function Digits(n: nat): (d: nat)
    requires n < LIMIT
    ensures 1 <= d <= 6
  {
    if n < 10 then 1 else if n < 100 then 2 else if n < 1_000 then 3
    else if n < 10_000 then 4 else if n < 100_000 then 5 else 6
  }

  lemma SuffixLength(n: nat)
    requires n < LIMIT
    ensures |Suffix(n)| == Digits(n) + 3
  {
    var a := n / 10;
    var b := a / 10;
    var c := b / 10;
    var d := c / 10;
    assert n >= 10 ==> |Numeral(n)| == |Numeral(a)| + 1;
    assert a >= 10 ==> |Numeral(a)| == |Numeral(b)| + 1;
    assert b >= 10 ==> |Numeral(b)| == |Numeral(c)| + 1;
    assert c >= 10 ==> |Numeral(c)| == |Numeral(d)| + 1;
    assert d >= 10 ==> |Numeral(d)| == |Numeral(d / 10)| + 1;
  }

  /** The cuts of all earlier tries together are the cut of the last one. */
  lemma {:induction false} CutsAccumulate(base: string, n: nat)
    requires 2 < n <= LIMIT
    ensures BaseAt(base, n) == Head(base, Room(Digits(n - 1)))
  {
    SuffixLength(n - 1);
    if n > 3 {
      CutsAccumulate(base, n - 1);
    }
  }

  /** Nothing would be trimmed. */
  predicate Solid(s: string) {
    s == "" || (!IsSpace(s[0]) && !IsSpace(s[|s| - 1]))
  }

  lemma TrimShortensIff(s: string)
    ensures |TrimSpace(s)| <= |s|
    ensures |TrimSpace(s)| == |s| <==> Solid(s)
  {
  }

  /** A name with this many leading characters neither starts nor is cut off at white space. */
  predicate FillsExactly(base: string, k: nat) {
    0 < k <= |base| && !IsSpace(base[0]) && !IsSpace(base[k - 1])
  }

  /** The condition under which no try can produce an overlong name. */
  predicate NeverOverlong(base: string) {
    && |TrimSpace(base)| <= Room(1)
    && forall k | 120 <= k <= 124 :: !FillsExactly(base, k)
  }

  predicate Fits(base: string, n: nat)
    requires n >= FIRST
  {
    |Candidate(base, n)| <= MAX_RUNES
  }

  /** The base as a later try finds it. */
  function Left(base: string, n: nat): string
    requires FIRST < n < LIMIT
  {
    Head(base, Room(Digits(n - 1)))
  }

  lemma FitsIfLeftFits(base: string, n: nat)
    requires FIRST < n < LIMIT
    ensures Fits(base, n) <==> |TrimSpace(Left(base, n))| <= Room(Digits(n))
  {
    SuffixLength(n);
    CutsAccumulate(base, n);
  }

  /** The first try takes the whole base. */
  lemma FirstFitsIff(base: string)
    ensures Fits(base, FIRST) <==> |TrimSpace(base)| <= Room(1)
  {
    SuffixLength(FIRST);
  }

  /** A later try takes what the previous one left, which is too long only where the suffix gets longer. */
  lemma LaterFitsIff(base: string, n: nat)
    requires FIRST < n < LIMIT
    ensures Fits(base, n) <==> Digits(n) == Digits(n - 1) || !FillsExactly(base, Room(Digits(n - 1)))
  {
    FitsIfLeftFits(base, n);
    LeftFitsIff(base, n);
  }

  lemma LeftFitsIff(base: string, n: nat)
    requires FIRST < n < LIMIT
    ensures |TrimSpace(Left(base, n))| <= Room(Digits(n)) <==> Digits(n) == Digits(n - 1) || !FillsExactly(base, Room(Digits(n - 1)))
  {
    DigitsGrow(n);
    HeadFitsIff(base, Digits(n), Digits(n - 1));
  }

  lemma DigitsGrow(n: nat)
    requires FIRST < n < LIMIT
    ensures Digits(n - 1) <= Digits(n) <= Digits(n - 1) + 1
  {
  }

  lemma HeadFitsIff(base: string, d: nat, was: nat)
    requires 1 <= was <= d <= was + 1 && d <= 6
    ensures |TrimSpace(Head(base, Room(was)))| <= Room(d) <==> d == was || !FillsExactly(base, Room(was))
  {
    HeadTrims(base, Room(was));
    assert Room(d) == if d == was then Room(was) else Room(was) - 1;
  }

  lemma HeadIsSolid(base: string, k: nat)
    requires 0 < k <= |base|
    ensures |Head(base, k)| == k
    ensures Solid(Head(base, k)) <==> FillsExactly(base, k)
  {
  }

  /** What is left of a head after trimming has its full length exactly when nothing is missing or trimmed. */
  lemma HeadTrims(base: string, k: nat)
    requires k > 0
    ensures |TrimSpace(Head(base, k))| <= k
    ensures |TrimSpace(Head(base, k))| == k <==> FillsExactly(base, k)
  {
    TrimShortensIff(Head(base, k));
    if |base| >= k {
      HeadIsSolid(base, k);
    }
  }

  /** For each such length there is a try whose base was cut to it and whose suffix is one digit too long for it. */
  lemma Milestone(k: nat) returns (n: nat)
    requires 120 <= k <= 124
    ensures FIRST < n < LIMIT && Room(Digits(n - 1)) == k && Digits(n) != Digits(n - 1)
  {
    n := if k == 124 then 10 else if k == 123 then 100 else if k == 122 then 1_000 else if k == 121 then 10_000 else 100_000;
  }

  lemma LongerSuffixRoom(n: nat)
    requires FIRST < n < LIMIT && Digits(n) != Digits(n - 1)
    ensures 120 <= Room(Digits(n - 1)) <= 124
  {
  }

  lemma LaterTryFits(base: string, n: nat)
    requires FIRST < n < LIMIT
    requires forall k | 120 <= k <= 124 :: !FillsExactly(base, k)
    ensures Fits(base, n)
  {
    if Digits(n) != Digits(n - 1) {
      LongerSuffixRoom(n);
    }
    LaterFitsIff(base, n);
  }

  /** Every try the search may make stays within the bound. */
  ghost predicate AllFit(base: string) {
    forall n | FIRST <= n < LIMIT :: Fits(base, n)
  }

  lemma FirstTryFits(base: string)
    requires AllFit(base)
    ensures |TrimSpace(base)| <= Room(1)
  {
    FirstFitsIff(base);
    assert Fits(base, FIRST);
  }

  lemma MilestoneFits(base: string, k: nat)
    requires AllFit(base) && 120 <= k <= 124
    ensures !FillsExactly(base, k)
  {
    var n := Milestone(k);
    LaterFitsIff(base, n);
    assert Fits(base, n);
  }

  /**
   The 128-rune bound. Each try truncates the base only for the tries after it, so the
   bound is not guaranteed: every candidate respects it if and only if the trimmed base has
   at most 124 characters and its leading 120, 121, 122, 123 or 124 characters, where
   there are that many, start or end in white space.
   */
  lemma BoundHoldsIff(base: string)
    ensures AllFit(base) <==> NeverOverlong(base)
  {
    if AllFit(base) {
      FirstTryFits(base);
      forall k | 120 <= k <= 124
        ensures !FillsExactly(base, k)
      {
        MilestoneFits(base, k);
      }
    }
    if NeverOverlong(base) {
      forall n | FIRST <= n < LIMIT
        ensures Fits(base, n)
      {
        if n == FIRST { FirstFitsIff(base); } else { LaterTryFits(base, n); }
      }
    }
  }

  /** A name of 128 letters that is taken gets a 132-character replacement. */
  lemma BoundCanBreak()
    ensures exists base: string :: |base| == MAX_RUNES && |Candidate(base, FIRST)| == MAX_RUNES + 4
  {
    var base := seq(MAX_RUNES, _ => 'x');
    TrimShortensIff(base);
    SuffixLength(FIRST);
    assert |Candidate(base, FIRST)| == MAX_RUNES + 4;
  }

  // ---------- the pass over a table ----------

  datatype Row = Row(tenant: string, name: string)
  type Table = map<string, Row>

  function KeyOf(lower: CaseMap): Row -> string {
    (r: Row) => Key(lower, r.tenant, r.name)
  }

  /** The keys of the first k rows of the query. */
  function KeySet(key: Row -> string, tbl: Table, ids: seq<string>, k: nat): set<string>
    requires k <= |ids| && Stored(tbl, ids)
  {
    set j | 0 <= j < k :: key(tbl[ids[j]])
  }

  /** No earlier row of the query has the same key. */
  predicate IsFirst(key: Row -> string, tbl: Table, ids: seq<string>, i: nat)
    requires i < |ids| && Stored(tbl, ids)
  {
    key(tbl[ids[i]]) !in KeySet(key, tbl, ids, i)
  }

  /** The given name is a candidate made of the name. */
  ghost predicate Suffixed(name: string, given: string) {
    exists n: nat :: n >= FIRST && given == Candidate(name, n)
  }

  ghost function ByCandidate(): (string, string) -> bool {
    (name: string, given: string) => Suffixed(name, given)
  }

  /** Of the first k rows, each has its name or one that is made of it. */
  ghost predicate Renamed(made: (string, string) -> bool, before: Table, ids: seq<string>, k: nat, after: Table) {
    && k <= |ids| && Stored(before, ids) && Stored(after, ids)
    && forall i | 0 <= i < k :: after[ids[i]].name == before[ids[i]].name || made(before[ids[i]].name, after[ids[i]].name)
  }

  lemma RenamedStep(made: (string, string) -> bool, before: Table, ids: seq<string>, k: nat, after: Table, name: string)
    requires Renamed(made, before, ids, k, after) && Distinct(ids) && k < |ids| && made(before[ids[k]].name, name)
    ensures Renamed(made, before, ids, k + 1, after[ids[k] := before[ids[k]].(name := name)])
  {
    var out := after[ids[k] := before[ids[k]].(name := name)];
    assert forall i | 0 <= i < k :: out[ids[i]] == after[ids[i]];
  }

  /** What the pass has achieved for the first k rows: distinct keys, firsts kept, new keys new. */
  ghost predicate Deduped(key: Row -> string, before: Table, ids: seq<string>, k: nat, after: Table)
    requires k <= |ids| && Stored(before, ids)
  {
    && after.Keys == before.Keys
    && (forall id | id in before :: after[id].tenant == before[id].tenant)
    && (forall i {:trigger IsFirst(key, before, ids, i)} | 0 <= i < k && IsFirst(key, before, ids, i) :: after[ids[i]] == before[ids[i]])
    && (forall i {:trigger IsFirst(key, before, ids, i)} | 0 <= i < k && !IsFirst(key, before, ids, i) ::
          key(after[ids[i]]) !in KeySet(key, before, ids, |ids|))
    && (forall i, j | 0 <= i < j < k :: key(after[ids[i]]) != key(after[ids[j]]))
  }

  /** The loop invariant: the rows from k on are untouched, and `used` holds every key given or seen. */
  ghost predicate PassInvariant(key: Row -> string, before: Table, ids: seq<string>, k: nat, after: Table, used: set<string>)
    requires k <= |ids| && Stored(before, ids)
  {
    && Deduped(key, before, ids, k, after)
    && (forall j | k <= j < |ids| :: after[ids[j]] == before[ids[j]])
    && KeySet(key, before, ids, |ids|) <= used
    && (forall i | 0 <= i < k :: key(after[ids[i]]) in used)
  }

  /** The key of a first row equals no key given to the rows before it. */
  lemma FirstKeyIsNew(key: Row -> string, tbl: Table, ids: seq<string>, k: nat, out: Table, i: nat)
    requires i < k < |ids| && Stored(tbl, ids) && Deduped(key, tbl, ids, k, out)
    requires IsFirst(key, tbl, ids, k)
    ensures key(out[ids[i]]) != key(tbl[ids[k]])
  {
    if IsFirst(key, tbl, ids, i) {
      assert key(tbl[ids[i]]) in KeySet(key, tbl, ids, k);
    } else {
      assert key(tbl[ids[k]]) in KeySet(key, tbl, ids, |ids|);
    }
  }

  lemma KeepStep(key: Row -> string, tbl: Table, ids: seq<string>, k: nat, out: Table, used: set<string>)
    requires k < |ids| && Stored(tbl, ids) && PassInvariant(key, tbl, ids, k, out, used)
    requires IsFirst(key, tbl, ids, k)
    ensures PassInvariant(key, tbl, ids, k + 1, out, used)
  {
    assert out[ids[k]] == tbl[ids[k]];
    assert key(tbl[ids[k]]) in KeySet(key, tbl, ids, |ids|);
    forall i | 0 <= i < k
      ensures key(out[ids[i]]) != key(out[ids[k]])
    {
      FirstKeyIsNew(key, tbl, ids, k, out, i);
    }
  }

  lemma RenameStep(key: Row -> string, tbl: Table, ids: seq<string>, k: nat, out: Table, used: set<string>, name: string)
    requires k < |ids| && Stored(tbl, ids) && Distinct(ids) && PassInvariant(key, tbl, ids, k, out, used)
    requires !IsFirst(key, tbl, ids, k)
    requires key(tbl[ids[k]].(name := name)) !in used
    ensures var row := tbl[ids[k]].(name := name);
            PassInvariant(key, tbl, ids, k + 1, out[ids[k] := row], used + {key(row)})
  {
    var row := tbl[ids[k]].(name := name);
    var out' := out[ids[k] := row];
    assert key(row) !in used;
    assert forall i | 0 <= i < |ids| && i != k :: out'[ids[i]] == out[ids[i]];
  }

  lemma {:induction false} RemainingKeys(key: Row -> string, tbl: Table, ids: seq<string>, k: nat, n: nat)
    requires k <= n <= |ids| && Stored(tbl, ids)
    ensures |KeySet(key, tbl, ids, n)| <= |KeySet(key, tbl, ids, k)| + (n - k)
    decreases n
  {
    if k < n {
      RemainingKeys(key, tbl, ids, k, n - 1);
      GrowKeySet(key, tbl, ids, n - 1);
    }
  }

  lemma GrowKeySet(key: Row -> string, tbl: Table, ids: seq<string>, k: nat)
    requires k < |ids| && Stored(tbl, ids)
    ensures KeySet(key, tbl, ids, k + 1) == KeySet(key, tbl, ids, k) + {key(tbl[ids[k]])}
    ensures |KeySet(key, tbl, ids, k + 1)| <= |KeySet(key, tbl, ids, k)| + 1
  {
  }

  /**
   The pass: rows whose key appeared before get the next unique name. If it succeeds, all
   keys are pairwise distinct, the first row of each key keeps its name, ids and tenants are
   unchanged, and no new key equals an original one. With a limit of n tries it always
   succeeds on a table of at most n rows.
   */
  method DedupeUniqueNames(lower: CaseMap, tbl: Table, ids: seq<string>, limit: nat) returns (ok: bool, out: Table)
    requires KeepsSuffixes(lower) && Enumerates(tbl, ids) && limit >= FIRST
    ensures ok ==> Deduped(KeyOf(lower), tbl, ids, |ids|, out) && Renamed(ByCandidate(), tbl, ids, |ids|, out)
    ensures |ids| <= limit - FIRST ==> ok
  {
    var used := OriginalKeys(KeyOf(lower), tbl, ids);
    var counts: map<string, nat> := map[];
    out := tbl;
    ok := true;
    for k := 0 to |ids|
      invariant PassInvariant(KeyOf(lower), tbl, ids, k, out, used)
      invariant Renamed(ByCandidate(), tbl, ids, k, out)
      invariant Counted(KeyOf(lower), tbl, ids, k, used, counts)
    {
      ok, out, used, counts := DedupeRow(lower, tbl, ids, k, out, used, counts, limit);
      if !ok {
        return;
      }
    }
    ok := true;
  }

  /** The counted keys are those of the first k rows, and few keys are in use. */
  ghost predicate Counted(key: Row -> string, tbl: Table, ids: seq<string>, k: nat, used: set<string>, counts: map<string, nat>)
    requires k <= |ids| && Stored(tbl, ids)
  {
    && counts.Keys == KeySet(key, tbl, ids, k)
    && Positive(counts)
    && |used| + |counts.Keys| <= |KeySet(key, tbl, ids, |ids|)| + k
  }

  lemma CountedStep(key: Row -> string, tbl: Table, ids: seq<string>, k: nat, used: set<string>, counts: map<string, nat>,
                    used': set<string>, counts': map<string, nat>)
    requires k < |ids| && Stored(tbl, ids) && Counted(key, tbl, ids, k, used, counts)
    requires Positive(counts') && counts'.Keys == counts.Keys + {key(tbl[ids[k]])}
    requires |used'| + |counts'.Keys| <= |used| + |counts.Keys| + 1
    ensures Counted(key, tbl, ids, k + 1, used', counts')
  {
    GrowKeySet(key, tbl, ids, k);
  }

  /** While a repeated key is being renamed, fewer keys are in use than there are rows. */
  lemma FewKeysInUse(key: Row -> string, tbl: Table, ids: seq<string>, k: nat, used: set<string>, counts: map<string, nat>)
    requires k < |ids| && Stored(tbl, ids) && Counted(key, tbl, ids, k, used, counts)
    requires key(tbl[ids[k]]) in counts
    ensures |used| < |ids|
  {
    GrowKeySet(key, tbl, ids, k);
    assert KeySet(key, tbl, ids, k + 1) == KeySet(key, tbl, ids, k);
    RemainingKeys(key, tbl, ids, k + 1, |ids|);
  }

  /** The body of the loop: keeps a row whose key is new and renames any other. */
  method DedupeRow(lower: CaseMap, tbl: Table, ids: seq<string>, k: nat, out: Table, used: set<string>, counts: map<string, nat>, limit: nat)
    returns (ok: bool, out': Table, used': set<string>, counts': map<string, nat>)
    requires KeepsSuffixes(lower) && Stored(tbl, ids) && Distinct(ids) && limit >= FIRST
    requires k < |ids| && PassInvariant(KeyOf(lower), tbl, ids, k, out, used) && Counted(KeyOf(lower), tbl, ids, k, used, counts)
    requires Renamed(ByCandidate(), tbl, ids, k, out)
    ensures ok ==> Renamed(ByCandidate(), tbl, ids, k + 1, out')
    ensures ok ==> PassInvariant(KeyOf(lower), tbl, ids, k + 1, out', used') && Counted(KeyOf(lower), tbl, ids, k + 1, used', counts')
    ensures !ok ==> |ids| > limit - FIRST
  {
    out', used' := out, used;
    var first;
    counts', first := Count(counts, KeyOf(lower)(tbl[ids[k]]));
    ok := true;
    if first {
      KeepStep(KeyOf(lower), tbl, ids, k, out, used);
    } else {
      FewKeysInUse(KeyOf(lower), tbl, ids, k, used, counts);
      ok, out', used' := RenameRow(lower, tbl, ids, k, out, used, limit);
    }
    if ok {
      CountedStep(KeyOf(lower), tbl, ids, k, used, counts, used', counts');
    }
  }

  /** Gives row k, whose key is not new, the next unique name. */
  method RenameRow(lower: CaseMap, tbl: Table, ids: seq<string>, k: nat, out: Table, used: set<string>, limit: nat)
    returns (ok: bool, out': Table, used': set<string>)
    requires KeepsSuffixes(lower) && Stored(tbl, ids) && Distinct(ids) && limit >= FIRST
    requires k < |ids| && PassInvariant(KeyOf(lower), tbl, ids, k, out, used) && !IsFirst(KeyOf(lower), tbl, ids, k)
    requires Renamed(ByCandidate(), tbl, ids, k, out)
    ensures ok ==> Renamed(ByCandidate(), tbl, ids, k + 1, out')
    ensures ok ==> PassInvariant(KeyOf(lower), tbl, ids, k + 1, out', used') && |used'| <= |used| + 1
    ensures !ok ==> |used| >= limit - FIRST && used' == used
  {
    out', used' := out, used;
    var row := tbl[ids[k]];
    var next := NewName(lower, row, used, limit);
    if next.Exhausted? {
      return false, out, used;
    }
    RenamedStep(ByCandidate(), tbl, ids, k, out, next.name);
    RenameStep(KeyOf(lower), tbl, ids, k, out, used, next.name);
    out' := out[ids[k] := row.(name := next.name)];
    used' := used + {Key(lower, row.tenant, next.name)};
    ok := true;
  }

  /** A candidate of the row's name whose key is not in use. */
  method NewName(lower: CaseMap, row: Row, used: set<string>, limit: nat) returns (next: Result)
    requires KeepsSuffixes(lower) && limit >= FIRST
    ensures next.Name? ==> KeyOf(lower)(row.(name := next.name)) !in used && ByCandidate()(row.name, next.name)
    ensures next.Exhausted? ==> |used| >= limit - FIRST
  {
    next := NextUniqueName(lower, row.tenant, row.name, used, limit);
    if next.Name? {
      ghost var n: nat :| n < limit && FirstFree(lower, row.tenant, row.name, used, n) && next.name == Candidate(row.name, n);
      assert Suffixed(row.name, next.name);
    }
  }

  predicate Positive(counts: map<string, nat>) {
    forall c | c in counts :: counts[c] >= 1
  }

  /** Counts one more occurrence of a key and tells whether it is the first. */
  method Count(counts: map<string, nat>, key: string) returns (more: map<string, nat>, first: bool)
    requires Positive(counts)
    ensures Positive(more) && more.Keys == counts.Keys + {key}
    ensures first <==> key !in counts
    ensures |more.Keys| == |counts.Keys| + if first then 1 else 0
  {
    more := counts[key := (if key in counts then counts[key] else 0) + 1];
    first := more[key] == 1;
    assert !first ==> more.Keys == counts.Keys;
  }

  /** The migration runs the pass with the source's limit. */
  method DedupeTable(lower: CaseMap, tbl: Table, ids: seq<string>) returns (ok: bool, out: Table)
    requires KeepsSuffixes(lower) && Enumerates(tbl, ids)
    ensures ok ==> Deduped(KeyOf(lower), tbl, ids, |ids|, out) && Renamed(ByCandidate(), tbl, ids, |ids|, out)
    ensures |ids| <= 999_998 ==> ok
  {
    ok, out := DedupeUniqueNames(lower, tbl, ids, LIMIT);
  }

  method OriginalKeys(key: Row -> string, tbl: Table, ids: seq<string>) returns (used: set<string>)
    requires Stored(tbl, ids)
    ensures used == KeySet(key, tbl, ids, |ids|)
  {
    used := {};
    for k := 0 to |ids|
      invariant used == KeySet(key, tbl, ids, k)
    {
      used := used + {key(tbl[ids[k]])};
    }
  }

  /** Keys tell apart exactly tenant and lower-cased name, as long as tenants contain no NUL. */
  lemma KeyMeans(lower: CaseMap, a: Row, b: Row)
    requires '\0' !in a.tenant && '\0' !in b.tenant
    ensures KeyOf(lower)(a) == KeyOf(lower)(b) <==> a.tenant == b.tenant && lower(a.name) == lower(b.name)
  {
    if KeyOf(lower)(a) == KeyOf(lower)(b) {
      assert a.tenant + ['\0'] + lower(a.name) == KeyOf(lower)(a) && b.tenant + ['\0'] + lower(b.name) == KeyOf(lower)(b);
      SplitAtFirst(a.tenant, lower(a.name), b.tenant, lower(b.name), '\0');
    }
  }

  /** An earlier row of the query has the same tenant and the same name up to case. */
  predicate Repeats(lower: CaseMap, tbl: Table, ids: seq<string>, i: nat)
    requires i < |ids| && Stored(tbl, ids)
  {
    exists j :: 0 <= j < i && tbl[ids[j]].tenant == tbl[ids[i]].tenant && lower(tbl[ids[j]].name) == lower(tbl[ids[i]].name)
  }

  lemma RepeatsIff(lower: CaseMap, tbl: Table, ids: seq<string>, i: nat)
    requires i < |ids| && Stored(tbl, ids) && forall id | id in tbl :: '\0' !in tbl[id].tenant
    ensures Repeats(lower, tbl, ids, i) <==> !IsFirst(KeyOf(lower), tbl, ids, i)
  {
    var key := KeyOf(lower);
    forall j | 0 <= j < i
      ensures key(tbl[ids[j]]) == key(tbl[ids[i]]) <==> tbl[ids[j]].tenant == tbl[ids[i]].tenant && lower(tbl[ids[j]].name) == lower(tbl[ids[i]].name)
    {
      KeyMeans(lower, tbl[ids[j]], tbl[ids[i]]);
    }
    if Repeats(lower, tbl, ids, i) {
      var j :| 0 <= j < i && tbl[ids[j]].tenant == tbl[ids[i]].tenant && lower(tbl[ids[j]].name) == lower(tbl[ids[i]].name);
      assert key(tbl[ids[j]]) in KeySet(key, tbl, ids, i);
    }
  }

  /**
   The pass, said of the rows alone: a row keeps its name if no earlier row of its tenant has it up to
   case; otherwise its new name is a candidate made of it that no row of the tenant had up to case.
   */
  lemma RowAfterPass(lower: CaseMap, tbl: Table, ids: seq<string>, out: Table, i: nat)
    requires Enumerates(tbl, ids) && Deduped(KeyOf(lower), tbl, ids, |ids|, out) && i < |ids|
    requires Renamed(ByCandidate(), tbl, ids, |ids|, out)
    requires forall id | id in tbl :: '\0' !in tbl[id].tenant
    ensures out[ids[i]].tenant == tbl[ids[i]].tenant
    ensures !Repeats(lower, tbl, ids, i) ==> out[ids[i]].name == tbl[ids[i]].name
    ensures Repeats(lower, tbl, ids, i) ==>
              && Suffixed(tbl[ids[i]].name, out[ids[i]].name)
              && forall j | 0 <= j < |ids| && tbl[ids[j]].tenant == tbl[ids[i]].tenant :: lower(tbl[ids[j]].name) != lower(out[ids[i]].name)
  {
    RepeatsIff(lower, tbl, ids, i);
    if Repeats(lower, tbl, ids, i) {
      forall j | 0 <= j < |ids| && tbl[ids[j]].tenant == tbl[ids[i]].tenant
        ensures lower(tbl[ids[j]].name) != lower(out[ids[i]].name)
      {
        NewKeyIsNew(KeyOf(lower), tbl, ids, out, i, j);
        KeyMeans(lower, tbl[ids[j]], out[ids[i]]);
      }
      assert ByCandidate()(tbl[ids[i]].name, out[ids[i]].name);
    }
  }

  lemma NewKeyIsNew(key: Row -> string, tbl: Table, ids: seq<string>, out: Table, i: nat, j: nat)
    requires Stored(tbl, ids) && Deduped(key, tbl, ids, |ids|, out) && i < |ids| && j < |ids| && !IsFirst(key, tbl, ids, i)
    ensures key(out[ids[i]]) != key(tbl[ids[j]])
  {
    assert key(tbl[ids[j]]) in KeySet(key, tbl, ids, |ids|);
  }

  /** The first candidate is the trimmed name with " (2)". */
  lemma FirstCandidate(base: string)
    ensures Candidate(base, FIRST) == TrimSpace(base) + " (" + Numeral(2) + ")"
  {
  }

  /** A later one is made of what the tries before it left of the name. */
  lemma LaterCandidate(base: string, n: nat)
    requires FIRST < n < LIMIT
    ensures Candidate(base, n) == TrimSpace(Left(base, n)) + (" (" + Numeral(n) + ")")
  {
    CutsAccumulate(base, n);
    assert BaseAt(base, n) == Left(base, n);
  }

  /** What the database's own lower-casing identifies, the pass identifies too. */
  ghost predicate Coarser(lower: CaseMap, dbLower: CaseMap) {
    forall x, y :: dbLower(x) == dbLower(y) ==> lower(x) == lower(y)
  }

  /** Pairwise different index keys: the unique index on them can be created. */
  ghost predicate IndexFits(tbl: Table, ids: seq<string>, dbLower: CaseMap, perTenant: bool)
    requires Stored(tbl, ids)
  {
    forall i, j | 0 <= i < j < |ids| && (perTenant ==> tbl[ids[i]].tenant == tbl[ids[j]].tenant) ::
      dbLower(tbl[ids[i]].name) != dbLower(tbl[ids[j]].name)
  }

  /** After the pass the index on (tenant, lower-cased name) can be created. */
  lemma TenantIndexFits(lower: CaseMap, dbLower: CaseMap, tbl: Table, ids: seq<string>, out: Table)
    requires Enumerates(tbl, ids) && Deduped(KeyOf(lower), tbl, ids, |ids|, out) && Coarser(lower, dbLower)
    ensures IndexFits(out, ids, dbLower, true)
  {
    forall i, j | 0 <= i < j < |ids| && out[ids[i]].tenant == out[ids[j]].tenant
      ensures dbLower(out[ids[i]].name) != dbLower(out[ids[j]].name)
    {
      assert KeyOf(lower)(out[ids[i]]) != KeyOf(lower)(out[ids[j]]);
    }
  }

  /** The names of rows that come first of their key, which the pass keeps, differ between tenants. */
  ghost predicate FirstNamesDiffer(key: Row -> string, tbl: Table, ids: seq<string>, dbLower: CaseMap)
    requires Stored(tbl, ids)
  {
    forall i, j | 0 <= i < j < |ids| && IsFirst(key, tbl, ids, i) && IsFirst(key, tbl, ids, j) && tbl[ids[i]].tenant != tbl[ids[j]].tenant ::
      dbLower(tbl[ids[i]].name) != dbLower(tbl[ids[j]].name)
  }

  /** The name given to row i differs from every name left to another tenant. */
  ghost predicate Avoids(tbl: Table, ids: seq<string>, out: Table, dbLower: CaseMap, i: nat)
    requires i < |ids| && Stored(tbl, ids) && Stored(out, ids)
  {
    forall j | 0 <= j < |ids| && tbl[ids[j]].tenant != tbl[ids[i]].tenant :: dbLower(out[ids[j]].name) != dbLower(out[ids[i]].name)
  }

  /**
   The role index is on the lower-cased name alone although the pass works per tenant: it can
   be created if and only if the names the pass keeps differ between tenants, and each name
   it generates differs from the names of all other tenants.
   */
  lemma GlobalIndexFitsIff(lower: CaseMap, dbLower: CaseMap, tbl: Table, ids: seq<string>, out: Table)
    requires Enumerates(tbl, ids) && Deduped(KeyOf(lower), tbl, ids, |ids|, out) && Coarser(lower, dbLower)
    ensures IndexFits(out, ids, dbLower, false) <==>
            && FirstNamesDiffer(KeyOf(lower), tbl, ids, dbLower)
            && forall i | 0 <= i < |ids| && !IsFirst(KeyOf(lower), tbl, ids, i) :: Avoids(tbl, ids, out, dbLower, i)
  {
    if IndexFits(out, ids, dbLower, false) {
      FittingIndexNeeds(KeyOf(lower), dbLower, tbl, ids, out);
    }
    if FirstNamesDiffer(KeyOf(lower), tbl, ids, dbLower)
       && forall i | 0 <= i < |ids| && !IsFirst(KeyOf(lower), tbl, ids, i) :: Avoids(tbl, ids, out, dbLower, i)
    {
      TenantIndexFits(lower, dbLower, tbl, ids, out);
      forall i, j | 0 <= i < j < |ids| && out[ids[i]].tenant != out[ids[j]].tenant
        ensures dbLower(out[ids[i]].name) != dbLower(out[ids[j]].name)
      {
        NamesOfTwoTenants(KeyOf(lower), dbLower, tbl, ids, out, i, j);
      }
    }
  }

  lemma FittingIndexNeeds(key: Row -> string, dbLower: CaseMap, tbl: Table, ids: seq<string>, out: Table)
    requires Stored(tbl, ids) && Deduped(key, tbl, ids, |ids|, out) && IndexFits(out, ids, dbLower, false)
    ensures FirstNamesDiffer(key, tbl, ids, dbLower)
    ensures forall i | 0 <= i < |ids| && !IsFirst(key, tbl, ids, i) :: Avoids(tbl, ids, out, dbLower, i)
  {
    forall i, j | 0 <= i < j < |ids| && IsFirst(key, tbl, ids, i) && IsFirst(key, tbl, ids, j)
      ensures dbLower(tbl[ids[i]].name) != dbLower(tbl[ids[j]].name)
    {
      assert out[ids[i]] == tbl[ids[i]] && out[ids[j]] == tbl[ids[j]];
    }
  }

  lemma NamesOfTwoTenants(key: Row -> string, dbLower: CaseMap, tbl: Table, ids: seq<string>, out: Table, i: nat, j: nat)
    requires Stored(tbl, ids) && Deduped(key, tbl, ids, |ids|, out) && i < j < |ids|
    requires tbl[ids[i]].tenant != tbl[ids[j]].tenant
    requires FirstNamesDiffer(key, tbl, ids, dbLower)
    requires forall h | 0 <= h < |ids| && !IsFirst(key, tbl, ids, h) :: Avoids(tbl, ids, out, dbLower, h)
    ensures dbLower(out[ids[i]].name) != dbLower(out[ids[j]].name)
  {
    if !IsFirst(key, tbl, ids, i) {
      assert Avoids(tbl, ids, out, dbLower, i);
    } else if !IsFirst(key, tbl, ids, j) {
      assert Avoids(tbl, ids, out, dbLower, j);
    } else {
      assert out[ids[i]] == tbl[ids[i]] && out[ids[j]] == tbl[ids[j]];
    }
  }

  /** Whatever the pass does: two tenants that both keep a name make the global index impossible. */
  lemma KeptNamesCanCollide(lower: CaseMap, dbLower: CaseMap, tbl: Table, ids: seq<string>, out: Table, i: nat, j: nat)
    requires Enumerates(tbl, ids) && Deduped(KeyOf(lower), tbl, ids, |ids|, out)
    requires i < j < |ids| && IsFirst(KeyOf(lower), tbl, ids, i) && IsFirst(KeyOf(lower), tbl, ids, j)
    requires dbLower(tbl[ids[i]].name) == dbLower(tbl[ids[j]].name)
    ensures !IndexFits(out, ids, dbLower, false)
  {
    assert out[ids[i]] == tbl[ids[i]] && out[ids[j]] == tbl[ids[j]];
  }

  /** Where no tenant repeats a name, the table before the pass decides alone. */
  lemma GlobalIndexWithoutRepeatsIff(lower: CaseMap, dbLower: CaseMap, tbl: Table, ids: seq<string>, out: Table)
    requires Enumerates(tbl, ids) && Deduped(KeyOf(lower), tbl, ids, |ids|, out) && Coarser(lower, dbLower)
    requires forall i | 0 <= i < |ids| :: IsFirst(KeyOf(lower), tbl, ids, i)
    ensures IndexFits(out, ids, dbLower, false) <==>
            forall i, j | 0 <= i < j < |ids| && tbl[ids[i]].tenant != tbl[ids[j]].tenant ::
              dbLower(tbl[ids[i]].name) != dbLower(tbl[ids[j]].name)
  {
    GlobalIndexFitsIff(lower, dbLower, tbl, ids, out);
  }

  /** Two tenants with a role of the same name: the pass keeps both names and the global index cannot be created. */
  lemma GlobalIndexCanFail(lower: CaseMap, dbLower: CaseMap, out: Table, name: string)
    requires Deduped(KeyOf(lower), map["1" := Row("s", name), "2" := Row("t", name)], ["1", "2"], 2, out)
    ensures !IndexFits(out, ["1", "2"], dbLower, false)
  {
    var tbl: Table, ids := map["1" := Row("s", name), "2" := Row("t", name)], ["1", "2"];
    var key := KeyOf(lower);
    assert key(tbl["1"])[0] == 's' && key(tbl["2"])[0] == 't';
    assert ids[0] == "1" && ids[1] == "2";
    assert forall k | k in KeySet(key, tbl, ids, 1) :: k == key(tbl[ids[0]]);
    assert IsFirst(key, tbl, ids, 0) && IsFirst(key, tbl, ids, 1);
    assert out[ids[0]] == tbl["1"] && out[ids[1]] == tbl["2"];
  }
}
