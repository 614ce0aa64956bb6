/**
 * What `prune_old` and `write_dir_list` compute, stated without an iteration order: the
 * artifacts of a directory are the entries whose names contain `_` and parse as canonical
 * stamps; an artifact's rank is how many artifacts are strictly newer; retention keeps the
 * artifacts of rank below N and every other entry.
 */
module Retention {
  import opened Calendar
  import opened Stamp
  import opened Files

  /** The scan filter: `"_" in f.name` and the name parses as `%Y%m%d_%H%M%S`. */
  predicate IsArtifact(name: string) {
    '_' in name && ParseStamp(name).Some?
  }

  function TimeOf(name: string): (t: DateTime)
    requires IsArtifact(name)
    ensures Valid(t)
  {
    StampTextOfParse(name);
    ParseStamp(name).value
  }

  /** `a` and `b` are artifacts and `a` is stamped strictly later than `b`. */
  predicate Newer(a: string, b: string) {
    IsArtifact(a) && IsArtifact(b) && Before(TimeOf(b), TimeOf(a))
  }

  /** Two distinct artifacts are always ordered, one way only: names and times correspond one to one. */
  lemma NewerTotal(a: string, b: string)
    requires IsArtifact(a) && IsArtifact(b) && a != b
    ensures Newer(a, b) || Newer(b, a)
    ensures !(Newer(a, b) && Newer(b, a))
  {
    if TimeOf(a) == TimeOf(b) {
      ParseStampInjective(a, b);
    }
    BeforeStrictTotal(TimeOf(a), TimeOf(b), TimeOf(a));
  }

  lemma NewerIrreflexive(a: string)
    ensures !Newer(a, a)
  {
    if IsArtifact(a) {
      BeforeStrictTotal(TimeOf(a), TimeOf(a), TimeOf(a));
    }
  }

  lemma NewerTransitive(a: string, b: string, c: string)
    requires Newer(a, b) && Newer(b, c)
    ensures Newer(a, c)
  {
    BeforeStrictTotal(TimeOf(c), TimeOf(b), TimeOf(a));
  }

  function Artifacts(d: Dir): set<string> {
    set k | k in d && IsArtifact(k)
  }

  predicate AllArtifacts(a: set<string>) {
    forall k :: k in a ==> IsArtifact(k)
  }

  /** The members of `a` strictly newer than `k`. */
  function NewerIn(a: set<string>, k: string): set<string> {
    set m | m in a && Newer(m, k)
  }

  /** How many artifacts of `d` are strictly newer than `k`: `k`'s index in the newest-first sort. */
  function Rank(d: Dir, k: string): nat {
    |NewerIn(Artifacts(d), k)|
  }

  /** The members of `a` with fewer than `n` newer members: the `n` newest. */
  function NewestOf(a: set<string>, n: nat): set<string> {
    set k | k in a && |NewerIn(a, k)| < n
  }

  /** What `prune_old` leaves of a directory: every non-artifact, and the artifacts of rank below `n`. */
  function KeepNewest(d: Dir, n: nat): (e: Dir)
    ensures forall k :: k in e ==> k in d && e[k] == d[k]
    ensures forall k :: k in d && !IsArtifact(k) ==> k in e
    ensures Artifacts(e) == NewestOf(Artifacts(d), n)
  {
    map k | k in d && (!IsArtifact(k) || Rank(d, k) < n) :: d[k]
  }

  lemma KeepNewestMember(d: Dir, n: nat, k: string)
    ensures k in KeepNewest(d, n) <==> k in d && (!IsArtifact(k) || Rank(d, k) < n)
  {
  }

  lemma StrictSubsetSmaller(a: set<string>, b: set<string>)
    requires a < b
    ensures |a| < |b|
  {
    var c := b - a;
    assert b == a + c && a * c == {};
    assert c != {};
  }

  /** An artifact strictly newer than another has a strictly smaller rank. */
  lemma NewerRanksLower(a: set<string>, x: string, y: string)
    requires AllArtifacts(a) && x in a && y in a && Newer(x, y)
    ensures |NewerIn(a, x)| < |NewerIn(a, y)|
  {
    forall m | m in NewerIn(a, x) ensures m in NewerIn(a, y) {
      NewerTransitive(m, x, y);
    }
    NewerTotal(x, y);
    assert x in NewerIn(a, y) && x !in NewerIn(a, x);
    StrictSubsetSmaller(NewerIn(a, x), NewerIn(a, y));
  }

  /** Every artifact pruning keeps is strictly newer than every artifact it deletes. */
  lemma KeptNewerThanDropped(d: Dir, n: nat, x: string, y: string)
    requires x in KeepNewest(d, n) && IsArtifact(x)
    requires y in Artifacts(d) && y !in KeepNewest(d, n)
    ensures Newer(x, y)
  {
    var a := Artifacts(d);
    NewerTotal(x, y);
    if Newer(y, x) {
      NewerRanksLower(a, y, x);
      assert false;
    }
  }

  /** Within the `n` newest, an artifact has the same newer ones as in the whole set. */
  lemma NewerWithinNewest(a: set<string>, n: nat, k: string)
    requires AllArtifacts(a) && k in NewestOf(a, n)
    ensures NewerIn(NewestOf(a, n), k) == NewerIn(a, k)
  {
    forall m | m in NewerIn(a, k) ensures m in NewestOf(a, n) {
      NewerRanksLower(a, m, k);
    }
  }

  lemma NewestOfNewest(a: set<string>, n: nat)
    requires AllArtifacts(a)
    ensures NewestOf(NewestOf(a, n), n) == NewestOf(a, n)
  {
    forall k | k in NewestOf(a, n) ensures k in NewestOf(NewestOf(a, n), n) {
      NewerWithinNewest(a, n, k);
    }
  }

  /** Pruning an already pruned directory changes nothing. */
  lemma KeepNewestIdempotent(d: Dir, n: nat)
    ensures KeepNewest(KeepNewest(d, n), n) == KeepNewest(d, n)
  {
    var e := KeepNewest(d, n);
    var e2 := KeepNewest(e, n);
    NewestOfNewest(Artifacts(d), n);
    assert Artifacts(e2) == Artifacts(e);
    forall k | k in e ensures k in e2 {
      if IsArtifact(k) {
        assert k in Artifacts(e);
      }
    }
    assert e2.Keys == e.Keys;
  }

  /** A non-empty set of artifacts has an oldest member. */
  lemma {:induction false} OldestExists(a: set<string>) returns (m: string)
    requires AllArtifacts(a) && a != {}
    ensures m in a && forall x :: x in a && x != m ==> Newer(x, m)
    decreases |a|
  {
    var y :| y in a;
    if a == {y} {
      m := y;
    } else {
      var z := OldestExists(a - {y});
      NewerTotal(y, z);
      if Newer(y, z) {
        m := z;
      } else {
        m := y;
        forall x | x in a && x != m ensures Newer(x, m) {
          if x != z {
            NewerTransitive(x, z, y);
          }
        }
      }
    }
  }

  /** Removing the oldest member changes no other member's set of newer ones. */
  lemma NewerWithoutOldest(a: set<string>, m: string, k: string)
    requires AllArtifacts(a) && m in a && k in a && k != m
    requires forall x :: x in a && x != m ==> Newer(x, m)
    ensures NewerIn(a, k) == NewerIn(a - {m}, k)
  {
    NewerTotal(k, m);
  }

  lemma NewestWithoutOldest(a: set<string>, m: string, n: nat)
    requires AllArtifacts(a) && m in a
    requires forall x :: x in a && x != m ==> Newer(x, m)
    ensures NewestOf(a, n) == NewestOf(a - {m}, n) + (if |a| - 1 < n then {m} else {})
  {
    var b := a - {m};
    forall k | k in b ensures NewerIn(a, k) == NewerIn(b, k) {
      NewerWithoutOldest(a, m, k);
    }
    assert NewerIn(a, m) == b;
  }

  /** Keeping the `n` newest of `k` distinct artifacts keeps `min(n, k)` of them. */
  lemma {:induction false} NewestOfSize(a: set<string>, n: nat)
    requires AllArtifacts(a)
    ensures |NewestOf(a, n)| == if |a| <= n then |a| else n
    decreases |a|
  {
    if a == {} {
      assert NewestOf(a, n) == {};
    } else {
      var m := OldestExists(a);
      NewestOfSize(a - {m}, n);
      NewestWithoutOldest(a, m, n);
    }
  }

  /** After pruning, the directory holds exactly `min(n, k)` of its `k` artifacts. */
  lemma KeepNewestCount(d: Dir, n: nat)
    ensures |Artifacts(KeepNewest(d, n))| == if |Artifacts(d)| <= n then |Artifacts(d)| else n
  {
    NewestOfSize(Artifacts(d), n);
  }

  // ---------------------------------------------------------------------------
  // The manifest

  /** Artifacts, each strictly newer than every later one. */
  predicate NewestFirst(s: seq<string>) {
    && (forall i :: 0 <= i < |s| ==> IsArtifact(s[i]))
    && (forall i, j :: 0 <= i < j < |s| ==> Newer(s[i], s[j]))
  }

  /** `names` is what `write_dir_list` lists for `d`: its `n` newest artifacts, newest first. */
  predicate IsManifestOf(d: Dir, n: nat, names: seq<string>) {
    && NewestFirst(names)
    && (forall k :: k in names ==> k in NewestOf(Artifacts(d), n))
    && (forall k :: k in NewestOf(Artifacts(d), n) ==> k in names)
  }

  /** In a newest-first enumeration of a set, the members newer than the `j`th are the ones before it. */
  lemma NewerAreBefore(a: set<string>, s: seq<string>, j: int)
    requires NewestFirst(s) && (forall k :: k in s <==> k in a) && 0 <= j < |s|
    ensures NewerIn(a, s[j]) == set i | 0 <= i < j :: s[i]
  {
    forall m | m in NewerIn(a, s[j]) ensures m in s[..j] {
      var i :| 0 <= i < |s| && s[i] == m;
      if i >= j {
        NewerTotal(s[i], s[j]);
      }
    }
  }

  predicate Distinct(s: seq<string>) {
    forall i, j :: 0 <= i < j < |s| ==> s[i] != s[j]
  }

  lemma NewestFirstDistinct(s: seq<string>)
    requires NewestFirst(s)
    ensures Distinct(s)
  {
    forall i, j | 0 <= i < j < |s| ensures s[i] != s[j] {
      NewerIrreflexive(s[i]);
    }
  }

  /** The first `j` entries of a sequence without repetitions are `j` different values. */
  lemma {:induction false} DistinctPrefixCount(s: seq<string>, j: nat)
    requires Distinct(s) && j <= |s|
    ensures |set i | 0 <= i < j :: s[i]| == j
  {
    if j > 0 {
      DistinctPrefixCount(s, j - 1);
      var before := set i | 0 <= i < j - 1 :: s[i];
      assert (set i | 0 <= i < j :: s[i]) == before + {s[j - 1]};
      assert s[j - 1] !in before;
    }
  }

  /** In a newest-first enumeration of a directory's artifacts, each artifact's rank is its index. */
  lemma RankIsIndex(d: Dir, s: seq<string>, j: int)
    requires NewestFirst(s) && (forall k :: k in s <==> k in Artifacts(d)) && 0 <= j < |s|
    ensures Rank(d, s[j]) == j
  {
    NewerAreBefore(Artifacts(d), s, j);
    NewestFirstDistinct(s);
    DistinctPrefixCount(s, j);
  }

  /** The first `n` of a newest-first enumeration of the artifacts are the directory's manifest. */
  lemma PrefixIsManifest(d: Dir, n: nat, s: seq<string>)
    requires NewestFirst(s) && (forall k :: k in s <==> k in Artifacts(d))
    ensures IsManifestOf(d, n, s[..if |s| <= n then |s| else n])
  {
    var m := if |s| <= n then |s| else n;
    forall k ensures k in s[..m] <==> k in NewestOf(Artifacts(d), n) {
      if k in s {
        var j :| 0 <= j < |s| && s[j] == k;
        RankIsIndex(d, s, j);
      }
    }
  }

  /** Two newest-first sequences with the same members are equal. */
  lemma {:induction false} NewestFirstUnique(s: seq<string>, u: seq<string>)
    requires NewestFirst(s) && NewestFirst(u) && (forall k :: k in s <==> k in u)
    ensures s == u
  {
    if |s| > 0 {
      assert s[0] in u;
    }
    if |u| > 0 {
      assert u[0] in s;
    }
    if |s| > 0 && |u| > 0 {
      assert s[0] == u[0] by {
        assert s[0] in u && u[0] in s;
        var j :| 0 <= j < |u| && u[j] == s[0];
        var i :| 0 <= i < |s| && s[i] == u[0];
        if s[0] != u[0] {
          NewerTotal(s[0], u[0]);
        }
      }
      forall k | k in s[1..] ensures k in u[1..] {
        var i :| 0 <= i < |s| - 1 && s[1..][i] == k;
        NewerIrreflexive(k);
        assert Newer(s[0], s[i + 1]);
        assert k in u && k != u[0];
      }
      forall k | k in u[1..] ensures k in s[1..] {
        var i :| 0 <= i < |u| - 1 && u[1..][i] == k;
        NewerIrreflexive(k);
        assert Newer(u[0], u[i + 1]);
        assert k in s && k != s[0];
      }
      NewestFirstUnique(s[1..], u[1..]);
    }
  }

  /**
   * A directory has exactly one manifest: `min(n, k)` names, every one an existing artifact,
   * newest first.
   */
  lemma ManifestDetermined(d: Dir, n: nat, names: seq<string>, other: seq<string>)
    requires IsManifestOf(d, n, names) && IsManifestOf(d, n, other)
    ensures names == other
    ensures |names| == if |Artifacts(d)| <= n then |Artifacts(d)| else n
    ensures forall k :: k in names ==> k in d
  {
    NewestFirstUnique(names, other);
    NewestFirstDistinct(names);
    DistinctPrefixCount(names, |names|);
    assert (set i | 0 <= i < |names| :: names[i]) == NewestOf(Artifacts(d), n);
    NewestOfSize(Artifacts(d), n);
  }

  /** Listing a pruned directory lists the same names as listing it before pruning. */
  lemma ManifestAfterPrune(d: Dir, n: nat, names: seq<string>)
    ensures IsManifestOf(KeepNewest(d, n), n, names) <==> IsManifestOf(d, n, names)
  {
    NewestOfNewest(Artifacts(d), n);
  }
}
