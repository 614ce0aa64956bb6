/**
 * `prune_old` and `write_dir_list`: scan a pair directory in whatever order the filesystem
 * lists it, keep the names that parse as canonical stamps, sort them newest first, then
 * delete everything past the retention count, or write the first names to `dir.list`.
 * Both do nothing when the directory does not exist.
 */
module Housekeeping {
  import opened Stamp
  import opened Files
  import opened Lines
  import opened Retention

  /** Prepending an artifact newer than every entry keeps the order. */
  lemma ConsNewestFirst(k: string, s: seq<string>)
    requires IsArtifact(k) && NewestFirst(s)
    requires forall j :: 0 <= j < |s| ==> Newer(k, s[j])
    ensures NewestFirst([k] + s)
  {
    var r := [k] + s;
    forall i, j | 0 <= i < j < |r| ensures Newer(r[i], r[j]) {
      assert r[j] == s[j - 1];
      if i > 0 {
        assert r[i] == s[i - 1];
      }
    }
  }

  /** An artifact newer than the head of a newest-first sequence is newer than all of it. */
  lemma NewerThanHead(k: string, s: seq<string>)
    requires NewestFirst(s) && |s| > 0 && Newer(k, s[0])
    ensures forall j :: 0 <= j < |s| ==> Newer(k, s[j])
  {
    forall j | 0 < j < |s| ensures Newer(k, s[j]) {
      NewerTransitive(k, s[0], s[j]);
    }
  }

  /** The head of a newest-first sequence is newer than its tail and anything older than it. */
  lemma HeadNewerThanRest(s: seq<string>, k: string, rest: seq<string>)
    requires NewestFirst(s) && |s| > 0 && Newer(s[0], k)
    requires forall x :: x in rest ==> x in s[1..] || x == k
    ensures forall j :: 0 <= j < |rest| ==> Newer(s[0], rest[j])
  {
    forall j | 0 <= j < |rest| ensures Newer(s[0], rest[j]) {
      if rest[j] != k {
        assert rest[j] in s[1..];
        var i :| 0 <= i < |s[1..]| && s[1..][i] == rest[j];
        assert s[i + 1] == rest[j];
      }
    }
  }

  /** Puts artifact `k` after the names strictly newer than it and before the older ones. */
  function InsertByTime(k: string, s: seq<string>): (r: seq<string>)
    requires IsArtifact(k) && NewestFirst(s) && k !in s
    ensures NewestFirst(r)
    ensures forall x :: x in r <==> x in s || x == k
  {
    if |s| == 0 then
      ConsNewestFirst(k, s);
      [k]
    else if Newer(k, s[0]) then
      NewerThanHead(k, s);
      ConsNewestFirst(k, s);
      [k] + s
    else
      NewerTotal(k, s[0]);
      var rest := InsertByTime(k, s[1..]);
      HeadNewerThanRest(s, k, rest);
      ConsNewestFirst(s[0], rest);
      [s[0]] + rest
  }

  /** `entries.sort(key=lambda x: x[1], reverse=True)` on names that are distinct artifacts. */
  function SortByTime(s: seq<string>): (r: seq<string>)
    requires (forall i :: 0 <= i < |s| ==> IsArtifact(s[i])) && Distinct(s)
    ensures NewestFirst(r)
    ensures forall x :: x in r <==> x in s
  {
    if |s| == 0 then []
    else
      assert s[0] !in s[1..];
      InsertByTime(s[0], SortByTime(s[1..]))
  }

  /**
   * The scan both operations share: walk the directory's entries in an arbitrary order,
   * keep those whose names contain `_` and parse as stamps, and sort them newest first.
   */
  method ScanNewestFirst(d: Dir) returns (names: seq<string>)
    ensures NewestFirst(names)
    ensures forall k :: k in names <==> k in Artifacts(d)
  {
    var found: seq<string> := [];
    var pending := d.Keys;
    while pending != {}
      invariant pending <= d.Keys
      invariant forall i :: 0 <= i < |found| ==> IsArtifact(found[i])
      invariant Distinct(found)
      invariant forall k :: k in found <==> k in Artifacts(d) && k !in pending
      decreases pending
    {
      var k :| k in pending;
      pending := pending - {k};
      if '_' in k {
        match ParseStamp(k)
        case Some(_) =>
          found := found + [k];
        case None =>
      }
    }
    names := SortByTime(found);
  }

  function SetOf(s: seq<string>): set<string> {
    set x | x in s
  }

  /** In a sequence without repetitions, the `j`th entry lies in the part from `m` on exactly when `j >= m`. */
  lemma DistinctInSuffix(s: seq<string>, m: nat, j: nat)
    requires Distinct(s) && m <= |s| && j < |s|
    ensures s[j] in s[m..] <==> j >= m
  {
    if j >= m {
      assert s[j] == s[m..][j - m];
    } else {
      forall i | 0 <= i < |s| - m ensures s[m..][i] != s[j] {
        assert s[m..][i] == s[i + m];
      }
    }
  }

  /** Whether one entry survives the deletions: it does exactly when it lies before position `n` of the scan. */
  lemma KeptIffBefore(d: Dir, n: nat, stamps: seq<string>, k: string)
    requires NewestFirst(stamps) && (forall x :: x in stamps <==> x in Artifacts(d))
    requires k in d
    ensures k in KeepNewest(d, n) <==> k !in stamps[if |stamps| <= n then |stamps| else n..]
  {
    var m := if |stamps| <= n then |stamps| else n;
    KeepNewestMember(d, n, k);
    if k in stamps {
      var j :| 0 <= j < |stamps| && stamps[j] == k;
      RankIsIndex(d, stamps, j);
      NewestFirstDistinct(stamps);
      DistinctInSuffix(stamps, m, j);
    } else {
      assert k !in stamps[m..];
    }
  }

  /** Deleting the names past position `n` of the newest-first scan leaves exactly the retained entries. */
  lemma DropTailIsKeepNewest(d: Dir, n: nat, stamps: seq<string>, e: Dir)
    requires NewestFirst(stamps) && (forall k :: k in stamps <==> k in Artifacts(d))
    requires e.Keys == d.Keys - SetOf(stamps[if |stamps| <= n then |stamps| else n..])
    requires forall k :: k in e ==> e[k] == d[k]
    ensures e == KeepNewest(d, n)
  {
    var kept := KeepNewest(d, n);
    forall k | k in d ensures k in e <==> k in kept {
      KeptIffBefore(d, n, stamps, k);
    }
    SameEntries(e, kept);
  }

  /**
   * `prune_old`: nothing when the directory is missing; otherwise every entry past the
   * retention count in the newest-first scan is deleted, which leaves exactly `KeepNewest`.
   */
  method PruneOld(t: Tree, p: Pair, n: nat) returns (u: Tree)
    ensures p !in t.dirs ==> u == t
    ensures p in t.dirs ==> u == WithDir(t, p, KeepNewest(t.dirs[p], n))
  {
    if p !in t.dirs {
      return t;
    }
    var d := t.dirs[p];
    var stamps := ScanNewestFirst(d);
    var m := if |stamps| <= n then |stamps| else n;
    var e := d;
    var i := m;
    while i < |stamps|
      invariant m <= i <= |stamps|
      invariant e.Keys == d.Keys - SetOf(stamps[m..i])
      invariant forall k :: k in e ==> e[k] == d[k]
    {
      assert stamps[m..i + 1] == stamps[m..i] + [stamps[i]];
      e := Remove(e, stamps[i]);
      i := i + 1;
    }
    assert stamps[m..i] == stamps[m..];
    DropTailIsKeepNewest(d, n, stamps, e);
    u := WithDir(t, p, e);
  }

  /**
   * `write_dir_list`: nothing when the directory is missing; otherwise `dir.list` is
   * overwritten with the directory's manifest, one name per line, and no other entry changes.
   * `listed` is the sequence of names written.
   */
  method WriteDirList(t: Tree, p: Pair, n: nat) returns (u: Tree, listed: seq<string>)
    ensures p !in t.dirs ==> u == t && listed == []
    ensures p in t.dirs ==> IsManifestOf(t.dirs[p], n, listed)
    ensures p in t.dirs ==> u == WithDir(t, p, t.dirs[p][ManifestName := Text(JoinLines(listed))])
  {
    if p !in t.dirs {
      return t, [];
    }
    var d := t.dirs[p];
    var entries := ScanNewestFirst(d);
    listed := entries[..if |entries| <= n then |entries| else n];
    PrefixIsManifest(d, n, entries);
    var text := "";
    var i := 0;
    while i < |listed|
      invariant 0 <= i <= |listed|
      invariant text == JoinLines(listed[..i])
    {
      assert listed[..i + 1] == listed[..i] + [listed[i]];
      JoinLinesSnoc(listed[..i], listed[i]);
      text := text + listed[i] + "\n";
      i := i + 1;
    }
    assert listed[..i] == listed;
    u := WithDir(t, p, d[ManifestName := Text(text)]);
  }

  /** An artifact name is digits and one underscore, so never holds a newline. */
  lemma ArtifactHasNoNewline(k: string)
    requires IsArtifact(k)
    ensures '\n' !in k
  {
    StampTextOfParse(k);
  }

  /**
   * A pair directory as a completed sync leaves it: at most `n` artifacts, and a `dir.list`
   * that reads back as all of them, newest first.
   */
  predicate Settled(d: Dir, n: nat) {
    && |Artifacts(d)| <= n
    && ManifestName in d && d[ManifestName].Text?
    && IsManifestOf(d, n, SplitLines(d[ManifestName].text))
  }

  /** Writing the manifest file adds no artifact and removes none. */
  lemma ManifestKeepsArtifacts(e: Dir, c: Content)
    ensures Artifacts(e[ManifestName := c]) == Artifacts(e)
  {
    assert !IsArtifact(ManifestName);
  }

  /** A newest-first list of artifacts, written one per line, reads back as the same list. */
  lemma ManifestReadsBack(listed: seq<string>)
    requires NewestFirst(listed)
    ensures SplitLines(JoinLines(listed)) == listed
  {
    forall i | 0 <= i < |listed| ensures '\n' !in listed[i] {
      ArtifactHasNoNewline(listed[i]);
    }
    SplitJoinLines(listed);
  }

  /** Pruning and then writing the manifest settles any directory. */
  lemma PruneThenListSettles(d: Dir, n: nat, listed: seq<string>)
    requires IsManifestOf(KeepNewest(d, n), n, listed)
    ensures Settled(KeepNewest(d, n)[ManifestName := Text(JoinLines(listed))], n)
  {
    ManifestKeepsArtifacts(KeepNewest(d, n), Text(JoinLines(listed)));
    KeepNewestCount(d, n);
    ManifestReadsBack(listed);
  }

  // ---------------------------------------------------------------------------
  // The manifest as a value

  /** Every set of artifacts can be listed newest first, one name per artifact. */
  lemma {:induction false} SortedEnumeration(a: set<string>) returns (s: seq<string>)
    requires AllArtifacts(a)
    ensures NewestFirst(s) && forall k :: k in s <==> k in a
    decreases |a|
  {
    if a == {} {
      s := [];
    } else {
      var x :| x in a;
      var rest := SortedEnumeration(a - {x});
      s := InsertByTime(x, rest);
    }
  }

  lemma ManifestExists(d: Dir, n: nat)
    ensures exists names :: IsManifestOf(d, n, names)
  {
    var s := SortedEnumeration(Artifacts(d));
    PrefixIsManifest(d, n, s);
  }

  /** The names `write_dir_list` writes for `d`: its `n` newest artifacts, newest first. */
  ghost function Manifest(d: Dir, n: nat): (names: seq<string>)
    ensures IsManifestOf(d, n, names)
  {
    ManifestExists(d, n);
    var names :| IsManifestOf(d, n, names);
    names
  }
}
