/**
 * `sync_site_product` and `sync_once`: list today's newest keys of a pair, fetch each one,
 * a failing key being reported and skipped, then prune the pair directory and rewrite its
 * manifest; a failed listing abandons the pair. A cycle does this for every configured
 * (site, product) pair, then rewrites the global configuration.
 */
module Sync {
  import opened Wrappers
  import opened Calendar
  import opened Stamp
  import Remote
  import opened Files
  import opened Fetch
  import opened Lines
  import opened Retention
  import opened Housekeeping
  import Config

  /** How many keys each pair lists, and how many artifacts it keeps and lists. */
  const MaxFiles: nat := 10

  // ---------------------------------------------------------------------------
  // The fetch phase, as a reference fold over the keys

  /** What fetching one key comes down to: the stamp its name yields, or the error, and how its transfer ends. */
  datatype Attempt = Attempt(key: string, stamp: Result<string, FetchError>, transfer: Transfer)

  function Attempts(keys: seq<string>, remote: string -> Transfer): (a: seq<Attempt>)
    ensures |a| == |keys|
    ensures forall i :: 0 <= i < |keys| ==> a[i] == Attempt(keys[i], StampOfKey(keys[i]), remote(keys[i]))
  {
    seq(|keys|, i requires 0 <= i < |keys| => Attempt(keys[i], StampOfKey(keys[i]), remote(keys[i])))
  }

  /** One key's effect on the pair directory: its stamp appears when the key is readable, the stamp is new and the transfer delivered. */
  function FetchStep(d: Dir, a: Attempt): Dir {
    match a.stamp
    case Err(_) => d
    case Ok(stamp) => if stamp !in d && a.transfer.Delivered? then d[stamp := Blob(a.transfer.data)] else d
  }

  /** The error one key reports, if any. */
  function StepError(d: Dir, a: Attempt): Option<FetchError> {
    match a.stamp
    case Err(e) => Some(e)
    case Ok(stamp) => if stamp !in d && !a.transfer.Delivered? then Some(FetchFailed(a.key, a.transfer.cause)) else None
  }

  /** The pair directory after the attempts, in order. */
  function FetchAll(d: Dir, attempts: seq<Attempt>): Dir {
    if |attempts| == 0 then d
    else
      var last := |attempts| - 1;
      FetchStep(FetchAll(d, attempts[..last]), attempts[last])
  }

  /** The errors reported during the attempts, in order. */
  function FetchErrors(d: Dir, attempts: seq<Attempt>): seq<FetchError> {
    if |attempts| == 0 then []
    else
      var last := |attempts| - 1;
      var e := StepError(FetchAll(d, attempts[..last]), attempts[last]);
      FetchErrors(d, attempts[..last]) + Reported(e)
  }

  function Reported(e: Option<FetchError>): seq<FetchError> {
    if e.Some? then [e.value] else []
  }

  /** The fold over a prefix one longer is one more step. */
  lemma FetchSnoc(d: Dir, attempts: seq<Attempt>, i: nat)
    requires i < |attempts|
    ensures FetchAll(d, attempts[..i + 1]) == FetchStep(FetchAll(d, attempts[..i]), attempts[i])
    ensures FetchErrors(d, attempts[..i + 1])
            == FetchErrors(d, attempts[..i]) + Reported(StepError(FetchAll(d, attempts[..i]), attempts[i]))
  {
    assert attempts[..i + 1][..i] == attempts[..i];
    assert attempts[..i + 1][i] == attempts[i];
  }

  /** Some key yields a stamp, so `download_and_place` creates the pair directory. */
  predicate AnyReadable(attempts: seq<Attempt>) {
    exists i :: 0 <= i < |attempts| && attempts[i].stamp.Ok?
  }

  /** Fetching never alters an entry that was already there. */
  lemma {:induction false} FetchAllKeeps(d: Dir, attempts: seq<Attempt>)
    ensures forall k :: k in d ==> k in FetchAll(d, attempts) && FetchAll(d, attempts)[k] == d[k]
  {
    if |attempts| > 0 {
      FetchAllKeeps(d, attempts[..|attempts| - 1]);
    }
  }

  /**
   * A failure does not stop the loop: every readable key whose transfer is delivered has its
   * stamp in the directory afterwards, wherever it stands among the keys.
   */
  lemma {:induction false} FetchAllDelivers(d: Dir, attempts: seq<Attempt>, i: nat)
    requires i < |attempts| && attempts[i].stamp.Ok? && attempts[i].transfer.Delivered?
    ensures attempts[i].stamp.value in FetchAll(d, attempts)
  {
    var last := |attempts| - 1;
    var before := FetchAll(d, attempts[..last]);
    if i < last {
      assert attempts[..last][i] == attempts[i];
      FetchAllDelivers(d, attempts[..last], i);
    }
  }

  /** Every entry the fetch adds is the stamp of a readable, delivered key. */
  lemma {:induction false} FetchAllOnlyStamps(d: Dir, attempts: seq<Attempt>, k: string)
    requires k in FetchAll(d, attempts) && k !in d
    ensures exists i :: 0 <= i < |attempts| && attempts[i].stamp == Ok(k) && attempts[i].transfer.Delivered?
  {
    var last := |attempts| - 1;
    var before := FetchAll(d, attempts[..last]);
    if k in before {
      FetchAllOnlyStamps(d, attempts[..last], k);
      var i :| 0 <= i < last && attempts[..last][i].stamp == Ok(k) && attempts[..last][i].transfer.Delivered?;
      assert attempts[..last][i] == attempts[i];
    }
  }

  /** An unreadable key is always reported, whatever happens to the keys around it. */
  lemma {:induction false} UnreadableReported(d: Dir, attempts: seq<Attempt>, i: nat)
    requires i < |attempts| && attempts[i].stamp.Err?
    ensures attempts[i].stamp.error in FetchErrors(d, attempts)
  {
    var last := |attempts| - 1;
    if i < last {
      assert attempts[..last][i] == attempts[i];
      UnreadableReported(d, attempts[..last], i);
    }
  }

  /** Each reported error is an unreadable key's, or names a key whose transfer failed with that cause. */
  lemma {:induction false} ErrorsAreFailures(d: Dir, attempts: seq<Attempt>, e: FetchError)
    requires e in FetchErrors(d, attempts)
    ensures exists i :: 0 <= i < |attempts| &&
              (attempts[i].stamp == Err(e) ||
               (attempts[i].stamp.Ok? && !attempts[i].transfer.Delivered?
                && e == FetchFailed(attempts[i].key, attempts[i].transfer.cause)))
  {
    var last := |attempts| - 1;
    var rest := FetchErrors(d, attempts[..last]);
    if e in rest {
      ErrorsAreFailures(d, attempts[..last], e);
      var i :| 0 <= i < last &&
        (attempts[..last][i].stamp == Err(e) ||
         (attempts[..last][i].stamp.Ok? && !attempts[..last][i].transfer.Delivered?
          && e == FetchFailed(attempts[..last][i].key, attempts[..last][i].transfer.cause)));
      assert attempts[..last][i] == attempts[i];
    }
  }

  // ---------------------------------------------------------------------------
  // The operations

  /** Placing a readable key's stamp is one step of the reference fold. */
  lemma PlaceIsStepOk(u: Tree, p: Pair, key: string, stamp: string, tmp: string, x: Transfer)
    requires IsTempName(tmp) && tmp !in DirOf(u, p) && ParseStamp(stamp).Some?
    ensures var r := Place(u, p, key, stamp, tmp, x);
            var a := Attempt(key, Ok(stamp), x);
            && SameOutside(u, r.tree, p)
            && p in r.tree.dirs
            && DirOf(r.tree, p) == FetchStep(DirOf(u, p), a)
            && r.error == StepError(DirOf(u, p), a)
  {
  }

  /** One `download_and_place` call is one step of the reference fold. */
  lemma PlaceIsStep(u: Tree, p: Pair, key: string, tmp: string, x: Transfer)
    requires IsTempName(tmp) && tmp !in DirOf(u, p)
    ensures var r := DownloadAndPlace(u, p, key, tmp, x);
            var a := Attempt(key, StampOfKey(key), x);
            && SameOutside(u, r.tree, p)
            && (p in r.tree.dirs <==> p in u.dirs || a.stamp.Ok?)
            && DirOf(r.tree, p) == FetchStep(DirOf(u, p), a)
            && r.error == StepError(DirOf(u, p), a)
  {
    var s := StampOfKey(key);
    if s.Ok? {
      PlaceIsStepOk(u, p, key, s.value, tmp, x);
    }
  }

  /** The tree after fetching: the pair directory exists if it did or some key was readable, and holds the fold's result. */
  function AfterFetch(t: Tree, p: Pair, attempts: seq<Attempt>): Tree {
    if p in t.dirs || AnyReadable(attempts) then WithDir(t, p, FetchAll(DirOf(t, p), attempts)) else t
  }

  /** One pass of the loop: a fresh temporary name, then `download_and_place` on the key. */
  method FetchOne(u: Tree, p: Pair, key: string, x: Transfer, a: Attempt) returns (v: Tree, error: Option<FetchError>)
    requires a == Attempt(key, StampOfKey(key), x)
    ensures v == if p in u.dirs || a.stamp.Ok? then WithDir(u, p, FetchStep(DirOf(u, p), a)) else u
    ensures error == StepError(DirOf(u, p), a)
  {
    var tmp := MakeTemp(DirOf(u, p));
    var r := DownloadAndPlace(u, p, key, tmp, x);
    PlaceIsStep(u, p, key, tmp, x);
    if p in r.tree.dirs {
      SameOutsideIsWithDir(u, r.tree, p);
    } else {
      SameOutsideEqual(u, r.tree, p);
    }
    return r.tree, r.error;
  }

  /** The `for k in keys` loop of `sync_site_product`, each failure reported and skipped. */
  method FetchKeys(t: Tree, p: Pair, keys: seq<string>, remote: string -> Transfer)
    returns (u: Tree, failures: seq<FetchError>)
    ensures u == AfterFetch(t, p, Attempts(keys, remote))
    ensures failures == FetchErrors(DirOf(t, p), Attempts(keys, remote))
  {
    var attempts := Attempts(keys, remote);
    u := t;
    failures := [];
    for i := 0 to |keys|
      invariant u == AfterFetch(t, p, attempts[..i])
      invariant failures == FetchErrors(DirOf(t, p), attempts[..i])
    {
      var next, error := FetchOne(u, p, keys[i], remote(keys[i]), attempts[i]);
      FetchKeysStep(t, u, next, p, attempts, i, failures, error);
      u := next;
      failures := failures + Reported(error);
    }
    assert attempts[..|keys|] == attempts;
  }

  /** Keys that yield no stamp leave the directory as it was. */
  lemma {:induction false} FetchAllUnreadable(d: Dir, attempts: seq<Attempt>)
    requires !AnyReadable(attempts)
    ensures FetchAll(d, attempts) == d
  {
    if |attempts| > 0 {
      var last := |attempts| - 1;
      forall j | 0 <= j < last ensures !attempts[..last][j].stamp.Ok? {
        assert attempts[..last][j] == attempts[j];
      }
      FetchAllUnreadable(d, attempts[..last]);
      assert !attempts[last].stamp.Ok?;
    }
  }

  /** One more pass keeps the loop's account of the tree and of the errors. */
  lemma FetchKeysStep(t: Tree, u: Tree, next: Tree, p: Pair, attempts: seq<Attempt>, i: nat,
                      failures: seq<FetchError>, error: Option<FetchError>)
    requires i < |attempts|
    requires u == AfterFetch(t, p, attempts[..i])
    requires failures == FetchErrors(DirOf(t, p), attempts[..i])
    requires next == if p in u.dirs || attempts[i].stamp.Ok? then WithDir(u, p, FetchStep(DirOf(u, p), attempts[i])) else u
    requires error == StepError(DirOf(u, p), attempts[i])
    ensures next == AfterFetch(t, p, attempts[..i + 1])
    ensures failures + Reported(error) == FetchErrors(DirOf(t, p), attempts[..i + 1])
  {
    ReadableSnoc(attempts, i);
    FetchSnoc(DirOf(t, p), attempts, i);
    if !(p in t.dirs || AnyReadable(attempts[..i])) {
      FetchAllUnreadable(DirOf(t, p), attempts[..i]);
    }
    assert DirOf(u, p) == FetchAll(DirOf(t, p), attempts[..i]);
    if p in u.dirs || attempts[i].stamp.Ok? {
      assert next.dirs == t.dirs[p := DirOf(next, p)];
    }
  }

  lemma ReadableSnoc(attempts: seq<Attempt>, i: nat)
    requires i < |attempts|
    ensures AnyReadable(attempts[..i + 1]) <==> AnyReadable(attempts[..i]) || attempts[i].stamp.Ok?
  {
    if attempts[i].stamp.Ok? {
      assert attempts[..i + 1][i] == attempts[i];
    }
    if AnyReadable(attempts[..i + 1]) && !attempts[i].stamp.Ok? {
      var j :| 0 <= j < i + 1 && attempts[..i + 1][j].stamp.Ok?;
      assert attempts[..i][j] == attempts[..i + 1][j];
    }
    if AnyReadable(attempts[..i]) {
      var j :| 0 <= j < i && attempts[..i][j].stamp.Ok?;
      assert attempts[..i + 1][j] == attempts[..i][j];
    }
  }

  // ---------------------------------------------------------------------------
  // One pair's sync

  /** A pair's directory in a tree, `None` when it does not exist. */
  function Slot(t: Tree, p: Pair): Option<Dir> {
    if p in t.dirs then Some(t.dirs[p]) else None
  }

  /**
   * What one pair's sync makes of its directory, given what was there: a failed listing
   * leaves it as it was; a missing directory stays missing when no listed key is readable;
   * otherwise it is the fetched directory pruned to the `n` newest artifacts, with a
   * `dir.list` naming them newest first.
   */
  ghost function Synced(before: Option<Dir>, p: Pair, today: DateTime,
                        listing: Result<seq<Remote.RemoteObject>, string>, remote: string -> Transfer, n: nat)
    : Option<Dir>
    requires Valid(today)
  {
    match listing
    case Err(_) => before
    case Ok(bucket) =>
      var attempts := Attempts(Remote.Keys(Remote.SelectToday(p.site, p.product, today, bucket, n)), remote);
      if before.None? && !AnyReadable(attempts) then None
      else
        var kept := KeepNewest(FetchAll(if before.Some? then before.value else map[], attempts), n);
        Some(kept[ManifestName := Text(JoinLines(Manifest(kept, n)))])
  }

  /** After a listing that succeeded, a pair directory that exists is settled. */
  lemma SyncedSettles(before: Option<Dir>, p: Pair, today: DateTime,
                      listing: Result<seq<Remote.RemoteObject>, string>, remote: string -> Transfer, n: nat)
    requires Valid(today) && listing.Ok?
    ensures var after := Synced(before, p, today, listing, remote, n);
            after.Some? ==> Settled(after.value, n)
  {
    var attempts := Attempts(Remote.Keys(Remote.SelectToday(p.site, p.product, today, listing.value, n)), remote);
    var fetched := FetchAll(if before.Some? then before.value else map[], attempts);
    PruneThenListSettles(fetched, n, Manifest(KeepNewest(fetched, n), n));
  }

  /** A sync never removes a pair directory, and leaves it as it was when the listing failed. */
  lemma SyncedKeepsDir(before: Option<Dir>, p: Pair, today: DateTime,
                       listing: Result<seq<Remote.RemoteObject>, string>, remote: string -> Transfer, n: nat)
    requires Valid(today)
    ensures before.Some? ==> Synced(before, p, today, listing, remote, n).Some?
    ensures listing.Err? ==> Synced(before, p, today, listing, remote, n) == before
  {
  }

  /** The outcome `SyncSiteProduct` describes after a successful listing is the one `Synced` names. */
  lemma OutcomeIsSynced(t: Tree, u: Tree, p: Pair, today: DateTime, bucket: seq<Remote.RemoteObject>,
                        remote: string -> Transfer, n: nat, listed: seq<string>)
    requires Valid(today)
    requires var attempts := Attempts(Remote.Keys(Remote.SelectToday(p.site, p.product, today, bucket, n)), remote);
             && (p !in t.dirs && !AnyReadable(attempts) ==> u == t)
             && (p in t.dirs || AnyReadable(attempts) ==>
                   var kept := KeepNewest(FetchAll(DirOf(t, p), attempts), n);
                   && IsManifestOf(kept, n, listed)
                   && u == WithDir(t, p, kept[ManifestName := Text(JoinLines(listed))]))
    ensures Slot(u, p) == Synced(Slot(t, p), p, today, Ok(bucket), remote, n)
  {
    var attempts := Attempts(Remote.Keys(Remote.SelectToday(p.site, p.product, today, bucket, n)), remote);
    if p in t.dirs || AnyReadable(attempts) {
      var kept := KeepNewest(FetchAll(DirOf(t, p), attempts), n);
      ManifestDetermined(kept, n, listed, Manifest(kept, n));
    }
  }

  /**
   * `sync_site_product(site, product)` with `today` the clock reading of its listing,
   * `listing` the bucket's objects or the error listing raised, and `remote` the transfer
   * outcome of each key. `attempted` are the keys fetched, `failures` the errors reported,
   * `listed` the names written to the manifest. A failed listing changes nothing; otherwise
   * the pair directory, once it exists, is the fetched directory pruned to the `n` newest
   * artifacts with a manifest naming them.
   */
  method SyncSiteProduct(t: Tree, p: Pair, today: DateTime, listing: Result<seq<Remote.RemoteObject>, string>,
                         remote: string -> Transfer, n: nat)
    returns (u: Tree, attempted: seq<string>, failures: seq<FetchError>, listed: seq<string>)
    requires Valid(today)
    ensures SameOutside(t, u, p)
    ensures listing.Err? ==> u == t && attempted == [] && failures == [] && listed == []
    ensures listing.Ok? ==> attempted == Remote.Keys(Remote.SelectToday(p.site, p.product, today, listing.value, n))
    ensures listing.Ok? ==> failures == FetchErrors(DirOf(t, p), Attempts(attempted, remote))
    ensures listing.Ok? && p !in t.dirs && !AnyReadable(Attempts(attempted, remote)) ==> u == t
    ensures listing.Ok? && (p in t.dirs || AnyReadable(Attempts(attempted, remote))) ==>
              var kept := KeepNewest(FetchAll(DirOf(t, p), Attempts(attempted, remote)), n);
              && IsManifestOf(kept, n, listed)
              && u == WithDir(t, p, kept[ManifestName := Text(JoinLines(listed))])
    ensures listing.Ok? && p in u.dirs ==> Settled(u.dirs[p], n)
    ensures Slot(u, p) == Synced(Slot(t, p), p, today, listing, remote, n)
  {
    match listing {
      case Err(_) =>
        return t, [], [], [];
      case Ok(bucket) =>
        attempted := Remote.Keys(Remote.SelectToday(p.site, p.product, today, bucket, n));
        var fetched;
        fetched, failures := FetchKeys(t, p, attempted, remote);
        if p !in fetched.dirs {
          OutcomeIsSynced(t, fetched, p, today, bucket, remote, n, []);
          return fetched, attempted, failures, [];
        }
        var pruned := PruneOld(fetched, p, n);
        u, listed := WriteDirList(pruned, p, n);
        var kept := KeepNewest(fetched.dirs[p], n);
        PruneThenListSettles(fetched.dirs[p], n, listed);
        SameOutsideTransitive(t, fetched, pruned, p);
        SameOutsideTransitive(t, pruned, u, p);
        SameOutsideIsWithDir(t, u, p);
        OutcomeIsSynced(t, u, p, today, bucket, remote, n, listed);
    }
  }

  /** One site's pairs, in product order. */
  function SitePairs(site: string, products: seq<string>): (ps: seq<Pair>)
    ensures forall q :: q in ps <==> q.site == site && q.product in products
  {
    if |products| == 0 then []
    else [Pair(site, products[0])] + SitePairs(site, products[1..])
  }

  /** Every configured (site, product) pair, sites in order and each site's products in order. */
  function Pairs(sites: seq<string>, products: seq<string>): (ps: seq<Pair>)
    ensures forall q :: q in ps <==> q.site in sites && q.product in products
  {
    if |sites| == 0 then []
    else SitePairs(sites[0], products) + Pairs(sites[1..], products)
  }

  /** No pair occurs twice. */
  predicate DistinctPairs(ps: seq<Pair>) {
    forall i, j :: 0 <= i < j < |ps| ==> ps[i] != ps[j]
  }

  /** Joining two duplicate-free sequences with no pair in common leaves no pair twice. */
  lemma DistinctAppend(a: seq<Pair>, b: seq<Pair>)
    requires DistinctPairs(a) && DistinctPairs(b)
    requires forall q :: q in a ==> q !in b
    ensures DistinctPairs(a + b)
  {
    var c := a + b;
    forall i, j | 0 <= i < j < |c| ensures c[i] != c[j] {
      if j < |a| {
        assert c[i] == a[i] && c[j] == a[j];
      } else if i >= |a| {
        assert c[i] == b[i - |a|] && c[j] == b[j - |a|];
      } else {
        assert c[i] == a[i] && c[j] == b[j - |a|] && a[i] in a;
      }
    }
  }

  lemma DistinctTail(s: seq<string>)
    requires Distinct(s) && |s| > 0
    ensures Distinct(s[1..]) && s[0] !in s[1..]
  {
    var rest := s[1..];
    forall i, j | 0 <= i < j < |rest| ensures rest[i] != rest[j] {
      assert rest[i] == s[i + 1] && rest[j] == s[j + 1];
    }
    forall j | 0 <= j < |rest| ensures rest[j] != s[0] {
      assert rest[j] == s[j + 1];
    }
  }

  lemma {:induction false} SitePairsDistinct(site: string, products: seq<string>)
    requires Distinct(products)
    ensures DistinctPairs(SitePairs(site, products))
    decreases |products|
  {
    if |products| > 0 {
      DistinctTail(products);
      SitePairsDistinct(site, products[1..]);
      DistinctAppend([Pair(site, products[0])], SitePairs(site, products[1..]));
    }
  }

  /** With no site and no product listed twice, no pair is synced twice. */
  lemma {:induction false} PairsDistinct(sites: seq<string>, products: seq<string>)
    requires Distinct(sites) && Distinct(products)
    ensures DistinctPairs(Pairs(sites, products))
    decreases |sites|
  {
    if |sites| > 0 {
      DistinctTail(sites);
      PairsDistinct(sites[1..], products);
      SitePairsDistinct(sites[0], products);
      DistinctAppend(SitePairs(sites[0], products), Pairs(sites[1..], products));
    }
  }

  /** The shipped sites and product codes repeat no entry, so a shipped cycle may run `SyncOnce`. */
  lemma ShippedListsDistinct()
    ensures Distinct(Config.Sites) && Distinct(Config.ProductCodes)
  {
    Config.ShippedListsStrictlySorted();
  }

  /** One pair's sync as a cycle runs it: only that pair's directory changes, and it becomes `Synced`. */
  method SyncPair(t: Tree, p: Pair, today: DateTime, listing: Result<seq<Remote.RemoteObject>, string>,
                  remote: string -> Transfer)
    returns (u: Tree)
    requires Valid(today)
    ensures SameOutside(t, u, p)
    ensures Slot(u, p) == Synced(Slot(t, p), p, today, listing, remote, MaxFiles)
    ensures listing.Ok? && p in u.dirs ==> Settled(u.dirs[p], MaxFiles)
  {
    var next, _, _, _ := SyncSiteProduct(t, p, today, listing, remote, MaxFiles);
    u := next;
  }

  /**
   * One more pair synced keeps the loop's account of which directories are done, for any
   * `step` that makes a pair's directory from what it was.
   */
  lemma SyncPairsStep(t: Tree, u: Tree, next: Tree, pairs: seq<Pair>, i: nat, step: (Option<Dir>, Pair) -> Option<Dir>)
    requires i < |pairs| && pairs[i] !in pairs[..i]
    requires u.root == t.root
    requires forall q :: q in pairs[..i] ==> Slot(u, q) == step(Slot(t, q), q)
    requires forall q :: q !in pairs[..i] ==> Slot(u, q) == Slot(t, q)
    requires SameOutside(u, next, pairs[i])
    requires Slot(next, pairs[i]) == step(Slot(u, pairs[i]), pairs[i])
    ensures next.root == t.root
    ensures forall q :: q in pairs[..i + 1] ==> Slot(next, q) == step(Slot(t, q), q)
    ensures forall q :: q !in pairs[..i + 1] ==> Slot(next, q) == Slot(t, q)
  {
    var p := pairs[i];
    assert pairs[..i + 1] == pairs[..i] + [p];
    forall q | q != p ensures Slot(next, q) == Slot(u, q) {
    }
  }

  /** The pairs synced one after the other, as the executor runs them when it has a single worker. */
  method SyncPairs(t: Tree, pairs: seq<Pair>, clock: Pair -> DateTime,
                   listings: Pair -> Result<seq<Remote.RemoteObject>, string>, remote: string -> Transfer)
    returns (u: Tree)
    requires forall q :: Valid(clock(q))
    requires DistinctPairs(pairs)
    ensures u.root == t.root
    ensures forall q :: q in pairs ==> Slot(u, q) == Synced(Slot(t, q), q, clock(q), listings(q), remote, MaxFiles)
    ensures forall q :: q !in pairs ==> Slot(u, q) == Slot(t, q)
  {
    ghost var step := (d: Option<Dir>, q: Pair) => Synced(d, q, clock(q), listings(q), remote, MaxFiles);
    u := t;
    for i := 0 to |pairs|
      invariant u.root == t.root
      invariant forall q :: q in pairs[..i] ==> Slot(u, q) == step(Slot(t, q), q)
      invariant forall q :: q !in pairs[..i] ==> Slot(u, q) == Slot(t, q)
    {
      var p := pairs[i];
      assert p !in pairs[..i] by {
        forall j | 0 <= j < i ensures pairs[..i][j] != p {
          assert pairs[..i][j] == pairs[j];
        }
      }
      var next := SyncPair(u, p, clock(p), listings(p), remote);
      SyncPairsStep(t, u, next, pairs, i, step);
      u := next;
    }
    assert pairs[..|pairs|] == pairs;
  }

  /**
   * What a cycle's exact outcome implies per configured pair: a failed listing leaves the
   * directory untouched, a successful one leaves it settled, and no directory disappears.
   */
  lemma CycleOutcomes(t: Tree, u: Tree, sites: seq<string>, products: seq<string>, clock: Pair -> DateTime,
                      listings: Pair -> Result<seq<Remote.RemoteObject>, string>, remote: string -> Transfer)
    requires forall q :: Valid(clock(q))
    requires forall q: Pair :: q.site in sites && q.product in products ==>
               Slot(u, q) == Synced(Slot(t, q), q, clock(q), listings(q), remote, MaxFiles)
    requires forall q: Pair :: !(q.site in sites && q.product in products) ==> Slot(u, q) == Slot(t, q)
    ensures forall q: Pair :: q.site in sites && q.product in products && listings(q).Err? ==> Slot(u, q) == Slot(t, q)
    ensures forall q: Pair :: q.site in sites && q.product in products && listings(q).Ok? && q in u.dirs ==>
              Settled(u.dirs[q], MaxFiles)
    ensures forall q: Pair :: q in t.dirs ==> q in u.dirs
  {
    forall q: Pair | q.site in sites && q.product in products
      ensures listings(q).Err? ==> Slot(u, q) == Slot(t, q)
      ensures listings(q).Ok? && q in u.dirs ==> Settled(u.dirs[q], MaxFiles)
      ensures q in t.dirs ==> q in u.dirs
    {
      SyncedKeepsDir(Slot(t, q), q, clock(q), listings(q), remote, MaxFiles);
      if listings(q).Ok? {
        SyncedSettles(Slot(t, q), q, clock(q), listings(q), remote, MaxFiles);
      }
    }
    forall q: Pair | q in t.dirs && !(q.site in sites && q.product in products) ensures q in u.dirs {
      assert Slot(u, q) == Slot(t, q);
    }
  }

  /**
   * `sync_once` over the configured `sites` and `products` (`Config.Sites` and
   * `Config.ProductCodes` in the shipped program): `clock` gives each listing's reading of
   * the clock, `listings` each pair's listing. Afterwards every configured pair's directory
   * is what its own sync makes of it, whatever happened to the other pairs; a pair whose
   * listing failed is untouched; no directory is removed; every other directory is
   * untouched; and the root holds the rewritten configuration.
   */
  method SyncOnce(t: Tree, sites: seq<string>, products: seq<string>, clock: Pair -> DateTime,
                  listings: Pair -> Result<seq<Remote.RemoteObject>, string>, remote: string -> Transfer)
    returns (u: Tree, completed: bool)
    requires forall q :: Valid(clock(q))
    requires Distinct(sites) && Distinct(products)
    ensures forall q: Pair :: q.site in sites && q.product in products ==>
              Slot(u, q) == Synced(Slot(t, q), q, clock(q), listings(q), remote, MaxFiles)
    ensures forall q: Pair :: q.site in sites && q.product in products && listings(q).Err? ==> Slot(u, q) == Slot(t, q)
    ensures forall q: Pair :: q.site in sites && q.product in products && listings(q).Ok? && q in u.dirs ==>
              Settled(u.dirs[q], MaxFiles)
    ensures forall q: Pair :: q in t.dirs ==> q in u.dirs
    ensures forall q: Pair :: !(q.site in sites && q.product in products) ==> Slot(u, q) == Slot(t, q)
    ensures u.root == Config.WriteGlobalConfig(t.root, sites, products).root
    ensures completed <==> Config.WriteGlobalConfig(t.root, sites, products).completed
    ensures sites == Config.Sites && products == Config.ProductCodes ==> completed
  {
    var pairs := Pairs(sites, products);
    PairsDistinct(sites, products);
    var synced := SyncPairs(t, pairs, clock, listings, remote);
    var outcome := Config.WriteGlobalConfig(synced.root, sites, products);
    u := synced.(root := outcome.root);
    completed := outcome.completed;
    CycleOutcomes(t, u, sites, products, clock, listings, remote);
    if sites == Config.Sites && products == Config.ProductCodes {
      Config.ShippedConfigCompletes(t.root);
    }
  }
}
