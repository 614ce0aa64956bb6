/**
 * Fetch-and-place (`download_and_place`): derive the canonical stamp from the key, create
 * the pair directory, and unless the stamp is already there, download into a fresh temporary
 * file of the same directory and rename it to the stamp. A failed download or rename removes
 * the temporary file and propagates the error.
 */
module Fetch {
  import opened Wrappers
  import opened Stamp
  import opened Files

  /**
   * How the transfer of one object went: delivered in full, cut off after writing part of
   * the temporary file, or delivered but the rename onto the stamp refused.
   */
  datatype Transfer =
    | Delivered(data: Bytes)
    | Interrupted(partial: Bytes, cause: string)
    | ReplaceFailed(data: Bytes, cause: string)

  /** The two ways one fetch can raise: the key's timestamp is unreadable, or the transfer failed. */
  datatype FetchError = UnreadableKey(key: string) | FetchFailed(key: string, cause: string)

  /** The tree after one fetch, the error it raised if any, and whether it downloaded. */
  datatype Placement = Placement(tree: Tree, error: Option<FetchError>, downloaded: bool)

  /** Names `tempfile.mkstemp` makes: its default prefix `tmp` and a suffix. */
  predicate IsTempName(name: string) {
    |name| >= 3 && name[..3] == "tmp"
  }

  /** A temporary file name never reads as a canonical stamp. */
  lemma TempNameIsNoStamp(name: string)
    requires IsTempName(name)
    ensures ParseStamp(name).None?
  {
    assert name[0] == name[..3][0] == 't';
  }

  /** `dt_from_key(key.split("/")[-1]).strftime("%Y%m%d_%H%M%S")`, or the error raised on the way. */
  function StampOfKey(key: string): (r: Result<string, FetchError>)
    ensures r.Ok? <==> DtFromKey(BaseName(key)).Ok?
    ensures r.Ok? ==> ParseStamp(r.value) == Some(DtFromKey(BaseName(key)).value)
    ensures r.Err? ==> r.error == UnreadableKey(key)
  {
    match DtFromKey(BaseName(key))
    case Ok(t) => ParseStampText(t); Ok(StampText(t))
    case Err(_) => Err(UnreadableKey(key))
  }

  /**
   * The part of `download_and_place` after the stamp is known: create the directory, skip if
   * the stamp exists, otherwise download into `tmp` and rename it onto the stamp, removing
   * `tmp` and reporting the failure if the download or the rename fails. Seen from outside,
   * the directory either gains the stamp holding the complete download or does not change:
   * the temporary file never remains and a partial download never appears under the stamp.
   */
  function Place(t: Tree, p: Pair, key: string, stamp: string, tmp: string, transfer: Transfer): (r: Placement)
    requires IsTempName(tmp) && tmp !in DirOf(t, p) && ParseStamp(stamp).Some?
    ensures SameOutside(t, r.tree, p)
    ensures p in r.tree.dirs && tmp !in r.tree.dirs[p]
    ensures stamp in DirOf(t, p) ==> r == Placement(t, None, false)
    ensures stamp !in DirOf(t, p) && transfer.Delivered? ==>
              && r.downloaded && r.error.None?
              && r.tree.dirs[p] == DirOf(t, p)[stamp := Blob(transfer.data)]
    ensures stamp !in DirOf(t, p) && !transfer.Delivered? ==>
              && r.downloaded && r.error == Some(FetchFailed(key, transfer.cause))
              && r.tree.dirs[p] == DirOf(t, p)
  {
    TempNameIsNoStamp(tmp);
    var t1 := MakeDirs(t, p);
    var d := t1.dirs[p];
    if stamp in d then Placement(t1, None, false)
    else
      var created := d[tmp := Blob([])];
      var (after, error) := (match transfer
        case Delivered(data) =>
          assert created[tmp := Blob(data)] == d[tmp := Blob(data)];
          ReplaceFresh(d, tmp, stamp, Blob(data));
          (Replace(created[tmp := Blob(data)], tmp, stamp), None)
        case Interrupted(partial, cause) =>
          assert created[tmp := Blob(partial)] == d[tmp := Blob(partial)];
          RemoveFresh(d, tmp, Blob(partial));
          (Remove(created[tmp := Blob(partial)], tmp), Some(FetchFailed(key, cause)))
        case ReplaceFailed(data, cause) =>
          assert created[tmp := Blob(data)] == d[tmp := Blob(data)];
          RemoveFresh(d, tmp, Blob(data));
          (Remove(created[tmp := Blob(data)], tmp), Some(FetchFailed(key, cause))));
      var t2 := WithDir(t1, p, after);
      SameOutsideTransitive(t, t1, t2, p);
      Placement(t2, error, true)
  }

  /**
   * `download_and_place(key, site, product)` with `tmp` the fresh name mkstemp picks and
   * `transfer` the outcome of the download and rename. An unreadable key raises before the
   * directory is created; otherwise the key's stamp is placed as `Place` describes.
   */
  function DownloadAndPlace(t: Tree, p: Pair, key: string, tmp: string, transfer: Transfer): (r: Placement)
    requires IsTempName(tmp) && tmp !in DirOf(t, p)
    ensures StampOfKey(key).Err? ==> r == Placement(t, Some(UnreadableKey(key)), false)
    ensures StampOfKey(key).Ok? ==> r == Place(t, p, key, StampOfKey(key).value, tmp, transfer)
  {
    match StampOfKey(key)
    case Err(e) => Placement(t, Some(e), false)
    case Ok(stamp) => Place(t, p, key, stamp, tmp, transfer)
  }

  /**
   * Once a fetch has succeeded, fetching the same key again downloads nothing and changes
   * nothing: the two calls download at most once between them.
   */
  lemma SecondFetchIsNoop(t: Tree, p: Pair, key: string, tmp1: string, x1: Transfer, tmp2: string, x2: Transfer)
    requires IsTempName(tmp1) && tmp1 !in DirOf(t, p)
    requires DownloadAndPlace(t, p, key, tmp1, x1).error.None?
    requires IsTempName(tmp2) && tmp2 !in DirOf(DownloadAndPlace(t, p, key, tmp1, x1).tree, p)
    ensures var r1 := DownloadAndPlace(t, p, key, tmp1, x1);
            var r2 := DownloadAndPlace(r1.tree, p, key, tmp2, x2);
            r2 == Placement(r1.tree, None, false)
  {
  }

  /** The entries of `d` whose names are at least `n` characters long. */
  function NamesAtLeast(d: Dir, n: nat): set<string> {
    set k | k in d && |k| >= n
  }

  /** `tempfile.mkstemp(dir=...)`: a name with mkstemp's prefix that the directory does not hold yet. */
  method MakeTemp(d: Dir) returns (name: string)
    ensures IsTempName(name) && name !in d
  {
    name := "tmp";
    while name in d
      invariant IsTempName(name)
      decreases NamesAtLeast(d, |name|)
    {
      ghost var before := NamesAtLeast(d, |name|);
      ghost var taken := name;
      assert taken in before;
      name := name + "x";
      assert NamesAtLeast(d, |name|) <= before - {taken};
    }
  }
}
