/**
 * Remote selection (`list_today_files`): the objects of the bucket listed under today's
 * key prefix, sorted newest first by last-modified time, cut to the retention count.
 * The listing call itself (pagination, the network) is an input: the sequence of objects
 * it returns.
 */
module Remote {
  import opened Calendar
  import opened Digits
  import opened Stamp
  import opened Lines

  /** One entry of a bucket listing: its key and its `LastModified` time, in seconds. */
  datatype RemoteObject = RemoteObject(key: string, lastModified: int)

  /** `f"{site}_{product}_{now.year:04}_{now.month:02}_{now.day:02}_"`: the key prefix of one UTC day. */
  function DayPrefix(site: string, product: string, today: DateTime): (p: string)
    requires Valid(today)
    ensures |p| == |site| + |product| + 13
  {
    site + "_" + product + "_" + DayText(today)
  }

  /** `YYYY_MM_DD_`, zero-padded. */
  function DayText(today: DateTime): (d: string)
    requires Valid(today)
    ensures |d| == 11
    ensures d[0..4] == Pad(today.year, 4) && d[5..7] == Pad(today.month, 2) && d[8..10] == Pad(today.day, 2)
    ensures d[4] == '_' && d[7] == '_' && d[10] == '_'
  {
    Pow10Small();
    Pad(today.year, 4) + "_" + Pad(today.month, 2) + "_" + Pad(today.day, 2) + "_"
  }

  /** The objects a prefix listing returns, in listing order. */
  function UnderPrefix(bucket: seq<RemoteObject>, prefix: string): (r: seq<RemoteObject>)
    ensures forall o :: o in r <==> o in bucket && StartsWith(o.key, prefix)
  {
    if |bucket| == 0 then []
    else (if StartsWith(bucket[0].key, prefix) then [bucket[0]] else []) + UnderPrefix(bucket[1..], prefix)
  }

  /** Non-increasing in last-modified time. */
  predicate NewestFirst(s: seq<RemoteObject>) {
    forall i, j :: 0 <= i < j < |s| ==> s[j].lastModified <= s[i].lastModified
  }

  /** Prepending an object at least as new as every entry keeps the order. */
  lemma ConsNewestFirst(x: RemoteObject, s: seq<RemoteObject>)
    requires NewestFirst(s)
    requires forall k :: 0 <= k < |s| ==> s[k].lastModified <= x.lastModified
    ensures NewestFirst([x] + s)
  {
    var r := [x] + s;
    forall i, j | 0 <= i < j < |r| ensures r[j].lastModified <= r[i].lastModified {
      assert r[j] == s[j - 1];
      if i > 0 {
        assert r[i] == s[i - 1];
      }
    }
  }

  /** What `Insert` places after the head of `s` is no newer than that head. */
  lemma HeadBoundsRest(o: RemoteObject, s: seq<RemoteObject>, rest: seq<RemoteObject>)
    requires NewestFirst(s) && |s| > 0 && o.lastModified < s[0].lastModified
    requires multiset(rest) == multiset(s[1..]) + multiset{o}
    ensures forall k :: 0 <= k < |rest| ==> rest[k].lastModified <= s[0].lastModified
  {
    forall k | 0 <= k < |rest| ensures rest[k].lastModified <= s[0].lastModified {
      assert rest[k] in multiset(rest);
      if rest[k] != o {
        assert rest[k] in multiset(s[1..]);
        var j :| 0 <= j < |s[1..]| && s[1..][j] == rest[k];
        assert s[j + 1] == rest[k];
      }
    }
  }

  /** Puts `o` after the entries strictly newer than it and before all others. */
  function Insert(o: RemoteObject, s: seq<RemoteObject>): (r: seq<RemoteObject>)
    requires NewestFirst(s)
    ensures NewestFirst(r)
    ensures multiset(r) == multiset(s) + multiset{o}
  {
    if |s| == 0 || s[0].lastModified <= o.lastModified then
      ConsNewestFirst(o, s);
      [o] + s
    else
      var rest := Insert(o, s[1..]);
      assert s == [s[0]] + s[1..];
      HeadBoundsRest(o, s, rest);
      ConsNewestFirst(s[0], rest);
      [s[0]] + rest
  }

  /** `objs.sort(key=lambda x: x[1], reverse=True)`: insertion sort, stable as Python's sort is. */
  function SortNewestFirst(s: seq<RemoteObject>): (r: seq<RemoteObject>)
    ensures NewestFirst(r)
    ensures multiset(r) == multiset(s)
  {
    if |s| == 0 then []
    else
      assert s == [s[0]] + s[1..];
      Insert(s[0], SortNewestFirst(s[1..]))
  }

  /** A prefix of a newest-first enumeration of `objs` leaves out nothing strictly newer than what it takes. */
  lemma PrefixTakesNewest(objs: seq<RemoteObject>, s: seq<RemoteObject>, m: nat)
    requires NewestFirst(s) && multiset(s) == multiset(objs) && m <= |s|
    ensures multiset(s[..m]) <= multiset(objs)
    ensures forall o, x :: o in objs && x in s[..m] && x.lastModified < o.lastModified ==> o in s[..m]
  {
    var r := s[..m];
    assert s == r + s[m..];
    assert multiset(s) == multiset(r) + multiset(s[m..]);
    forall o, x | o in objs && x in r && x.lastModified < o.lastModified ensures o in r {
      assert o in multiset(s);
      var j :| 0 <= j < |s| && s[j] == o;
      var i :| 0 <= i < m && s[i] == x;
    }
  }

  /**
   * `objs[:MAX_FILES]` after the sort: as many objects as allowed, newest first, drawn from
   * the listing, and no object left out is strictly newer than one taken (ties may go either way).
   */
  function SelectNewest(objs: seq<RemoteObject>, n: nat): (r: seq<RemoteObject>)
    ensures |r| == if |objs| <= n then |objs| else n
    ensures NewestFirst(r)
    ensures multiset(r) <= multiset(objs)
    ensures forall o, x :: o in objs && x in r && x.lastModified < o.lastModified ==> o in r
  {
    var s := SortNewestFirst(objs);
    assert |s| == |multiset(s)| == |multiset(objs)| == |objs|;
    var m := if |s| <= n then |s| else n;
    PrefixTakesNewest(objs, s, m);
    s[..m]
  }

  /** A sub-multiset as large as the whole is the whole. */
  lemma SubMultisetOfSameSize(a: multiset<RemoteObject>, b: multiset<RemoteObject>)
    requires a <= b && |a| == |b|
    ensures a == b
  {
    assert b == a + (b - a);
  }

  /**
   * `list_today_files` before it drops the timestamps: the objects listed under today's
   * prefix for the pair, newest first, at most `maxFiles` of them, and none left out that is
   * strictly newer than one selected.
   */
  function SelectToday(site: string, product: string, today: DateTime, bucket: seq<RemoteObject>, maxFiles: nat)
    : (r: seq<RemoteObject>)
    requires Valid(today)
    ensures |r| <= maxFiles
    ensures |r| == maxFiles || |r| == |UnderPrefix(bucket, DayPrefix(site, product, today))|
    ensures multiset(r) <= multiset(UnderPrefix(bucket, DayPrefix(site, product, today)))
    ensures |UnderPrefix(bucket, DayPrefix(site, product, today))| <= maxFiles ==>
              multiset(r) == multiset(UnderPrefix(bucket, DayPrefix(site, product, today)))
    ensures forall o :: o in r ==> o in bucket && StartsWith(o.key, DayPrefix(site, product, today))
    ensures NewestFirst(r)
    ensures forall o, x ::
              (o in bucket && StartsWith(o.key, DayPrefix(site, product, today)) && x in r && x.lastModified < o.lastModified)
              ==> o in r
  {
    var listed := UnderPrefix(bucket, DayPrefix(site, product, today));
    var r := SelectNewest(listed, maxFiles);
    assert |listed| <= maxFiles ==> multiset(r) == multiset(listed) by {
      if |listed| <= maxFiles {
        SubMultisetOfSameSize(multiset(r), multiset(listed));
      }
    }
    assert forall o :: o in r ==> o in listed by {
      forall o | o in r ensures o in listed {
        assert o in multiset(r);
      }
    }
    r
  }

  /** `[key for key, _ in objs[:MAX_FILES]]`. */
  function Keys(objs: seq<RemoteObject>): (keys: seq<string>)
    ensures |keys| == |objs|
    ensures forall i :: 0 <= i < |objs| ==> keys[i] == objs[i].key
  {
    if |objs| == 0 then [] else [objs[0].key] + Keys(objs[1..])
  }

  /** The tail `dt_from_key` reads of a key `site_product_x` is `x`. */
  lemma KeyTailAfterPair(site: string, product: string, x: string)
    requires '_' !in site && '_' !in product
    ensures KeyTail(site + "_" + product + "_" + x) == x
  {
    assert site + "_" + product + "_" + x == site + ['_'] + (product + ['_'] + x);
    AfterFirstOf(site, '_', product + ['_'] + x);
    AfterFirstOf(product, '_', x);
  }

  lemma PadInjective(a: nat, b: nat, w: nat)
    requires a < Pow10(w) && b < Pow10(w) && Pad(a, w) == Pad(b, w)
    ensures a == b
  {
  }

  /** A key time that starts with a day's text falls on that day. */
  lemma KeyTimeOnDay(t: DateTime, today: DateTime, rest: string)
    requires Valid(t) && Valid(today)
    requires KeyTimeText(t) == Take(DayText(today) + rest, 19)
    ensures t.year == today.year && t.month == today.month && t.day == today.day
  {
    Pow10Small();
    var d := DayText(today);
    var u := KeyTimeText(t);
    assert u[..11] == d;
    assert u[0..4] == d[0..4];
    PadInjective(t.year, today.year, 4);
    assert u[5..7] == d[5..7];
    PadInjective(t.month, today.month, 2);
    assert u[8..10] == d[8..10];
    PadInjective(t.day, today.day, 2);
  }

  /** The tail `dt_from_key` reads of a key listed under a day's prefix starts with the day's text. */
  lemma ListedKeyTail(site: string, product: string, today: DateTime, key: string)
    requires '_' !in site && '_' !in product && Valid(today)
    requires StartsWith(key, DayPrefix(site, product, today))
    ensures KeyTail(key) == DayText(today) + key[|DayPrefix(site, product, today)|..]
  {
    var p := DayPrefix(site, product, today);
    var d := DayText(today);
    var rest := key[|p|..];
    assert key == p + rest;
    assert p + rest == site + "_" + product + "_" + (d + rest);
    KeyTailAfterPair(site, product, d + rest);
  }

  /** A key time read from a key listed under a day's prefix falls on that day. */
  lemma ListedTimeOnDay(site: string, product: string, today: DateTime, key: string, t: DateTime)
    requires '_' !in site && '_' !in product && Valid(today)
    requires StartsWith(key, DayPrefix(site, product, today))
    requires Valid(t) && KeyTimeText(t) == Take(KeyTail(key), 19)
    ensures t.year == today.year && t.month == today.month && t.day == today.day
  {
    ListedKeyTail(site, product, today, key);
    KeyTimeOnDay(t, today, key[|DayPrefix(site, product, today)|..]);
  }

  /** Every key listed under a day's prefix that parses carries that day's date. */
  lemma ListedKeyHasDate(site: string, product: string, today: DateTime, key: string)
    requires '_' !in site && '_' !in product && Valid(today)
    requires StartsWith(key, DayPrefix(site, product, today))
    requires DtFromKey(key).Ok?
    ensures DtFromKey(key).value.year == today.year
    ensures DtFromKey(key).value.month == today.month
    ensures DtFromKey(key).value.day == today.day
  {
    ListedTimeOnDay(site, product, today, key, DtFromKey(key).value);
  }
}
