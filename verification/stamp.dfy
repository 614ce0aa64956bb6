/**
 * The timestamp codec of getL3.py: reading the date-time embedded in a remote key
 * (`dt_from_key`), writing the canonical local name `YYYYMMDD_HHMMSS`, and reading
 * that name back when a directory is scanned.
 *
 * Parsing is fixed-width: every field has exactly its nominal number of ASCII digits.
 */
module Stamp {
  import opened Wrappers
  import opened Calendar
  import opened Digits

  /** The ValueError `strptime` raises when a key carries no readable date-time. */
  datatype CodecError = MalformedKey(key: string)

  lemma Pow10Small()
    ensures Pow10(2) == 100 && Pow10(4) == 10000
  {
    assert Pow10(1) == 10;
    assert Pow10(3) == 1000;
  }

  // ---------------------------------------------------------------------------
  // Splitting keys

  /** Position of the first `c` in `s`. */
  function IndexOf(s: string, c: char): (i: nat)
    requires c in s
    ensures i < |s| && s[i] == c && c !in s[..i]
  {
    if s[0] == c then 0
    else
      var j := IndexOf(s[1..], c);
      assert s[..j + 1] == [s[0]] + s[1..][..j];
      j + 1
  }

  /** What follows the first `c` of `s`, or all of `s` when there is none: the last piece of `s.split(c, 1)`. */
  function AfterFirst(s: string, c: char): (r: string)
    ensures c in s ==> |r| < |s| && r == s[|s| - |r|..] && s[|s| - |r| - 1] == c && c !in s[..|s| - |r| - 1]
    ensures c !in s ==> r == s
  {
    if c in s then s[IndexOf(s, c) + 1..] else s
  }

  lemma AfterFirstOf(a: string, c: char, b: string)
    requires c !in a
    ensures AfterFirst(a + [c] + b, c) == b
  {
    var s := a + [c] + b;
    assert s[|a|] == c;
  }

  /** `key.split("_", 2)[-1]`: what follows the key's second underscore (its first, or the whole key, when it has fewer). */
  function KeyTail(key: string): string {
    AfterFirst(AfterFirst(key, '_'), '_')
  }

  /** `key.split("/")[-1]`: the longest suffix of the key without a slash. */
  function BaseName(key: string): (r: string)
    ensures '/' !in r
    ensures |r| <= |key| && r == key[|key| - |r|..]
    ensures |r| < |key| ==> key[|key| - |r| - 1] == '/'
    decreases |key|
  {
    if |key| == 0 || key[|key| - 1] == '/' then ""
    else
      var init := key[..|key| - 1];
      var r := BaseName(init) + [key[|key| - 1]];
      assert r == key[|key| - |r|..] by {
        assert init[|init| - (|r| - 1)..] + [key[|key| - 1]] == key[|key| - |r|..];
      }
      r
  }

  /** `s[:n]`. */
  function Take(s: string, n: nat): (r: string)
    ensures |r| == if |s| <= n then |s| else n
    ensures r == s[..|r|]
  {
    if |s| <= n then s else s[..n]
  }

  /** Two strings that agree on a slice agree at each of its positions. */
  lemma SameSlice(u: string, s: string, lo: nat, hi: nat)
    requires lo <= hi <= |u| && hi <= |s| && u[lo..hi] == s[lo..hi]
    ensures forall i :: lo <= i < hi ==> u[i] == s[i]
  {
    forall i | lo <= i < hi ensures u[i] == s[i] {
      assert u[i] == u[lo..hi][i - lo] && s[i] == s[lo..hi][i - lo];
    }
  }

  // ---------------------------------------------------------------------------
  // The key layout `YYYY_MM_DD_HH_MM_SS`

  /** Where the six fields of a key time sit: widths 4, 2, 2, 2, 2, 2, joined by underscores. */
  lemma KeyLayout(a: string, b: string, c: string, d: string, e: string, f: string)
    requires |a| == 4 && |b| == 2 && |c| == 2 && |d| == 2 && |e| == 2 && |f| == 2
    ensures var s := a + "_" + b + "_" + c + "_" + d + "_" + e + "_" + f;
            && |s| == 19
            && s[0..4] == a && s[5..7] == b && s[8..10] == c
            && s[11..13] == d && s[14..16] == e && s[17..19] == f
            && s[4] == '_' && s[7] == '_' && s[10] == '_' && s[13] == '_' && s[16] == '_'
  {
    var s := a + "_" + b + "_" + c + "_" + d + "_" + e + "_" + f;
    var r := a + "_" + b + "_" + c + "_";
    assert s == r + (d + "_" + e + "_" + f);
    assert r[0..4] == a && r[5..7] == b && r[8..10] == c;
    assert s[0..4] == r[0..4] && s[5..7] == r[5..7] && s[8..10] == r[8..10];
  }

  /** How a remote key spells a date-time. */
  function KeyTimeText(t: DateTime): (s: string)
    requires Valid(t)
    ensures |s| == 19
    ensures s[0..4] == Pad(t.year, 4) && s[5..7] == Pad(t.month, 2) && s[8..10] == Pad(t.day, 2)
    ensures s[11..13] == Pad(t.hour, 2) && s[14..16] == Pad(t.minute, 2) && s[17..19] == Pad(t.second, 2)
    ensures s[4] == '_' && s[7] == '_' && s[10] == '_' && s[13] == '_' && s[16] == '_'
  {
    Pow10Small();
    var year, month, day := Pad(t.year, 4), Pad(t.month, 2), Pad(t.day, 2);
    var hour, minute, second := Pad(t.hour, 2), Pad(t.minute, 2), Pad(t.second, 2);
    KeyLayout(year, month, day, hour, minute, second);
    year + "_" + month + "_" + day + "_" + hour + "_" + minute + "_" + second
  }

  predicate KeyTimeShape(s: string) {
    && |s| == 19
    && forall i :: 0 <= i < 19 ==>
         if i == 4 || i == 7 || i == 10 || i == 13 || i == 16 then s[i] == '_' else IsDigit(s[i])
  }

  /** `datetime.strptime(s, "%Y_%m_%d_%H_%M_%S")`, fixed-width. */
  function ParseKeyTime(s: string): Option<DateTime> {
    if !KeyTimeShape(s) then None
    else
      var t := DateTime(Value(s[0..4]), Value(s[5..7]), Value(s[8..10]),
                        Value(s[11..13]), Value(s[14..16]), Value(s[17..19]));
      if Valid(t) then Some(t) else None
  }

  lemma ParseKeyTimeText(t: DateTime)
    requires Valid(t)
    ensures ParseKeyTime(KeyTimeText(t)) == Some(t)
  {
    var s := KeyTimeText(t);
    forall i | 0 <= i < 19
      ensures if i == 4 || i == 7 || i == 10 || i == 13 || i == 16 then s[i] == '_' else IsDigit(s[i])
    {
      if i < 4 { assert s[i] == s[0..4][i]; }
      else if 4 < i < 7 { assert s[i] == s[5..7][i - 5]; }
      else if 7 < i < 10 { assert s[i] == s[8..10][i - 8]; }
      else if 10 < i < 13 { assert s[i] == s[11..13][i - 11]; }
      else if 13 < i < 16 { assert s[i] == s[14..16][i - 14]; }
      else if 16 < i { assert s[i] == s[17..19][i - 17]; }
    }
  }

  /** A 19-character text with the separators of a key time equals a key time with the same six fields. */
  lemma SameKeyText(u: string, s: string)
    requires |u| == 19 && KeyTimeShape(s)
    requires u[4] == '_' && u[7] == '_' && u[10] == '_' && u[13] == '_' && u[16] == '_'
    requires u[0..4] == s[0..4] && u[5..7] == s[5..7] && u[8..10] == s[8..10]
    requires u[11..13] == s[11..13] && u[14..16] == s[14..16] && u[17..19] == s[17..19]
    ensures u == s
  {
    SameSlice(u, s, 0, 4); SameSlice(u, s, 5, 7); SameSlice(u, s, 8, 10);
    SameSlice(u, s, 11, 13); SameSlice(u, s, 14, 16); SameSlice(u, s, 17, 19);
    forall i | 0 <= i < 19 ensures u[i] == s[i] {
      if i == 4 || i == 7 || i == 10 || i == 13 || i == 16 {
        assert s[i] == '_';
      }
    }
  }

  lemma TextOfParseKeyTime(s: string)
    requires ParseKeyTime(s).Some?
    ensures KeyTimeText(ParseKeyTime(s).value) == s
  {
    var t := ParseKeyTime(s).value;
    var u := KeyTimeText(t);
    PadValue(s[0..4]); PadValue(s[5..7]); PadValue(s[8..10]);
    PadValue(s[11..13]); PadValue(s[14..16]); PadValue(s[17..19]);
    SameKeyText(u, s);
  }

  lemma NoKeyTimeText(s: string)
    requires ParseKeyTime(s).None?
    ensures forall t :: Valid(t) ==> KeyTimeText(t) != s
  {
    forall t | Valid(t) ensures KeyTimeText(t) != s {
      ParseKeyTimeText(t);
    }
  }

  /**
   * `dt_from_key`: the date-time spelled by the first 19 characters after the key's second
   * underscore. It succeeds exactly when those characters are the key spelling of a valid
   * date-time, and then returns that date-time.
   */
  function DtFromKey(key: string): (r: Result<DateTime, CodecError>)
    ensures r.Ok? ==> Valid(r.value) && KeyTimeText(r.value) == Take(KeyTail(key), 19)
    ensures r.Err? ==> r.error == MalformedKey(key)
    ensures r.Err? ==> forall t :: Valid(t) ==> KeyTimeText(t) != Take(KeyTail(key), 19)
  {
    var head := Take(KeyTail(key), 19);
    match ParseKeyTime(head)
    case Some(t) => TextOfParseKeyTime(head); Ok(t)
    case None => NoKeyTimeText(head); Err(MalformedKey(key))
  }

  /** A key `site_product_YYYY_MM_DD_HH_MM_SS...` yields the date-time it spells, whatever follows it. */
  lemma DtFromKeyRoundTrip(site: string, product: string, t: DateTime, rest: string)
    requires '_' !in site && '_' !in product && Valid(t)
    ensures DtFromKey(site + "_" + product + "_" + KeyTimeText(t) + rest) == Ok(t)
  {
    var x := KeyTimeText(t);
    var key := site + "_" + product + "_" + x + rest;
    assert key == site + ['_'] + (product + ['_'] + (x + rest));
    AfterFirstOf(site, '_', product + ['_'] + (x + rest));
    AfterFirstOf(product, '_', x + rest);
    assert Take(x + rest, 19) == x;
    ParseKeyTimeText(t);
  }

  // ---------------------------------------------------------------------------
  // The canonical local name `YYYYMMDD_HHMMSS`

  /** Where the six fields of a stamp sit: widths 4, 2, 2, then an underscore, then 2, 2, 2. */
  lemma StampLayout(a: string, b: string, c: string, d: string, e: string, f: string)
    requires |a| == 4 && |b| == 2 && |c| == 2 && |d| == 2 && |e| == 2 && |f| == 2
    ensures var s := a + b + c + "_" + d + e + f;
            && |s| == 15 && s[8] == '_'
            && s[0..4] == a && s[4..6] == b && s[6..8] == c
            && s[9..11] == d && s[11..13] == e && s[13..15] == f
  {
    var s := a + b + c + "_" + d + e + f;
    var r := a + b + c + "_";
    var q := d + e + f;
    assert s == r + q;
    assert r[0..4] == a && r[4..6] == b && r[6..8] == c && r[8] == '_';
    assert q[0..2] == d && q[2..4] == e && q[4..6] == f;
    assert s[0..4] == r[0..4] && s[4..6] == r[4..6] && s[6..8] == r[6..8];
    assert s[9..11] == q[0..2] && s[11..13] == q[2..4] && s[13..15] == q[4..6];
  }

  /** A string whose slices are digit strings has digits at every index those slices cover. */
  lemma DigitsAt(s: string, lo: nat, hi: nat)
    requires lo <= hi <= |s| && AllDigits(s[lo..hi])
    ensures forall i :: lo <= i < hi ==> IsDigit(s[i])
  {
    forall i | lo <= i < hi ensures IsDigit(s[i]) {
      assert s[i] == s[lo..hi][i - lo];
    }
  }

  /** `dt.strftime("%Y%m%d_%H%M%S")`: eight digits, an underscore, six digits. */
  function StampText(t: DateTime): (s: string)
    requires Valid(t)
    ensures |s| == 15 && s[8] == '_'
    ensures forall i :: 0 <= i < 15 && i != 8 ==> IsDigit(s[i])
    ensures s[0..4] == Pad(t.year, 4) && s[4..6] == Pad(t.month, 2) && s[6..8] == Pad(t.day, 2)
    ensures s[9..11] == Pad(t.hour, 2) && s[11..13] == Pad(t.minute, 2) && s[13..15] == Pad(t.second, 2)
  {
    Pow10Small();
    var year, month, day := Pad(t.year, 4), Pad(t.month, 2), Pad(t.day, 2);
    var hour, minute, second := Pad(t.hour, 2), Pad(t.minute, 2), Pad(t.second, 2);
    var s := year + month + day + "_" + hour + minute + second;
    StampLayout(year, month, day, hour, minute, second);
    DigitsAt(s, 0, 4); DigitsAt(s, 4, 6); DigitsAt(s, 6, 8);
    DigitsAt(s, 9, 11); DigitsAt(s, 11, 13); DigitsAt(s, 13, 15);
    s
  }

  predicate StampShape(s: string) {
    |s| == 15 && s[8] == '_' && forall i :: 0 <= i < 15 && i != 8 ==> IsDigit(s[i])
  }

  /** `datetime.strptime(name, "%Y%m%d_%H%M%S")`, fixed-width; `None` where Python raises ValueError. */
  function ParseStamp(s: string): Option<DateTime> {
    if !StampShape(s) then None
    else
      var t := DateTime(Value(s[0..4]), Value(s[4..6]), Value(s[6..8]),
                        Value(s[9..11]), Value(s[11..13]), Value(s[13..15]));
      if Valid(t) then Some(t) else None
  }

  /** A stamp written for a valid date-time reads back as that date-time. */
  lemma ParseStampText(t: DateTime)
    requires Valid(t)
    ensures ParseStamp(StampText(t)) == Some(t)
  {
  }

  /** A 15-character text with an underscore at index 8 equals a stamp with the same six fields. */
  lemma SameStampText(u: string, s: string)
    requires |u| == 15 && StampShape(s) && u[8] == '_'
    requires u[0..4] == s[0..4] && u[4..6] == s[4..6] && u[6..8] == s[6..8]
    requires u[9..11] == s[9..11] && u[11..13] == s[11..13] && u[13..15] == s[13..15]
    ensures u == s
  {
    SameSlice(u, s, 0, 4); SameSlice(u, s, 4, 6); SameSlice(u, s, 6, 8);
    SameSlice(u, s, 9, 11); SameSlice(u, s, 11, 13); SameSlice(u, s, 13, 15);
    assert forall i :: 0 <= i < 15 ==> u[i] == s[i];
  }

  /** Every name that parses as a stamp is the stamp of what it parses to: names and date-times correspond one to one. */
  lemma StampTextOfParse(s: string)
    requires ParseStamp(s).Some?
    ensures Valid(ParseStamp(s).value)
    ensures StampText(ParseStamp(s).value) == s
  {
    var t := ParseStamp(s).value;
    var u := StampText(t);
    PadValue(s[0..4]); PadValue(s[4..6]); PadValue(s[6..8]);
    PadValue(s[9..11]); PadValue(s[11..13]); PadValue(s[13..15]);
    SameStampText(u, s);
  }

  /** Two names that parse to the same date-time are the same name. */
  lemma ParseStampInjective(a: string, b: string)
    requires ParseStamp(a).Some? && ParseStamp(a) == ParseStamp(b)
    ensures a == b
  {
    StampTextOfParse(a);
    StampTextOfParse(b);
  }
}
