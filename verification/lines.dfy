/**
 * Text as getL3.py writes and reads it: lines ended by a newline, Python's text-mode
 * reading (universal newlines, iteration by line), and `str.split()` on whitespace.
 */
module Lines {
  import opened Stamp

  /** `s.startswith(prefix)`. */
  predicate StartsWith(s: string, prefix: string) {
    |prefix| <= |s| && s[..|prefix|] == prefix
  }

  /** Each name followed by a newline: `for name in names: fh.write(name + "\n")`. */
  function JoinLines(names: seq<string>): (s: string)
    ensures |names| == 0 <==> |s| == 0
  {
    if |names| == 0 then "" else names[0] + "\n" + JoinLines(names[1..])
  }

  lemma {:induction false} JoinLinesSnoc(names: seq<string>, x: string)
    ensures JoinLines(names + [x]) == JoinLines(names) + x + "\n"
  {
    if |names| == 0 {
      assert names + [x] == [x];
    } else {
      assert (names + [x])[1..] == names[1..] + [x];
      JoinLinesSnoc(names[1..], x);
    }
  }

  /** Lines that already carry their ends, written one after the other. */
  function Concat(lines: seq<string>): string {
    if |lines| == 0 then "" else lines[0] + Concat(lines[1..])
  }

  /** Text cut at its newlines, the newlines dropped: how a reader takes a list file apart. */
  function SplitLines(s: string): seq<string>
    decreases |s|
  {
    if |s| == 0 then []
    else if '\n' in s then
      var i := IndexOf(s, '\n');
      [s[..i]] + SplitLines(s[i + 1..])
    else [s]
  }

  /** A list written one name per line reads back as the same names. */
  lemma {:induction false} SplitJoinLines(names: seq<string>)
    requires forall i :: 0 <= i < |names| ==> '\n' !in names[i]
    ensures SplitLines(JoinLines(names)) == names
  {
    if |names| > 0 {
      var s := JoinLines(names);
      var rest := JoinLines(names[1..]);
      assert s == names[0] + ['\n'] + rest;
      assert s[|names[0]|] == '\n';
      var i := IndexOf(s, '\n');
      assert i == |names[0]|;
      assert s[..i] == names[0];
      assert s[i + 1..] == rest;
      SplitJoinLines(names[1..]);
    }
  }

  /** Iterating over a text file: pieces ending just after each newline, and a last piece without one. */
  function SplitKeepEnds(s: string): seq<string>
    decreases |s|
  {
    if |s| == 0 then []
    else if '\n' in s then
      var i := IndexOf(s, '\n');
      [s[..i + 1]] + SplitKeepEnds(s[i + 1..])
    else [s]
  }

  /** Text-mode reading with universal newlines: `\r\n` and a lone `\r` both read as `\n`. */
  function UniversalNewlines(s: string): string
    decreases |s|
  {
    if |s| == 0 then ""
    else if s[0] == '\r' then
      "\n" + UniversalNewlines(if |s| > 1 && s[1] == '\n' then s[2..] else s[1..])
    else [s[0]] + UniversalNewlines(s[1..])
  }

  /** Text without carriage returns reads back unchanged. */
  lemma {:induction false} UniversalNewlinesNoCR(s: string)
    requires '\r' !in s
    ensures UniversalNewlines(s) == s
  {
    if |s| > 0 {
      assert s == [s[0]] + s[1..];
      UniversalNewlinesNoCR(s[1..]);
    }
  }

  /** Lines that each end in their only newline, written and read back, are the same lines. */
  lemma {:induction false} SplitConcat(lines: seq<string>)
    requires forall i :: 0 <= i < |lines| ==>
               |lines[i]| > 0 && lines[i][|lines[i]| - 1] == '\n' && '\n' !in lines[i][..|lines[i]| - 1]
    ensures SplitKeepEnds(Concat(lines)) == lines
  {
    if |lines| > 0 {
      var l := lines[0];
      var s := Concat(lines);
      assert s == l + Concat(lines[1..]);
      var n := |l| - 1;
      assert s[n] == '\n';
      var i := IndexOf(s, '\n');
      assert i == n;
      assert s[..i + 1] == l;
      assert s[i + 1..] == Concat(lines[1..]);
      SplitConcat(lines[1..]);
    }
  }

  /** The characters Python's `str.isspace` accepts, which `str.split()` splits at. */
  predicate IsSpace(c: char) {
    || c == ' ' || ('\t' <= c <= '\r') || ('\U{1c}' <= c <= '\U{1f}')
    || c == '\U{85}' || c == '\U{a0}' || c == '\U{1680}' || ('\U{2000}' <= c <= '\U{200a}')
    || c == '\U{2028}' || c == '\U{2029}' || c == '\U{202f}' || c == '\U{205f}' || c == '\U{3000}'
  }

  predicate NoSpace(s: string) {
    forall i :: 0 <= i < |s| ==> !IsSpace(s[i])
  }

  /** The run of non-space characters `s` starts with. */
  function Word(s: string): (w: string)
    ensures |w| <= |s| && w == s[..|w|] && NoSpace(w)
    ensures |w| < |s| ==> IsSpace(s[|w|])
  {
    if |s| == 0 || IsSpace(s[0]) then ""
    else
      var w := [s[0]] + Word(s[1..]);
      assert s[..|w|] == [s[0]] + s[1..][..|w| - 1];
      w
  }

  /** `s.split()`: the maximal runs of non-space characters, in order. */
  function Words(s: string): (ws: seq<string>)
    ensures forall i :: 0 <= i < |ws| ==> |ws[i]| > 0 && NoSpace(ws[i])
    decreases |s|
  {
    if |s| == 0 then []
    else if IsSpace(s[0]) then Words(s[1..])
    else
      var w := Word(s);
      [w] + Words(s[|w|..])
  }

  lemma {:induction false} WordOfPrefix(w: string, rest: string)
    requires NoSpace(w)
    requires |rest| == 0 || IsSpace(rest[0])
    ensures Word(w + rest) == w
  {
    if |w| > 0 {
      assert (w + rest)[1..] == w[1..] + rest;
      WordOfPrefix(w[1..], rest);
    }
  }

  /** A word followed by a space or by nothing is the first word. */
  lemma WordsCons(w: string, rest: string)
    requires |w| > 0 && NoSpace(w)
    requires |rest| == 0 || IsSpace(rest[0])
    ensures Words(w + rest) == [w] + Words(rest)
  {
    WordOfPrefix(w, rest);
    assert (w + rest)[|w|..] == rest;
  }

  /** Leading spaces do not change the words. */
  lemma {:induction false} WordsSkipSpaces(sp: string, rest: string)
    requires forall i :: 0 <= i < |sp| ==> IsSpace(sp[i])
    ensures Words(sp + rest) == Words(rest)
  {
    if |sp| == 0 {
      assert sp + rest == rest;
    } else {
      assert (sp + rest)[0] == sp[0];
      assert (sp + rest)[1..] == sp[1..] + rest;
      WordsSkipSpaces(sp[1..], rest);
    }
  }
}
