/**
 * `write_global_config`: the GRLevel3 polling configuration at the top of the served tree.
 * `config.cfg` lists every site and product; `grlevel3.cfg` is produced by reading
 * `config.cfg` back line by line and rewriting each `Site: X` line to `Site: KX`.
 */
module Config {
  import opened Wrappers
  import opened Files
  import opened Lines

  /** The polled radars, without the leading call-sign letter. */
  const Sites: seq<string> := ["TLX", "GSP"]

  /**
   * The polled product codes in sorted order, which is the order the configuration lists
   * them; cut into rows only so that each row's contents can be checked on its own.
   */
  const ProductCodes: seq<string> :=
    CodeRow0 + CodeRow1 + CodeRow2 + CodeRow3 + CodeRow4
    + CodeRow5 + CodeRow6 + CodeRow7 + CodeRow8 + CodeRow9

  const CodeRow0: seq<string> := ["DAA", "DHR", "DOD", "DPR", "DSD", "DSP", "DTA", "DU3", "DU6", "DVL", "EET", "GSM", "HHC"]
  const CodeRow1: seq<string> := ["N0B", "N0C", "N0E", "N0G", "N0H", "N0K", "N0M", "N0R", "N0S", "N0U", "N0V", "N0X", "N0Z"]
  const CodeRow2: seq<string> := ["N1B", "N1C", "N1E", "N1G", "N1H", "N1K", "N1M", "N1P", "N1Q", "N1S", "N1U", "N1X"]
  const CodeRow3: seq<string> := ["N2B", "N2C", "N2E", "N2G", "N2H", "N2K", "N2M", "N2Q", "N2S", "N2U", "N2X"]
  const CodeRow4: seq<string> := ["N3B", "N3C", "N3E", "N3G", "N3H", "N3K", "N3M", "N3Q", "N3S", "N3U", "N3X"]
  const CodeRow5: seq<string> := ["NAB", "NAC", "NAE", "NAG", "NAH", "NAK", "NAM", "NAQ", "NAU", "NAX"]
  const CodeRow6: seq<string> := ["NBB", "NBC", "NBE", "NBG", "NBH", "NBK", "NBM", "NBQ", "NBU", "NBX"]
  const CodeRow7: seq<string> := ["NCR", "NET", "NMD", "NST", "NTP", "NVL", "NVW"]
  const CodeRow8: seq<string> := ["NXB", "NXE", "NXG", "NXU", "NYB", "NYE", "NYG", "NYU", "NZB", "NZE", "NZG", "NZU"]
  const CodeRow9: seq<string> := ["OHA", "SPD", "SRV", "TR0", "TR1", "TR2", "TV0", "TV1", "TV2", "TZ0", "TZ1", "TZ2", "TZL"]

  const ConfigName := "config.cfg"
  const CloneName := "grlevel3.cfg"

  /** The three lines every configuration opens with. */
  const Header: seq<string> := [Line("; autogenerated"), Line("ListFile: dir.list"), Line("")]

  /** `fh.write(f"...\n")`: one written line. */
  function Line(body: string): string {
    body + "\n"
  }

  function SiteLine(site: string): string {
    Line("Site: " + site)
  }

  function ProductLine(p: string): string {
    Line("Product: " + p + "   SSS/" + p)
  }

  /**
   * The lines of `config.cfg`: the header, one line per site, a blank line, one line per
   * product, each in the order given.
   */
  function ConfigLines(sites: seq<string>, products: seq<string>): (ls: seq<string>)
    ensures |ls| == |Header| + |sites| + 1 + |products|
    ensures ls[..|Header|] == Header && ls[|Header| + |sites|] == Line("")
    ensures forall i :: 0 <= i < |sites| ==> ls[|Header| + i] == SiteLine(sites[i])
    ensures forall i :: 0 <= i < |products| ==> ls[|Header| + |sites| + 1 + i] == ProductLine(products[i])
  {
    Header
      + seq(|sites|, i requires 0 <= i < |sites| => SiteLine(sites[i]))
      + [Line("")]
      + seq(|products|, i requires 0 <= i < |products| => ProductLine(products[i]))
  }

  function ConfigText(sites: seq<string>, products: seq<string>): string {
    Concat(ConfigLines(sites, products))
  }

  /**
   * One line of the copy: a line starting `Site: ` becomes `Site: K` and its second word;
   * `None` is the `IndexError` such a line raises when it has fewer than two words.
   * Every other line is copied as read.
   */
  function CloneLine(line: string): (r: Option<string>)
    ensures !StartsWith(line, "Site: ") ==> r == Some(line)
    ensures r.None? <==> StartsWith(line, "Site: ") && |Words(line)| < 2
  {
    if StartsWith(line, "Site: ") then
      var ws := Words(line);
      if |ws| < 2 then None else Some("Site: K" + ws[1] + "\n")
    else Some(line)
  }

  /** What the copy loop leaves in `grlevel3.cfg`, and whether it stopped on an exception. */
  datatype Copy = Copy(text: string, failed: bool)

  /** The copy loop over the lines read: each rewritten line is written until one raises. */
  function CloneLines(lines: seq<string>): (c: Copy)
    ensures c.failed <==> exists i :: 0 <= i < |lines| && CloneLine(lines[i]).None?
  {
    if |lines| == 0 then Copy("", false)
    else
      match CloneLine(lines[0])
      case None => Copy("", true)
      case Some(l) =>
        var rest := CloneLines(lines[1..]);
        assert forall i :: 1 <= i < |lines| ==> lines[i] == lines[1..][i - 1];
        Copy(l + rest.text, rest.failed)
  }

  /** Reading `config.cfg` back in text mode and copying it line by line. */
  function GrLevel3(written: string): Copy {
    CloneLines(SplitKeepEnds(UniversalNewlines(written)))
  }

  /** The reference `grlevel3.cfg`: `config.cfg` with every site line carrying the `K` call-sign letter. */
  function GrLevel3Lines(sites: seq<string>, products: seq<string>): seq<string> {
    Header
      + seq(|sites|, i requires 0 <= i < |sites| => SiteLine("K" + sites[i]))
      + [Line("")]
      + seq(|products|, i requires 0 <= i < |products| => ProductLine(products[i]))
  }

  /** What one run of `write_global_config` leaves at the top of the tree. */
  datatype ConfigOutcome = ConfigOutcome(root: Dir, completed: bool)

  /**
   * `write_global_config`: `config.cfg` is overwritten with the configuration text, then
   * `grlevel3.cfg` with the copy of it as read back; `completed` is false when the copy
   * raised, and then `grlevel3.cfg` holds the lines copied before the failure.
   */
  function WriteGlobalConfig(root: Dir, sites: seq<string>, products: seq<string>): (r: ConfigOutcome)
    ensures r.root.Keys == root.Keys + {ConfigName, CloneName}
    ensures forall k :: k in root && k != ConfigName && k != CloneName ==> r.root[k] == root[k]
    ensures r.root[ConfigName] == Text(ConfigText(sites, products))
    ensures r.root[CloneName] == Text(GrLevel3(ConfigText(sites, products)).text)
    ensures r.completed <==> !GrLevel3(ConfigText(sites, products)).failed
  {
    var written := ConfigText(sites, products);
    var copy := GrLevel3(written);
    ConfigOutcome(root[ConfigName := Text(written)][CloneName := Text(copy.text)], !copy.failed)
  }

  // ---------------------------------------------------------------------------
  // Reading the configuration back

  predicate NoLineBreak(s: string) {
    '\r' !in s && '\n' !in s
  }

  /** Site names `str.split()` keeps whole, and product codes that stay on their line. */
  predicate WellFormed(sites: seq<string>, products: seq<string>) {
    && (forall i :: 0 <= i < |sites| ==> NoSpace(sites[i]))
    && (forall i :: 0 <= i < |products| ==> NoLineBreak(products[i]))
  }

  lemma NoSpaceNoLineBreak(s: string)
    requires NoSpace(s)
    ensures NoLineBreak(s)
  {
    assert IsSpace('\r') && IsSpace('\n');
  }

  lemma {:induction false} ConcatWithout(lines: seq<string>, c: char)
    requires forall i :: 0 <= i < |lines| ==> c !in lines[i]
    ensures c !in Concat(lines)
  {
    if |lines| > 0 {
      ConcatWithout(lines[1..], c);
    }
  }

  /** A line made of text without breaks and one final newline. */
  predicate OneLine(l: string) {
    |l| > 0 && l[|l| - 1] == '\n' && NoLineBreak(l[..|l| - 1])
  }

  lemma BodyOneLine(body: string)
    requires NoLineBreak(body)
    ensures OneLine(Line(body))
  {
    assert Line(body)[..|body|] == body;
  }

  lemma HeaderAreLines()
    ensures forall i :: 0 <= i < |Header| ==> OneLine(Header[i])
  {
    BodyOneLine("; autogenerated");
    BodyOneLine("ListFile: dir.list");
    BodyOneLine("");
  }

  lemma SiteLineIsLine(s: string)
    requires NoSpace(s)
    ensures OneLine(SiteLine(s))
  {
    NoSpaceNoLineBreak(s);
    BodyOneLine("Site: " + s);
  }

  lemma ProductLineIsLine(p: string)
    requires NoLineBreak(p)
    ensures OneLine(ProductLine(p))
  {
    BodyOneLine("Product: " + p + "   SSS/" + p);
  }

  lemma ConfigLinesAreLines(sites: seq<string>, products: seq<string>)
    requires WellFormed(sites, products)
    ensures forall i :: 0 <= i < |ConfigLines(sites, products)| ==> OneLine(ConfigLines(sites, products)[i])
  {
    var ls := ConfigLines(sites, products);
    var h := |Header|;
    HeaderAreLines();
    BodyOneLine("");
    forall i | 0 <= i < |ls| ensures OneLine(ls[i]) {
      if i < h {
        assert ls[i] == ls[..h][i];
      } else if i < h + |sites| {
        SiteLineIsLine(sites[i - h]);
      } else if h + |sites| < i {
        ProductLineIsLine(products[i - h - |sites| - 1]);
      }
    }
  }

  /** Read back in text mode, `config.cfg` splits into exactly the lines written. */
  lemma ReadBackConfig(sites: seq<string>, products: seq<string>)
    requires WellFormed(sites, products)
    ensures SplitKeepEnds(UniversalNewlines(ConfigText(sites, products))) == ConfigLines(sites, products)
  {
    var ls := ConfigLines(sites, products);
    ConfigLinesAreLines(sites, products);
    forall i | 0 <= i < |ls| ensures '\r' !in ls[i] {
      assert ls[i] == ls[i][..|ls[i]| - 1] + "\n";
    }
    ConcatWithout(ls, '\r');
    UniversalNewlinesNoCR(ConfigText(sites, products));
    SplitConcat(ls);
  }

  /** A non-empty word followed by a line break is that one word. */
  lemma LineWords(s: string)
    requires |s| > 0 && NoSpace(s)
    ensures Words(s + "\n") == [s]
  {
    assert Words("\n") == [] by {
      assert IsSpace("\n"[0]) && "\n"[1..] == "";
    }
    WordsCons(s, "\n");
  }

  /** The words of a site line are `Site:` and the site itself. */
  lemma SiteLineWords(s: string)
    requires |s| > 0 && NoSpace(s)
    ensures Words(SiteLine(s)) == ["Site:", s]
  {
    var tail := s + "\n";
    LineWords(s);
    assert IsSpace(" "[0]);
    WordsSkipSpaces(" ", tail);
    assert SiteLine(s) == "Site:" + (" " + tail);
    WordsCons("Site:", " " + tail);
  }

  /** An empty site gives a site line with a single word. */
  lemma EmptySiteLineWords()
    ensures Words(SiteLine("")) == ["Site:"]
  {
    assert SiteLine("") == "Site:" + " \n";
    WordsCons("Site:", " \n");
    WordsSkipSpaces(" \n", "");
    assert " \n" + "" == " \n";
  }

  lemma {:induction false} CloneLinesMatch(ls: seq<string>, gs: seq<string>)
    requires |ls| == |gs|
    requires forall i :: 0 <= i < |ls| ==> CloneLine(ls[i]) == Some(gs[i])
    ensures CloneLines(ls) == Copy(Concat(gs), false)
  {
    if |ls| > 0 {
      CloneLinesMatch(ls[1..], gs[1..]);
    }
  }

  lemma SiteLineClone(s: string)
    requires |s| > 0 && NoSpace(s)
    ensures CloneLine(SiteLine(s)) == Some(SiteLine("K" + s))
  {
    SiteLineWords(s);
    assert StartsWith(SiteLine(s), "Site: ");
    assert "Site: K" + s == "Site: " + ("K" + s);
  }

  lemma OtherLineClone(l: string)
    requires |l| > 0 && l[0] != 'S'
    ensures CloneLine(l) == Some(l)
  {
  }

  /** Line by line, the copy of `config.cfg` is the reference `grlevel3.cfg`. */
  lemma ConfigLinesClone(sites: seq<string>, products: seq<string>)
    requires WellFormed(sites, products)
    requires forall i :: 0 <= i < |sites| ==> |sites[i]| > 0
    ensures |ConfigLines(sites, products)| == |GrLevel3Lines(sites, products)|
    ensures forall i :: 0 <= i < |ConfigLines(sites, products)| ==>
              CloneLine(ConfigLines(sites, products)[i]) == Some(GrLevel3Lines(sites, products)[i])
  {
    var ls := ConfigLines(sites, products);
    var gs := GrLevel3Lines(sites, products);
    var h := |Header|;
    forall i | 0 <= i < |ls| ensures CloneLine(ls[i]) == Some(gs[i]) {
      if i < h {
        assert ls[i] == ls[..h][i] == Header[i];
        assert gs[i] == Header[i];
        OtherLineClone(Header[i]);
      } else if i < h + |sites| {
        SiteLineClone(sites[i - h]);
      } else if i == h + |sites| {
        OtherLineClone(Line(""));
      } else {
        var p := products[i - h - |sites| - 1];
        assert ProductLine(p)[0] == 'P';
        OtherLineClone(ProductLine(p));
      }
    }
  }

  /**
   * With non-empty site names free of whitespace and single-line product codes, the copy
   * completes and `grlevel3.cfg` is `config.cfg` with `Site: X` turned into `Site: KX`.
   */
  lemma GrLevel3Rewrite(sites: seq<string>, products: seq<string>)
    requires WellFormed(sites, products)
    requires forall i :: 0 <= i < |sites| ==> |sites[i]| > 0
    ensures GrLevel3(ConfigText(sites, products)) == Copy(Concat(GrLevel3Lines(sites, products)), false)
  {
    ReadBackConfig(sites, products);
    ConfigLinesClone(sites, products);
    CloneLinesMatch(ConfigLines(sites, products), GrLevel3Lines(sites, products));
  }

  /** An empty site name makes the copy raise at its line, leaving `grlevel3.cfg` incomplete. */
  lemma EmptySiteAborts(sites: seq<string>, products: seq<string>)
    requires WellFormed(sites, products) && "" in sites
    ensures !WriteGlobalConfig(map[], sites, products).completed
  {
    ReadBackConfig(sites, products);
    var j :| 0 <= j < |sites| && sites[j] == "";
    var ls := ConfigLines(sites, products);
    EmptySiteLineWords();
    assert CloneLine(ls[|Header| + j]).None?;
  }

  lemma CodeRow0OneLine() ensures forall p :: p in CodeRow0 ==> NoLineBreak(p) {}
  lemma CodeRow1OneLine() ensures forall p :: p in CodeRow1 ==> NoLineBreak(p) {}
  lemma CodeRow2OneLine() ensures forall p :: p in CodeRow2 ==> NoLineBreak(p) {}
  lemma CodeRow3OneLine() ensures forall p :: p in CodeRow3 ==> NoLineBreak(p) {}
  lemma CodeRow4OneLine() ensures forall p :: p in CodeRow4 ==> NoLineBreak(p) {}
  lemma CodeRow5OneLine() ensures forall p :: p in CodeRow5 ==> NoLineBreak(p) {}
  lemma CodeRow6OneLine() ensures forall p :: p in CodeRow6 ==> NoLineBreak(p) {}
  lemma CodeRow7OneLine() ensures forall p :: p in CodeRow7 ==> NoLineBreak(p) {}
  lemma CodeRow8OneLine() ensures forall p :: p in CodeRow8 ==> NoLineBreak(p) {}
  lemma CodeRow9OneLine() ensures forall p :: p in CodeRow9 ==> NoLineBreak(p) {}

  lemma CodeRowsOneLine()
    ensures forall p :: p in ProductCodes ==> NoLineBreak(p)
  {
    CodeRow0OneLine(); CodeRow1OneLine(); CodeRow2OneLine(); CodeRow3OneLine(); CodeRow4OneLine();
    CodeRow5OneLine(); CodeRow6OneLine(); CodeRow7OneLine(); CodeRow8OneLine(); CodeRow9OneLine();
  }

  /**
   * Python's string order on three-character codes: by the first character, then the
   * second, then the third.
   */
  function CodeRank(c: string): int {
    if |c| == 3 then (c[0] as int) * 0x10000 + (c[1] as int) * 0x100 + (c[2] as int) else -1
  }

  /** Each code ranks strictly below the next one. */
  predicate Ascending(s: seq<string>) {
    forall i :: 0 <= i < |s| - 1 ==> CodeRank(s[i]) < CodeRank(s[i + 1])
  }

  /** Ranks that rise from each code to the next rise from every code to every later one. */
  lemma {:induction false} AscendingIncreasing(s: seq<string>)
    requires Ascending(s)
    ensures forall i, j :: 0 <= i < j < |s| ==> CodeRank(s[i]) < CodeRank(s[j])
    decreases |s|
  {
    if |s| > 1 {
      var rest := s[1..];
      assert Ascending(rest) by {
        forall i | 0 <= i < |rest| - 1 ensures CodeRank(rest[i]) < CodeRank(rest[i + 1]) {
          assert rest[i] == s[i + 1] && rest[i + 1] == s[i + 2];
        }
      }
      AscendingIncreasing(rest);
      forall i, j | 0 <= i < j < |s| ensures CodeRank(s[i]) < CodeRank(s[j]) {
        assert s[j] == rest[j - 1];
        if i > 0 {
          assert s[i] == rest[i - 1];
        } else if j > 1 {
          assert s[1] == rest[0];
        }
      }
    }
  }

  lemma AscendingAppend(a: seq<string>, b: seq<string>)
    requires Ascending(a) && Ascending(b) && |a| > 0 && |b| > 0
    requires CodeRank(a[|a| - 1]) < CodeRank(b[0])
    ensures Ascending(a + b)
  {
    var c := a + b;
    forall i | 0 <= i < |c| - 1 ensures CodeRank(c[i]) < CodeRank(c[i + 1]) {
      if i + 1 < |a| {
        assert c[i] == a[i] && c[i + 1] == a[i + 1];
      } else if i >= |a| {
        assert c[i] == b[i - |a|] && c[i + 1] == b[i + 1 - |a|];
      } else {
        assert c[i] == a[|a| - 1] && c[i + 1] == b[0];
      }
    }
  }

  lemma CodeRow0Ascending() ensures Ascending(CodeRow0) {}
  lemma CodeRow1Ascending() ensures Ascending(CodeRow1) {}
  lemma CodeRow2Ascending() ensures Ascending(CodeRow2) {}
  lemma CodeRow3Ascending() ensures Ascending(CodeRow3) {}
  lemma CodeRow4Ascending() ensures Ascending(CodeRow4) {}
  lemma CodeRow5Ascending() ensures Ascending(CodeRow5) {}
  lemma CodeRow6Ascending() ensures Ascending(CodeRow6) {}
  lemma CodeRow7Ascending() ensures Ascending(CodeRow7) {}
  lemma CodeRow8Ascending() ensures Ascending(CodeRow8) {}
  lemma CodeRow9Ascending() ensures Ascending(CodeRow9) {}

  /**
   * `sorted({...})`: the product codes are in strictly increasing order, so none is listed
   * twice; the two sites differ.
   */
  lemma ShippedListsStrictlySorted()
    ensures forall i, j :: 0 <= i < j < |ProductCodes| ==> CodeRank(ProductCodes[i]) < CodeRank(ProductCodes[j])
    ensures Sites[0] != Sites[1] && |Sites| == 2
  {
    CodeRow0Ascending(); CodeRow1Ascending(); CodeRow2Ascending(); CodeRow3Ascending(); CodeRow4Ascending();
    CodeRow5Ascending(); CodeRow6Ascending(); CodeRow7Ascending(); CodeRow8Ascending(); CodeRow9Ascending();
    var acc := CodeRow0;
    AscendingAppend(acc, CodeRow1); acc := acc + CodeRow1;
    AscendingAppend(acc, CodeRow2); acc := acc + CodeRow2;
    AscendingAppend(acc, CodeRow3); acc := acc + CodeRow3;
    AscendingAppend(acc, CodeRow4); acc := acc + CodeRow4;
    AscendingAppend(acc, CodeRow5); acc := acc + CodeRow5;
    AscendingAppend(acc, CodeRow6); acc := acc + CodeRow6;
    AscendingAppend(acc, CodeRow7); acc := acc + CodeRow7;
    AscendingAppend(acc, CodeRow8); acc := acc + CodeRow8;
    AscendingAppend(acc, CodeRow9); acc := acc + CodeRow9;
    AscendingIncreasing(acc);
  }

  /** The configured sites and products are well formed, so every cycle's copy completes. */
  lemma ShippedConfigCompletes(root: Dir)
    ensures WriteGlobalConfig(root, Sites, ProductCodes).completed
    ensures WriteGlobalConfig(root, Sites, ProductCodes).root[CloneName]
            == Text(Concat(GrLevel3Lines(Sites, ProductCodes)))
  {
    assert NoSpace(Sites[0]) && NoSpace(Sites[1]);
    CodeRowsOneLine();
    forall i | 0 <= i < |ProductCodes| ensures NoLineBreak(ProductCodes[i]) {
      assert ProductCodes[i] in ProductCodes;
    }
    GrLevel3Rewrite(Sites, ProductCodes);
  }
}
