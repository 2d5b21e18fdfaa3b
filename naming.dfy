/** Chapter bookkeeping in nodes.py: the chapter list of StoryFlowNode.prep, the
    file names built from chapter numbers, the chapter number recovered from a
    file name, the role hint picked for a chapter and the listing filters. */
module Naming {
  import opened Text

  /** num_chapters in StoryFlowNode.prep. */
  const NumChapters: nat := 3

  /** The last chapter as the role hints name it: a literal of its own, not num_chapters. */
  const EndingChapter: int := 3

  const ChapterPrefix := "chapter-"
  const MarkdownSuffix := ".md"
  const YarnSuffix := ".yarn"

  /** list(range(lo, hi)) */
  function Range(lo: int, hi: int): (r: seq<int>)
    ensures |r| == if lo <= hi then hi - lo else 0
    ensures forall k :: 0 <= k < |r| ==> r[k] == lo + k
    decreases hi - lo
  {
    if lo >= hi then [] else [lo] + Range(lo + 1, hi)
  }

  /** StoryFlowNode.prep: the chapter numbers 1..num_chapters. */
  function ChapterNumbers(): (r: seq<int>)
    ensures |r| == NumChapters
    ensures forall k :: 0 <= k < |r| ==> r[k] == k + 1
    ensures forall k, l :: 0 <= k < l < |r| ==> r[k] < r[l]
    ensures r == [1, 2, 3]
  {
    Range(1, NumChapters + 1)
  }

  // ---------------------------------------------------------------------------
  // Decimal rendering, as "{n:02d}" prints an int

  predicate IsDigit(c: char) { '0' <= c <= '9' }

  predicate IsDigits(s: string) { forall k :: 0 <= k < |s| ==> IsDigit(s[k]) }

  function DigitChar(d: nat): (c: char)
    requires d < 10
    ensures IsDigit(c) && (c as int) - ('0' as int) == d
  {
    (('0' as int) + d) as char
  }

  /** str(n) for n >= 0: the shortest decimal numeral. */
  function Decimal(n: nat): (r: string)
    ensures |r| >= 1 && IsDigits(r)
    ensures |r| == 1 <==> n < 10
    ensures r[0] == '0' <==> n == 0
    decreases n
  {
    if n < 10 then [DigitChar(n)] else Decimal(n / 10) + [DigitChar(n % 10)]
  }

  /** The number a numeral denotes (leading zeros allowed). */
  function DecimalValue(s: string): nat
    requires IsDigits(s)
    decreases |s|
  {
    if s == [] then 0
    else 10 * DecimalValue(s[..|s| - 1]) + ((s[|s| - 1] as int) - ('0' as int))
  }

  lemma {:induction false} DecimalRoundTrip(n: nat)
    ensures DecimalValue(Decimal(n)) == n
    decreases n
  {
    if n >= 10 {
      var r := Decimal(n);
      DecimalRoundTrip(n / 10);
      assert r[..|r| - 1] == Decimal(n / 10);
    }
  }

  /** A leading zero does not change the value of a numeral. */
  lemma {:induction false} DecimalValueLeadingZero(s: string)
    requires IsDigits(s)
    ensures DecimalValue("0" + s) == DecimalValue(s)
    decreases |s|
  {
    if s != [] {
      var t := "0" + s;
      assert t[..|t| - 1] == "0" + s[..|s| - 1];
      DecimalValueLeadingZero(s[..|s| - 1]);
    }
  }

  /** f"{n:02d}": at least two characters, the sign counted; a negative number already
      fills the width with its sign and at least one digit, so it is never zero padded. */
  function Format02(n: int): (r: string)
    ensures |r| >= 2
    ensures n >= 0 ==> IsDigits(r)
    ensures n < 0 ==> r[0] == '-' && IsDigits(r[1..])
    ensures n < 0 ==> r == "-" + Decimal(-n)
    ensures 0 <= n < 100 ==> |r| == 2
    ensures n >= 100 ==> r == Decimal(n)
  {
    if n < 0 then "-" + Decimal(-n)
    else if n < 10 then "0" + Decimal(n)
    else Decimal(n)
  }

  /** Reading a "{n:02d}" rendering back as a number. */
  function Format02Value(s: string): int
    requires (s != [] && s[0] == '-' && IsDigits(s[1..])) || IsDigits(s)
  {
    if s != [] && s[0] == '-' then -(DecimalValue(s[1..]) as int) else DecimalValue(s)
  }

  lemma Format02RoundTrip(n: int)
    ensures Format02Value(Format02(n)) == n
  {
    var r := Format02(n);
    if n < 0 {
      assert r[1..] == Decimal(-n);
      DecimalRoundTrip(-n);
    } else if n < 10 {
      DecimalValueLeadingZero(Decimal(n));
      DecimalRoundTrip(n);
    } else {
      DecimalRoundTrip(n);
    }
  }

  lemma Format02Injective(m: int, n: int)
    ensures Format02(m) == Format02(n) <==> m == n
  {
    if Format02(m) == Format02(n) {
      Format02RoundTrip(m);
      Format02RoundTrip(n);
    }
  }

  // ---------------------------------------------------------------------------
  // File names

  /** f"chapter-{chapter_num:02d}.md" in StoryFlowNode.post. */
  function ChapterFileName(n: int): string
  {
    ChapterPrefix + Format02(n) + MarkdownSuffix
  }

  /** chapter_file.replace("chapter-", "").replace(".md", "") in YarnScriptNode.exec. */
  function ChapterNumberText(file: string): string
  {
    Replace(Replace(file, ChapterPrefix, ""), MarkdownSuffix, "")
  }

  /** chapter_file.replace(".md", ".yarn") in YarnScriptNode.post. */
  function YarnFileName(file: string): string
  {
    Replace(file, MarkdownSuffix, YarnSuffix)
  }

  /** The names YarnScriptNode.prep keeps from a directory listing. */
  predicate IsChapterFile(f: string)
  {
    StartsWith(f, ChapterPrefix) && EndsWith(f, MarkdownSuffix)
  }

  /** The names SummaryNode.prep lists as yarn scripts. */
  predicate IsYarnFile(f: string)
  {
    StartsWith(f, ChapterPrefix) && EndsWith(f, YarnSuffix)
  }

  lemma Format02NoLetters(n: int)
    ensures 'c' !in Format02(n) && '.' !in Format02(n)
  {
    var r := Format02(n);
    if n < 0 {
      assert r == [r[0]] + r[1..];
      forall k | 0 <= k < |r| ensures r[k] != 'c' && r[k] != '.' {
        if k > 0 {
          assert r[k] == r[1..][k - 1];
        }
      }
    }
  }

  /** Chapter file names have the padded number between the prefix and the suffix,
      are what the listing filter keeps, and differ for different numbers. */
  lemma ChapterFileNameShape(n: int)
    ensures IsChapterFile(ChapterFileName(n))
    ensures 1 <= n <= 99 ==> |ChapterFileName(n)| == 13
    ensures 1 <= n <= 9 ==> ChapterFileName(n) == "chapter-0" + [DigitChar(n)] + ".md"
  {
    var f := ChapterFileName(n);
    assert f[..|ChapterPrefix|] == ChapterPrefix;
    assert f[|f| - |MarkdownSuffix|..] == MarkdownSuffix;
  }

  lemma ChapterFileNameInjective(m: int, n: int)
    ensures ChapterFileName(m) == ChapterFileName(n) <==> m == n
  {
    if ChapterFileName(m) == ChapterFileName(n) {
      var fm, fn := ChapterFileName(m), ChapterFileName(n);
      assert fm[8..|fm| - 3] == Format02(m);
      assert fn[8..|fn| - 3] == Format02(n);
      Format02Injective(m, n);
    }
  }

  /** The number text YarnScriptNode.exec recovers from a chapter file name is the
      padded number that StoryFlowNode.post put into it. */
  lemma ChapterNumberRoundTrip(n: int)
    ensures ChapterNumberText(ChapterFileName(n)) == Format02(n)
  {
    var d := Format02(n);
    Format02NoLetters(n);
    calc {
      Replace(ChapterFileName(n), ChapterPrefix, "");
      { assert ChapterFileName(n) == ChapterPrefix + (d + MarkdownSuffix);
        ReplaceHead(d + MarkdownSuffix, ChapterPrefix, ""); }
      "" + Replace(d + MarkdownSuffix, ChapterPrefix, "");
      { ReplaceSkips(d, MarkdownSuffix, ChapterPrefix, ""); }
      "" + (d + Replace(MarkdownSuffix, ChapterPrefix, ""));
      d + MarkdownSuffix;
    }
    calc {
      Replace(d + MarkdownSuffix, MarkdownSuffix, "");
      { ReplaceSkips(d, MarkdownSuffix, MarkdownSuffix, ""); }
      d + Replace(MarkdownSuffix, MarkdownSuffix, "");
      { assert MarkdownSuffix == MarkdownSuffix + "";
        ReplaceHead("", MarkdownSuffix, ""); }
      d + ("" + Replace("", MarkdownSuffix, ""));
      d;
    }
  }

  /** The yarn name of a chapter file swaps the suffix and keeps the padded number;
      it is a yarn name, not a chapter file, and distinct chapters get distinct ones. */
  lemma YarnFileNameOfChapter(n: int)
    ensures YarnFileName(ChapterFileName(n)) == ChapterPrefix + Format02(n) + YarnSuffix
    ensures IsYarnFile(YarnFileName(ChapterFileName(n)))
    ensures !IsChapterFile(YarnFileName(ChapterFileName(n)))
  {
    var d := Format02(n);
    Format02NoLetters(n);
    var p := ChapterPrefix + d;
    assert '.' !in p by {
      forall k | 0 <= k < |p| ensures p[k] != '.' {
        if k >= |ChapterPrefix| {
          assert p[k] == d[k - |ChapterPrefix|];
        }
      }
    }
    calc {
      YarnFileName(ChapterFileName(n));
      { assert ChapterFileName(n) == p + MarkdownSuffix; }
      Replace(p + MarkdownSuffix, MarkdownSuffix, YarnSuffix);
      { ReplaceSkips(p, MarkdownSuffix, MarkdownSuffix, YarnSuffix); }
      p + Replace(MarkdownSuffix, MarkdownSuffix, YarnSuffix);
      { assert MarkdownSuffix == MarkdownSuffix + "";
        ReplaceHead("", MarkdownSuffix, YarnSuffix); }
      p + (YarnSuffix + Replace("", MarkdownSuffix, YarnSuffix));
      p + YarnSuffix;
    }
    var y := p + YarnSuffix;
    assert y[..|ChapterPrefix|] == ChapterPrefix;
    assert y[|y| - |YarnSuffix|..] == YarnSuffix;
    assert y[|y| - 1] == 'n';
  }

  lemma YarnFileNameInjective(m: int, n: int)
    ensures YarnFileName(ChapterFileName(m)) == YarnFileName(ChapterFileName(n)) <==> m == n
  {
    YarnFileNameOfChapter(m);
    YarnFileNameOfChapter(n);
    if YarnFileName(ChapterFileName(m)) == YarnFileName(ChapterFileName(n)) {
      var ym := ChapterPrefix + Format02(m) + YarnSuffix;
      var yn := ChapterPrefix + Format02(n) + YarnSuffix;
      assert ym[8..|ym| - 5] == Format02(m);
      assert yn[8..|yn| - 5] == Format02(n);
      Format02Injective(m, n);
    }
  }

  lemma YarnFileNameOfYarnMd()
    ensures YarnFileName("chapter-1.yarn.md") == "chapter-1.yarn.yarn"
  {
    var p, md, yarn := "chapter-1", MarkdownSuffix, YarnSuffix;
    calc {
      YarnFileName("chapter-1.yarn.md");
      { assert "chapter-1.yarn.md" == p + (yarn + md); }
      Replace(p + (yarn + md), md, yarn);
      { ReplaceSkips(p, yarn + md, md, yarn); }
      p + Replace(yarn + md, md, yarn);
      { assert (yarn + md)[1] == 'y' != md[1];
        assert (yarn + md)[1..] == "yarn" + md; }
      p + ([yarn[0]] + Replace("yarn" + md, md, yarn));
      { ReplaceSkips("yarn", md, md, yarn); }
      p + ([yarn[0]] + ("yarn" + Replace(md, md, yarn)));
      { assert md == md + ""; ReplaceHead("", md, yarn); }
      p + ([yarn[0]] + ("yarn" + (yarn + Replace("", md, yarn))));
      "chapter-1.yarn.yarn";
    }
  }

  lemma YarnFileNameOfMdMd()
    ensures YarnFileName("chapter-1.md.md") == "chapter-1.yarn.yarn"
  {
    var p, md, yarn := "chapter-1", MarkdownSuffix, YarnSuffix;
    calc {
      YarnFileName("chapter-1.md.md");
      { assert "chapter-1.md.md" == p + (md + md); }
      Replace(p + (md + md), md, yarn);
      { ReplaceSkips(p, md + md, md, yarn); }
      p + Replace(md + md, md, yarn);
      { ReplaceHead(md, md, yarn); }
      p + (yarn + Replace(md, md, yarn));
      { assert md == md + ""; ReplaceHead("", md, yarn); }
      p + (yarn + (yarn + Replace("", md, yarn)));
      "chapter-1.yarn.yarn";
    }
  }

  /** Outside the names StoryFlowNode.post writes, two different chapter files can
      share a yarn name: every ".md" is replaced, not only the suffix. */
  lemma YarnFileNameCollision()
    ensures IsChapterFile("chapter-1.yarn.md") && IsChapterFile("chapter-1.md.md")
    ensures YarnFileName("chapter-1.yarn.md") == YarnFileName("chapter-1.md.md")
  {
    YarnFileNameOfYarnMd();
    YarnFileNameOfMdMd();
    assert "chapter-1.yarn.md"[..8] == ChapterPrefix && "chapter-1.yarn.md"[14..] == MarkdownSuffix;
    assert "chapter-1.md.md"[..8] == ChapterPrefix && "chapter-1.md.md"[12..] == MarkdownSuffix;
  }

  // ---------------------------------------------------------------------------
  // Role hints

  /** Which of the three hint lines of the StoryFlowNode.exec prompt are non-empty. */
  datatype Hints = Hints(opening: bool, middle: bool, ending: bool)

  function RoleHints(n: int): Hints
  {
    Hints(n == 1, 1 < n < EndingChapter, n == EndingChapter)
  }

  function HintCount(h: Hints): nat
  {
    (if h.opening then 1 else 0) + (if h.middle then 1 else 0) + (if h.ending then 1 else 0)
  }

  /** Every chapter of the list gets exactly one hint, the first the opening one and
      the last the ending one; any other number gets none. */
  lemma RoleHintsExactlyOne(n: int)
    ensures n in ChapterNumbers() <==> HintCount(RoleHints(n)) == 1
    ensures n !in ChapterNumbers() ==> HintCount(RoleHints(n)) == 0
    ensures RoleHints(n).opening <==> n == ChapterNumbers()[0]
    ensures RoleHints(n).ending <==> n == ChapterNumbers()[NumChapters - 1]
    ensures RoleHints(n).middle <==> n in ChapterNumbers()[1..NumChapters - 1]
  {
    assert ChapterNumbers()[1..NumChapters - 1] == [2];
  }

  // ---------------------------------------------------------------------------
  // Listing filters

  /** [f for f in listing if f.startswith("chapter-") and f.endswith(suffix)] */
  function FilterNames(listing: seq<string>, suffix: string): (r: seq<string>)
    ensures forall k :: 0 <= k < |r| ==> StartsWith(r[k], ChapterPrefix) && EndsWith(r[k], suffix)
    decreases |listing|
  {
    if listing == [] then []
    else
      var rest := FilterNames(listing[1..], suffix);
      if StartsWith(listing[0], ChapterPrefix) && EndsWith(listing[0], suffix)
      then [listing[0]] + rest else rest
  }

  /** The comprehension keeps each name that passes the filter as often as it is
      listed, and no other name. */
  lemma {:induction false} FilterNamesCounts(listing: seq<string>, suffix: string)
    ensures forall x ::
      multiset(FilterNames(listing, suffix))[x] ==
      if StartsWith(x, ChapterPrefix) && EndsWith(x, suffix) then multiset(listing)[x] else 0
    decreases |listing|
  {
    if listing != [] {
      FilterNamesCounts(listing[1..], suffix);
      assert listing == [listing[0]] + listing[1..];
    }
  }

  /** A one-name listing is kept exactly when the name passes the filter. */
  lemma FilterNamesSingle(f: string, suffix: string)
    ensures FilterNames([f], suffix) ==
            if StartsWith(f, ChapterPrefix) && EndsWith(f, suffix) then [f] else []
  {
    assert [f][1..] == [];
  }

  /** One step of the comprehension: the first name is kept or dropped, then the rest. */
  lemma FilterNamesCons(f: string, rest: seq<string>, suffix: string)
    ensures FilterNames([f] + rest, suffix) ==
            if StartsWith(f, ChapterPrefix) && EndsWith(f, suffix)
            then [f] + FilterNames(rest, suffix) else FilterNames(rest, suffix)
  {
    assert ([f] + rest)[0] == f && ([f] + rest)[1..] == rest;
  }

  /** The comprehension keeps the listing's order: filtering a concatenation
      filters each part and concatenates the results. */
  lemma {:induction false} FilterNamesAppend(a: seq<string>, b: seq<string>, suffix: string)
    ensures FilterNames(a + b, suffix) == FilterNames(a, suffix) + FilterNames(b, suffix)
    decreases |a|
  {
    if a == [] {
      assert a + b == b;
    } else {
      var f, rest := a[0], a[1..];
      FilterNamesAppend(rest, b, suffix);
      assert a == [f] + rest && a + b == [f] + (rest + b);
      FilterNamesCons(f, rest, suffix);
      FilterNamesCons(f, rest + b, suffix);
      if StartsWith(f, ChapterPrefix) && EndsWith(f, suffix) {
        ConsAppend(f, FilterNames(rest, suffix), FilterNames(b, suffix));
      }
    }
  }

  lemma ConsAppend(f: string, u: seq<string>, v: seq<string>)
    ensures [f] + (u + v) == ([f] + u) + v
  {
  }

  function ChapterFiles(listing: seq<string>): (r: seq<string>)
    ensures forall k :: 0 <= k < |r| ==> IsChapterFile(r[k])
    ensures forall x :: multiset(r)[x] == if IsChapterFile(x) then multiset(listing)[x] else 0
  {
    FilterNamesCounts(listing, MarkdownSuffix);
    FilterNames(listing, MarkdownSuffix)
  }

  function YarnFiles(listing: seq<string>): (r: seq<string>)
    ensures forall k :: 0 <= k < |r| ==> IsYarnFile(r[k])
    ensures forall x :: multiset(r)[x] == if IsYarnFile(x) then multiset(listing)[x] else 0
  {
    FilterNamesCounts(listing, YarnSuffix);
    FilterNames(listing, YarnSuffix)
  }

  /** No name is both a chapter file and a yarn script. */
  lemma ChapterAndYarnDisjoint(f: string)
    ensures !(IsChapterFile(f) && IsYarnFile(f))
  {
    if EndsWith(f, MarkdownSuffix) {
      assert f[|f| - 1] == f[|f| - |MarkdownSuffix|..][2] == 'd';
    }
    if EndsWith(f, YarnSuffix) {
      assert f[|f| - 1] == f[|f| - |YarnSuffix|..][4] == 'n';
    }
  }
}
