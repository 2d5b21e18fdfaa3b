/** The post steps of the stages in nodes.py: what each stage stores in the shared
    dict, which files it writes and the label it returns. The LLM answers arrive
    as parameters (the exec results); the working directory is a map from file
    name to contents. */
module Nodes {
  import opened Text
  import opened Fences
  import opened Naming

  /** What a stage stores under a key of `shared`: a string or a dict of strings. */
  datatype Value = Str(s: string) | Dict(d: map<string, string>)

  /** One exec result of StoryFlowNode: the chapter number and the LLM's answer. */
  datatype ChapterDraft = ChapterDraft(number: int, content: string)

  /** One exec result of YarnScriptNode: the chapter file and the LLM's answer. */
  datatype YarnDraft = YarnDraft(chapterFile: string, script: string)

  const Default := "default"

  const RequirementKey := "requirement"
  const BackgroundStoryKey := "background_story"
  const CharactersKey := "characters"
  const ChaptersKey := "chapters"
  const YarnScriptsKey := "yarn_scripts"

  const BackgroundStoryFile := "background-story.md"
  const CharactersFile := "characters.md"

  const MarkdownTag := "markdown"
  const YarnTag := "yarn"

  /** The dict every stage reads and writes. */
  class SharedStore {
    var entries: map<string, Value>

    constructor (initial: map<string, Value>)
      ensures entries == initial
    {
      entries := initial;
    }

    /** shared[key] = value */
    method Put(key: string, value: Value)
      modifies this
      ensures entries == old(entries)[key := value]
    {
      entries := entries[key := value];
    }
  }

  /** The working directory the stages write their artifacts into. */
  class Disk {
    var files: map<string, string>

    constructor (initial: map<string, string>)
      ensures files == initial
    {
      files := initial;
    }

    /** open(name, "w").write(content): the file now holds exactly `content`. */
    method Write(name: string, content: string)
      modifies this
      ensures files == old(files)[name := content]
    {
      files := files[name := content];
    }
  }

  // ---------------------------------------------------------------------------
  // Specification of the two batch posts

  /** The `chapters` dict StoryFlowNode.post builds: file name to raw content,
      a later draft for the same file replacing an earlier one. */
  function ChapterTable(drafts: seq<ChapterDraft>): map<string, string>
    decreases |drafts|
  {
    if drafts == [] then map[]
    else
      var last := drafts[|drafts| - 1];
      ChapterTable(drafts[..|drafts| - 1])[ChapterFileName(last.number) := last.content]
  }

  /** Each file of a table, with its fenced blocks extracted. */
  function ExtractedValues(t: map<string, string>, tag: string): (r: map<string, string>)
    ensures r.Keys == t.Keys
  {
    map f | f in t :: Normalize(t[f], tag)
  }

  /** The `yarn_scripts` dict YarnScriptNode.post builds: yarn file name to the
      extracted script, a later draft for the same name replacing an earlier one. */
  function YarnTable(drafts: seq<YarnDraft>): map<string, string>
    decreases |drafts|
  {
    if drafts == [] then map[]
    else
      var last := drafts[|drafts| - 1];
      YarnTable(drafts[..|drafts| - 1])[YarnFileName(last.chapterFile) := Normalize(last.script, YarnTag)]
  }

  // ---------------------------------------------------------------------------
  // The posts

  /** GetGameRequirementNode.post */
  method GetRequirementPost(shared: SharedStore, execRes: string) returns (action: string)
    modifies shared
    ensures shared.entries == old(shared.entries)[RequirementKey := Str(execRes)]
    ensures action == Default
  {
    shared.Put(RequirementKey, Str(execRes));
    action := Default;
  }

  /** The common post of BackgroundStoryNode and CharactersDesignNode: the markdown
      blocks of the answer (or the answer itself) go to `shared` and to the file. */
  method StoreMarkdown(shared: SharedStore, disk: Disk, key: string, file: string, execRes: string)
    returns (action: string)
    modifies shared, disk
    ensures shared.entries == old(shared.entries)[key := Str(Normalize(execRes, MarkdownTag))]
    ensures disk.files == old(disk.files)[file := Normalize(execRes, MarkdownTag)]
    ensures action == Default
  {
    var content := Normalize(execRes, MarkdownTag);
    shared.Put(key, Str(content));
    disk.Write(file, content);
    action := Default;
  }

  /** BackgroundStoryNode.post */
  method BackgroundStoryPost(shared: SharedStore, disk: Disk, execRes: string) returns (action: string)
    modifies shared, disk
    ensures shared.entries == old(shared.entries)[BackgroundStoryKey := Str(Normalize(execRes, MarkdownTag))]
    ensures disk.files == old(disk.files)[BackgroundStoryFile := Normalize(execRes, MarkdownTag)]
    ensures action == Default
  {
    action := StoreMarkdown(shared, disk, BackgroundStoryKey, BackgroundStoryFile, execRes);
  }

  /** CharactersDesignNode.post */
  method CharactersDesignPost(shared: SharedStore, disk: Disk, execRes: string) returns (action: string)
    modifies shared, disk
    ensures shared.entries == old(shared.entries)[CharactersKey := Str(Normalize(execRes, MarkdownTag))]
    ensures disk.files == old(disk.files)[CharactersFile := Normalize(execRes, MarkdownTag)]
    ensures action == Default
  {
    action := StoreMarkdown(shared, disk, CharactersKey, CharactersFile, execRes);
  }

  lemma UnionUpdate(a: map<string, string>, b: map<string, string>, f: string, v: string)
    ensures (a + b)[f := v] == a + b[f := v]
  {
  }

  lemma ExtractedValuesUpdate(t: map<string, string>, tag: string, f: string, v: string)
    ensures ExtractedValues(t[f := v], tag) == ExtractedValues(t, tag)[f := Normalize(v, tag)]
  {
  }

  /** StoryFlowNode.post: `shared["chapters"]` keeps the raw answers, while each
      chapter file receives the extracted markdown of the last answer for it. */
  method StoryFlowPost(shared: SharedStore, disk: Disk, drafts: seq<ChapterDraft>) returns (action: string)
    modifies shared, disk
    ensures shared.entries == old(shared.entries)[ChaptersKey := Dict(ChapterTable(drafts))]
    ensures disk.files == old(disk.files) + ExtractedValues(ChapterTable(drafts), MarkdownTag)
    ensures action == Default
  {
    var chapters: map<string, string> := map[];
    var i := 0;
    while i < |drafts|
      invariant 0 <= i <= |drafts|
      invariant chapters == ChapterTable(drafts[..i])
      invariant disk.files == old(disk.files) + ExtractedValues(chapters, MarkdownTag)
      invariant shared.entries == old(shared.entries)
    {
      var chapterFile := ChapterFileName(drafts[i].number);
      var content := Normalize(drafts[i].content, MarkdownTag);
      assert drafts[..i + 1][..i] == drafts[..i];
      ExtractedValuesUpdate(chapters, MarkdownTag, chapterFile, drafts[i].content);
      UnionUpdate(old(disk.files), ExtractedValues(chapters, MarkdownTag), chapterFile, content);
      chapters := chapters[chapterFile := drafts[i].content];
      disk.Write(chapterFile, content);
      i := i + 1;
    }
    assert drafts[..i] == drafts;
    shared.Put(ChaptersKey, Dict(chapters));
    action := Default;
  }

  /** YarnScriptNode.post: each yarn file and `shared["yarn_scripts"]` both receive
      the extracted yarn blocks of the last answer for that name. */
  method YarnScriptPost(shared: SharedStore, disk: Disk, drafts: seq<YarnDraft>) returns (action: string)
    modifies shared, disk
    ensures shared.entries == old(shared.entries)[YarnScriptsKey := Dict(YarnTable(drafts))]
    ensures disk.files == old(disk.files) + YarnTable(drafts)
    ensures action == Default
  {
    var yarnScripts: map<string, string> := map[];
    var i := 0;
    while i < |drafts|
      invariant 0 <= i <= |drafts|
      invariant yarnScripts == YarnTable(drafts[..i])
      invariant disk.files == old(disk.files) + yarnScripts
      invariant shared.entries == old(shared.entries)
    {
      assert drafts[..i + 1][..i] == drafts[..i];
      var yarnScript := Normalize(drafts[i].script, YarnTag);
      var yarnFile := YarnFileName(drafts[i].chapterFile);
      UnionUpdate(old(disk.files), yarnScripts, yarnFile, yarnScript);
      yarnScripts := yarnScripts[yarnFile := yarnScript];
      disk.Write(yarnFile, yarnScript);
      i := i + 1;
    }
    assert drafts[..i] == drafts;
    shared.Put(YarnScriptsKey, Dict(yarnScripts));
    action := Default;
  }

  // ---------------------------------------------------------------------------
  // Properties of the tables

  /** The chapters dict has a key exactly for the file name of each draft. */
  lemma ChapterTableKeys(drafts: seq<ChapterDraft>, f: string)
    ensures f in ChapterTable(drafts) <==>
            exists k :: 0 <= k < |drafts| && ChapterFileName(drafts[k].number) == f
  {
    if f in ChapterTable(drafts) {
      ChapterTableKeyFrom(drafts, f);
    }
    if exists k :: 0 <= k < |drafts| && ChapterFileName(drafts[k].number) == f {
      var k :| 0 <= k < |drafts| && ChapterFileName(drafts[k].number) == f;
      ChapterTableKeyOf(drafts, k);
    }
  }

  /** Every key of the table is the name of some draft. */
  lemma {:induction false} ChapterTableKeyFrom(drafts: seq<ChapterDraft>, f: string)
    requires f in ChapterTable(drafts)
    ensures exists k :: 0 <= k < |drafts| && ChapterFileName(drafts[k].number) == f
    decreases |drafts|
  {
    var init, last := drafts[..|drafts| - 1], drafts[|drafts| - 1];
    if ChapterFileName(last.number) != f {
      ChapterTableKeyFrom(init, f);
      var k :| 0 <= k < |init| && ChapterFileName(init[k].number) == f;
      assert drafts[k] == init[k];
    }
  }

  /** The name of every draft is a key of the table. */
  lemma {:induction false} ChapterTableKeyOf(drafts: seq<ChapterDraft>, k: nat)
    requires k < |drafts|
    ensures ChapterFileName(drafts[k].number) in ChapterTable(drafts)
    decreases |drafts|
  {
    var init, last := drafts[..|drafts| - 1], drafts[|drafts| - 1];
    if k < |init| {
      assert init[k] == drafts[k];
      ChapterTableKeyOf(init, k);
    } else {
      assert drafts[k] == last;
    }
  }

  /** The raw answer of the last draft for a chapter number is what the dict keeps. */
  lemma {:induction false} ChapterTableLastWins(drafts: seq<ChapterDraft>, k: nat)
    requires k < |drafts|
    requires forall l :: k < l < |drafts| ==> drafts[l].number != drafts[k].number
    ensures ChapterFileName(drafts[k].number) in ChapterTable(drafts)
    ensures ChapterTable(drafts)[ChapterFileName(drafts[k].number)] == drafts[k].content
    decreases |drafts|
  {
    var init := drafts[..|drafts| - 1];
    var last := drafts[|drafts| - 1];
    if k < |drafts| - 1 {
      ChapterFileNameInjective(last.number, drafts[k].number);
      assert init[k] == drafts[k];
      ChapterTableLastWins(init, k);
    }
  }

  /** Distinct chapter numbers give one dict entry per draft. */
  lemma {:induction false} ChapterTableSize(drafts: seq<ChapterDraft>)
    requires forall k, l :: 0 <= k < l < |drafts| ==> drafts[k].number != drafts[l].number
    ensures |ChapterTable(drafts)| == |drafts|
    decreases |drafts|
  {
    if drafts != [] {
      var init := drafts[..|drafts| - 1];
      var last := drafts[|drafts| - 1];
      ChapterTableSize(init);
      ChapterTableKeys(init, ChapterFileName(last.number));
      forall k | 0 <= k < |init| ensures ChapterFileName(init[k].number) != ChapterFileName(last.number) {
        ChapterFileNameInjective(init[k].number, last.number);
      }
    }
  }

  /** For the chapter list StoryFlowNode.prep produces, the dict holds the three
      numbered files and nothing else. */
  lemma ChapterTableOfPrep(c1: string, c2: string, c3: string)
    ensures ChapterTable([ChapterDraft(1, c1), ChapterDraft(2, c2), ChapterDraft(3, c3)])
            == map["chapter-01.md" := c1, "chapter-02.md" := c2, "chapter-03.md" := c3]
  {
    var drafts := [ChapterDraft(1, c1), ChapterDraft(2, c2), ChapterDraft(3, c3)];
    assert ChapterFileName(1) == "chapter-01.md";
    assert ChapterFileName(2) == "chapter-02.md";
    assert ChapterFileName(3) == "chapter-03.md";
    assert drafts[..2] == [ChapterDraft(1, c1), ChapterDraft(2, c2)];
    assert drafts[..2][..1] == [ChapterDraft(1, c1)];
    assert drafts[..2][..1][..0] == [];
    assert ChapterTable(drafts[..2][..1]) == map["chapter-01.md" := c1];
    assert ChapterTable(drafts[..2]) == map["chapter-01.md" := c1, "chapter-02.md" := c2];
  }

  /** A chapter answer without a markdown block is written to its file unchanged. */
  lemma ChapterWrittenRaw(drafts: seq<ChapterDraft>, f: string)
    requires f in ChapterTable(drafts) && !HasBlock(ChapterTable(drafts)[f], MarkdownTag)
    ensures ExtractedValues(ChapterTable(drafts), MarkdownTag)[f] == ChapterTable(drafts)[f]
  {
    NormalizeCases(ChapterTable(drafts)[f], MarkdownTag);
  }

  /** The yarn dict has a key exactly for the yarn name of each draft's chapter file. */
  lemma YarnTableKeys(drafts: seq<YarnDraft>, f: string)
    ensures f in YarnTable(drafts) <==>
            exists k :: 0 <= k < |drafts| && YarnFileName(drafts[k].chapterFile) == f
  {
    if f in YarnTable(drafts) {
      YarnTableKeyFrom(drafts, f);
    }
    if exists k :: 0 <= k < |drafts| && YarnFileName(drafts[k].chapterFile) == f {
      var k :| 0 <= k < |drafts| && YarnFileName(drafts[k].chapterFile) == f;
      YarnTableKeyOf(drafts, k);
    }
  }

  /** Every key of the table is the name of some draft. */
  lemma {:induction false} YarnTableKeyFrom(drafts: seq<YarnDraft>, f: string)
    requires f in YarnTable(drafts)
    ensures exists k :: 0 <= k < |drafts| && YarnFileName(drafts[k].chapterFile) == f
    decreases |drafts|
  {
    var init, last := drafts[..|drafts| - 1], drafts[|drafts| - 1];
    if YarnFileName(last.chapterFile) != f {
      YarnTableKeyFrom(init, f);
      var k :| 0 <= k < |init| && YarnFileName(init[k].chapterFile) == f;
      assert drafts[k] == init[k];
    }
  }

  /** The name of every draft is a key of the table. */
  lemma {:induction false} YarnTableKeyOf(drafts: seq<YarnDraft>, k: nat)
    requires k < |drafts|
    ensures YarnFileName(drafts[k].chapterFile) in YarnTable(drafts)
    decreases |drafts|
  {
    var init, last := drafts[..|drafts| - 1], drafts[|drafts| - 1];
    if k < |init| {
      assert init[k] == drafts[k];
      YarnTableKeyOf(init, k);
    } else {
      assert drafts[k] == last;
    }
  }

  /** The extracted script of the last draft for a yarn name is what the dict keeps. */
  lemma {:induction false} YarnTableLastWins(drafts: seq<YarnDraft>, k: nat)
    requires k < |drafts|
    requires forall l :: k < l < |drafts| ==>
               YarnFileName(drafts[l].chapterFile) != YarnFileName(drafts[k].chapterFile)
    ensures YarnFileName(drafts[k].chapterFile) in YarnTable(drafts)
    ensures YarnTable(drafts)[YarnFileName(drafts[k].chapterFile)] == Normalize(drafts[k].script, YarnTag)
    decreases |drafts|
  {
    var init := drafts[..|drafts| - 1];
    if k < |drafts| - 1 {
      assert init[k] == drafts[k];
      YarnTableLastWins(init, k);
    }
  }

  /** For chapter files named by StoryFlowNode.post with distinct numbers, there is
      one yarn script per chapter, under the name "chapter-XX.yarn". */
  lemma {:induction false} YarnTableOfChapters(drafts: seq<YarnDraft>, numbers: seq<int>)
    requires |numbers| == |drafts|
    requires forall k :: 0 <= k < |drafts| ==> drafts[k].chapterFile == ChapterFileName(numbers[k])
    requires forall k, l :: 0 <= k < l < |numbers| ==> numbers[k] != numbers[l]
    ensures |YarnTable(drafts)| == |drafts|
    ensures forall f :: f in YarnTable(drafts) ==> IsYarnFile(f)
    decreases |drafts|
  {
    if drafts != [] {
      var init := drafts[..|drafts| - 1];
      var last := drafts[|drafts| - 1];
      YarnTableOfChapters(init, numbers[..|numbers| - 1]);
      YarnTableKeys(init, YarnFileName(last.chapterFile));
      forall k | 0 <= k < |init|
        ensures YarnFileName(init[k].chapterFile) != YarnFileName(last.chapterFile)
      {
        YarnFileNameInjective(numbers[k], numbers[|numbers| - 1]);
      }
      YarnFileNameOfChapter(numbers[|numbers| - 1]);
    }
  }

  // ---------------------------------------------------------------------------
  // SummaryNode

  /** The dict SummaryNode.prep returns; exec passes it through unchanged. */
  datatype SummaryFiles =
    SummaryFiles(background: string, characters: string, chapters: seq<string>, yarnScripts: seq<string>)

  /** SummaryNode.prep over a directory listing. Unlike YarnScriptNode.prep it
      does not sort the chapter files: both lists keep the listing's order. */
  function SummaryPrep(listing: seq<string>): (r: SummaryFiles)
    ensures r.background == BackgroundStoryFile && r.characters == CharactersFile
    ensures forall x :: multiset(r.chapters)[x] == if IsChapterFile(x) then multiset(listing)[x] else 0
    ensures forall x :: multiset(r.yarnScripts)[x] == if IsYarnFile(x) then multiset(listing)[x] else 0
  {
    SummaryFiles(BackgroundStoryFile, CharactersFile, ChapterFiles(listing), YarnFiles(listing))
  }

  /** Both summary lists keep the listing's order: a concatenated listing gives the
      concatenated lists, and a single name is kept exactly when it passes the filter. */
  lemma SummaryPrepOrder(a: seq<string>, b: seq<string>, f: string)
    ensures SummaryPrep(a + b).chapters == SummaryPrep(a).chapters + SummaryPrep(b).chapters
    ensures SummaryPrep(a + b).yarnScripts == SummaryPrep(a).yarnScripts + SummaryPrep(b).yarnScripts
    ensures SummaryPrep([f]).chapters == if IsChapterFile(f) then [f] else []
    ensures SummaryPrep([f]).yarnScripts == if IsYarnFile(f) then [f] else []
  {
    FilterNamesAppend(a, b, MarkdownSuffix);
    FilterNamesAppend(a, b, YarnSuffix);
    FilterNamesSingle(f, MarkdownSuffix);
    FilterNamesSingle(f, YarnSuffix);
  }

  /** A listed name shows up in at most one of the two summary lists, and every
      name in them comes from the listing. */
  lemma SummaryListsDisjoint(listing: seq<string>, f: string)
    ensures !(f in SummaryPrep(listing).chapters && f in SummaryPrep(listing).yarnScripts)
    ensures f in SummaryPrep(listing).chapters ==> f in listing
    ensures f in SummaryPrep(listing).yarnScripts ==> f in listing
  {
    var r := SummaryPrep(listing);
    ChapterAndYarnDisjoint(f);
    if f in r.chapters {
      assert multiset(r.chapters)[f] > 0;
    }
    if f in r.yarnScripts {
      assert multiset(r.yarnScripts)[f] > 0;
    }
  }
}
