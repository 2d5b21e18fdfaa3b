# PocketFlow Yarn story generator: the deterministic core of nodes.py

The pipeline in nodes.py turns a game requirement into six stages of generated content:

1. a requirement;
2. a background story;
3. character designs;
4. three chapters;
5. one Yarn dialogue script per chapter;
6. a summary.

The stages do not all work alike:
- Stage 1 reads the requirement from the console with `input()`. Its `post` stores the raw answer under `requirement`, normalises nothing and writes no file.
- Stages 2 to 5 each ask an LLM for text.
  - In stages 2, 3 and 5, `post` normalises the answer, stores it in the shared dict and writes it to a file.
  - In stage 4, `post` stores the raw answers in `shared["chapters"]` (nodes.py:154) and writes only the normalised text to the chapter files (nodes.py:158-166).
- Stage 6 calls no LLM. It lists the generated files, and its `post` prints them and returns `"default"`; it stores and writes nothing.

This project models the part of that work that does not depend on the LLM or the console.

- **Fenced-block normalisation** (module `Fences`). The four post phases apply the same two steps to an answer:
  - `re.findall(r'```TAG\s+(.*?)```', text, re.DOTALL)`;
  - the conditional `'\n\n'.join`.

  The model gives the regular-expression engine's own behaviour:
  - The scan looks for the leftmost start and resumes after the closing fence.
  - `\s+` is greedy and means the characters `str.isspace` accepts.
  - The lazy `.*?` stops at the first closing fence.

  The model is proved equal to the declarative reading of the pattern:
  - `MatchAtComplete` and `MatchAtExact` show the engine finds a match wherever one exists.
  - `FindAllFirst` and `FindAllGapAt` show none is skipped.
- **Naming and chapter bookkeeping** (module `Naming`):
  - the chapter list `list(range(1, 4))`;
  - `f"chapter-{n:02d}.md"`;
  - the chapter number text recovered with two `str.replace` calls;
  - the yarn name `.replace(".md", ".yarn")`;
  - the role-hint conditions of the chapter prompt;
  - the `os.listdir` filters.
- **The listing sort** (module `Listing`). YarnScriptNode.prep sorts in place with `list.sort()`. This is modelled as an in-place insertion sort of an array under Python's ordering of `str`. Sorted permutations are unique (`SortedUnique`), so the result is the one Python's sort gives.
- **The post phases** (module `Nodes`):
  - `SharedStore` is the `shared` dict.
  - `Disk` is the working directory, a map from file name to contents.
  - Each post is a method that updates both.
  - The two batch posts loop over their exec results with invariants. They are proved against the table functions `ChapterTable` and `YarnTable`.

Module `Text` holds the Python string operations the rest relies on:
- `str.startswith` and `str.endswith`;
- `str.replace` with a non-empty target;
- `str.join`;
- the code-point ordering of `str`.

Where the code and its design description differ, the model follows the code. The description says a single fenced block yields its interior verbatim. The code does that only for some interiors:
- it drops the whitespace after the tag, so a capture never starts with whitespace;
- it needs at least one whitespace character after the tag;
- it ends the capture at the first ```` ``` ````, so a ```` ``` ```` inside the interior cuts it short;
- an interior ending in a backtick forms a ```` ``` ```` with the closing fence earlier than intended, so its trailing backticks (one or two) are lost.

`WellFormed` names an interior for which none of this bites:
- a non-empty whitespace run after the tag;
- no ```` ``` ```` in the interior (single backticks and pairs are fine);
- no leading whitespace;
- no trailing backtick.

`NormalizeOneBlock`, `NormalizeTwoBlocks` and `NormalizeLaid` state the verbatim and joining rules for such blocks. `NormalizeTwoBlocks` allows commentary with no ```` ``` ````; inline backticks are fine. `NormalizeLaid` allows any commentary in which no match of the tag's pattern starts, such as blocks in another language (`NormalizeOtherLanguage`).

## Model

| member | source | states |
|---|---|---|
| `Fences.Open` | nodes.py:39 | the opening marker of the pattern: ```` ``` ```` followed by the tag (`markdown` or `yarn`) |
| `Fences.FenceAt` | nodes.py:39 | a closing ```` ``` ```` starts at q, inside the text |
| `Fences.NoFence` | nodes.py:39 | a string holds no ```` ``` ```` anywhere |
| `Fences.IsSpace` | nodes.py:39 | `\s` of a `str` pattern: exactly the characters `str.isspace` accepts (ASCII whitespace, the separators U+001C..U+001F, U+0085, U+00A0, the Unicode space separators, and the line and paragraph separators U+2028 and U+2029) |
| `Fences.IsBlock` | nodes.py:39 | the declarative reading of the pattern at i: the marker, a non-empty run of whitespace up to w, any capture up to q and a closing fence at q, all inside the text |
| `Fences.IsEngineMatch` | nodes.py:39 | the match the engine picks among those: the whitespace run is maximal and the capture holds no closing fence |
| `Fences.NoBlockAt` | nodes.py:39 | the pattern matches at i in no way at all |
| `Fences.HasBlock` | nodes.py:39 | the pattern matches somewhere in the text |
| `Fences.Clear` | nodes.py:39 | the pattern matches at no position of a stretch |
| `Fences.SkipSpace` | nodes.py:39 | `\s+` consumes a maximal run of `str.isspace` characters: everything in the run is whitespace and the next character is not |
| `Fences.FindFence` | nodes.py:39 | the lazy `.*?` ends at the first ```` ``` ```` at or after a position, or there is none in the rest of the text |
| `Fences.MatchAt` | nodes.py:39 | a match attempt at i starts at i, has a non-empty whitespace run after the marker and a closing fence inside the text |
| `Fences.MatchAtSound` | nodes.py:39 | what the attempt at i reports is a match of the whole pattern, whitespace run taken whole, capture ending at the first fence |
| `Fences.FenceChar` | nodes.py:39 | proof helper: a closing fence starts with a backtick |
| `Fences.MatchAtComplete` | nodes.py:39 | if the pattern can match at i in any way (any split of whitespace and capture), the attempt at i succeeds |
| `Fences.EngineMatchUnique` | nodes.py:39 | a match with the greedy run and the lazy capture is determined by its start |
| `Fences.MatchAtExact` | nodes.py:39 | every such match is exactly what the attempt at its start reports |
| `Fences.FindAll` | nodes.py:39 | every match `re.findall` reports starts at or after the scan position and ends, closing fence included, inside the text |
| `Fences.FindAllOrdered` | nodes.py:39 | the reported matches come in increasing order, each starting after the previous one's closing fence (no overlap) |
| `Fences.FindAllStep` | nodes.py:39 | proof helper: one step of the scan, a match at i reported and the scan resumed after its fence, otherwise the scan moved on by one |
| `Fences.FindAllSound` | nodes.py:39 | every reported match is a match of the pattern with the greedy run and lazy capture |
| `Fences.EngineMatchesCons` | nodes.py:39 | proof helper: prefixing an engine match to a list of engine matches gives a list of engine matches |
| `Fences.FindAllFirst` | nodes.py:39 | leftmost scanning: no match of the pattern starts before the first reported one |
| `Fences.ClearAt` | nodes.py:39 | a stretch in which no match starts has no match at any of its positions |
| `Fences.GapsClear` | nodes.py:39 | after each match of a list and up to the next one, or to the end of the text, the pattern matches nowhere |
| `Fences.FindAllGaps` | nodes.py:39 | between consecutive reported matches, and after the last one, the pattern matches nowhere |
| `Fences.GapsAfterMatch` | nodes.py:39 | proof helper: a match at the scan position keeps the gaps clear when the scan after its fence does |
| `Fences.GapsClearCons` | nodes.py:39 | proof helper: a match in front of the scan that resumes after its fence keeps the gaps clear |
| `Fences.GapsClearAt` | nodes.py:39 | the gap after the k-th reported match contains no match start |
| `Fences.FindAllGapAt` | nodes.py:39 | no match of the pattern starts between the end of one reported match and the start of the next, or after the last one |
| `Fences.Captures` | nodes.py:39 | one capture per match |
| `Fences.CapturesAt` | nodes.py:39 | the k-th capture is the text between the k-th match's whitespace run and its closing fence |
| `Fences.CapturesFrom` | nodes.py:39 | the captures of the scan started at i, one per match `FindAll` reports (its properties are the lemmas about `FindAll` and `Captures`) |
| `Fences.Extract` | nodes.py:39 | `re.findall` over the whole answer: the captures of the scan from position 0; characterised by `ExtractShape`, `ExtractEmptyIff`, `CapturesFromLaid` |
| `Fences.Normalize` | nodes.py:39-43 | the joined captures when there is at least one, the raw answer otherwise; characterised by `NormalizeCases`, `NormalizeIdempotent`, `NormalizeLaid` |
| `Fences.CaptureShape` | nodes.py:39 | a capture contains no ```` ``` ```` and does not begin with whitespace |
| `Fences.ExtractShape` | nodes.py:89 | every extracted block is free of ```` ``` ```` and is empty or starts with a non-space character |
| `Fences.ExtractEmptyIff` | nodes.py:158 | nothing is extracted exactly when the pattern matches nowhere in the text |
| `Fences.NormalizeCases` | nodes.py:39-43 | without a match the text passes through unchanged; with one, the result is the captures joined by a blank line |
| `Fences.JoinNoFence` | nodes.py:43 | joining fence-free parts with a separator without backticks gives fence-free text |
| `Fences.NormalizeIdempotent` | nodes.py:272-277 | normalising a normalised answer changes nothing |
| `Fences.CapturesFromStep` | nodes.py:39 | proof helper: one step of the scan at the level of captures, as `FindAllStep` |
| `Fences.CapturesFromMatch` | nodes.py:39 | at the start of a match the scan captures its body and resumes after its closing fence |
| `Fences.CapturesCons` | nodes.py:39 | proof helper: the captures of a match list are the first capture followed by the rest |
| `Fences.FenceFree` | nodes.py:39 | no closing fence lies wholly inside a stretch of the text |
| `Fences.OverlapTicks` | nodes.py:39 | an opening marker overlapping a copy of itself at distance 1 or 2 consists of backticks only, so its whitespace run cannot start |
| `Fences.NoMatchBeforeOpen` | nodes.py:39 | inside fence-free text that ends at an opening marker or at the end of the text, no match of the pattern starts |
| `Fences.CapturesFromPlain` | nodes.py:39 | a stretch without a ```` ``` ```` that ends where an opening marker or the text ends contributes no capture: the scan passes over it |
| `Fences.Block` | nodes.py:39 | a fenced block as a model answer writes it: opening marker, whitespace, interior, closing fence |
| `Fences.WellFormed` | nodes.py:39 | an interior the pattern captures whole: a non-empty whitespace run before it, no ```` ``` ```` inside, no leading whitespace, no trailing backtick |
| `Fences.BlockAt` | nodes.py:39 | a well-formed block placed in the text is a match with the greedy run and the lazy capture |
| `Fences.BlockStart` | nodes.py:39 | proof helper: at a placed block the marker and then only whitespace follow |
| `Fences.BlockEnd` | nodes.py:39 | proof helper: at a placed block the body is followed by a closing fence and does not start with whitespace |
| `Fences.BlockParts` | nodes.py:39 | proof helper: the length of a block and its four parts as slices |
| `Fences.EngineMatchOfParts` | nodes.py:39 | proof helper: the conditions of an engine match, taken one at a time, make one |
| `Fences.BodyFenceFree` | nodes.py:39 | proof helper: a placed body without ```` ``` ```` leaves its stretch of the text fence-free |
| `Fences.SliceOfSlice` | nodes.py:39 | proof helper: a slice of a slice is a slice with shifted bounds |
| `Fences.BlockMatch` | nodes.py:39 | the attempt at a well-formed block's start reports exactly that block, with the body as its capture |
| `Fences.CapturesFromBlock` | nodes.py:39 | a well-formed block contributes exactly its body, and the scan resumes right after it |
| `Fences.CapturesFromClear` | nodes.py:39 | a stretch in which no match starts contributes no capture: the scan from its start equals the scan from its end |
| `Fences.NoBlockNoMatch` | nodes.py:39 | where the pattern matches in no way, the attempt at that position fails |
| `Fences.FenceFreeClear` | nodes.py:39 | fence-free text that ends at an opening marker or at the end of the text is a stretch in which no match starts |
| `Fences.FenceFreeClearBefore` | nodes.py:39 | fence-free text up to a well-formed block is a stretch in which no match starts |
| `Fences.CapturesFromPlainBlock` | nodes.py:39 | a stretch in which no match starts, followed by a well-formed block, contributes the block's body, and the scan resumes after the block |
| `Fences.Laid` | nodes.py:39 | the text from j is a sequence of well-formed blocks, with stretches in which no match of the tag starts before, between and after them |
| `Fences.After` | nodes.py:39 | proof helper: where a placed block ends, closing fence included |
| `Fences.LaidHead` | nodes.py:39 | one block of a layout: well formed, inside the text, after a stretch in which no match of the tag starts (inline code or blocks of other languages allowed) |
| `Fences.LaidHeadCaptures` | nodes.py:39 | the scan from the start of that stretch captures the block's body and resumes after the block |
| `Fences.Bodies` | nodes.py:39 | the interiors of laid-out blocks, one per block, in order |
| `Fences.CapturesFromLaid` | nodes.py:39 | the scan of laid-out blocks captures exactly their interiors, in order, for any number of blocks |
| `Fences.CapturesFromFirstLaid` | nodes.py:39 | the first laid-out block is captured and the rest is laid out after it |
| `Fences.NormalizeLaid` | nodes.py:39-43 | any number of well-formed blocks, amid text in which no match of the tag starts, are stored as their interiors joined by blank lines; with none the text passes through |
| `Fences.NormalizeNoBlocks` | nodes.py:39-46 | text without a ```` ``` ```` (inline backticks allowed) is stored and written unchanged |
| `Fences.NormalizeOneBlock` | nodes.py:39-43 | a single block whose interior is well formed (whitespace run after the tag, no ```` ``` ````, no leading whitespace, no trailing backtick) yields that interior alone, `""` for an empty one |
| `Fences.NormalizeInlineCode` | nodes.py:39-43 | a markdown block whose interior holds inline code (`` use `x` here ``) is stored as that interior, backticks included |
| `Fences.FenceFreeSlice` | nodes.py:39 | proof helper: a fence-free piece placed in the text leaves its stretch fence-free |
| `Fences.NormalizeTwoBlocks` | nodes.py:157-162 | two well-formed blocks amid any fence-free commentary yield their bodies joined by exactly one blank line, in source order |
| `Fences.TwoBlocksLaid` | nodes.py:157-162 | two well-formed blocks amid fence-free commentary are laid out as two blocks with those bodies |
| `Fences.LaidHeadOf` | nodes.py:39 | proof helper: fence-free text followed by a well-formed block is one block of a layout |
| `Fences.LaidEnd` | nodes.py:39 | proof helper: fence-free text up to the end of the text ends a layout |
| `Fences.OpenAt` | nodes.py:39 | the opening marker of the pattern starts at m |
| `Fences.ClearWithoutOpen` | nodes.py:39 | a stretch where the opening marker starts nowhere is one in which no match starts |
| `Fences.NormalizeOtherLanguage` | nodes.py:39-43 | a `python` block ahead of the `markdown` block is not captured: only the markdown interior is stored |
| `Text.StartsWith` | nodes.py:175 | `str.startswith`: the prefix is the string's first characters |
| `Text.EndsWith` | nodes.py:175 | `str.endswith`: the suffix is the string's last characters |
| `Text.Replace` | nodes.py:195 | `str.replace` with a non-empty target: occurrences are replaced left to right without overlap; characterised by `ReplaceSkips` and `ReplaceHead` |
| `Text.ReplaceSkips` | nodes.py:195 | `str.replace` copies a prefix holding no first character of the target unchanged |
| `Text.ReplaceHead` | nodes.py:279 | proof helper: `str.replace` replaces an occurrence at the front and resumes after it |
| `Text.Join` | nodes.py:43 | `sep.join(parts)`: the parts with one separator between each pair, `""` for no parts |
| `Text.Le` | nodes.py:176 | Python's `str` ordering: code point by code point, a proper prefix first; a total order by `LeReflexive`, `LeTotal`, `LeAntisymmetric`, `LeTransitive` |
| `Text.LeReflexive` | nodes.py:176 | Python's `str` ordering is reflexive |
| `Text.LeTotal` | nodes.py:176 | Python's `str` ordering is total |
| `Text.LeAntisymmetric` | nodes.py:176 | Python's `str` ordering is antisymmetric |
| `Text.LeTransitive` | nodes.py:176 | Python's `str` ordering is transitive |
| `Naming.Range` | nodes.py:109 | `list(range(lo, hi))` has `hi - lo` elements, the k-th being `lo + k` |
| `Naming.ChapterNumbers` | nodes.py:108-109 | StoryFlowNode.prep returns `[1, 2, 3]`: `num_chapters` elements, the k-th being `k + 1`, strictly increasing |
| `Naming.DigitChar` | nodes.py:153 | a digit character denotes its digit value |
| `Naming.Decimal` | nodes.py:153 | the decimal numeral of a natural number is all digits, one digit long exactly below 10, and has a leading `0` only for 0 |
| `Naming.DecimalRoundTrip` | nodes.py:153 | reading the numeral back gives the number |
| `Naming.DecimalValue` | nodes.py:153 | the number a string of digits denotes; inverse of `Decimal` by `DecimalRoundTrip` |
| `Naming.DecimalValueLeadingZero` | nodes.py:153 | a leading zero pad does not change the number a numeral denotes |
| `Naming.Format02` | nodes.py:153 | `{n:02d}` is at least two characters long, exactly two for 0..99, the digits of n for n >= 0, and a minus sign followed by the digits of -n for n < 0 (the sign fills the width, so -5 gives `-5`) |
| `Naming.Format02Value` | nodes.py:153 | the number a `{n:02d}` rendering denotes, sign included; inverse of `Format02` by `Format02RoundTrip` |
| `Naming.Format02RoundTrip` | nodes.py:153 | reading `{n:02d}` back gives n |
| `Naming.Format02Injective` | nodes.py:153 | different numbers have different `{n:02d}` renderings, and equal numbers equal ones |
| `Naming.Format02NoLetters` | nodes.py:153 | `{n:02d}` contains neither `c` nor `.` |
| `Naming.ChapterFileName` | nodes.py:153 | `f"chapter-{n:02d}.md"`; characterised by `ChapterFileNameShape` and `ChapterFileNameInjective` |
| `Naming.ChapterFileNameShape` | nodes.py:153 | a chapter file name passes the listing filter, is 13 characters for 1..99 and is `chapter-0d.md` for a single digit d |
| `Naming.ChapterFileNameInjective` | nodes.py:153-154 | different chapter numbers give different dict keys and files |
| `Naming.ChapterNumberText` | nodes.py:195 | the two `str.replace` calls that strip `chapter-` and `.md`; undoes `ChapterFileName` by `ChapterNumberRoundTrip` |
| `Naming.ChapterNumberRoundTrip` | nodes.py:195 | removing `chapter-` and `.md` from the name built at nodes.py:153 gives back the padded number |
| `Naming.YarnFileName` | nodes.py:279 | `.replace(".md", ".yarn")` on a chapter file name; characterised by `YarnFileNameOfChapter`, `YarnFileNameInjective`, `YarnFileNameCollision` |
| `Naming.YarnFileNameOfChapter` | nodes.py:279 | the yarn name of `chapter-XX.md` is `chapter-XX.yarn`, which is a yarn script name and not a chapter file |
| `Naming.YarnFileNameInjective` | nodes.py:279-280 | distinct chapters get distinct yarn keys and files |
| `Naming.YarnFileNameOfYarnMd` | nodes.py:279 | `chapter-1.yarn.md` gets the yarn name `chapter-1.yarn.yarn` |
| `Naming.YarnFileNameOfMdMd` | nodes.py:279 | `chapter-1.md.md` gets the yarn name `chapter-1.yarn.yarn` |
| `Naming.YarnFileNameCollision` | nodes.py:279 | two different names that pass the listing filter can share a yarn name, because every `.md` is replaced |
| `Naming.RoleHints` | nodes.py:140-142 | the three conditions of the chapter prompt: `n == 1`, `1 < n < 3` and `n == 3`; exactly one holds for a listed chapter by `RoleHintsExactlyOne` |
| `Naming.RoleHintsExactlyOne` | nodes.py:140-142 | each chapter number in the list gets exactly one hint: opening for the first, ending for the last, middle for those in between; any other number gets none |
| `Naming.FilterNames` | nodes.py:296 | the comprehension keeps only names with the prefix and suffix; which ones and in what order are `FilterNamesCounts`, `FilterNamesSingle`, `FilterNamesAppend` |
| `Naming.FilterNamesCounts` | nodes.py:296 | each name with the prefix and suffix is kept as often as it is listed, and every other name is dropped |
| `Naming.FilterNamesSingle` | nodes.py:296 | a one-name listing keeps that name exactly when it has the prefix and suffix |
| `Naming.FilterNamesAppend` | nodes.py:296 | filtering a listing split in two is filtering each part and concatenating, so the kept names stay in listing order |
| `Naming.FilterNamesCons` | nodes.py:296 | proof helper: the filter on a listing with a first name, that name kept or dropped |
| `Naming.ConsAppend` | nodes.py:296 | proof helper: concatenation regrouped |
| `Naming.IsChapterFile` | nodes.py:175 | the filter `startswith("chapter-") and endswith(".md")` |
| `Naming.ChapterFiles` | nodes.py:175 | the chapter-file filter keeps exactly the listed `chapter-*.md` names, with their multiplicities |
| `Naming.IsYarnFile` | nodes.py:296 | the filter `startswith("chapter-") and endswith(".yarn")` |
| `Naming.YarnFiles` | nodes.py:295-296 | the yarn-file filter of SummaryNode.prep keeps exactly the listed `chapter-*.yarn` names, with their multiplicities; listing order by `Nodes.SummaryPrepOrder` |
| `Naming.ChapterAndYarnDisjoint` | nodes.py:295-296 | no name is both a chapter file and a yarn script |
| `Listing.Sorted` | nodes.py:176 | ascending order under Python's `str` comparison, pairwise |
| `Listing.SortInPlace` | nodes.py:176 | `list.sort()` leaves the list in ascending `str` order and a permutation of what it was |
| `Listing.InsertAt` | nodes.py:176 | one pass of the sort moves the next element into the sorted prefix: the prefix one longer is sorted, the list is a permutation of what it was, and the elements after the pass's position are untouched |
| `Listing.ListChapterFiles` | nodes.py:173-177 | YarnScriptNode.prep returns the listed chapter files, each as often as listed, in ascending order |
| `Listing.SortedHeadIsLeast` | nodes.py:176 | the first element of a sorted list is at most every element |
| `Listing.SortedTail` | nodes.py:176 | proof helper: the tail of a sorted list is sorted |
| `Listing.MultisetTail` | nodes.py:176 | proof helper: the tail of a list holds its elements less the first |
| `Listing.SortedUnique` | nodes.py:176 | two sorted lists with the same elements are equal, so the sort has one possible result |
| `Listing.ListingOrderIrrelevant` | nodes.py:175-176 | listings with the same names in different orders give the same prep result |
| `Nodes.SharedStore.Put` | nodes.py:13 | `shared[key] = value` changes that key only |
| `Nodes.Disk.Write` | nodes.py:49-50 | writing a file replaces its whole content and touches no other file |
| `Nodes.ChapterTable` | nodes.py:150-154 | the `chapters` dict: file name to raw answer, a later result for the same file replacing an earlier one; characterised by `ChapterTableKeys`, `ChapterTableLastWins`, `ChapterTableSize` |
| `Nodes.YarnTable` | nodes.py:268-280 | the `yarn_scripts` dict: yarn name to normalised script, a later result for the same name replacing an earlier one; characterised by `YarnTableKeys`, `YarnTableLastWins` |
| `Nodes.ExtractedValues` | nodes.py:158-166 | extraction keeps the set of files |
| `Nodes.GetRequirementPost` | nodes.py:11-14 | the requirement is stored under `requirement` and the label is `default` |
| `Nodes.StoreMarkdown` | nodes.py:36-53 | the normalised answer goes both to the shared key and to the file, nothing else changes, the label is `default` |
| `Nodes.BackgroundStoryPost` | nodes.py:36-53 | the normalised story goes under `background_story` and into `background-story.md`; the label is `default` |
| `Nodes.CharactersDesignPost` | nodes.py:86-103 | the normalised design goes under `characters` and into `characters.md`; the label is `default` |
| `Nodes.UnionUpdate` | nodes.py:165-166 | proof helper: writing a file after earlier writes is the same as adding it to the written set |
| `Nodes.ExtractedValuesUpdate` | nodes.py:154-162 | proof helper: adding a raw chapter to the dict adds its normalised form to the files to write |
| `Nodes.StoryFlowPost` | nodes.py:148-170 | `shared["chapters"]` is the dict of raw answers; every chapter file holds the normalised last answer for it; other files are untouched; the label is `default` |
| `Nodes.YarnScriptPost` | nodes.py:266-288 | `shared["yarn_scripts"]` and the yarn files both hold the normalised last script per yarn name; other files are untouched; the label is `default` |
| `Nodes.ChapterTableKeys` | nodes.py:150-154 | the chapters dict has a key exactly for the file name of each exec result |
| `Nodes.ChapterTableKeyFrom` | nodes.py:150-154 | every key of the chapters dict is the file name of some exec result |
| `Nodes.ChapterTableKeyOf` | nodes.py:150-154 | the file name of every exec result is a key of the chapters dict |
| `Nodes.ChapterTableLastWins` | nodes.py:152-154 | the raw answer of the last result with a given chapter number is what the dict keeps |
| `Nodes.ChapterTableSize` | nodes.py:150-154 | with distinct chapter numbers the dict has one entry per result |
| `Nodes.ChapterTableOfPrep` | nodes.py:152-154 | for the chapters 1, 2, 3 the dict holds exactly `chapter-01.md`, `chapter-02.md` and `chapter-03.md` with the raw answers |
| `Nodes.ChapterWrittenRaw` | nodes.py:158-166 | a chapter answer without a markdown block is written to its file unchanged |
| `Nodes.YarnTableKeys` | nodes.py:270-280 | the yarn dict has a key exactly for the yarn name of each result's chapter file |
| `Nodes.YarnTableKeyFrom` | nodes.py:268-280 | every key of the yarn dict is the yarn name of some result's chapter file |
| `Nodes.YarnTableKeyOf` | nodes.py:268-280 | the yarn name of every result's chapter file is a key of the yarn dict |
| `Nodes.YarnTableLastWins` | nodes.py:270-280 | the normalised script of the last result for a yarn name is what the dict keeps |
| `Nodes.YarnTableOfChapters` | nodes.py:279-280 | for chapter files named by StoryFlowNode.post with distinct numbers there is one yarn script per chapter, each under a `chapter-*.yarn` name |
| `Nodes.SummaryPrep` | nodes.py:291-303 | SummaryNode.prep names the two fixed files and lists the `chapter-*.md` and `chapter-*.yarn` names of the listing, each as often as listed, unsorted |
| `Nodes.SummaryPrepOrder` | nodes.py:295-296 | both summary lists keep listing order: a split listing gives the lists of its parts concatenated, and a one-name listing gives that name in the list its suffix selects |
| `Nodes.SummaryListsDisjoint` | nodes.py:295-296 | no name is in both summary lists, and every listed name comes from the directory listing |

## Left out

- The pocketflow engine (`Node`, `BatchNode`, `Flow`, `>>` chaining, batch fan-out and order preservation) is an external library whose source is not part of this model. The batch posts take their exec results as a list in prep order.
- The exec phases (`input()`, `call_llm`, the prompt f-strings) are I/O and network calls. The LLM answers are parameters of the posts. The role hints are modelled as the three conditions the prompt evaluates, not as prompt text.
- CharactersDesignNode.prep (nodes.py:56-60) reads `background-story.md` and `shared["requirement"]`; BackgroundStoryNode.prep (nodes.py:17-18) reads `shared["requirement"]`. Both only feed prompts. The reads, and the KeyError or missing-file failure they can raise, are not modelled.
- StoryFlowNode.exec (nodes.py:113-117) reads `background-story.md` and `characters.md` for its prompt. The reads, and the failure on a missing file, are not modelled.
- YarnScriptNode.exec (nodes.py:181-193) reads the chapter file, `background-story.md`, `characters.md` and `introduction-to-yarn.md` for its prompt. The reads, and the failure on a missing file, are not modelled; its chapter-number computation (nodes.py:195) is modelled as `Naming.ChapterNumberText`.
- `os.listdir` is a parameter (`listing`), in whatever order the operating system returns.
- Nodes.SummaryPrep: SummaryNode.prep calls `os.listdir()` twice (nodes.py:295 and 296), but the model takes one `listing` for both lists, so it does not capture the directory changing between the two calls.
- SummaryNode: prep is modelled as `Nodes.SummaryPrep`. Its exec returns its input unchanged, and its post only prints the four entries and returns `"default"` (nodes.py:305-316); the printing is not modelled.
- `print` output is not modelled.
- `flow.py` and `main.py` build the chain and an initial dict with no logic of their own.
- `utils/call_llm.py` is streaming HTTP client code and is not part of this model.
- Files are modelled as a map from name to contents. Encoding, failed writes and concurrent access are not modelled.
- Text.Replace: modelled for a non-empty target only. All three calls in nodes.py (two at line 195, one at line 279) use constant non-empty targets.
- Python `str` values are modelled as sequences of Dafny `char`. Lone surrogate code points, which a Python `str` may hold, are not representable.
- Listing.SortInPlace: an insertion sort stands in for Timsort. The result is the same list, by `Listing.SortedUnique`, but the comparison count and stability bookkeeping are not modelled.
