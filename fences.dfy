/** Fenced-block extraction applied to model output in four post phases of nodes.py:
    re.findall(r'```TAG\s+(.*?)```', text, re.DOTALL), and the text replaced by the
    captures joined with a blank line when there is at least one. */
module Fences {
  import opened Text

  const Fence: string := "```"
  const Separator: string := "\n\n"

  /** Python's \s for str patterns: the characters str.isspace() accepts. */
  predicate IsSpace(c: char) {
    c == ' ' || ('\t' <= c <= '\r') || ('\U{1C}' <= c <= '\U{1F}')
    || c == '\U{85}' || c == '\U{A0}' || c == '\U{1680}' || ('\U{2000}' <= c <= '\U{200A}')
    || c == '\U{2028}' || c == '\U{2029}' || c == '\U{202F}' || c == '\U{205F}' || c == '\U{3000}'
  }

  /** The opening marker of a block with the given language tag. */
  function Open(tag: string): string {
    Fence + tag
  }

  /** One match: the opening marker at start, the capture text[body..close],
      the closing fence at close. */
  datatype Span = Span(start: nat, body: nat, close: nat)

  /** A closing fence ``` starts at q. */
  predicate FenceAt(text: string, q: nat) {
    q + 3 <= |text| && text[q] == '`' && text[q + 1] == '`' && text[q + 2] == '`'
  }

  /** No closing fence anywhere in s. */
  ghost predicate NoFence(s: string) {
    forall j: nat :: !FenceAt(s, j)
  }

  /** Some way for the pattern to match at i, the whitespace run taken as text[i+|open|..w]
      and the capture as text[w..q]. */
  ghost predicate IsBlock(text: string, open: string, i: nat, w: nat, q: nat) {
    && i + |open| < w <= q
    && q + 3 <= |text|
    && text[i..i + |open|] == open
    && (forall j {:trigger IsSpace(text[j])} :: i + |open| <= j < w ==> IsSpace(text[j]))
    && FenceAt(text, q)
  }

  ghost predicate NoBlockAt(text: string, open: string, i: nat) {
    forall w: nat, q: nat :: !IsBlock(text, open, i, w, q)
  }

  ghost predicate HasBlock(text: string, tag: string) {
    exists i: nat, w: nat, q: nat :: IsBlock(text, Open(tag), i, w, q)
  }

  /** The match the regular-expression engine reports: \s+ takes the whole whitespace run
      and the lazy .*? stops at the first closing fence. */
  ghost predicate IsEngineMatch(text: string, open: string, s: Span) {
    && IsBlock(text, open, s.start, s.body, s.close)
    && (s.body == |text| || !IsSpace(text[s.body]))
    && forall j :: s.body <= j < s.close ==> !FenceAt(text, j)
  }

  /** No match of the pattern starts anywhere in [a, b), position by position. */
  ghost predicate Clear(text: string, open: string, a: nat, b: nat)
    decreases b - a
  {
    a >= b || (NoBlockAt(text, open, a) && Clear(text, open, a + 1, b))
  }

  /** What Clear says about each position of its range. */
  lemma {:induction false} ClearAt(text: string, open: string, a: nat, b: nat, j: nat)
    requires Clear(text, open, a, b) && a <= j < b
    ensures NoBlockAt(text, open, j)
    decreases j - a
  {
    if a < j {
      ClearAt(text, open, a + 1, b, j);
    }
  }

  /** End of the whitespace run that starts at k. */
  function SkipSpace(text: string, k: nat): (w: nat)
    requires k <= |text|
    ensures k <= w <= |text|
    ensures forall j {:trigger IsSpace(text[j])} :: k <= j < w ==> IsSpace(text[j])
    ensures w == |text| || !IsSpace(text[w])
    decreases |text| - k
  {
    if k < |text| && IsSpace(text[k]) then SkipSpace(text, k + 1) else k
  }

  /** First closing fence at or after k. */
  function FindFence(text: string, k: nat): (r: Option<nat>)
    requires k <= |text|
    ensures r.Some? ==> k <= r.value && FenceAt(text, r.value)
    ensures r.Some? ==> forall j :: k <= j < r.value ==> !FenceAt(text, j)
    ensures r.None? ==> forall j: nat :: k <= j ==> !FenceAt(text, j)
    decreases |text| - k
  {
    if k + 3 > |text| then None
    else if FenceAt(text, k) then Some(k)
    else FindFence(text, k + 1)
  }

  /** The engine's attempt to match at position i. */
  function MatchAt(text: string, open: string, i: nat): (r: Option<Span>)
    requires i <= |text|
    ensures r.Some? ==> r.value.start == i && i + |open| < r.value.body <= r.value.close && r.value.close + 3 <= |text|
  {
    if i + |open| <= |text| && text[i..i + |open|] == open then
      var w := SkipSpace(text, i + |open|);
      if w == i + |open| then None
      else match FindFence(text, w)
        case None => None
        case Some(q) => Some(Span(i, w, q))
    else None
  }

  /** What the engine reports at i is a match of the whole pattern, with the whitespace run
      taken whole and the capture ending at the first closing fence. */
  lemma MatchAtSound(text: string, open: string, i: nat)
    requires i <= |text|
    ensures MatchAt(text, open, i).Some? ==> IsEngineMatch(text, open, MatchAt(text, open, i).value)
  {
  }

  lemma FenceChar(text: string, q: nat)
    requires FenceAt(text, q)
    ensures text[q] == '`'
  {
  }

  /** If the pattern can match at i at all, the engine's attempt succeeds. */
  lemma MatchAtComplete(text: string, open: string, i: nat)
    requires i <= |text|
    ensures MatchAt(text, open, i).None? ==> NoBlockAt(text, open, i)
  {
    forall w: nat, q: nat | IsBlock(text, open, i, w, q)
      ensures MatchAt(text, open, i).Some?
    {
      FenceChar(text, q);
      var p := i + |open|;
      var w' := SkipSpace(text, p);
      assert w <= w';
      assert !IsSpace(text[q]);
      assert w' <= q;
      assert FindFence(text, w').Some?;
    }
  }

  /** An engine match is determined by where it starts. */
  lemma EngineMatchUnique(text: string, open: string, s: Span, t: Span)
    requires IsEngineMatch(text, open, s) && IsEngineMatch(text, open, t)
    requires s.start == t.start
    ensures s == t
  {
    assert s.body == t.body;
    assert s.close == t.close;
  }

  /** The engine's match at i is exactly the engine match starting at i. */
  lemma MatchAtExact(text: string, open: string, s: Span)
    requires s.start <= |text|
    requires IsEngineMatch(text, open, s)
    ensures MatchAt(text, open, s.start) == Some(s)
  {
    MatchAtComplete(text, open, s.start);
    MatchAtSound(text, open, s.start);
    assert !NoBlockAt(text, open, s.start) by {
      assert IsBlock(text, open, s.start, s.body, s.close);
    }
    EngineMatchUnique(text, open, MatchAt(text, open, s.start).value, s);
  }

  /** re.findall from position i: leftmost match, then the scan resumes after it. */
  function FindAll(text: string, open: string, i: nat): (r: seq<Span>)
    requires i <= |text|
    ensures forall k :: 0 <= k < |r| ==> i <= r[k].start < r[k].body <= r[k].close && r[k].close + 3 <= |text|
    decreases |text| - i
  {
    if i == |text| then []
    else match MatchAt(text, open, i)
      case Some(s) => [s] + FindAll(text, open, s.close + 3)
      case None => FindAll(text, open, i + 1)
  }

  /** The reported matches come in increasing order and do not overlap. */
  lemma {:induction false} FindAllOrdered(text: string, open: string, i: nat)
    requires i <= |text|
    ensures forall k, l :: 0 <= k < l < |FindAll(text, open, i)| ==>
      FindAll(text, open, i)[k].close + 3 <= FindAll(text, open, i)[l].start
    decreases |text| - i
  {
    if i < |text| {
      match MatchAt(text, open, i)
      case Some(s) =>
        var r, tail := FindAll(text, open, i), FindAll(text, open, s.close + 3);
        FindAllOrdered(text, open, s.close + 3);
        assert r == [s] + tail;
        forall k, l | 0 <= k < l < |r| ensures r[k].close + 3 <= r[l].start {
          assert r[l] == tail[l - 1];
          if k > 0 {
            assert r[k] == tail[k - 1];
          }
        }
      case None =>
        FindAllOrdered(text, open, i + 1);
    }
  }

  /** One step of the scan. */
  lemma FindAllStep(text: string, open: string, i: nat)
    requires i < |text|
    ensures MatchAt(text, open, i).Some? ==>
      FindAll(text, open, i) == [MatchAt(text, open, i).value] + FindAll(text, open, MatchAt(text, open, i).value.close + 3)
    ensures MatchAt(text, open, i).None? ==> FindAll(text, open, i) == FindAll(text, open, i + 1)
  {
  }

  /** Every reported match is the engine's match at its start. */
  lemma {:induction false} FindAllSound(text: string, open: string, i: nat)
    requires i <= |text|
    ensures forall k :: 0 <= k < |FindAll(text, open, i)| ==> IsEngineMatch(text, open, FindAll(text, open, i)[k])
    decreases |text| - i
  {
    if i < |text| {
      match MatchAt(text, open, i)
      case Some(s) =>
        var r, tail := FindAll(text, open, i), FindAll(text, open, s.close + 3);
        FindAllSound(text, open, s.close + 3);
        MatchAtSound(text, open, i);
        assert r == [s] + tail;
        EngineMatchesCons(text, open, s, tail);
      case None =>
        FindAllSound(text, open, i + 1);
    }
  }

  lemma EngineMatchesCons(text: string, open: string, s: Span, tail: seq<Span>)
    requires IsEngineMatch(text, open, s)
    requires forall k :: 0 <= k < |tail| ==> IsEngineMatch(text, open, tail[k])
    ensures forall k :: 0 <= k < |[s] + tail| ==> IsEngineMatch(text, open, ([s] + tail)[k])
  {
    forall k | 0 <= k < |[s] + tail| ensures IsEngineMatch(text, open, ([s] + tail)[k]) {
      if k > 0 {
        assert ([s] + tail)[k] == tail[k - 1];
      }
    }
  }

  function FirstStart(text: string, r: seq<Span>): nat {
    if r == [] then |text| else r[0].start
  }

  function NextStart(text: string, r: seq<Span>, k: nat): nat {
    if k + 1 < |r| then r[k + 1].start else |text|
  }

  /** Leftmost scanning: no match is skipped before the first one. */
  lemma {:induction false} FindAllFirst(text: string, open: string, i: nat)
    requires i <= |text|
    ensures Clear(text, open, i, FirstStart(text, FindAll(text, open, i)))
    decreases |text| - i
  {
    if i < |text| {
      MatchAtComplete(text, open, i);
      if MatchAt(text, open, i).None? {
        FindAllFirst(text, open, i + 1);
        assert FindAll(text, open, i) == FindAll(text, open, i + 1);
      }
    }
  }

  /** No match starts after the closing fence of one span and before the next span, or
      after the last one. */
  ghost predicate GapsClear(text: string, open: string, spans: seq<Span>)
    decreases |spans|
  {
    spans == [] ||
    (Clear(text, open, spans[0].close + 3, FirstStart(text, spans[1..])) && GapsClear(text, open, spans[1..]))
  }

  lemma {:induction false} FindAllGaps(text: string, open: string, i: nat)
    requires i <= |text|
    ensures GapsClear(text, open, FindAll(text, open, i))
    decreases |text| - i
  {
    if i < |text| {
      if MatchAt(text, open, i).Some? {
        FindAllGaps(text, open, MatchAt(text, open, i).value.close + 3);
        GapsAfterMatch(text, open, i);
      } else {
        FindAllGaps(text, open, i + 1);
        FindAllStep(text, open, i);
      }
    }
  }

  /** A match at i keeps the gaps of the scan from i clear when the scan after it does. */
  lemma GapsAfterMatch(text: string, open: string, i: nat)
    requires i < |text| && MatchAt(text, open, i).Some?
    requires GapsClear(text, open, FindAll(text, open, MatchAt(text, open, i).value.close + 3))
    ensures GapsClear(text, open, FindAll(text, open, i))
  {
    var s := MatchAt(text, open, i).value;
    FindAllStep(text, open, i);
    GapsClearCons(text, open, s, s.close + 3);
  }

  /** A match followed by the scan from the end of its fence keeps the gaps clear. */
  lemma GapsClearCons(text: string, open: string, s: Span, j: nat)
    requires j <= |text|
    requires GapsClear(text, open, FindAll(text, open, j))
    requires s.close + 3 == j
    ensures GapsClear(text, open, [s] + FindAll(text, open, j))
  {
    FindAllFirst(text, open, j);
    assert ([s] + FindAll(text, open, j))[1..] == FindAll(text, open, j);
  }

  lemma {:induction false} GapsClearAt(text: string, open: string, spans: seq<Span>, k: nat)
    requires GapsClear(text, open, spans) && k < |spans|
    ensures Clear(text, open, spans[k].close + 3, NextStart(text, spans, k))
    decreases k
  {
    if k > 0 {
      GapsClearAt(text, open, spans[1..], k - 1);
      assert spans[1..][k - 1] == spans[k];
      assert NextStart(text, spans[1..], k - 1) == NextStart(text, spans, k);
    } else {
      assert NextStart(text, spans, 0) == FirstStart(text, spans[1..]);
    }
  }

  /** ... nor between a match and the next one, nor after the last one. */
  lemma {:induction false} FindAllGapAt(text: string, open: string, i: nat, spans: seq<Span>, k: nat)
    requires i <= |text| && spans == FindAll(text, open, i)
    requires k < |spans|
    ensures Clear(text, open, spans[k].close + 3, NextStart(text, spans, k))
  {
    FindAllGaps(text, open, i);
    GapsClearAt(text, open, spans, k);
  }

  /** The captured interiors of a list of matches. */
  function Captures(text: string, spans: seq<Span>): (r: seq<string>)
    requires forall k :: 0 <= k < |spans| ==> spans[k].body <= spans[k].close <= |text|
    ensures |r| == |spans|
    decreases |spans|
  {
    if spans == [] then [] else [text[spans[0].body..spans[0].close]] + Captures(text, spans[1..])
  }

  lemma {:induction false} CapturesAt(text: string, spans: seq<Span>, k: nat)
    requires forall k :: 0 <= k < |spans| ==> spans[k].body <= spans[k].close <= |text|
    requires k < |spans|
    ensures Captures(text, spans)[k] == text[spans[k].body..spans[k].close]
    decreases k
  {
    if k > 0 {
      CapturesAt(text, spans[1..], k - 1);
    }
  }

  function CapturesFrom(text: string, open: string, i: nat): seq<string>
    requires i <= |text|
  {
    Captures(text, FindAll(text, open, i))
  }

  /** re.findall(r'```TAG\s+(.*?)```', text, re.DOTALL) */
  function Extract(text: string, tag: string): seq<string> {
    CapturesFrom(text, Open(tag), 0)
  }

  /** The text stored and written by the post phases: the captures joined by a blank line
      when there is at least one, the raw text otherwise. */
  function Normalize(text: string, tag: string): string {
    var blocks := Extract(text, tag);
    if blocks != [] then Join(blocks, Separator) else text
  }

  /** The capture of an engine match: no closing fence inside, no leading whitespace. */
  lemma CaptureShape(text: string, open: string, s: Span)
    requires IsEngineMatch(text, open, s)
    ensures NoFence(text[s.body..s.close])
    ensures s.body == s.close || !IsSpace(text[s.body..s.close][0])
  {
    var c := text[s.body..s.close];
    forall j: nat ensures !FenceAt(c, j) {
      if j + 3 <= |c| {
        assert c[j] == text[s.body + j] && c[j + 1] == text[s.body + j + 1] && c[j + 2] == text[s.body + j + 2];
        assert !FenceAt(text, s.body + j);
      }
    }
  }

  /** Every capture is free of ``` and does not begin with whitespace. */
  lemma ExtractShape(text: string, tag: string)
    ensures forall k :: 0 <= k < |Extract(text, tag)| ==>
      NoFence(Extract(text, tag)[k]) && (Extract(text, tag)[k] == [] || !IsSpace(Extract(text, tag)[k][0]))
  {
    var spans := FindAll(text, Open(tag), 0);
    FindAllSound(text, Open(tag), 0);
    forall k | 0 <= k < |spans|
      ensures NoFence(Extract(text, tag)[k]) && (Extract(text, tag)[k] == [] || !IsSpace(Extract(text, tag)[k][0]))
    {
      CaptureShape(text, Open(tag), spans[k]);
      CapturesAt(text, spans, k);
    }
  }

  /** Nothing is extracted exactly when the pattern matches nowhere. */
  lemma ExtractEmptyIff(text: string, tag: string)
    ensures Extract(text, tag) == [] <==> !HasBlock(text, tag)
  {
    var open := Open(tag);
    var spans := FindAll(text, open, 0);
    FindAllFirst(text, open, 0);
    FindAllSound(text, open, 0);
    if spans == [] {
      forall i: nat, w: nat, q: nat ensures !IsBlock(text, open, i, w, q) {
        if i >= |text| {
        } else {
          ClearAt(text, open, 0, |text|, i);
        }
      }
    } else {
      assert IsBlock(text, open, spans[0].start, spans[0].body, spans[0].close);
    }
  }

  /** Pass-through and join rule. */
  lemma NormalizeCases(text: string, tag: string)
    ensures !HasBlock(text, tag) ==> Normalize(text, tag) == text
    ensures HasBlock(text, tag) ==> Extract(text, tag) != [] && Normalize(text, tag) == Join(Extract(text, tag), Separator)
  {
    ExtractEmptyIff(text, tag);
  }

  lemma {:induction false} JoinNoFence(parts: seq<string>, sep: string)
    requires forall k :: 0 <= k < |parts| ==> NoFence(parts[k])
    requires sep != [] && '`' !in sep
    ensures NoFence(Join(parts, sep))
    decreases |parts|
  {
    if |parts| > 1 {
      JoinNoFence(parts[1..], sep);
      var a, r := parts[0], Join(parts[1..], sep);
      var s := a + sep + r;
      forall j: nat ensures !FenceAt(s, j) {
        if j + 3 <= |s| {
          if j + 3 <= |a| {
            assert s[j] == a[j] && s[j + 1] == a[j + 1] && s[j + 2] == a[j + 2];
            assert !FenceAt(a, j);
          } else if j < |a| + |sep| {
            var m := if j < |a| then |a| else j;
            assert s[m] == sep[m - |a|];
            assert sep[m - |a|] in sep;
          } else {
            var j' := j - |a| - |sep|;
            assert s[j] == r[j'] && s[j + 1] == r[j' + 1] && s[j + 2] == r[j' + 2];
            assert !FenceAt(r, j');
          }
        }
      }
    }
  }

  /** Normalising already normalised text changes nothing. */
  lemma NormalizeIdempotent(text: string, tag: string)
    ensures Normalize(Normalize(text, tag), tag) == Normalize(text, tag)
  {
    NormalizeCases(text, tag);
    if HasBlock(text, tag) {
      var r := Normalize(text, tag);
      ExtractShape(text, tag);
      JoinNoFence(Extract(text, tag), Separator);
      assert !HasBlock(r, tag) by {
        forall i: nat, w: nat, q: nat ensures !IsBlock(r, Open(tag), i, w, q) {
          assert !FenceAt(r, q);
        }
      }
      NormalizeCases(r, tag);
    }
  }

  /** One step of the scan, seen on the captures. */
  lemma CapturesFromStep(text: string, open: string, i: nat)
    requires i < |text|
    ensures MatchAt(text, open, i).Some? ==>
      var s := MatchAt(text, open, i).value;
      CapturesFrom(text, open, i) == [text[s.body..s.close]] + CapturesFrom(text, open, s.close + 3)
    ensures MatchAt(text, open, i).None? ==> CapturesFrom(text, open, i) == CapturesFrom(text, open, i + 1)
  {
    if MatchAt(text, open, i).Some? {
      var s := MatchAt(text, open, i).value;
      CapturesCons(text, s, FindAll(text, open, s.close + 3));
    }
  }

  /** The scan at a match's start captures its body and resumes after its closing fence. */
  lemma CapturesFromMatch(text: string, open: string, s: Span)
    requires s.start < |text| && MatchAt(text, open, s.start) == Some(s)
    ensures s.close + 3 <= |text|
    ensures CapturesFrom(text, open, s.start) == [text[s.body..s.close]] + CapturesFrom(text, open, s.close + 3)
  {
    MatchAtSound(text, open, s.start);
    CapturesFromStep(text, open, s.start);
  }

  lemma CapturesCons(text: string, s: Span, spans: seq<Span>)
    requires s.body <= s.close <= |text|
    requires forall k :: 0 <= k < |spans| ==> spans[k].body <= spans[k].close <= |text|
    ensures Captures(text, [s] + spans) == [text[s.body..s.close]] + Captures(text, spans)
  {
    assert ([s] + spans)[1..] == spans;
  }

  /** No closing fence lies wholly inside text[a..b]. */
  ghost predicate FenceFree(text: string, a: nat, b: nat) {
    forall m {:trigger FenceAt(text, m)} :: a <= m && m + 3 <= b ==> !FenceAt(text, m)
  }

  /** Two copies of a marker that starts with ``` overlapping at distance d = 1 or 2
      make the whole marker backticks. */
  lemma {:induction false} OverlapTicks(text: string, open: string, m: nat, d: nat, k: nat)
    requires 1 <= d <= 2 && 3 <= |open| && open[..3] == Fence
    requires m + d + |open| <= |text|
    requires text[m..m + |open|] == open && text[m + d..m + d + |open|] == open
    requires k < |open|
    ensures open[k] == '`'
    decreases k
  {
    if k < 3 {
      assert open[k] == open[..3][k];
    } else {
      assert open[k] == text[m..m + |open|][k] == text[m + k];
      assert text[m + k] == text[m + d..m + d + |open|][k - d] == open[k - d];
      OverlapTicks(text, open, m, d, k - d);
    }
  }

  /** No match starts before an opening marker at n in a stretch from m free of fences. */
  lemma NoMatchBeforeOpen(text: string, tag: string, m: nat, n: nat)
    requires m < n <= |text| && FenceFree(text, m, n)
    requires n == |text| || (n + |Open(tag)| <= |text| && text[n..n + |Open(tag)|] == Open(tag))
    ensures MatchAt(text, Open(tag), m) == None
  {
    var open := Open(tag);
    if m + |open| <= |text| && text[m..m + |open|] == open {
      assert text[m] == open[0] && text[m + 1] == open[1] && text[m + 2] == open[2] by {
        assert text[m..m + |open|][0] == text[m] && text[m..m + |open|][1] == text[m + 1];
        assert text[m..m + |open|][2] == text[m + 2];
      }
      assert FenceAt(text, m);
      var d := n - m;
      OverlapTicks(text, open, m, d, |open| - d);
      assert text[m + |open|] == text[n..n + |open|][|open| - d];
    }
  }

  /** A stretch without a closing fence, ending where an opening marker or the text ends,
      contributes no block: the scan passes over it. */
  lemma {:induction false} CapturesFromPlain(text: string, tag: string, j: nat, n: nat)
    requires j <= n <= |text| && FenceFree(text, j, n)
    requires n == |text| || (n + |Open(tag)| <= |text| && text[n..n + |Open(tag)|] == Open(tag))
    ensures CapturesFrom(text, Open(tag), j) == CapturesFrom(text, Open(tag), n)
    decreases n - j
  {
    if j < n {
      NoMatchBeforeOpen(text, tag, j, n);
      CapturesFromStep(text, Open(tag), j);
      CapturesFromPlain(text, tag, j + 1, n);
    }
  }

  /** A well-formed block: opening marker, whitespace, body, closing fence. */
  function Block(tag: string, ws: string, body: string): string {
    Open(tag) + ws + body + Fence
  }

  /** What a block's body must look like for its capture to be the whole body: a
      non-empty whitespace run before it, no closing fence inside it, no whitespace at
      its start and no backtick at its end. */
  ghost predicate WellFormed(ws: string, body: string) {
    && ws != [] && (forall k {:trigger IsSpace(ws[k])} :: 0 <= k < |ws| ==> IsSpace(ws[k]))
    && NoFence(body)
    && (body == [] || (!IsSpace(body[0]) && body[|body| - 1] != '`'))
  }

  lemma BlockAt(text: string, tag: string, ws: string, body: string, p: nat)
    requires WellFormed(ws, body)
    requires p + |Block(tag, ws, body)| <= |text|
    requires text[p..p + |Block(tag, ws, body)|] == Block(tag, ws, body)
    ensures IsEngineMatch(text, Open(tag), Span(p, p + |Open(tag)| + |ws|, p + |Open(tag)| + |ws| + |body|))
  {
    var w := p + |Open(tag)| + |ws|;
    BlockStart(text, tag, ws, body, p);
    BlockEnd(text, tag, ws, body, p);
    BodyFenceFree(text, body, w);
    EngineMatchOfParts(text, Open(tag), Span(p, w, w + |body|));
  }

  /** A placed block begins with its marker and its whitespace run. */
  lemma BlockStart(text: string, tag: string, ws: string, body: string, p: nat)
    requires WellFormed(ws, body)
    requires p + |Block(tag, ws, body)| <= |text|
    requires text[p..p + |Block(tag, ws, body)|] == Block(tag, ws, body)
    ensures text[p..p + |Open(tag)|] == Open(tag)
    ensures forall j {:trigger IsSpace(text[j])} :: p + |Open(tag)| <= j < p + |Open(tag)| + |ws| ==> IsSpace(text[j])
  {
    var open, n := Open(tag), |Block(tag, ws, body)|;
    var w := p + |open| + |ws|;
    BlockParts(tag, ws, body);
    SliceOfSlice(text, p, n, 0, |open|);
    SliceOfSlice(text, p, n, |open|, |open| + |ws|);
    forall j | p + |open| <= j < w ensures IsSpace(text[j]) {
      assert text[j] == text[p + |open|..w][j - p - |open|] == ws[j - p - |open|];
    }
  }

  /** A placed block ends with its body and a closing fence. */
  lemma BlockEnd(text: string, tag: string, ws: string, body: string, p: nat)
    requires WellFormed(ws, body)
    requires p + |Block(tag, ws, body)| <= |text|
    requires text[p..p + |Block(tag, ws, body)|] == Block(tag, ws, body)
    ensures text[p + |Open(tag)| + |ws|..p + |Open(tag)| + |ws| + |body|] == body
    ensures FenceAt(text, p + |Open(tag)| + |ws| + |body|)
    ensures !IsSpace(text[p + |Open(tag)| + |ws|])
  {
    var open, n := Open(tag), |Block(tag, ws, body)|;
    var w := p + |open| + |ws|;
    var q := w + |body|;
    BlockParts(tag, ws, body);
    SliceOfSlice(text, p, n, |open| + |ws|, |open| + |ws| + |body|);
    SliceOfSlice(text, p, n, |open| + |ws| + |body|, n);
    assert text[q..q + 3] == Fence;
    assert text[q] == text[q..q + 3][0] && text[q + 1] == text[q..q + 3][1] && text[q + 2] == text[q..q + 3][2];
    if body != [] {
      assert text[w] == text[w..q][0];
    }
  }

  /** The four parts of a block, by position. */
  lemma BlockParts(tag: string, ws: string, body: string)
    ensures |Block(tag, ws, body)| == |Open(tag)| + |ws| + |body| + 3
    ensures Block(tag, ws, body)[..|Open(tag)|] == Open(tag)
    ensures Block(tag, ws, body)[|Open(tag)|..|Open(tag)| + |ws|] == ws
    ensures Block(tag, ws, body)[|Open(tag)| + |ws|..|Open(tag)| + |ws| + |body|] == body
    ensures Block(tag, ws, body)[|Open(tag)| + |ws| + |body|..] == Fence
  {
    var o, a, c := Open(tag), Open(tag) + ws, Open(tag) + ws + body;
    assert Block(tag, ws, body) == c + Fence;
    assert (c + Fence)[..|o|] == o by { assert (c + Fence)[..|o|] == c[..|o|] == a[..|o|]; }
    assert (c + Fence)[|o|..|a|] == ws by { assert (c + Fence)[|o|..|a|] == c[|o|..|a|] == a[|o|..|a|]; }
    assert (c + Fence)[|a|..|c|] == body by { assert (c + Fence)[|a|..|c|] == c[|a|..|c|]; }
  }

  /** The conditions of an engine match, one by one. */
  lemma EngineMatchOfParts(text: string, open: string, s: Span)
    requires s.start + |open| < s.body <= s.close && s.close + 3 <= |text|
    requires text[s.start..s.start + |open|] == open
    requires forall j {:trigger IsSpace(text[j])} :: s.start + |open| <= j < s.body ==> IsSpace(text[j])
    requires FenceAt(text, s.close) && (s.body == |text| || !IsSpace(text[s.body]))
    requires forall j :: s.body <= j < s.close ==> !FenceAt(text, j)
    ensures IsEngineMatch(text, open, s)
  {
  }

  /** Within a well-formed body placed at w, and up to its end, no closing fence starts. */
  lemma BodyFenceFree(text: string, body: string, w: nat)
    requires w + |body| <= |text| && text[w..w + |body|] == body
    requires NoFence(body) && (body == [] || body[|body| - 1] != '`')
    ensures forall j :: w <= j < w + |body| ==> !FenceAt(text, j)
  {
    var q := w + |body|;
    forall j | w <= j < q ensures !FenceAt(text, j) {
      if j + 3 <= q {
        assert !FenceAt(body, j - w);
        assert text[j] == body[j - w] && text[j + 1] == body[j + 1 - w] && text[j + 2] == body[j + 2 - w];
      } else {
        assert text[q - 1] == body[|body| - 1];
      }
    }
  }

  lemma SliceOfSlice(text: string, p: nat, n: nat, a: nat, b: nat)
    requires p + n <= |text| && a <= b <= n
    ensures text[p + a..p + b] == text[p..p + n][a..b]
  {
    var x, y := text[p + a..p + b], text[p..p + n][a..b];
    forall j | 0 <= j < |x| ensures x[j] == y[j] {
      assert y[j] == text[p..p + n][a + j];
    }
  }

  /** The engine's attempt at a well-formed block's start reports exactly that block,
      whose capture is the body. */
  lemma BlockMatch(text: string, tag: string, ws: string, body: string, p: nat)
    requires WellFormed(ws, body)
    requires p + |Block(tag, ws, body)| <= |text|
    requires text[p..p + |Block(tag, ws, body)|] == Block(tag, ws, body)
    ensures MatchAt(text, Open(tag), p) == Some(Span(p, p + |Open(tag)| + |ws|, p + |Open(tag)| + |ws| + |body|))
    ensures text[p..p + |Open(tag)|] == Open(tag)
    ensures text[p + |Open(tag)| + |ws|..p + |Open(tag)| + |ws| + |body|] == body
    ensures p + |Open(tag)| + |ws| + |body| + 3 == p + |Block(tag, ws, body)|
  {
    var b := |Open(tag)| + |ws|;
    BlockAt(text, tag, ws, body, p);
    MatchAtExact(text, Open(tag), Span(p, p + b, p + b + |body|));
    BlockStart(text, tag, ws, body, p);
    BlockEnd(text, tag, ws, body, p);
    BlockParts(tag, ws, body);
  }

  /** A block at p contributes exactly its body, and the scan resumes right after it. */
  lemma CapturesFromBlock(text: string, tag: string, ws: string, body: string, p: nat)
    requires WellFormed(ws, body)
    requires p + |Block(tag, ws, body)| <= |text|
    requires text[p..p + |Block(tag, ws, body)|] == Block(tag, ws, body)
    ensures CapturesFrom(text, Open(tag), p) == [body] + CapturesFrom(text, Open(tag), p + |Block(tag, ws, body)|)
  {
    var b := |Open(tag)| + |ws|;
    BlockMatch(text, tag, ws, body, p);
    CapturesFromMatch(text, Open(tag), Span(p, p + b, p + b + |body|));
  }

  /** A stretch in which no match starts contributes no capture: the scan passes over it. */
  lemma {:induction false} CapturesFromClear(text: string, open: string, j: nat, n: nat)
    requires j <= n <= |text| && Clear(text, open, j, n)
    ensures CapturesFrom(text, open, j) == CapturesFrom(text, open, n)
    decreases n - j
  {
    if j < n {
      NoBlockNoMatch(text, open, j);
      CapturesFromStep(text, open, j);
      CapturesFromClear(text, open, j + 1, n);
    }
  }

  /** Where the pattern cannot match, the engine's attempt fails. */
  lemma NoBlockNoMatch(text: string, open: string, i: nat)
    requires i <= |text| && NoBlockAt(text, open, i)
    ensures MatchAt(text, open, i).None?
  {
    MatchAtSound(text, open, i);
  }

  /** Fence-free text that ends at an opening marker or at the end of the text is clear. */
  lemma {:induction false} FenceFreeClear(text: string, tag: string, j: nat, n: nat)
    requires j <= n <= |text| && FenceFree(text, j, n)
    requires n == |text| || (n + |Open(tag)| <= |text| && text[n..n + |Open(tag)|] == Open(tag))
    ensures Clear(text, Open(tag), j, n)
    decreases n - j
  {
    if j < n {
      NoMatchBeforeOpen(text, tag, j, n);
      MatchAtComplete(text, Open(tag), j);
      FenceFreeClear(text, tag, j + 1, n);
    }
  }

  /** Fence-free text from j up to a well-formed block at p is clear. */
  lemma FenceFreeClearBefore(text: string, tag: string, ws: string, body: string, j: nat, p: nat)
    requires WellFormed(ws, body)
    requires j <= p && p + |Block(tag, ws, body)| <= |text|
    requires text[p..p + |Block(tag, ws, body)|] == Block(tag, ws, body)
    requires FenceFree(text, j, p)
    ensures Clear(text, Open(tag), j, p)
  {
    BlockStart(text, tag, ws, body, p);
    FenceFreeClear(text, tag, j, p);
  }

  /** Text from j up to a block at p in which no match starts: the scan reaches the
      block and captures its body. */
  lemma CapturesFromPlainBlock(text: string, tag: string, ws: string, body: string, j: nat, p: nat)
    requires WellFormed(ws, body)
    requires j <= p && p + |Block(tag, ws, body)| <= |text|
    requires text[p..p + |Block(tag, ws, body)|] == Block(tag, ws, body)
    requires Clear(text, Open(tag), j, p)
    ensures CapturesFrom(text, Open(tag), j) == [body] + CapturesFrom(text, Open(tag), p + |Block(tag, ws, body)|)
  {
    CapturesFromClear(text, Open(tag), j, p);
    CapturesFromBlock(text, tag, ws, body, p);
  }

  /** A block of the text: whitespace run, body and the position of its opening marker. */
  datatype Placed = Placed(ws: string, body: string, at: nat)

  /** Where a placed block ends, closing fence included. */
  function After(tag: string, b: Placed): nat {
    b.at + |Block(tag, b.ws, b.body)|
  }

  /** The block b sits in the text after text from j in which no match starts. That text
      may hold anything but a block of this tag: inline code, blocks of other languages. */
  ghost predicate LaidHead(text: string, tag: string, j: nat, b: Placed) {
    && WellFormed(b.ws, b.body)
    && j <= b.at && After(tag, b) <= |text|
    && text[b.at..After(tag, b)] == Block(tag, b.ws, b.body)
    && Clear(text, Open(tag), j, b.at)
  }

  /** From j on, the text is the given well-formed blocks in order, with text in which no
      match starts before, between and after them. */
  ghost predicate Laid(text: string, tag: string, j: nat, blocks: seq<Placed>)
    decreases |blocks|
  {
    if blocks == [] then j <= |text| && Clear(text, Open(tag), j, |text|)
    else LaidHead(text, tag, j, blocks[0]) && Laid(text, tag, After(tag, blocks[0]), blocks[1..])
  }

  function Bodies(blocks: seq<Placed>): (r: seq<string>)
    ensures |r| == |blocks| && forall k :: 0 <= k < |blocks| ==> r[k] == blocks[k].body
  {
    seq(|blocks|, k requires 0 <= k < |blocks| => blocks[k].body)
  }

  /** Blocks laid out from j are captured as their bodies, in order. */
  lemma {:induction false} CapturesFromLaid(text: string, tag: string, j: nat, blocks: seq<Placed>)
    requires Laid(text, tag, j, blocks)
    ensures j <= |text| && CapturesFrom(text, Open(tag), j) == Bodies(blocks)
    decreases |blocks|
  {
    if blocks == [] {
      CapturesFromClear(text, Open(tag), j, |text|);
      assert CapturesFrom(text, Open(tag), |text|) == [];
    } else {
      var e := CapturesFromFirstLaid(text, tag, j, blocks);
      CapturesFromLaid(text, tag, e, blocks[1..]);
      assert Bodies(blocks) == [blocks[0].body] + Bodies(blocks[1..]);
    }
  }

  /** The first laid-out block is captured, and the rest is laid out after it. */
  lemma CapturesFromFirstLaid(text: string, tag: string, j: nat, blocks: seq<Placed>) returns (e: nat)
    requires Laid(text, tag, j, blocks) && blocks != []
    ensures j <= e <= |text| && Laid(text, tag, e, blocks[1..])
    ensures CapturesFrom(text, Open(tag), j) == [blocks[0].body] + CapturesFrom(text, Open(tag), e)
  {
    e := After(tag, blocks[0]);
    LaidHeadCaptures(text, tag, j, blocks[0]);
  }

  /** The block of a laid-out head is captured after the clear text before it. */
  lemma LaidHeadCaptures(text: string, tag: string, j: nat, b: Placed)
    requires LaidHead(text, tag, j, b)
    ensures CapturesFrom(text, Open(tag), j) == [b.body] + CapturesFrom(text, Open(tag), After(tag, b))
  {
    CapturesFromClear(text, Open(tag), j, b.at);
    CapturesFromBlock(text, tag, b.ws, b.body, b.at);
  }

  /** Any number of well-formed blocks amid text in which no match starts (fence-free
      text, or blocks of other languages): the stored text is their
      bodies joined by blank lines, or the text itself when there is no block. */
  lemma NormalizeLaid(text: string, tag: string, blocks: seq<Placed>)
    requires Laid(text, tag, 0, blocks)
    ensures blocks != [] ==> Normalize(text, tag) == Join(Bodies(blocks), Separator)
    ensures blocks == [] ==> Normalize(text, tag) == text
  {
    CapturesFromLaid(text, tag, 0, blocks);
  }

  /** Zero blocks: the raw text passes through. */
  lemma NormalizeNoBlocks(text: string, tag: string)
    requires NoFence(text)
    ensures Normalize(text, tag) == text
  {
    CapturesFromPlain(text, tag, 0, |text|);
  }

  /** One block: its interior verbatim, without the markers. */
  lemma NormalizeOneBlock(tag: string, ws: string, body: string)
    requires WellFormed(ws, body)
    ensures Normalize(Block(tag, ws, body), tag) == body
  {
    var text := Block(tag, ws, body);
    CapturesFromBlock(text, tag, ws, body, 0);
  }

  /** Inline code inside a block survives: the interior comes back whole. */
  lemma NormalizeInlineCode()
    ensures Normalize(Block("markdown", "\n", "use `x` here"), "markdown") == "use `x` here"
  {
    var body := "use `x` here";
    forall j: nat ensures !FenceAt(body, j) {
      if j + 3 <= |body| && body[j] == '`' {
        assert j == 4 || j == 6;
      }
    }
    NormalizeOneBlock("markdown", "\n", body);
  }

  /** The opening marker starts at m. */
  ghost predicate OpenAt(text: string, open: string, m: nat) {
    m + |open| <= |text| && text[m..m + |open|] == open
  }

  /** No match starts where the opening marker is absent. */
  lemma {:induction false} ClearWithoutOpen(text: string, open: string, a: nat, b: nat)
    requires forall m :: a <= m < b ==> !OpenAt(text, open, m)
    ensures Clear(text, open, a, b)
    decreases b - a
  {
    if a < b {
      assert !OpenAt(text, open, a);
      forall w: nat, q: nat ensures !IsBlock(text, open, a, w, q) {
      }
      ClearWithoutOpen(text, open, a + 1, b);
    }
  }

  /** A block in another language ahead of the markdown block is not captured. */
  lemma NormalizeOtherLanguage()
    ensures Normalize("```python\nx\n```\n" + Block("markdown", "\n", "story"), "markdown") == "story"
  {
    var other, block := "```python\nx\n```\n", Block("markdown", "\n", "story");
    var text, open := other + block, Open("markdown");
    forall m | 0 <= m < |other| ensures !OpenAt(text, open, m) {
      var k := if m == 0 then 3 else if m == 12 then 3 else if text[m] != '`' then 0 else if text[m + 1] != '`' then 1 else 2;
      assert text[m..m + |open|][k] == text[m + k] != open[k];
    }
    ClearWithoutOpen(text, open, 0, |other|);
    assert text[|other|..|text|] == block;
    var blocks := [Placed("\n", "story", |other|)];
    assert Laid(text, "markdown", |text|, []);
    assert Laid(text, "markdown", 0, blocks);
    NormalizeLaid(text, "markdown", blocks);
  }

  /** A fence-free piece of the text leaves its stretch of the text fence-free. */
  lemma FenceFreeSlice(text: string, piece: string, a: nat)
    requires a + |piece| <= |text| && text[a..a + |piece|] == piece && NoFence(piece)
    ensures FenceFree(text, a, a + |piece|)
  {
    forall m | a <= m && m + 3 <= a + |piece| ensures !FenceAt(text, m) {
      assert !FenceAt(piece, m - a);
      assert text[m] == piece[m - a] && text[m + 1] == piece[m + 1 - a] && text[m + 2] == piece[m + 2 - a];
    }
  }

  /** Two blocks amid commentary: their interiors in source order, one blank line between. */
  lemma NormalizeTwoBlocks(tag: string, before: string, ws1: string, body1: string, between: string,
                           ws2: string, body2: string, after: string)
    requires NoFence(before) && NoFence(between) && NoFence(after)
    requires WellFormed(ws1, body1) && WellFormed(ws2, body2)
    ensures Normalize(before + Block(tag, ws1, body1) + between + Block(tag, ws2, body2) + after, tag)
            == body1 + Separator + body2
  {
    var text := before + Block(tag, ws1, body1) + between + Block(tag, ws2, body2) + after;
    var blocks := TwoBlocksLaid(tag, before, ws1, body1, between, ws2, body2, after);
    CapturesFromLaid(text, tag, 0, blocks);
    assert Extract(text, tag) == [body1, body2];
    assert [body1, body2][1..] == [body2];
    assert Join([body1, body2], Separator) == body1 + Separator + body2;
  }

  /** Fence-free text followed by a well-formed block makes a laid-out head. */
  lemma LaidHeadOf(text: string, tag: string, ws: string, body: string, piece: string, j: nat)
    requires WellFormed(ws, body)
    requires j + |piece| + |Block(tag, ws, body)| <= |text|
    requires text[j..j + |piece|] == piece && NoFence(piece)
    requires text[j + |piece|..j + |piece| + |Block(tag, ws, body)|] == Block(tag, ws, body)
    ensures LaidHead(text, tag, j, Placed(ws, body, j + |piece|))
  {
    FenceFreeSlice(text, piece, j);
    FenceFreeClearBefore(text, tag, ws, body, j, j + |piece|);
  }

  /** Fence-free text up to the end makes the end of a layout. */
  lemma LaidEnd(text: string, tag: string, piece: string, e: nat)
    requires e + |piece| == |text| && text[e..|text|] == piece && NoFence(piece)
    ensures Laid(text, tag, e, [])
  {
    FenceFreeSlice(text, piece, e);
    FenceFreeClear(text, tag, e, |text|);
  }

  /** Where the two blocks of such a text lie. */
  lemma TwoBlocksLaid(tag: string, before: string, ws1: string, body1: string, between: string,
                      ws2: string, body2: string, after: string) returns (blocks: seq<Placed>)
    requires NoFence(before) && NoFence(between) && NoFence(after)
    requires WellFormed(ws1, body1) && WellFormed(ws2, body2)
    ensures |blocks| == 2 && blocks[0].body == body1 && blocks[1].body == body2
    ensures Laid(before + Block(tag, ws1, body1) + between + Block(tag, ws2, body2) + after, tag, 0, blocks)
  {
    var b1, b2 := Block(tag, ws1, body1), Block(tag, ws2, body2);
    var text := before + b1 + between + b2 + after;
    var p1 := |before|;
    var e1 := p1 + |b1|;
    var p2 := e1 + |between|;
    var e2 := p2 + |b2|;
    assert text[p1..e1] == b1;
    assert text[p2..e2] == b2;
    assert text[0..p1] == before && text[e1..p2] == between && text[e2..|text|] == after;
    LaidHeadOf(text, tag, ws1, body1, before, 0);
    LaidHeadOf(text, tag, ws2, body2, between, e1);
    LaidEnd(text, tag, after, e2);
    blocks := [Placed(ws1, body1, p1), Placed(ws2, body2, p2)];
    assert Laid(text, tag, e2, []);
    assert Laid(text, tag, e1, blocks[1..]);
  }
}
