/**
  The text side of script.js's `displayLuke`: splitting the Luke text into
  blank-line separated blocks (`text.split(/\n\s*\n/)`), matching each block
  against `/Luke (\d+):(\d+):\s*([\s\S]+)/`, and the sequence of render
  instructions (chapter headings and verse spans) that the rendering loop
  appends to the text container. Also the lookup the click handler performs
  on a verse's `data-luke-ref`.
 */
module LukeText {
  import opened Wrappers
  import opened Strings
  import opened ParallelsJson
  import opened Seqs

  // ---------------------------------------------------------------------
  // Blocks: text.split(/\n\s*\n/)
  // ---------------------------------------------------------------------

  /** `\n\s*\n` matches exactly the characters s[p..e+1]. */
  predicate IsSeparator(s: string, p: nat, e: nat) {
    p < e < |s| && s[p] == '\n' && s[e] == '\n' && forall k :: p < k < e ==> IsJsSpace(s[k])
  }

  /** The largest e in [lo, hi) with s[e] == '\n'. */
  function LastNewline(s: string, lo: nat, hi: nat): (e: Option<nat>)
    requires lo <= hi <= |s|
    ensures e.Some? ==> lo <= e.value < hi && s[e.value] == '\n'
                        && forall k :: e.value < k < hi ==> s[k] != '\n'
    ensures e.None? ==> forall k :: lo <= k < hi ==> s[k] != '\n'
    decreases hi - lo
  {
    if lo == hi then None
    else if s[hi - 1] == '\n' then Some(hi - 1)
    else LastNewline(s, lo, hi - 1)
  }

  /** Where the match of `\n\s*\n` that starts at p ends (the index of its
      last newline), if it matches there. `\s*` is greedy, so the match runs
      to the last newline of the whitespace that follows s[p]. */
  function SeparatorAt(s: string, p: nat): (r: Option<nat>)
    requires p <= |s|
    ensures r.Some? ==> IsSeparator(s, p, r.value)
                        && forall e: nat :: IsSeparator(s, p, e) ==> e <= r.value
    ensures r.None? ==> forall e: nat :: !IsSeparator(s, p, e)
  {
    if p < |s| && s[p] == '\n' then
      var q := SpanEnd(s, p + 1, IsJsSpace);
      assert forall e: nat :: IsSeparator(s, p, e) ==> e < q by {
        forall e: nat | IsSeparator(s, p, e) ensures e < q {
          assert IsJsSpace(s[e]);
          SpanEndPast(s, p + 1, IsJsSpace, e);
        }
      }
      LastNewline(s, p + 1, q)
    else None
  }

  /** The leftmost separator at or after `from`: its start and its last index. */
  function FindSeparator(s: string, from: nat): (r: Option<(nat, nat)>)
    requires from <= |s|
    ensures r.Some? ==> from <= r.value.0 < |s| && SeparatorAt(s, r.value.0) == Some(r.value.1)
                        && forall q :: from <= q < r.value.0 ==> SeparatorAt(s, q).None?
    ensures r.Some? ==> forall q: nat, e: nat :: from <= q < r.value.0 ==> !IsSeparator(s, q, e)
    ensures r.None? ==> forall q :: from <= q <= |s| ==> SeparatorAt(s, q).None?
    ensures r.None? ==> forall q: nat, e: nat :: from <= q ==> !IsSeparator(s, q, e)
    decreases |s| - from
  {
    if from == |s| then None
    else match SeparatorAt(s, from)
      case Some(e) => Some((from, e))
      case None => FindSeparator(s, from + 1)
  }

  function SplitBlocksFrom(s: string, from: nat): seq<string>
    requires from <= |s|
    decreases |s| - from
  {
    match FindSeparator(s, from)
    case None => [s[from..]]
    case Some((p, e)) => [s[from..p]] + SplitBlocksFrom(s, e + 1)
  }

  /** JavaScript's `text.split(/\n\s*\n/)`. */
  function SplitBlocks(text: string): seq<string> {
    SplitBlocksFrom(text, 0)
  }

  lemma SeparatorInSlice(s: string, lo: nat, hi: nat, i: nat, j: nat)
    requires lo <= hi <= |s| && IsSeparator(s[lo..hi], i, j)
    ensures IsSeparator(s, lo + i, lo + j) && lo + j < hi
  {
    var b := s[lo..hi];
    forall k | lo + i < k < lo + j ensures IsJsSpace(s[k]) {
      assert s[k] == b[k - lo];
    }
  }

  /** No block contains a blank-line separator: the split cuts at every one. */
  lemma {:induction false} BlocksHaveNoSeparator(s: string, from: nat)
    requires from <= |s|
    ensures forall k, i: nat, j: nat :: 0 <= k < |SplitBlocksFrom(s, from)| ==> !IsSeparator(SplitBlocksFrom(s, from)[k], i, j)
    decreases |s| - from
  {
    var r := SplitBlocksFrom(s, from);
    match FindSeparator(s, from)
    case None =>
      forall i: nat, j: nat | IsSeparator(s[from..], i, j) ensures false {
        SeparatorInSlice(s, from, |s|, i, j);
      }
    case Some((p, e)) =>
      forall i: nat, j: nat | IsSeparator(s[from..p], i, j) ensures false {
        SeparatorInSlice(s, from, p, i, j);
      }
      BlocksHaveNoSeparator(s, e + 1);
      assert r == [s[from..p]] + SplitBlocksFrom(s, e + 1);
  }

  /** The text of a whole match of `\n\s*\n`. */
  predicate IsSeparatorText(t: string) {
    |t| >= 2 && IsSeparator(t, 0, |t| - 1)
  }

  /** The separators the split cuts at, in order: the text each match
      covers. */
  function SeparatorsFrom(s: string, from: nat): seq<string>
    requires from <= |s|
    decreases |s| - from
  {
    match FindSeparator(s, from)
    case None => []
    case Some((p, e)) => [s[p..e + 1]] + SeparatorsFrom(s, e + 1)
  }

  /** The blocks with the separators put back between them. */
  function Interleave(blocks: seq<string>, seps: seq<string>): string
    requires |blocks| == |seps| + 1
  {
    if seps == [] then blocks[0] else blocks[0] + seps[0] + Interleave(blocks[1..], seps[1..])
  }

  lemma SeparatorText(s: string, p: nat, e: nat)
    requires IsSeparator(s, p, e)
    ensures IsSeparatorText(s[p..e + 1])
  {
    var t := s[p..e + 1];
    forall k | 0 < k < e - p ensures IsJsSpace(t[k]) {
      assert t[k] == s[p + k];
    }
  }

  /** The split loses nothing: the blocks with the separators found
      between them give back the text. */
  lemma {:induction false} SplitBlocksReassembles(s: string, from: nat)
    requires from <= |s|
    ensures |SplitBlocksFrom(s, from)| == |SeparatorsFrom(s, from)| + 1
    ensures Interleave(SplitBlocksFrom(s, from), SeparatorsFrom(s, from)) == s[from..]
    decreases |s| - from
  {
    match FindSeparator(s, from)
    case None =>
      assert SplitBlocksFrom(s, from) == [s[from..]];
      assert SeparatorsFrom(s, from) == [];
    case Some((p, e)) =>
      SplitBlocksStep(s, from, p, e);
      SplitBlocksReassembles(s, e + 1);
      ReassembleStep(s, from, p, e, SplitBlocksFrom(s, e + 1), SeparatorsFrom(s, e + 1));
  }

  /** One cut of the split. */
  lemma SplitBlocksStep(s: string, from: nat, p: nat, e: nat)
    requires from <= |s| && FindSeparator(s, from) == Some((p, e))
    ensures from <= p <= e < |s|
    ensures SplitBlocksFrom(s, from) == [s[from..p]] + SplitBlocksFrom(s, e + 1)
    ensures SeparatorsFrom(s, from) == [s[p..e + 1]] + SeparatorsFrom(s, e + 1)
  {
  }

  /** One cut undone: the block before a separator, the separator, and
      the reassembled rest. */
  lemma ReassembleStep(s: string, from: nat, p: nat, e: nat, bs: seq<string>, ss: seq<string>)
    requires from <= p <= e < |s| && |bs| == |ss| + 1
    requires Interleave(bs, ss) == s[e + 1..]
    ensures Interleave([s[from..p]] + bs, [s[p..e + 1]] + ss) == s[from..]
  {
    assert ([s[from..p]] + bs)[1..] == bs && ([s[p..e + 1]] + ss)[1..] == ss;
    assert s[from..] == s[from..p] + s[p..e + 1] + s[e + 1..];
  }

  /** What the split cuts out between two blocks is each time a whole
      match of the separator. */
  lemma {:induction false} SeparatorsAreMatches(s: string, from: nat)
    requires from <= |s|
    ensures forall k :: 0 <= k < |SeparatorsFrom(s, from)| ==> IsSeparatorText(SeparatorsFrom(s, from)[k])
    decreases |s| - from
  {
    match FindSeparator(s, from)
    case None =>
    case Some((p, e)) =>
      var ss := SeparatorsFrom(s, e + 1);
      SeparatorsAreMatches(s, e + 1);
      SeparatorText(s, p, e);
      var q := SeparatorsFrom(s, from);
      assert q == [s[p..e + 1]] + ss;
      forall k | 0 <= k < |q| ensures IsSeparatorText(q[k]) {
        if k > 0 {
          assert q[k] == ss[k - 1];
        }
      }
  }

  /** A text without a blank-line separator is a single block. */
  lemma NoSeparatorOneBlock(s: string)
    requires forall p: nat, e: nat :: !IsSeparator(s, p, e)
    ensures SplitBlocks(s) == [s]
  {
  }

  // ---------------------------------------------------------------------
  // One block: /Luke (\d+):(\d+):\s*([\s\S]+)/
  // ---------------------------------------------------------------------

  type DigitString = s: string | IsDigitString(s) witness "0"

  type NonEmptyString = s: string | s != [] witness " "

  /** A successful match: the two digit groups, and the non-empty remainder
      of the block after the second colon, from which the third group is
      taken (TextGroup). */
  datatype VerseMatch = VerseMatch(chapter: DigitString, verse: DigitString, rest: NonEmptyString)

  /** The index of the colon that closes a run of one or more digits
      starting at i (`(\d+):`, where the greedy `\d+` takes the whole run). */
  function DigitsThenColon(b: string, i: nat): (r: Option<nat>)
    requires i <= |b|
    ensures r.Some? ==> i < r.value < |b| && b[r.value] == ':' && IsDigitString(b[i..r.value])
  {
    var d := SpanEnd(b, i, IsAsciiDigit);
    if d == i || d == |b| || b[d] != ':' then None
    else
      assert forall k :: 0 <= k < d - i ==> b[i..d][k] == b[i + k];
      Some(d)
  }

  /** A digit run followed by a colon is found. */
  lemma DigitsThenColonIs(b: string, i: nat, d: nat)
    requires i < d < |b| && b[d] == ':'
    requires forall k :: i <= k < d ==> IsAsciiDigit(b[k])
    ensures DigitsThenColon(b, i) == Some(d)
  {
    SpanEndIs(b, i, IsAsciiDigit, d);
  }

  /** The third group, `\s*([\s\S]+)` on what follows the second colon: the
      greedy `\s*` takes the leading whitespace but must leave one character. */
  function TextGroup(rest: string): (r: string)
    requires rest != []
    ensures r != [] && JsTrim(r) == JsTrim(rest)
  {
    var w := SpanEnd(rest, 0, IsJsSpace);
    if w == |rest| then
      rest[w - 1..]
    else
      assert rest == rest[..w] + rest[w..];
      TrimSkipsPrefix(rest[..w], rest[w..], IsJsSpace);
      rest[w..]
  }

  lemma HeaderSlices(b: string, p: nat, d1: nat, d2: nat)
    requires p + 5 < d1 < d2 < |b| && b[p..p + 5] == "Luke " && b[d1] == ':' && b[d2] == ':'
    ensures b[p..d2 + 1] == "Luke " + b[p + 5..d1] + ":" + b[d1 + 1..d2] + ":"
  {
    assert b[p..d2 + 1] == b[p..p + 5] + b[p + 5..d1] + b[d1..d1 + 1] + b[d1 + 1..d2] + b[d2..d2 + 1];
  }

  /** The match that starts at index p, if there is one: `Luke `, a digit
      run and a colon, a digit run and a colon, and at least one more
      character. */
  function MatchVerseAt(b: string, p: nat): (r: Option<VerseMatch>)
    requires p <= |b|
    ensures r.Some? ==>
      var n := p + |r.value.chapter| + |r.value.verse| + 7;
      n < |b| && b[p..n] == "Luke " + r.value.chapter + ":" + r.value.verse + ":"
      && r.value.rest == b[n..]
  {
    if !(p + 5 <= |b| && b[p..p + 5] == "Luke ") then None
    else
      match DigitsThenColon(b, p + 5)
      case None => None
      case Some(d1) =>
        match DigitsThenColon(b, d1 + 1)
        case None => None
        case Some(d2) =>
          if d2 + 1 == |b| then None
          else
            HeaderSlices(b, p, d1, d2);
            Some(VerseMatch(b[p + 5..d1], b[d1 + 1..d2], b[d2 + 1..]))
  }

  /** Every occurrence of `Luke <digits>:<digits>:` followed by at least one
      character is a match at that position, with those digit groups. */
  lemma MatchVerseAtComplete(b: string, p: nat, c: string, v: string, rest: string)
    requires IsDigitString(c) && IsDigitString(v) && rest != []
    requires p <= |b| && b[p..] == "Luke " + c + ":" + v + ":" + rest
    ensures MatchVerseAt(b, p).Some?
    ensures MatchVerseAt(b, p).value == VerseMatch(c, v, rest)
  {
    var d1 := p + 5 + |c|;
    var d2 := d1 + 1 + |v|;
    HeaderAt(b, p, c, v, rest);
    DigitGroupAt(b, p + 5, d1, c);
    DigitGroupAt(b, d1 + 1, d2, v);
    MatchVerseAtIs(b, p, d1, d2);
  }

  /** Where the pieces of `Luke <c>:<v>:<rest>` sit in b, from p on. */
  lemma HeaderAt(b: string, p: nat, c: string, v: string, rest: string)
    requires p <= |b| && b[p..] == "Luke " + c + ":" + v + ":" + rest
    ensures p + 7 + |c| + |v| + |rest| == |b| && b[p..p + 5] == "Luke "
    ensures b[p + 5 + |c|] == ':' && b[p + 6 + |c| + |v|] == ':'
    ensures b[p + 5..p + 5 + |c|] == c && b[p + 6 + |c|..p + 6 + |c| + |v|] == v
    ensures b[p + 7 + |c| + |v|..] == rest
  {
    HeaderLayout(b[p..], c, v, rest);
    SliceOfSuffix(b, p, 0, 5);
    SliceOfSuffix(b, p, 5, 5 + |c|);
    SliceOfSuffix(b, p, 6 + |c|, 6 + |c| + |v|);
    SliceOfSuffix(b, p, 7 + |c| + |v|, |b| - p);
    assert b[p + 5 + |c|] == b[p..][5 + |c|];
    assert b[p + 6 + |c| + |v|] == b[p..][6 + |c| + |v|];
  }

  /** A digit group closed by a colon. */
  lemma DigitGroupAt(b: string, i: nat, d: nat, x: string)
    requires i <= d < |b| && b[i..d] == x && IsDigitString(x) && b[d] == ':'
    ensures DigitsThenColon(b, i) == Some(d)
  {
    forall k | i <= k < d ensures IsAsciiDigit(b[k]) {
      assert b[k] == x[k - i];
    }
    DigitsThenColonIs(b, i, d);
  }

  /** Where the pieces of `Luke <c>:<v>:<rest>` sit. */
  lemma HeaderLayout(t: string, c: string, v: string, rest: string)
    requires t == "Luke " + c + ":" + v + ":" + rest
    ensures |t| == 7 + |c| + |v| + |rest|
    ensures t[..5] == "Luke "
    ensures t[5..5 + |c|] == c && t[5 + |c|] == ':'
    ensures t[6 + |c|..6 + |c| + |v|] == v && t[6 + |c| + |v|] == ':'
    ensures t[7 + |c| + |v|..] == rest
  {
  }

  lemma SliceOfSuffix(b: string, p: nat, i: nat, j: nat)
    requires p + j <= |b| && i <= j
    ensures b[p..][i..j] == b[p + i..p + j]
  {
  }

  /** The match at p, in terms of the two colons that close its digit groups. */
  lemma MatchVerseAtIs(b: string, p: nat, d1: nat, d2: nat)
    requires p + 5 <= |b| && b[p..p + 5] == "Luke " && d2 + 1 < |b|
    requires DigitsThenColon(b, p + 5) == Some(d1) && DigitsThenColon(b, d1 + 1) == Some(d2)
    ensures MatchVerseAt(b, p) == Some(VerseMatch(b[p + 5..d1], b[d1 + 1..d2], b[d2 + 1..]))
  {
  }

  /** The offset of the leftmost match at or after `from`. */
  function LeftmostVerse(b: string, from: nat): (r: Option<nat>)
    requires from <= |b|
    ensures r.Some? ==> from <= r.value <= |b| && MatchVerseAt(b, r.value).Some?
                        && forall q :: from <= q < r.value ==> MatchVerseAt(b, q).None?
    ensures r.None? ==> forall q :: from <= q <= |b| ==> MatchVerseAt(b, q).None?
    decreases |b| - from
  {
    if MatchVerseAt(b, from).Some? then Some(from)
    else if from == |b| then None
    else LeftmostVerse(b, from + 1)
  }

  /** JavaScript's `block.match(/Luke (\d+):(\d+):\s*([\s\S]+)/)`: the
      pattern is not anchored, so the leftmost match counts. */
  function MatchVerse(b: string): (r: Option<VerseMatch>)
    ensures r.None? <==> forall q :: 0 <= q <= |b| ==> MatchVerseAt(b, q).None?
  {
    match LeftmostVerse(b, 0)
    case None => None
    case Some(p) => MatchVerseAt(b, p)
  }

  /** The converse of MatchVerseAtComplete: a match at p is an occurrence
      of `Luke <digits>:<digits>:` followed by its non-empty remainder. */
  lemma MatchVerseAtSound(b: string, p: nat)
    requires p <= |b| && MatchVerseAt(b, p).Some?
    ensures var m := MatchVerseAt(b, p).value;
      b[p..] == "Luke " + m.chapter + ":" + m.verse + ":" + m.rest
  {
    var m := MatchVerseAt(b, p).value;
    var n := p + |m.chapter| + |m.verse| + 7;
    assert b[p..] == b[p..n] + b[n..];
  }

  // ---------------------------------------------------------------------
  // Rendering
  // ---------------------------------------------------------------------

  /** What the rendering loop appends: a chapter heading (`Chapter <c>`),
      or a verse span with its number, trimmed text and, when it has
      parallels, its `data-luke-ref`. */
  datatype Render =
    | Heading(chapter: string)
    | Verse(verse: string, text: string, parallelRef: Option<string>)

  /** A block that matched: the chapter and verse digit strings and the
      trimmed verse text (`match[3].trim()`). */
  datatype VerseBlock = VerseBlock(chapter: DigitString, verse: DigitString, text: string)

  /** The first lines of the loop body: the match, then its groups. */
  function ParseBlock(b: string): Option<VerseBlock> {
    match MatchVerse(b)
    case None => None
    case Some(m) => Some(VerseBlock(m.chapter, m.verse, JsTrim(TextGroup(m.rest))))
  }

  /** A well-formed verse block parses to its own chapter, verse and
      trimmed text. */
  lemma WellFormedBlock(c: string, v: string, text: string)
    requires IsDigitString(c) && IsDigitString(v)
    ensures ParseBlock("Luke " + c + ":" + v + ": " + text) == Some(VerseBlock(c, v, JsTrim(text)))
  {
    var b := "Luke " + c + ":" + v + ": " + text;
    assert b[0..] == "Luke " + c + ":" + v + ":" + (" " + text);
    MatchVerseAtComplete(b, 0, c, v, " " + text);
    TrimSkipsPrefix(" ", text, IsJsSpace);
  }

  /** `parseInt(chapter)` on the matched digits. */
  function ChapterNumber(m: VerseBlock): nat {
    DigitsValue(m.chapter)
  }

  /** The verse span for one match: marked parallel exactly when the mapping
      has a value at its chapter and verse strings (arrays and objects are
      truthy in JavaScript, even empty ones). */
  function VerseOf(mapping: Mapping, m: VerseBlock): Render {
    Verse(m.verse, m.text,
          if m.chapter in mapping && m.verse in mapping[m.chapter]
          then Some(m.chapter + ":" + m.verse) else None)
  }

  /** The matches of the blocks, in order; blocks that do not match are
      dropped (MatchesIsFilterMap, MatchesInOrder). */
  function Matches(blocks: seq<string>): (ms: seq<VerseBlock>)
    ensures |ms| <= |blocks|
  {
    if blocks == [] then []
    else
      match ParseBlock(blocks[0])
      case None => Matches(blocks[1..])
      case Some(m) => [m] + Matches(blocks[1..])
  }

  /** Matches is the generic filter of the blocks by ParseBlock. */
  lemma MatchesIsFilterMap(blocks: seq<string>)
    ensures Matches(blocks) == FilterMap(ParseBlock, blocks, |blocks|)
  {
    forall ys: seq<string> | ys != [] ensures Matches(ys) == Kept(ParseBlock, ys[0]) + Matches(ys[1..]) {
      MatchesHead(ys);
    }
    HeadFirstIsFilterMap(ParseBlock, Matches, blocks);
  }

  /** The first block's parse, if any, comes first. */
  lemma MatchesHead(blocks: seq<string>)
    requires blocks != []
    ensures Matches(blocks) == Kept(ParseBlock, blocks[0]) + Matches(blocks[1..])
  {
  }

  /** Match a is the parse of block idx[a], the indices increase, and every
      block that matches has its place among them: nothing is dropped but
      the blocks that do not match, and nothing is reordered. */
  lemma MatchesInOrder(blocks: seq<string>) returns (idx: seq<nat>)
    ensures |idx| == |Matches(blocks)|
    ensures forall a :: 0 <= a < |idx| ==>
      idx[a] < |blocks| && ParseBlock(blocks[idx[a]]) == Some(Matches(blocks)[a])
    ensures forall a, b :: 0 <= a < b < |idx| ==> idx[a] < idx[b]
    ensures forall k :: 0 <= k < |blocks| && ParseBlock(blocks[k]).Some? ==> k in idx
  {
    MatchesIsFilterMap(blocks);
    idx := FilterMapInOrder(ParseBlock, blocks, |blocks|);
  }

  /** One step of Matches over a suffix of the blocks. */
  lemma MatchesStep(blocks: seq<string>, i: nat)
    requires i < |blocks|
    ensures Matches(blocks[i..]) ==
      if ParseBlock(blocks[i]).Some? then [ParseBlock(blocks[i]).value] + Matches(blocks[i + 1..])
      else Matches(blocks[i + 1..])
  {
    assert blocks[i..][1..] == blocks[i + 1..];
  }

  /** What the rendering loop appends for the matches `ms`, when the last
      chapter number seen is `current`: a heading whenever the chapter
      number changes, then the verse span. */
  function RenderMatches(mapping: Mapping, ms: seq<VerseBlock>, current: int): seq<Render> {
    if ms == [] then []
    else
      var verses := [VerseOf(mapping, ms[0])] + RenderMatches(mapping, ms[1..], ChapterNumber(ms[0]));
      if ChapterNumber(ms[0]) != current then [Heading(ms[0].chapter)] + verses else verses
  }

  /** One step of RenderMatches. */
  lemma RenderStep(mapping: Mapping, m: VerseBlock, ms: seq<VerseBlock>, current: int)
    ensures RenderMatches(mapping, [m] + ms, current) ==
      (if ChapterNumber(m) != current then [Heading(m.chapter)] else [])
      + ([VerseOf(mapping, m)] + RenderMatches(mapping, ms, ChapterNumber(m)))
  {
    assert ([m] + ms)[1..] == ms;
  }

  /** The whole output of `displayLuke(text)`; the chapter starts at -1. */
  function Display(mapping: Mapping, text: string): seq<Render> {
    RenderMatches(mapping, Matches(SplitBlocks(text)), -1)
  }

  // --- an independent description: sections, one per run of a chapter ---

  function Flatten(g: seq<seq<VerseBlock>>): seq<VerseBlock> {
    if g == [] then [] else g[0] + Flatten(g[1..])
  }

  /** The matches cut into maximal runs of equal chapter number (stated by
      GroupFlatten, GroupRunsConstant and GroupRunsDiffer). */
  function Group(ms: seq<VerseBlock>): (g: seq<seq<VerseBlock>>)
    ensures |g| == 0 <==> |ms| == 0
    ensures forall k :: 0 <= k < |g| ==> |g[k]| > 0
    ensures |g| > 0 ==> g[0][0] == ms[0]
  {
    if ms == [] then []
    else
      var t := Group(ms[1..]);
      if t != [] && ChapterNumber(t[0][0]) == ChapterNumber(ms[0]) then
        [[ms[0]] + t[0]] + t[1..]
      else
        [[ms[0]]] + t
  }

  /** Group loses and reorders nothing. */
  lemma {:induction false} GroupFlatten(ms: seq<VerseBlock>)
    ensures Flatten(Group(ms)) == ms
    decreases |ms|
  {
    if ms != [] {
      var x := ms[0];
      var t := Group(ms[1..]);
      GroupFlatten(ms[1..]);
      var g := Group(ms);
      assert ms == [x] + ms[1..];
      if t != [] && ChapterNumber(t[0][0]) == ChapterNumber(x) {
        assert g[1..] == t[1..];
        assert Flatten(g) == ([x] + t[0]) + Flatten(t[1..]);
        AppendAssoc([x], t[0], Flatten(t[1..]));
      } else {
        assert g[1..] == t;
      }
    }
  }

  /** Within a run of Group the chapter number is that of its first match. */
  lemma {:induction false} GroupRunsConstant(ms: seq<VerseBlock>)
    ensures forall k, j :: 0 <= k < |Group(ms)| && 0 <= j < |Group(ms)[k]| ==>
      ChapterNumber(Group(ms)[k][j]) == ChapterNumber(Group(ms)[k][0])
    decreases |ms|
  {
    if ms != [] {
      var x := ms[0];
      var t := Group(ms[1..]);
      GroupRunsConstant(ms[1..]);
      var g := Group(ms);
      if t != [] && ChapterNumber(t[0][0]) == ChapterNumber(x) {
        assert g == [[x] + t[0]] + t[1..];
        forall k, j | 0 <= k < |g| && 0 <= j < |g[k]|
          ensures ChapterNumber(g[k][j]) == ChapterNumber(g[k][0])
        {
          if k == 0 {
            assert g[0] == [x] + t[0];
            assert g[0][0] == x;
            if j > 0 {
              assert g[0][j] == t[0][j - 1];
              assert ChapterNumber(t[0][j - 1]) == ChapterNumber(t[0][0]);
            }
          } else {
            assert g[k] == t[k];
            assert ChapterNumber(t[k][j]) == ChapterNumber(t[k][0]);
          }
        }
      } else {
        assert g == [[x]] + t;
        forall k, j | 0 <= k < |g| && 0 <= j < |g[k]|
          ensures ChapterNumber(g[k][j]) == ChapterNumber(g[k][0])
        {
          if k > 0 {
            assert g[k] == t[k - 1];
          }
        }
      }
    }
  }

  /** Adjacent runs of Group have different chapter numbers: the runs are maximal. */
  lemma {:induction false} GroupRunsDiffer(ms: seq<VerseBlock>)
    ensures forall k :: 0 < k < |Group(ms)| ==> ChapterNumber(Group(ms)[k][0]) != ChapterNumber(Group(ms)[k - 1][0])
    decreases |ms|
  {
    if ms != [] {
      var x := ms[0];
      var t := Group(ms[1..]);
      GroupRunsDiffer(ms[1..]);
      var g := Group(ms);
      if t != [] && ChapterNumber(t[0][0]) == ChapterNumber(x) {
        assert g == [[x] + t[0]] + t[1..];
        forall k | 0 < k < |g| ensures ChapterNumber(g[k][0]) != ChapterNumber(g[k - 1][0]) {
          assert g[k] == t[k];
          if k > 1 {
            assert g[k - 1] == t[k - 1];
          } else {
            assert g[0][0] == x;
          }
        }
      } else {
        assert g == [[x]] + t;
        forall k | 0 < k < |g| ensures ChapterNumber(g[k][0]) != ChapterNumber(g[k - 1][0]) {
          assert g[k] == t[k - 1];
          if k > 1 {
            assert g[k - 1] == t[k - 2];
          }
        }
      }
    }
  }

  function VersesOf(mapping: Mapping, ms: seq<VerseBlock>): (r: seq<Render>)
    ensures |r| == |ms|
    ensures forall k :: 0 <= k < |ms| ==> r[k] == VerseOf(mapping, ms[k])
  {
    if ms == [] then [] else [VerseOf(mapping, ms[0])] + VersesOf(mapping, ms[1..])
  }

  /** Each section: its chapter heading, then its verses. */
  function Layout(mapping: Mapping, g: seq<seq<VerseBlock>>): seq<Render>
    requires forall k :: 0 <= k < |g| ==> |g[k]| > 0
  {
    if g == [] then []
    else [Heading(g[0][0].chapter)] + VersesOf(mapping, g[0]) + Layout(mapping, g[1..])
  }

  /** The rendering loop lays the matches out section by section. */
  lemma {:induction false} RenderIsLayout(mapping: Mapping, ms: seq<VerseBlock>, current: int)
    ensures var g := Group(ms);
      RenderMatches(mapping, ms, current) ==
        if ms != [] && ChapterNumber(ms[0]) == current
        then VersesOf(mapping, g[0]) + Layout(mapping, g[1..])
        else Layout(mapping, g)
    decreases |ms|
  {
    if ms != [] {
      var x := ms[0];
      var t := Group(ms[1..]);
      var tail := RenderMatches(mapping, ms[1..], ChapterNumber(x));
      RenderIsLayout(mapping, ms[1..], ChapterNumber(x));
      var g := Group(ms);
      var v := VerseOf(mapping, x);
      assert RenderMatches(mapping, ms, current) ==
        if ChapterNumber(x) != current then [Heading(x.chapter)] + ([v] + tail) else [v] + tail;
      if t != [] && ChapterNumber(t[0][0]) == ChapterNumber(x) {
        assert g == [[x] + t[0]] + t[1..];
        JoinRun(mapping, x, t);
        AppendAssoc([v], VersesOf(mapping, t[0]), Layout(mapping, t[1..]));
      } else {
        assert g == [[x]] + t;
        StartRun(mapping, x, t);
      }
    }
  }

  /** The first match continues the chapter of the first run of the rest. */
  lemma JoinRun(mapping: Mapping, x: VerseBlock, t: seq<seq<VerseBlock>>)
    requires t != [] && forall k :: 0 <= k < |t| ==> |t[k]| > 0
    ensures var g := [[x] + t[0]] + t[1..];
      VersesOf(mapping, g[0]) + Layout(mapping, g[1..])
        == [VerseOf(mapping, x)] + VersesOf(mapping, t[0]) + Layout(mapping, t[1..])
      && Layout(mapping, g)
        == [Heading(x.chapter)] + ([VerseOf(mapping, x)] + VersesOf(mapping, t[0]) + Layout(mapping, t[1..]))
  {
    var g := [[x] + t[0]] + t[1..];
    assert g[1..] == t[1..];
    assert ([x] + t[0])[1..] == t[0];
    var vs := [VerseOf(mapping, x)] + VersesOf(mapping, t[0]);
    assert VersesOf(mapping, g[0]) == vs;
    AppendAssoc([Heading(x.chapter)], vs, Layout(mapping, t[1..]));
  }

  /** The first match starts a run of its own. */
  lemma StartRun(mapping: Mapping, x: VerseBlock, t: seq<seq<VerseBlock>>)
    requires forall k :: 0 <= k < |t| ==> |t[k]| > 0
    ensures var g := [[x]] + t;
      VersesOf(mapping, g[0]) + Layout(mapping, g[1..]) == [VerseOf(mapping, x)] + Layout(mapping, t)
      && Layout(mapping, g) == [Heading(x.chapter)] + ([VerseOf(mapping, x)] + Layout(mapping, t))
  {
    var g := [[x]] + t;
    assert g[1..] == t;
    assert VersesOf(mapping, [x]) == [VerseOf(mapping, x)];
    AppendAssoc([Heading(x.chapter)], [VerseOf(mapping, x)], Layout(mapping, t));
  }

  function CountHeadings(rs: seq<Render>): nat {
    if rs == [] then 0 else (if rs[0].Heading? then 1 else 0) + CountHeadings(rs[1..])
  }

  /** The verse spans of a render sequence, in order. */
  function VerseSpans(rs: seq<Render>): seq<Render> {
    if rs == [] then [] else (if rs[0].Verse? then [rs[0]] else []) + VerseSpans(rs[1..])
  }

  lemma {:induction false} CountAppend(a: seq<Render>, b: seq<Render>)
    ensures CountHeadings(a + b) == CountHeadings(a) + CountHeadings(b)
    ensures VerseSpans(a + b) == VerseSpans(a) + VerseSpans(b)
    decreases |a|
  {
    if a != [] {
      CountAppend(a[1..], b);
      assert (a + b)[0] == a[0];
      assert (a + b)[1..] == a[1..] + b;
    } else {
      assert a + b == b;
    }
  }

  lemma {:induction false} VersesOfHaveNoHeading(mapping: Mapping, ms: seq<VerseBlock>)
    ensures CountHeadings(VersesOf(mapping, ms)) == 0
    ensures VerseSpans(VersesOf(mapping, ms)) == VersesOf(mapping, ms)
    decreases |ms|
  {
    if ms != [] {
      VersesOfHaveNoHeading(mapping, ms[1..]);
      CountAppend([VerseOf(mapping, ms[0])], VersesOf(mapping, ms[1..]));
    }
  }

  lemma {:induction false} LayoutHeadings(mapping: Mapping, g: seq<seq<VerseBlock>>)
    requires forall k :: 0 <= k < |g| ==> |g[k]| > 0
    ensures CountHeadings(Layout(mapping, g)) == |g|
    ensures VerseSpans(Layout(mapping, g)) == VersesOf(mapping, Flatten(g))
    decreases |g|
  {
    if g != [] {
      var h := [Heading(g[0][0].chapter)];
      var vs := VersesOf(mapping, g[0]);
      var rest := Layout(mapping, g[1..]);
      assert Layout(mapping, g) == h + vs + rest;
      LayoutHeadings(mapping, g[1..]);
      VersesOfHaveNoHeading(mapping, g[0]);
      assert CountHeadings(h) == 1 && VerseSpans(h) == [];
      CountAppend(h, vs);
      assert VerseSpans(h + vs) == vs;
      CountAppend(h + vs, rest);
      VersesOfAppend(mapping, g[0], Flatten(g[1..]));
    }
  }

  lemma {:induction false} VersesOfAppend(mapping: Mapping, a: seq<VerseBlock>, b: seq<VerseBlock>)
    ensures VersesOf(mapping, a + b) == VersesOf(mapping, a) + VersesOf(mapping, b)
  {
    assert |VersesOf(mapping, a + b)| == |a + b|;
    forall k | 0 <= k < |a + b|
      ensures VersesOf(mapping, a + b)[k] == (VersesOf(mapping, a) + VersesOf(mapping, b))[k]
    {
      if k < |a| {
        assert (a + b)[k] == a[k];
      } else {
        assert (a + b)[k] == b[k - |a|];
      }
    }
  }

  /** What `displayLuke` renders, section by section: one heading per maximal
      run of equal chapter numbers (Group states that the runs are maximal),
      each followed by exactly its verses; every matched block gives exactly
      one verse span, in source order. */
  lemma DisplaySections(mapping: Mapping, text: string)
    ensures Display(mapping, text) == Layout(mapping, Group(Matches(SplitBlocks(text))))
    ensures CountHeadings(Display(mapping, text)) == |Group(Matches(SplitBlocks(text)))|
    ensures VerseSpans(Display(mapping, text)) == VersesOf(mapping, Matches(SplitBlocks(text)))
  {
    var ms := Matches(SplitBlocks(text));
    RenderIsLayout(mapping, ms, -1);
    LayoutHeadings(mapping, Group(ms));
    GroupFlatten(ms);
  }

  /** A chapter heading comes before every verse: the output, when not empty,
      starts with the heading of the first matched verse. */
  lemma DisplayStartsWithHeading(mapping: Mapping, text: string)
    requires Display(mapping, text) != []
    ensures Display(mapping, text)[0] == Heading(Matches(SplitBlocks(text))[0].chapter)
  {
  }

  // ---------------------------------------------------------------------
  // The click handler's lookup
  // ---------------------------------------------------------------------

  /** What the click handler finds. `NotParallel`: the click was not inside a
      `.parallel` element. `Throws`: `parallelsData[chapter]` is undefined, so
      reading `[verse]` of it raises a TypeError. `Absent`: the lookup yields
      `undefined`. `Found`: the entries (an array, truthy even when empty). */
  datatype ClickResult = NotParallel | Throws | Absent | Found(entries: seq<Entry>)

  /** The lookup of the click handler; `lukeRef` is the `data-luke-ref` of
      the closest `.parallel` ancestor of the click target, if there is one.
      `lukeRef.split(':')` with fewer than two pieces leaves `verse`
      undefined, which as a property key is the string "undefined". */
  function ClickLookup(mapping: Mapping, lukeRef: Option<string>): (r: ClickResult)
    ensures r.Found? ==> exists c, v :: c in mapping && v in mapping[c] && r.entries == mapping[c][v]
  {
    match lukeRef
    case None => NotParallel
    case Some(ref) =>
      var parts := SplitOn(ref, ':');
      var chapter := parts[0];
      var verse := if |parts| >= 2 then parts[1] else "undefined";
      if chapter !in mapping then Throws
      else if verse !in mapping[chapter] then Absent
      else Found(mapping[chapter][verse])
  }

  /** A verse span is marked parallel exactly when clicking its reference
      finds entries, and the entries found are those of its own chapter and
      verse. */
  lemma ClickFindsRenderedVerse(mapping: Mapping, m: VerseBlock)
    ensures var ref := Some(m.chapter + ":" + m.verse);
      (VerseOf(mapping, m).parallelRef == ref <==> ClickLookup(mapping, ref).Found?)
      && (VerseOf(mapping, m).parallelRef.None? <==> !ClickLookup(mapping, ref).Found?)
      && (ClickLookup(mapping, ref).Found? ==> ClickLookup(mapping, ref).entries == mapping[m.chapter][m.verse])
  {
    forall k | 0 <= k < |m.chapter| ensures m.chapter[k] != ':' {
      assert IsAsciiDigit(m.chapter[k]);
    }
    forall k | 0 <= k < |m.verse| ensures m.verse[k] != ':' {
      assert IsAsciiDigit(m.verse[k]);
    }
    var parts: seq<string> := [m.chapter, m.verse];
    assert Join(parts, ':') == m.chapter + ":" + m.verse;
    SplitOnJoin(parts, ':');
  }
}
