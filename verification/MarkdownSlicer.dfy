/** Cutting a markdown document to a number of bytes at paragraph and sentence borders. */
module MarkdownSlicer {
  import opened Utf8

  const NEWLINE: Scalar := 10
  const SPACE: Scalar := 32
  const BLANK_LINE: Text := [NEWLINE, NEWLINE]

  /** What `\s` matches in a `str` pattern. */
  predicate IsSpace(c: Scalar) {
    9 <= c <= 13 || 28 <= c <= 32 || c == 0x85 || c == 0xA0 || c == 0x1680 || 0x2000 <= c <= 0x200A
    || c == 0x2028 || c == 0x2029 || c == 0x202F || c == 0x205F || c == 0x3000
  }

  /** A full stop, question mark or exclamation mark. */
  predicate IsStop(c: Scalar) {
    c == 46 || c == 63 || c == 33
  }

  /* ---------- paragraphs ---------- */

  /** Where the first blank line starts, or the length of the text when there is none. */
  function FirstBlankLine(s: Text): (k: nat)
    ensures k == |s| || k + 2 <= |s|
  {
    if |s| < 2 then |s| else if s[0] == s[1] == NEWLINE then 0 else 1 + FirstBlankLine(s[1..])
  }

  lemma {:induction false} FirstBlankLineIsFirst(s: Text)
    ensures var k := FirstBlankLine(s);
      && (k < |s| ==> s[k] == s[k + 1] == NEWLINE)
      && (forall i {:trigger s[i]} :: 0 <= i < k && i + 1 < |s| ==> !(s[i] == s[i + 1] == NEWLINE))
  {
    if |s| >= 2 && !(s[0] == s[1] == NEWLINE) {
      FirstBlankLineIsFirst(s[1..]);
      assert forall i :: 0 < i < |s| ==> s[i] == s[1..][i - 1];
    }
  }

  /** `markdown.split('\n\n')`. */
  function Paragraphs(s: Text): (parts: seq<Text>)
    ensures parts != []
    decreases |s|
  {
    var k := FirstBlankLine(s);
    if k == |s| then [s] else [s[..k]] + Paragraphs(s[k + 2..])
  }

  /** `'\n\n'.join(parts)`. */
  function Join(parts: seq<Text>): Text {
    if parts == [] then []
    else if |parts| == 1 then parts[0]
    else Join(parts[..|parts| - 1]) + BLANK_LINE + parts[|parts| - 1]
  }

  /** What the paragraph loop counts for the first i parts: their sizes and two bytes
      between them. */
  function PartsSize(parts: seq<Text>, i: nat): nat
    requires i <= |parts|
  {
    if i == 0 then 0 else PartsSize(parts, i - 1) + Size(parts[i - 1]) + Separator(i - 1)
  }

  function Separator(index: nat): nat {
    if index > 0 then 2 else 0
  }

  lemma {:induction false} JoinCons(part: Text, parts: seq<Text>)
    requires parts != []
    ensures Join([part] + parts) == part + BLANK_LINE + Join(parts)
  {
    var all, n := [part] + parts, |parts|;
    assert all[..n] == [part] + parts[..n - 1];
    if n > 1 {
      JoinCons(part, parts[..n - 1]);
    } else {
      assert all[..1] == [part];
    }
  }

  lemma AroundBlankLine(s: Text, k: nat)
    requires k + 2 <= |s| && s[k] == s[k + 1] == NEWLINE
    ensures s == s[..k] + BLANK_LINE + s[k + 2..]
  {
    assert s[k..k + 2] == BLANK_LINE;
  }

  /** Splitting loses nothing: joining the paragraphs gives the document back. */
  lemma {:induction false} JoinOfParagraphs(s: Text)
    ensures Join(Paragraphs(s)) == s
    decreases |s|
  {
    var k := FirstBlankLine(s);
    if k < |s| {
      JoinCons(s[..k], Paragraphs(s[k + 2..]));
      JoinOfParagraphs(s[k + 2..]);
      FirstBlankLineIsFirst(s);
      AroundBlankLine(s, k);
    }
  }

  /** Paragraphs contain no blank line. */
  lemma {:induction false} NoBlankLineInside(s: Text, part: Text)
    requires part in Paragraphs(s)
    ensures FirstBlankLine(part) == |part|
    decreases |s|
  {
    var k := FirstBlankLine(s);
    if k < |s| {
      if part == s[..k] {
        PrefixBeforeBlankLine(s, k);
      } else {
        NoBlankLineInside(s[k + 2..], part);
      }
    }
  }

  lemma {:induction false} PrefixBeforeBlankLine(s: Text, k: nat)
    requires k <= FirstBlankLine(s)
    ensures FirstBlankLine(s[..k]) == k
  {
    if k > 1 {
      assert s[..k][1..] == s[1..][..k - 1];
      PrefixBeforeBlankLine(s[1..], k - 1);
    }
  }

  lemma BlankLineIsTwoBytes()
    ensures Size(BLANK_LINE) == 2
  {
    assert BLANK_LINE[1..] == [NEWLINE];
    assert Encode([NEWLINE]) == EncodeOne(NEWLINE);
    assert Encode(BLANK_LINE) == EncodeOne(NEWLINE) + EncodeOne(NEWLINE);
  }

  lemma {:induction false} PartsSizeOfPrefix(parts: seq<Text>, more: seq<Text>, i: nat)
    requires i <= |parts|
    ensures PartsSize(parts + more, i) == PartsSize(parts, i)
  {
    if i > 0 {
      PartsSizeOfPrefix(parts, more, i - 1);
    }
  }

  lemma {:induction false} SizeOfJoin(parts: seq<Text>)
    ensures Size(Join(parts)) == PartsSize(parts, |parts|)
  {
    var n := |parts|;
    if n > 1 {
      SizeOfJoin(parts[..n - 1]);
      assert parts == parts[..n - 1] + [parts[n - 1]];
      PartsSizeOfPrefix(parts[..n - 1], [parts[n - 1]], n - 1);
      EncodeConcat(Join(parts[..n - 1]) + BLANK_LINE, parts[n - 1]);
      EncodeConcat(Join(parts[..n - 1]), BLANK_LINE);
      BlankLineIsTwoBytes();
    }
  }

  lemma {:induction false} PartsSizeGrows(parts: seq<Text>, i: nat, j: nat)
    requires i <= j <= |parts|
    ensures PartsSize(parts, i) <= PartsSize(parts, j)
  {
    if i < j {
      PartsSizeGrows(parts, i, j - 1);
    }
  }

  /** The number of leading paragraphs the loop keeps, from the i-th on. */
  function FittingParagraphs(parts: seq<Text>, max: nat, i: nat): (k: nat)
    requires i <= |parts|
    ensures i <= k <= |parts|
    decreases |parts| - i
  {
    if i < |parts| && PartsSize(parts, i + 1) <= max then FittingParagraphs(parts, max, i + 1) else i
  }

  lemma {:induction false} FittingParagraphsFit(parts: seq<Text>, max: nat, i: nat)
    requires i <= |parts| && PartsSize(parts, i) <= max
    ensures var k := FittingParagraphs(parts, max, i);
      PartsSize(parts, k) <= max && (k < |parts| ==> PartsSize(parts, k + 1) > max)
    decreases |parts| - i
  {
    if i < |parts| && PartsSize(parts, i + 1) <= max {
      FittingParagraphsFit(parts, max, i + 1);
    }
  }

  /** The sizes of the paragraphs and their separators add up to the size of the document, so
      a document over the limit always runs into a paragraph that does not fit. */
  lemma SomeParagraphDoesNotFit(s: Text, max: nat)
    ensures PartsSize(Paragraphs(s), |Paragraphs(s)|) == Size(s)
    ensures Size(s) > max <==> FittingParagraphs(Paragraphs(s), max, 0) < |Paragraphs(s)|
  {
    JoinOfParagraphs(s);
    SizeOfJoin(Paragraphs(s));
    TooLargeIff(Paragraphs(s), max);
  }

  lemma TooLargeIff(parts: seq<Text>, max: nat)
    ensures PartsSize(parts, |parts|) > max <==> FittingParagraphs(parts, max, 0) < |parts|
  {
    var k := FittingParagraphs(parts, max, 0);
    FittingParagraphsFit(parts, max, 0);
    if k < |parts| {
      PartsSizeGrows(parts, k + 1, |parts|);
    }
  }

  /* ---------- sentences ---------- */

  /** The end of the first sentence: after a stop that white space follows. */
  function SentenceEnd(p: Text): (k: nat)
    ensures k == |p| || 1 <= k < |p|
  {
    if |p| < 2 then |p| else if IsStop(p[0]) && IsSpace(p[1]) then 1 else 1 + SentenceEnd(p[1..])
  }

  function AfterSpaces(p: Text): (rest: Text)
    ensures |rest| <= |p|
  {
    if p == [] || !IsSpace(p[0]) then p else AfterSpaces(p[1..])
  }

  /** `re.split(r'(?<=[.!?])\s+', p)`. */
  function Sentences(p: Text): (parts: seq<Text>)
    ensures parts != []
    decreases |p|
  {
    var k := SentenceEnd(p);
    if k == |p| then [p] else [p[..k]] + Sentences(AfterSpaces(p[k..]))
  }

  /** A stop at k, and white space behind it. */
  predicate BreaksAt(p: Text, k: nat) {
    k + 1 < |p| && IsStop(p[k]) && IsSpace(p[k + 1])
  }

  ghost predicate NoBreak(p: Text) {
    forall k: nat :: !BreaksAt(p, k)
  }

  ghost predicate AllSpace(p: Text) {
    forall k :: 0 <= k < |p| ==> IsSpace(p[k])
  }

  /** The parts with the gaps between them. */
  function Woven(parts: seq<Text>, gaps: seq<Text>): Text
    requires |parts| == |gaps| + 1
  {
    if gaps == [] then parts[0] else parts[0] + gaps[0] + Woven(parts[1..], gaps[1..])
  }

  /** The text is cut at every stop with white space behind it, and nowhere else: the gaps hold
      that white space, all of it, and nothing more. */
  ghost predicate IsSplit(p: Text, parts: seq<Text>, gaps: seq<Text>) {
    && |parts| == |gaps| + 1 && Woven(parts, gaps) == p
    && (forall i :: 0 <= i < |gaps| ==> gaps[i] != [] && AllSpace(gaps[i]))
    && (forall i :: 0 <= i < |gaps| ==> parts[i] != [] && IsStop(parts[i][|parts[i]| - 1]))
    && (forall i :: 0 <= i < |parts| ==> NoBreak(parts[i]))
    && (forall i :: 0 < i < |parts| ==> parts[i] == [] || !IsSpace(parts[i][0]))
  }

  /** Where the first sentence ends. */
  lemma {:induction false} SentenceEndIs(p: Text, k: nat)
    requires 0 < k <= |p| && (k < |p| ==> BreaksAt(p, k - 1))
    requires forall i :: 0 <= i < k - 1 ==> !BreaksAt(p, i)
    ensures SentenceEnd(p) == k
  {
    if k > 1 {
      assert !BreaksAt(p, 0);
      forall i | 0 <= i < k - 2 ensures !BreaksAt(p[1..], i) {
        assert !BreaksAt(p, i + 1);
      }
      SentenceEndIs(p[1..], k - 1);
    }
  }

  lemma {:induction false} FirstBreak(p: Text)
    ensures var k := SentenceEnd(p);
      && (k < |p| ==> BreaksAt(p, k - 1)) && (forall i: nat :: i + 1 < k ==> !BreaksAt(p, i))
  {
    if |p| >= 2 && !BreaksAt(p, 0) {
      FirstBreak(p[1..]);
      forall i: nat | i + 1 < SentenceEnd(p) ensures !BreaksAt(p, i) {
        assert i > 0 ==> !BreaksAt(p[1..], i - 1);
      }
    }
  }

  lemma {:induction false} SkippedIsSpace(p: Text) returns (gap: Text)
    ensures p == gap + AfterSpaces(p) && AllSpace(gap)
    ensures AfterSpaces(p) == [] || !IsSpace(AfterSpaces(p)[0])
    ensures p != [] && IsSpace(p[0]) ==> gap != []
  {
    if p == [] || !IsSpace(p[0]) {
      gap := [];
    } else {
      var rest := SkippedIsSpace(p[1..]);
      gap := [p[0]] + rest;
      assert p == [p[0]] + p[1..];
    }
  }

  lemma {:induction false} AfterSpacesIs(gap: Text, rest: Text)
    requires AllSpace(gap) && (rest == [] || !IsSpace(rest[0]))
    ensures AfterSpaces(gap + rest) == rest
  {
    if gap == [] {
      assert gap + rest == rest;
    } else {
      assert (gap + rest)[1..] == gap[1..] + rest;
      AfterSpacesIs(gap[1..], rest);
    }
  }

  lemma IsSplitCons(p: Text, part: Text, gap: Text, rest: Text, parts: seq<Text>, gaps: seq<Text>)
    requires p == part + gap + rest && part != [] && IsStop(part[|part| - 1]) && NoBreak(part)
    requires gap != [] && AllSpace(gap) && IsSplit(rest, parts, gaps)
    requires parts[0] == [] || !IsSpace(parts[0][0])
    ensures IsSplit(p, [part] + parts, [gap] + gaps)
  {
    var all, between := [part] + parts, [gap] + gaps;
    assert all[1..] == parts && between[1..] == gaps;
    assert forall i :: 0 <= i < |between| ==> between[i] == if i == 0 then gap else gaps[i - 1];
    assert forall i :: 0 <= i < |all| ==> all[i] == if i == 0 then part else parts[i - 1];
  }

  /** The sentences are such a split. */
  lemma {:induction false} SentencesSplit(p: Text) returns (gaps: seq<Text>)
    ensures IsSplit(p, Sentences(p), gaps)
    decreases |p|
  {
    var k := SentenceEnd(p);
    FirstBreak(p);
    if k == |p| {
      gaps := [];
      NoBreakBefore(p, k);
      assert p[..k] == p;
    } else {
      var gap := SkippedIsSpace(p[k..]);
      var rest := AfterSpaces(p[k..]);
      var between := SentencesSplit(rest);
      NoBreakBefore(p, k);
      FirstIsStart(rest);
      IsSplitCons(p, p[..k], gap, rest, Sentences(rest), between);
      gaps := [gap] + between;
    }
  }

  lemma NoBreakBefore(p: Text, k: nat)
    requires k <= |p| && forall i: nat :: i + 1 < k ==> !BreaksAt(p, i)
    ensures NoBreak(p[..k])
  {
    forall i: nat ensures !BreaksAt(p[..k], i) {
      assert i + 1 < k ==> !BreaksAt(p, i);
    }
  }

  /** The first sentence starts where the text starts. */
  lemma FirstIsStart(p: Text)
    ensures Sentences(p)[0] == [] <==> p == []
    ensures p != [] ==> Sentences(p)[0][0] == p[0]
  {
  }

  /** And there is no other. */
  lemma {:induction false} SplitIsSentences(p: Text, parts: seq<Text>, gaps: seq<Text>)
    requires IsSplit(p, parts, gaps)
    ensures parts == Sentences(p)
    decreases |parts|
  {
    if gaps == [] {
      assert parts == [p];
      assert p[..|p|] == p;
      if p != [] {
        assert NoBreak(parts[0]);
        SentenceEndIs(p, |p|);
      }
    } else {
      var k, rest := |parts[0]|, Woven(parts[1..], gaps[1..]);
      RestIsSplit(p, parts, gaps);
      SplitIsSentences(rest, parts[1..], gaps[1..]);
      assert p[..k] == parts[0] && p[k..] == gaps[0] + rest;
      FirstEnds(p, parts[0], gaps[0], rest);
      RestStarts(parts[1..], gaps[1..]);
      AfterSpacesIs(gaps[0], rest);
      assert parts == [parts[0]] + parts[1..];
    }
  }

  lemma RestIsSplit(p: Text, parts: seq<Text>, gaps: seq<Text>)
    requires IsSplit(p, parts, gaps) && gaps != []
    ensures IsSplit(Woven(parts[1..], gaps[1..]), parts[1..], gaps[1..])
    ensures parts[1] == [] || !IsSpace(parts[1][0])
    ensures p == parts[0] + gaps[0] + Woven(parts[1..], gaps[1..])
  {
  }

  lemma FirstEnds(p: Text, part: Text, gap: Text, rest: Text)
    requires p == part + gap + rest && part != [] && IsStop(part[|part| - 1]) && NoBreak(part)
    requires gap != [] && AllSpace(gap)
    ensures SentenceEnd(p) == |part|
  {
    var k := |part|;
    assert p[k] == gap[0] && BreaksAt(p, k - 1);
    forall i | 0 <= i < k - 1 ensures !BreaksAt(p, i) {
      assert !BreaksAt(part, i);
    }
    SentenceEndIs(p, k);
  }

  /** What comes after a gap starts as its first part does. */
  lemma RestStarts(parts: seq<Text>, gaps: seq<Text>)
    requires |parts| == |gaps| + 1 && (parts[0] == [] || !IsSpace(parts[0][0]))
    requires gaps != [] ==> parts[0] != []
    ensures var rest := Woven(parts, gaps); rest == [] || !IsSpace(rest[0])
  {
  }

  /** Whatever is such a split is the list of the sentences, and the other way round. */
  lemma SentencesAreTheSplit(p: Text, parts: seq<Text>)
    ensures parts == Sentences(p) <==> exists gaps :: IsSplit(p, parts, gaps)
  {
    if parts == Sentences(p) {
      var gaps := SentencesSplit(p);
    }
    if gaps :| IsSplit(p, parts, gaps) {
      SplitIsSentences(p, parts, gaps);
    }
  }

  /** What the sentence loop counts for the first j sentences: one byte after each but the
      very last. */
  function SentencesSize(sentences: seq<Text>, j: nat): nat
    requires j <= |sentences|
  {
    if j == 0 then 0 else SentencesSize(sentences, j - 1) + Size(sentences[j - 1]) + Gap(sentences, j - 1)
  }

  function Gap(sentences: seq<Text>, index: nat): nat {
    if index + 1 < |sentences| then 1 else 0
  }

  function FittingSentences(sentences: seq<Text>, room: nat, j: nat): (k: nat)
    requires j <= |sentences|
    ensures j <= k <= |sentences|
    decreases |sentences| - j
  {
    if j < |sentences| && SentencesSize(sentences, j + 1) <= room then FittingSentences(sentences, room, j + 1) else j
  }

  lemma FittingSentencesFit(sentences: seq<Text>, room: nat)
    ensures var k := FittingSentences(sentences, room, 0);
      SentencesSize(sentences, k) <= room && (k < |sentences| ==> SentencesSize(sentences, k + 1) > room)
  {
    FittingFrom(sentences, room, 0, FittingSentences(sentences, room, 0));
  }

  lemma {:induction false} FittingFrom(sentences: seq<Text>, room: nat, j: nat, k: nat)
    requires j <= |sentences| && SentencesSize(sentences, j) <= room && k == FittingSentences(sentences, room, j)
    ensures SentencesSize(sentences, k) <= room && (k < |sentences| ==> SentencesSize(sentences, k + 1) > room)
    decreases |sentences| - j
  {
    if j < |sentences| && SentencesSize(sentences, j + 1) <= room {
      FittingFrom(sentences, room, j + 1, k);
    }
  }

  /* ---------- shrinking ---------- */

  function LastSpace(t: Text): (k: nat)
    requires SPACE in t
    ensures k < |t| && t[k] == SPACE && SPACE !in t[k + 1..]
  {
    if t[|t| - 1] == SPACE then |t| - 1
    else
      assert t == t[..|t| - 1] + [t[|t| - 1]];
      var k := LastSpace(t[..|t| - 1]);
      assert t[k + 1..] == t[..|t| - 1][k + 1..] + [t[|t| - 1]];
      k
  }

  /** `t.rsplit(' ', 1)[0]`, or one character less when there is no space. */
  function Cut(t: Text): (r: Text)
    requires t != []
    ensures |r| < |t| && r == t[..|r|]
  {
    if SPACE in t then t[..LastSpace(t)] else t[..|t| - 1]
  }

  function Shrink(t: Text, max: nat): (r: Text)
    ensures |r| <= |t| && r == t[..|r|]
    ensures Size(r) <= max
  {
    if Size(t) <= max || t == [] then t else Shrink(Cut(t), max)
  }

  /** The first k characters fit and are followed by a space. */
  predicate FitsBeforeSpace(t: Text, max: nat, k: nat) {
    k < |t| && t[k] == SPACE && Size(t[..k]) <= max
  }

  /** k characters of the text are left: all when it fits; else as many as fit and stop before a
      space; else, when nothing does, as many as fit. */
  ghost predicate ShrunkTo(t: Text, max: nat, k: nat) {
    if Size(t) <= max then k == |t|
    else if exists j: nat :: FitsBeforeSpace(t, max, j)
    then FitsBeforeSpace(t, max, k) && forall j: nat :: FitsBeforeSpace(t, max, j) ==> j <= k
    else k == Fitting(t, max)
  }

  /** What shrinking leaves, exactly. */
  lemma {:induction false} ShrinkIs(t: Text, max: nat)
    ensures ShrunkTo(t, max, |Shrink(t, max)|)
    decreases |t|
  {
    if Size(t) > max {
      var r := Cut(t);
      ShrinkIs(r, max);
      if SPACE in t {
        BeforeLastSpace(t, max);
      } else {
        WithoutSpace(t, max, |Shrink(t, max)|);
      }
    }
  }

  /** Shrinking keeps the longest prefix that fits and stops before a space (or is all). */
  lemma ShrinkKeepsLongest(t: Text, max: nat, k: nat)
    requires k <= |t| && (k < |t| ==> t[k] == SPACE)
    requires Size(t[..k]) <= max
    ensures k <= |Shrink(t, max)|
  {
    ShrinkIs(t, max);
    assert t[..|t|] == t;
    assert k < |t| ==> FitsBeforeSpace(t, max, k);
  }

  lemma BeforeLastSpace(t: Text, max: nat)
    requires SPACE in t && Size(t) > max && ShrunkTo(Cut(t), max, |Shrink(Cut(t), max)|)
    ensures ShrunkTo(t, max, |Shrink(t, max)|)
  {
    var r, k := Cut(t), |Shrink(t, max)|;
    forall j: nat
      ensures FitsBeforeSpace(t, max, j) <==> FitsBeforeSpace(r, max, j) || (j == |r| && Size(r) <= max)
    {
      SpacesOfCut(t, max, j);
    }
    if Size(r) <= max {
      assert FitsBeforeSpace(t, max, k);
    } else {
      FittingOfPrefix(t, |r|, max);
      if j: nat :| FitsBeforeSpace(t, max, j) {
        assert FitsBeforeSpace(r, max, j);
      }
    }
  }

  lemma SpacesOfCut(t: Text, max: nat, j: nat)
    requires SPACE in t
    ensures FitsBeforeSpace(t, max, j) <==> FitsBeforeSpace(Cut(t), max, j) || (j == |Cut(t)| && Size(Cut(t)) <= max)
  {
    var n := LastSpace(t);
    if j < n {
      assert t[..n][..j] == t[..j];
    } else if n < j < |t| {
      assert t[j] == t[n + 1..][j - n - 1];
    }
  }

  lemma WithoutSpace(t: Text, max: nat, k: nat)
    requires t != [] && SPACE !in t && Size(t) > max && ShrunkTo(t[..|t| - 1], max, k)
    ensures ShrunkTo(t, max, k)
  {
    var r := t[..|t| - 1];
    forall j: nat ensures !FitsBeforeSpace(t, max, j) && !FitsBeforeSpace(r, max, j) {
      assert j < |t| ==> t[j] in t;
      assert j < |r| ==> r[j] == t[j];
    }
    if Size(r) > max {
      FittingOfPrefix(t, |r|, max);
    } else {
      FittingIsAllButLast(t, max);
    }
  }

  lemma FittingIsAllButLast(t: Text, max: nat)
    requires t != [] && Size(t[..|t| - 1]) <= max < Size(t)
    ensures Fitting(t, max) == |t| - 1
  {
    assert t[..|t|] == t;
    FittingIsLongest(t, max, |t| - 1);
    FittingIsLongest(t, max, |t|);
  }

  /** A prefix that does not fit has the same longest prefix that does. */
  lemma FittingOfPrefix(t: Text, n: nat, max: nat)
    requires n <= |t| && Size(t[..n]) > max
    ensures Fitting(t[..n], max) == Fitting(t, max)
  {
    var p, f := t[..n], Fitting(t, max);
    FittingIsLongest(t, max, n);
    assert p[..f] == t[..f];
    FittingIsLongest(t, max, f);
    FittingIsLongest(p, max, f);
    var g := Fitting(p, max);
    assert p[..g] == t[..g];
    FittingIsLongest(p, max, g);
    FittingIsLongest(t, max, g);
  }

  /* ---------- the slice ---------- */

  /** The code returns bare text when nothing had to be cut or nothing could be kept, and
      text with the size it counted otherwise. */
  datatype Slice = Bare(text: Text) | Sized(text: Text, size: nat)

  /** Where the cut falls: after `paragraphs` whole ones and some sentences of the next. */
  datatype Border = Border(paragraphs: nat, sentences: nat)

  ghost predicate Over(parts: seq<Text>, max: nat) {
    FittingParagraphs(parts, max, 0) < |parts|
  }

  function BorderOf(parts: seq<Text>, max: nat): (b: Border)
    requires Over(parts, max)
    ensures IsBorder(parts, b) && CountedSize(parts, b) <= max
  {
    FittingParagraphsFit(parts, max, 0);
    BorderAt(parts, max, FittingParagraphs(parts, max, 0))
  }

  /** The sentences of the i-th paragraph that still fit. */
  function BorderAt(parts: seq<Text>, max: nat, i: nat): (b: Border)
    requires i < |parts| && PartsSize(parts, i) <= max
    ensures IsBorder(parts, b) && CountedSize(parts, b) <= max
  {
    var sentences := Sentences(parts[i]);
    FittingSentencesFit(sentences, max - PartsSize(parts, i));
    Border(i, FittingSentences(sentences, max - PartsSize(parts, i), 0))
  }

  predicate IsBorder(parts: seq<Text>, b: Border) {
    b.paragraphs < |parts| && b.sentences <= |Sentences(parts[b.paragraphs])|
  }

  function KeptParts(parts: seq<Text>, b: Border): seq<Text>
    requires IsBorder(parts, b)
  {
    WithSentences(Sentences(parts[b.paragraphs]), parts[..b.paragraphs], b.sentences)
  }

  function CountedSize(parts: seq<Text>, b: Border): nat
    requires IsBorder(parts, b)
  {
    PartsSize(parts, b.paragraphs) + SentencesSize(Sentences(parts[b.paragraphs]), b.sentences)
  }

  function SliceOf(s: Text, max: nat): Slice {
    if Size(s) <= max then Bare(s)
    else
      SomeParagraphDoesNotFit(s, max);
      var kept := KeptParts(Paragraphs(s), BorderOf(Paragraphs(s), max));
      if kept == [] then Bare(DecodeIgnoring(Encode(s)[..max]))
      else Sized(Shrink(Join(kept), max), CountedSize(Paragraphs(s), BorderOf(Paragraphs(s), max)))
  }

  method SliceMarkdown(markdown: Text, max: nat) returns (r: Slice)
    ensures r == SliceOf(markdown, max)
  {
    var bytes := Encode(markdown);
    if |bytes| <= max {
      return Bare(markdown);
    }
    var paragraphs := Paragraphs(markdown);
    SomeParagraphDoesNotFit(markdown, max);
    var parts, size := Collect(paragraphs, max);
    if parts == [] {
      return Bare(DecodeIgnoring(bytes[..max]));
    }
    var result := ShrinkToFit(Join(parts), max);
    return Sized(result, size);
  }

  /** The loop over the paragraphs; the first that does not fit whole ends it. */
  method Collect(paragraphs: seq<Text>, max: nat) returns (parts: seq<Text>, size: nat)
    requires Over(paragraphs, max)
    ensures parts == KeptParts(paragraphs, BorderOf(paragraphs, max))
    ensures size == CountedSize(paragraphs, BorderOf(paragraphs, max))
  {
    FittingParagraphsFit(paragraphs, max, 0);
    parts, size := [], 0;
    var i := 0;
    while i < |paragraphs|
      invariant 0 <= i <= |paragraphs|
      invariant FittingParagraphs(paragraphs, max, i) == FittingParagraphs(paragraphs, max, 0)
      invariant parts == paragraphs[..i] && size == PartsSize(paragraphs, i) <= max
    {
      NextParagraph(paragraphs, max, i);
      var total := |Encode(paragraphs[i])| + (if i > 0 then 2 else 0);
      if size + total > max {
        ghost var border := Border(i, FittingSentences(Sentences(paragraphs[i]), max - size, 0));
        assert BorderOf(paragraphs, max) == border;
        parts, size := AddSentences(paragraphs[i], parts, size, max);
        return;
      }
      parts, size := parts + [paragraphs[i]], size + total;
      i := i + 1;
    }
    assert false;
  }

  lemma NextParagraph(parts: seq<Text>, max: nat, i: nat)
    requires i < |parts|
    ensures parts[..i + 1] == parts[..i] + [parts[i]]
    ensures PartsSize(parts, i + 1) == PartsSize(parts, i) + Size(parts[i]) + Separator(i)
    ensures FittingParagraphs(parts, max, i)
         == if PartsSize(parts, i + 1) <= max then FittingParagraphs(parts, max, i + 1) else i
  {
  }

  /** The sentences of the paragraph that did not fit, as long as they do. */
  function WithSentences(sentences: seq<Text>, kept: seq<Text>, k: nat): seq<Text>
    requires k <= |sentences|
  {
    kept + sentences[..k]
  }

  method AddSentences(paragraph: Text, kept: seq<Text>, used: nat, max: nat) returns (parts: seq<Text>, size: nat)
    requires used <= max
    ensures parts == WithSentences(Sentences(paragraph), kept, FittingSentences(Sentences(paragraph), max - used, 0))
    ensures size == used
                  + SentencesSize(Sentences(paragraph), FittingSentences(Sentences(paragraph), max - used, 0))
  {
    var sentences := Sentences(paragraph);
    parts, size := kept, used;
    assert kept == WithSentences(sentences, kept, 0);
    var j := 0;
    while j < |sentences|
      invariant 0 <= j <= |sentences|
      invariant parts == WithSentences(sentences, kept, j) && size == used + SentencesSize(sentences, j) <= max
      invariant FittingSentences(sentences, max - used, 0) == FittingSentences(sentences, max - used, j)
    {
      NextSentence(sentences, kept, max - used, j);
      var total := |Encode(sentences[j])| + (if j < |sentences| - 1 then 1 else 0);
      if size + total > max {
        break;
      }
      parts, size := parts + [sentences[j]], size + total;
      j := j + 1;
    }
  }

  lemma NextSentence(sentences: seq<Text>, kept: seq<Text>, room: nat, j: nat)
    requires j < |sentences|
    ensures WithSentences(sentences, kept, j + 1) == WithSentences(sentences, kept, j) + [sentences[j]]
    ensures SentencesSize(sentences, j + 1) == SentencesSize(sentences, j) + Size(sentences[j]) + Gap(sentences, j)
    ensures FittingSentences(sentences, room, j)
         == if SentencesSize(sentences, j + 1) <= room then FittingSentences(sentences, room, j + 1) else j
  {
  }

  method ShrinkToFit(text: Text, max: nat) returns (r: Text)
    ensures r == Shrink(text, max)
  {
    r := text;
    while |Encode(r)| > max && r != []
      invariant Shrink(text, max) == Shrink(r, max)
      decreases |r|
    {
      r := Cut(r);
    }
  }

  /* ---------- what a slice is ---------- */

  /** The bound, in every case: neither the text nor the counted size exceeds the limit. */
  lemma SliceFits(s: Text, max: nat)
    ensures Size(SliceOf(s, max).text) <= max
    ensures SliceOf(s, max).Sized? ==> SliceOf(s, max).size <= max
    ensures Size(s) <= max ==> SliceOf(s, max) == Bare(s)
  {
    if Size(s) > max {
      TruncationKeepsWholeCharacters(s, max);
      FittingIsLongest(s, max, Fitting(s, max));
    }
  }

  /** The text without white space. */
  function Ink(s: Text): Text {
    if s == [] then [] else (if IsSpace(s[0]) then [] else [s[0]]) + Ink(s[1..])
  }

  lemma {:induction false} InkIs(s: Text)
    ensures |Ink(s)| <= |s| && (Ink(s) == [] <==> AllSpace(s))
    ensures Ink(s) == s <==> forall i :: 0 <= i < |s| ==> !IsSpace(s[i])
  {
    if s != [] {
      InkIs(s[1..]);
      assert !IsSpace(s[0]) ==> Ink(s)[0] == s[0] && Ink(s)[1..] == Ink(s[1..]);
    }
  }

  function InkOfAll(parts: seq<Text>): Text {
    if parts == [] then [] else Ink(parts[0]) + InkOfAll(parts[1..])
  }

  lemma {:induction false} InkConcat(a: Text, b: Text)
    ensures Ink(a + b) == Ink(a) + Ink(b)
  {
    if a == [] {
      assert a + b == b;
    } else {
      assert (a + b)[1..] == a[1..] + b;
      InkConcat(a[1..], b);
    }
  }

  lemma {:induction false} InkOfAllConcat(a: seq<Text>, b: seq<Text>)
    ensures InkOfAll(a + b) == InkOfAll(a) + InkOfAll(b)
  {
    if a == [] {
      assert a + b == b;
    } else {
      assert (a + b)[1..] == a[1..] + b;
      InkOfAllConcat(a[1..], b);
    }
  }

  lemma BlankLineHasNoInk()
    ensures Ink(BLANK_LINE) == []
  {
    assert BLANK_LINE[1..] == [NEWLINE];
    assert Ink([NEWLINE]) == [] + Ink([]);
  }

  lemma {:induction false} InkOfJoin(parts: seq<Text>)
    ensures Ink(Join(parts)) == InkOfAll(parts)
  {
    if |parts| == 1 {
      assert parts[1..] == [];
    } else if parts != [] {
      assert parts == [parts[0]] + parts[1..];
      JoinCons(parts[0], parts[1..]);
      InkConcat(parts[0] + BLANK_LINE, Join(parts[1..]));
      InkConcat(parts[0], BLANK_LINE);
      BlankLineHasNoInk();
      InkOfJoin(parts[1..]);
    }
  }

  lemma {:induction false} InkAfterSpaces(p: Text)
    ensures Ink(AfterSpaces(p)) == Ink(p)
  {
    if p != [] && IsSpace(p[0]) {
      InkAfterSpaces(p[1..]);
    }
  }

  /** Splitting into sentences loses nothing but white space. */
  lemma {:induction false} InkOfSentences(p: Text)
    ensures InkOfAll(Sentences(p)) == Ink(p)
    decreases |p|
  {
    var k := SentenceEnd(p);
    if k == |p| {
      assert [p][1..] == [];
    } else {
      var rest := AfterSpaces(p[k..]);
      InkOfSentences(rest);
      InkAfterSpaces(p[k..]);
      assert p == p[..k] + p[k..];
      InkConcat(p[..k], p[k..]);
      assert ([p[..k]] + Sentences(rest))[1..] == Sentences(rest);
    }
  }

  /** The slice invents, reorders and skips nothing: apart from white space its text is a
      prefix of the document. */
  lemma SliceIsPrefix(s: Text, max: nat)
    ensures Ink(SliceOf(s, max).text) <= Ink(s)
  {
    if Size(s) > max {
      TruncationKeepsWholeCharacters(s, max);
      InkOfPrefix(s, Fitting(s, max));
      SomeParagraphDoesNotFit(s, max);
      var kept := KeptParts(Paragraphs(s), BorderOf(Paragraphs(s), max));
      InkOfPrefix(Join(kept), |Shrink(Join(kept), max)|);
      InkOfKept(Paragraphs(s), BorderOf(Paragraphs(s), max));
      InkOfJoin(kept);
      InkOfJoin(Paragraphs(s));
      JoinOfParagraphs(s);
    }
  }

  lemma InkOfPrefix(s: Text, k: nat)
    requires k <= |s|
    ensures Ink(s[..k]) <= Ink(s)
  {
    assert s == s[..k] + s[k..];
    InkConcat(s[..k], s[k..]);
  }

  lemma InkOfFirst(parts: seq<Text>, k: nat)
    requires k <= |parts|
    ensures InkOfAll(parts[..k]) <= InkOfAll(parts)
  {
    assert parts == parts[..k] + parts[k..];
    InkOfAllConcat(parts[..k], parts[k..]);
  }

  lemma InkOfNext(parts: seq<Text>, k: nat)
    requires k < |parts|
    ensures InkOfAll(parts[..k + 1]) == InkOfAll(parts[..k]) + Ink(parts[k])
  {
    assert parts[..k + 1] == parts[..k] + [parts[k]];
    InkOfAllConcat(parts[..k], [parts[k]]);
    assert InkOfAll([parts[k]]) == Ink(parts[k]) + InkOfAll([]);
  }

  lemma InkOfKept(parts: seq<Text>, b: Border)
    requires IsBorder(parts, b)
    ensures InkOfAll(KeptParts(parts, b)) <= InkOfAll(parts)
  {
    var i, sentences := b.paragraphs, Sentences(parts[b.paragraphs]);
    InkOfAllConcat(parts[..i], sentences[..b.sentences]);
    InkOfFirst(sentences, b.sentences);
    InkOfSentences(parts[i]);
    InkOfNext(parts, i);
    InkOfFirst(parts, i + 1);
  }

  /** No sentence was kept of m, or the document starts with the kept ones and they are two of
      more, or the only one. */
  predicate CountsRight(b: Border, m: nat) {
    b.sentences == 0 || (b.paragraphs == 0 && b.sentences == if b.sentences == m then 1 else 2)
  }

  function SurplusOf(parts: seq<Text>, b: Border): int
    requires IsBorder(parts, b)
  {
    Surplus(b.paragraphs, b.sentences, |Sentences(parts[b.paragraphs])|)
  }

  /** Kept sentences are counted with one byte after each but joined with two before each, so
      before shrinking the text has this many bytes for a counted size. */
  lemma CountedAgainstActual(parts: seq<Text>, b: Border)
    requires IsBorder(parts, b)
    ensures Size(Join(KeptParts(parts, b))) == CountedSize(parts, b) + SurplusOf(parts, b)
    ensures Size(Join(KeptParts(parts, b))) == CountedSize(parts, b)
      <==> CountsRight(b, |Sentences(parts[b.paragraphs])|)
  {
    var actual, counted, kept := Size(Join(KeptParts(parts, b))), CountedSize(parts, b), KeptParts(parts, b);
    calc {
      actual;
    ==  { SizeOfJoin(kept); }
      PartsSize(kept, b.paragraphs + b.sentences);
    ==  { SizeOfKept(parts, b.paragraphs, Sentences(parts[b.paragraphs]), b.sentences); }
      counted + SurplusOf(parts, b);
    }
    NoSurplusIff(b, |Sentences(parts[b.paragraphs])|);
  }

  lemma NoSurplusIff(b: Border, m: nat)
    ensures Surplus(b.paragraphs, b.sentences, m) == 0 <==> CountsRight(b, m)
  {
  }

  /** The size returned is the size of the text returned: when the joined text fits, exactly if
      the kept sentences are counted right; when it does not, and then they are not, exactly if
      shrinking cuts off as many bytes as were not counted. */
  lemma SizeIsOfTextIff(s: Text, max: nat)
    requires SliceOf(s, max).Sized?
    ensures Over(Paragraphs(s), max)
    ensures var parts, r := Paragraphs(s), SliceOf(s, max);
      var b := BorderOf(parts, max);
      var joined := Join(KeptParts(parts, b));
      if Size(joined) <= max
      then r.text == joined && (Size(r.text) == r.size <==> CountsRight(b, |Sentences(parts[b.paragraphs])|))
      else ShrunkTo(joined, max, |r.text|) && !CountsRight(b, |Sentences(parts[b.paragraphs])|)
           && (Size(r.text) == r.size <==> Size(joined) - Size(r.text) == SurplusOf(parts, b))
  {
    SomeParagraphDoesNotFit(s, max);
    var b := BorderOf(Paragraphs(s), max);
    CountedAgainstActual(Paragraphs(s), b);
    ShrinkIs(Join(KeptParts(Paragraphs(s), b)), max);
  }

  lemma SizeOfKept(parts: seq<Text>, i: nat, sentences: seq<Text>, j: nat)
    requires i <= |parts| && j <= |sentences|
    ensures PartsSize(parts[..i] + sentences[..j], i + j)
         == PartsSize(parts, i) + SentencesSize(sentences, j) + Surplus(i, j, |sentences|)
  {
    var kept, all := parts[..i] + sentences[..j], parts[..i] + sentences;
    calc {
      PartsSize(kept, i + j);
    ==  { assert all == kept + sentences[j..]; PartsSizeOfPrefix(kept, sentences[j..], i + j); }
      PartsSize(all, i + j);
    ==  { SentencesJoined(parts[..i], sentences, j); }
      PartsSize(all, i) + SentencesSize(sentences, j) + Surplus(i, j, |sentences|);
    ==  { SizeOfFirst(parts, i, sentences); }
      PartsSize(parts, i) + SentencesSize(sentences, j) + Surplus(i, j, |sentences|);
    }
  }

  lemma SizeOfFirst(parts: seq<Text>, i: nat, more: seq<Text>)
    requires i <= |parts|
    ensures PartsSize(parts[..i] + more, i) == PartsSize(parts, i)
  {
    assert parts == parts[..i] + parts[i..];
    PartsSizeOfPrefix(parts[..i], parts[i..], i);
    PartsSizeOfPrefix(parts[..i], more, i);
  }

  /** The bytes not counted for j of m sentences after i paragraphs: two are joined before
      each but the first part, one is counted after each but the last sentence. */
  function Surplus(i: nat, j: nat, m: nat): int {
    (if i > 0 then 2 * j else if j > 0 then 2 * (j - 1) else 0) - (if 0 < j == m then j - 1 else j)
  }

  lemma {:induction false} SentencesJoined(kept: seq<Text>, sentences: seq<Text>, j: nat)
    requires j <= |sentences|
    ensures PartsSize(kept + sentences, |kept| + j) - PartsSize(kept + sentences, |kept|) - SentencesSize(sentences, j)
         == Surplus(|kept|, j, |sentences|)
  {
    if j > 0 {
      SentencesJoined(kept, sentences, j - 1);
    }
  }

  /* ---------- sizes that are not those of the text ---------- */

  lemma {:induction false} SizeOfAscii(s: Text)
    requires forall i :: 0 <= i < |s| ==> s[i] < 0x80
    ensures Size(s) == |s|
  {
    if s != [] {
      SizeOfAscii(s[1..]);
    }
  }

  /** The cut of a document whose first paragraph does not fit but the first of its two
      sentences does. */
  lemma FirstSentenceKept(s: Text, sentence: Text, last: Text, max: nat)
    requires Paragraphs(s) == [s] && Sentences(s) == [sentence, last]
    requires Size(sentence) + 1 <= max < Size(sentence) + 1 + Size(last) && max < Size(s)
    ensures SliceOf(s, max) == Sized(sentence, Size(sentence) + 1)
  {
    SomeParagraphDoesNotFit(s, max);
    assert PartsSize([s], 1) == Size(s);
    OneOfTwo(sentence, last, max);
    assert BorderOf([s], max) == Border(0, 1);
    assert KeptParts([s], Border(0, 1)) == [sentence];
  }

  /** The cut of a document whose first paragraph fits with the first of the two sentences of
      its second and last. */
  lemma SecondSentenceKept(s: Text, first: Text, second: Text, sentence: Text, last: Text, max: nat)
    requires Paragraphs(s) == [first, second] && Sentences(second) == [sentence, last]
    requires Size(first) + Size(sentence) + 1 <= max
    requires max < Size(first) + Size(sentence) + 1 + Size(last) && max < Size(first) + Size(second) + 2
    ensures SliceOf(s, max)
         == Sized(Shrink(first + BLANK_LINE + sentence, max), Size(first) + Size(sentence) + 1)
  {
    BorderOfTwo([first, second], sentence, last, max);
    JoinOfTwo(first, second, sentence);
    SliceAtBorder(s, max, Border(1, 1), [first, sentence], Size(first) + Size(sentence) + 1);
  }

  lemma SliceAtBorder(s: Text, max: nat, b: Border, kept: seq<Text>, size: nat)
    requires Over(Paragraphs(s), max) && BorderOf(Paragraphs(s), max) == b
    requires kept != [] && KeptParts(Paragraphs(s), b) == kept && CountedSize(Paragraphs(s), b) == size
    ensures SliceOf(s, max) == Sized(Shrink(Join(kept), max), size)
  {
    SomeParagraphDoesNotFit(s, max);
  }

  lemma BorderOfTwo(parts: seq<Text>, sentence: Text, last: Text, max: nat)
    requires |parts| == 2 && Sentences(parts[1]) == [sentence, last]
    requires Size(parts[0]) + Size(sentence) + 1 <= max
    requires max < Size(parts[0]) + Size(sentence) + 1 + Size(last) && max < Size(parts[0]) + Size(parts[1]) + 2
    ensures Over(parts, max) && BorderOf(parts, max) == Border(1, 1)
    ensures CountedSize(parts, Border(1, 1)) == Size(parts[0]) + Size(sentence) + 1
  {
    assert PartsSize(parts, 1) == Size(parts[0]);
    assert PartsSize(parts, 2) == Size(parts[0]) + Size(parts[1]) + 2;
    assert FittingParagraphs(parts, max, 0) == FittingParagraphs(parts, max, 1) == 1;
    OneOfTwo(sentence, last, max - Size(parts[0]));
  }

  lemma OneOfTwo(sentence: Text, last: Text, room: nat)
    requires Size(sentence) + 1 <= room < Size(sentence) + 1 + Size(last)
    ensures FittingSentences([sentence, last], room, 0) == 1
    ensures SentencesSize([sentence, last], 1) == Size(sentence) + 1
  {
    var sentences := [sentence, last];
    assert SentencesSize(sentences, 1) == Size(sentence) + 1;
    assert SentencesSize(sentences, 2) == Size(sentence) + 1 + Size(last);
    assert FittingSentences(sentences, room, 0) == FittingSentences(sentences, room, 1) == 1;
  }

  lemma JoinOfTwo(first: Text, second: Text, sentence: Text)
    requires Sentences(second) != [] && Sentences(second)[0] == sentence
    ensures IsBorder([first, second], Border(1, 1))
    ensures KeptParts([first, second], Border(1, 1)) == [first, sentence]
    ensures Join([first, sentence]) == first + BLANK_LINE + sentence
  {
    assert [first, sentence][..1] == [first];
    assert [first, second][..1] + Sentences(second)[..1] == [first, sentence];
  }

  /** A text without line ends is one paragraph. */
  lemma {:induction false} OneLine(s: Text)
    requires forall i :: 0 <= i < |s| ==> s[i] != NEWLINE
    ensures FirstBlankLine(s) == |s|
  {
    if |s| >= 2 {
      OneLine(s[1..]);
    }
  }

  /** A sentence, a space and a rest without stops. */
  lemma SentenceAndRest(sentence: Text, last: Text)
    requires sentence != [] && IsStop(sentence[|sentence| - 1])
    requires forall i :: 0 <= i < |sentence| - 1 ==> !IsStop(sentence[i])
    requires last != [] && !IsSpace(last[0]) && forall i :: 0 <= i < |last| ==> !IsStop(last[i])
    ensures Sentences(sentence + [SPACE] + last) == [sentence, last]
  {
    var p, k := sentence + [SPACE] + last, |sentence|;
    SentenceEndIs(p, k);
    SentenceEndIs(last, |last|);
    assert p[..k] == sentence && p[k..] == [SPACE] + last && p[k..][1..] == last;
    assert AfterSpaces(p[k..]) == AfterSpaces(last) == last;
  }

  const STOP: Scalar := 46

  /** "A. BB" cut to three bytes: the text has two, three are counted. */
  lemma CountsAByteTooMany(s: Text)
    requires s == [65, STOP, SPACE, 66, 66]
    ensures SliceOf(s, 3) == Sized(s[..2], 3) && Size(s[..2]) == 2
  {
    var sentence, last := s[..2], s[3..];
    OneLine(s);
    assert s == sentence + [SPACE] + last;
    SentenceAndRest(sentence, last);
    SizeOfAscii(s);
    SizeOfAscii(sentence);
    SizeOfAscii(last);
    FirstSentenceKept(s, sentence, last, 3);
  }

  /** A paragraph of one letter, then a paragraph of a sentence that ends at n and one letter. */
  predicate LetterAndSentence(s: Text, n: nat) {
    && 3 < n && |s| == n + 2 && s[1] == s[2] == NEWLINE && s[n - 1] == STOP && s[n] == SPACE
    && IsLetter(s[0]) && IsLetter(s[n + 1]) && forall i :: 3 <= i < n - 1 ==> IsLetter(s[i]) || s[i] == SPACE
  }

  predicate IsLetter(c: Scalar) {
    65 <= c <= 90
  }

  /** Cut to hold the first letter and the sentence as counted, its text is one byte too long
      once joined. */
  lemma CutAfterSentence(s: Text, n: nat)
    requires LetterAndSentence(s, n)
    ensures SliceOf(s, n - 1) == Sized(Shrink(s[..n], n - 1), n - 1)
  {
    PartsOfTwo(s, n);
    SizesOfTwo(s, n);
    SecondSentenceKept(s, s[..1], s[3..], s[3..n], s[n + 1..], n - 1);
    JoinedIsPrefix(s, n);
  }

  lemma JoinedIsPrefix(s: Text, n: nat)
    requires 3 <= n <= |s| && s[1] == s[2] == NEWLINE
    ensures s[..1] + BLANK_LINE + s[3..n] == s[..n]
  {
    assert s[1..3] == BLANK_LINE;
  }

  lemma PartsOfTwo(s: Text, n: nat)
    requires LetterAndSentence(s, n)
    ensures Paragraphs(s) == [s[..1], s[3..]] && Sentences(s[3..]) == [s[3..n], s[n + 1..]]
  {
    TwoParagraphs(s, s[3..]);
    SentenceAndRest(s[3..n], s[n + 1..]);
    assert s[3..n] + [SPACE] + s[n + 1..] == s[3..];
  }

  lemma SizesOfTwo(s: Text, n: nat)
    requires LetterAndSentence(s, n)
    ensures Size(s[..1]) == 1 && Size(s[3..]) == n - 1 && Size(s[3..n]) == n - 3 && Size(s[n + 1..]) == 1
  {
    SizeOfAscii(s[..1]);
    SizeOfAscii(s[3..]);
    SizeOfAscii(s[3..n]);
    SizeOfAscii(s[n + 1..]);
  }

  lemma TwoParagraphs(s: Text, second: Text)
    requires |s| > 3 && s[0] != NEWLINE && s[1] == s[2] == NEWLINE && s[3..] == second
    requires forall i :: 0 <= i < |second| ==> second[i] != NEWLINE
    ensures Paragraphs(s) == [s[..1], second]
  {
    var rest := s[1..];
    assert rest[0] == NEWLINE && rest[1] == NEWLINE;
    assert FirstBlankLine(rest) == 0;
    assert FirstBlankLine(s) == 1;
    OneLine(second);
    assert Paragraphs(second) == [second];
  }

  /** Such a text is shrunk by one byte, the one not counted, or back to its last space: both
      sizes are the same exactly if the sentence has no space. */
  lemma ShrunkSizeMatchesIff(s: Text, n: nat)
    requires LetterAndSentence(s, n)
    ensures var r := SliceOf(s, n - 1);
      && r.Sized? && r.size == n - 1 && r.text == Cut(s[..n])
      && (Size(r.text) == r.size <==> SPACE !in s[..n])
  {
    ShrinkOfTwo(s, n);
    CutAfterSentence(s, n);
  }

  lemma ShrinkOfTwo(s: Text, n: nat)
    requires LetterAndSentence(s, n)
    ensures Shrink(s[..n], n - 1) == Cut(s[..n])
    ensures Size(Cut(s[..n])) == n - 1 <==> SPACE !in s[..n]
  {
    var t := s[..n];
    forall i | 0 <= i < n ensures t[i] < 0x80 {
      assert i < 3 || i == n - 1 || IsLetter(s[i]) || s[i] == SPACE;
    }
    ShrinkAscii(t);
    CutBySpace(t);
  }

  /** Both happen: "B." and "B B." as the sentence. */
  lemma SentencesOfBothKinds()
    ensures LetterAndSentence([65, NEWLINE, NEWLINE, 66, STOP, SPACE, 67], 5)
    ensures SPACE !in [65, NEWLINE, NEWLINE, 66, STOP]
    ensures LetterAndSentence([65, NEWLINE, NEWLINE, 66, SPACE, 66, STOP, SPACE, 67], 7)
    ensures SPACE in [65, NEWLINE, NEWLINE, 66, SPACE, 66, STOP]
  {
    assert [65, NEWLINE, NEWLINE, 66, SPACE, 66, STOP][4] == SPACE;
  }

  lemma ShrinkAscii(t: Text)
    requires t != [] && forall i :: 0 <= i < |t| ==> t[i] < 0x80
    ensures Shrink(t, |t| - 1) == Cut(t) && Size(Cut(t)) == |Cut(t)|
  {
    SizeOfAscii(t);
    SizeOfAscii(Cut(t));
    ShrinkOnce(t, |t| - 1);
  }

  lemma CutBySpace(t: Text)
    requires t != [] && t[|t| - 1] != SPACE
    ensures |Cut(t)| == |t| - 1 <==> SPACE !in t
  {
  }

  lemma ShrinkOnce(t: Text, max: nat)
    requires t != [] && Size(Cut(t)) <= max < Size(t)
    ensures Shrink(t, max) == Cut(t)
  {
  }

  /* ---------- when a size is returned ---------- */

  /** Text with its size is returned exactly when the document is over the limit and its
      first paragraph, or the first sentence of it with the byte after it, fits. */
  lemma SizedIff(s: Text, max: nat)
    ensures SliceOf(s, max).Sized? <==>
      Size(s) > max && (var first := Paragraphs(s)[0];
                        Size(first) <= max || Size(Sentences(first)[0]) + Gap(Sentences(first), 0) <= max)
  {
    if Size(s) > max {
      SomeParagraphDoesNotFit(s, max);
      var parts := Paragraphs(s);
      assert PartsSize(parts, 1) == Size(parts[0]);
      FittingParagraphsFit(parts, max, 0);
      var sentences := Sentences(parts[0]);
      assert SentencesSize(sentences, 1) == Size(sentences[0]) + Gap(sentences, 0);
    }
  }
}
