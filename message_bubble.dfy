/**
 * How a chat bubble renders its content: string content is cut into text parts
 * and fenced code blocks by a lazy, global ``` ... ``` pattern; each code block
 * gets a language from its first line; each text part is split into lines,
 * and lines that start with a bullet are shown as bullet items.
 */
module MessageBubble {
  import opened Wrappers
  import opened Text

  const Fence: string := "```"

  predicate FenceAt(s: string, p: nat) {
    p + 3 <= |s| && s[p] == '`' && s[p + 1] == '`' && s[p + 2] == '`'
  }

  /** s[p..q+3] is a match of /```([\s\S]*?)```/ starting at p: the closing fence is the first one after the opening. */
  predicate BlockAt(s: string, p: nat, q: nat) {
    FenceAt(s, p) && p + 3 <= q && FenceAt(s, q) && forall r: nat :: p + 3 <= r < q ==> !FenceAt(s, r)
  }

  /** The first fence at or after `from`. */
  function NextFence(s: string, from: nat): (r: Option<nat>)
    ensures r.Some? ==> from <= r.value && FenceAt(s, r.value)
    decreases |s| - from
  {
    if from + 3 > |s| then None
    else if FenceAt(s, from) then Some(from)
    else NextFence(s, from + 1)
  }

  lemma {:induction false} NextFenceCorrect(s: string, from: nat)
    ensures NextFence(s, from).Some? ==> forall p: nat :: from <= p < NextFence(s, from).value ==> !FenceAt(s, p)
    ensures NextFence(s, from).None? ==> forall p: nat :: from <= p ==> !FenceAt(s, p)
    decreases |s| - from
  {
    if from + 3 <= |s| && !FenceAt(s, from) {
      NextFenceCorrect(s, from + 1);
    }
  }

  /** `regex.exec(content)` with the regex's lastIndex at `from`: the next block, as (opening, closing) fence positions. */
  function FindBlock(s: string, from: nat): (r: Option<(nat, nat)>)
    ensures r.Some? ==> from <= r.value.0 && r.value.0 + 3 <= r.value.1 && r.value.1 + 3 <= |s|
  {
    var open := NextFence(s, from);
    if open.None? then None
    else
      var close := NextFence(s, open.value + 3);
      if close.None? then None else Some((open.value, close.value))
  }

  lemma FindBlockFences(s: string, from: nat, p: nat, q: nat)
    requires FindBlock(s, from) == Some((p, q))
    ensures FenceAt(s, p) && FenceAt(s, q)
  {
  }

  /** FindBlock finds the block with the leftmost opening fence at or after `from`, and none when there is none. */
  lemma FindBlockCorrect(s: string, from: nat)
    ensures FindBlock(s, from).Some? ==> BlockAt(s, FindBlock(s, from).value.0, FindBlock(s, from).value.1)
    ensures FindBlock(s, from).Some? ==> forall p: nat, q: nat :: from <= p < FindBlock(s, from).value.0 ==> !BlockAt(s, p, q)
    ensures FindBlock(s, from).None? ==> forall p: nat, q: nat :: from <= p ==> !BlockAt(s, p, q)
  {
    NextFenceCorrect(s, from);
    var open := NextFence(s, from);
    if open.Some? {
      NextFenceCorrect(s, open.value + 3);
    }
  }

  /** A part of the content: literal text, or the inner text of a fenced block. */
  datatype Part = Text(text: string) | Code(inner: string)

  /** The parts the splitter produces from position `from` on; each consumes at least one character. */
  function SegmentsFrom(s: string, from: nat): (r: seq<Part>)
    requires from <= |s|
    ensures |r| <= |s| - from
    decreases |s| - from
  {
    var m := FindBlock(s, from);
    if m.None? then
      if from < |s| then [Text(s[from..])] else []
    else
      StepParts(s, from, m.value.0, m.value.1) + SegmentsFrom(s, m.value.1 + 3)
  }

  /** The parts one match contributes: the text since `from` (when not empty), then the block. */
  function StepParts(s: string, from: nat, p: nat, q: nat): seq<Part>
    requires from <= p && p + 3 <= q <= |s|
  {
    (if p > from then [Text(s[from..p])] else []) + [Code(s[p + 3..q])]
  }

  /** The parts of the whole content; no text part is empty. */
  function Segments(s: string): (r: seq<Part>)
    ensures forall k :: 0 <= k < |r| && r[k].Text? ==> r[k].text != []
  {
    SegmentsFromWellFormed(s, 0);
    SegmentsFrom(s, 0)
  }

  /** One step of the splitter: the text before the next block (if any), the block, and the rest. */
  lemma SegmentsFromStep(s: string, from: nat, p: nat, q: nat)
    requires from <= |s| && FindBlock(s, from) == Some((p, q))
    ensures p + 3 <= q && q + 3 <= |s|
    ensures SegmentsFrom(s, from) == StepParts(s, from, p, q) + SegmentsFrom(s, q + 3)
  {
    var m := FindBlock(s, from);
    assert m.value.0 == p && m.value.1 == q;
  }

  /** Past the last block, the splitter's only part is the remaining text, if any. */
  lemma SegmentsFromEnd(s: string, from: nat)
    requires from <= |s| && FindBlock(s, from).None?
    ensures SegmentsFrom(s, from) == if from < |s| then [Text(s[from..])] else []
  {
  }

  lemma Assoc<X>(a: seq<X>, b: seq<X>, c: seq<X>)
    ensures a + (b + c) == (a + b) + c
  {
  }

  /** The splitting loop of `renderContent`. */
  method SplitContent(content: string) returns (parts: seq<Part>)
    ensures parts == Segments(content)
  {
    parts := [];
    var lastIndex: nat := 0;
    // The regex's own lastIndex is always equal to lastIndex: both move to the end of each match.
    while FindBlock(content, lastIndex).Some?
      invariant SplitSoFar(content, parts, lastIndex)
      decreases |content| - lastIndex
    {
      var m := FindBlock(content, lastIndex);
      var index, close := m.value.0, m.value.1;
      ghost var before, from := parts, lastIndex;
      parts := parts + StepParts(content, lastIndex, index, close);
      lastIndex := close + 3;
      SplitStep(content, before, from, index, close, parts);
    }
    SplitEnd(content, parts, lastIndex);
    if lastIndex < |content| {
      parts := parts + [Text(content[lastIndex..])];
    }
  }

  /** The splitting loop's invariant: the parts so far, then the rest's parts, make up the whole. */
  ghost predicate SplitSoFar(s: string, parts: seq<Part>, from: nat) {
    from <= |s| && parts + SegmentsFrom(s, from) == Segments(s)
  }

  /** The loop's invariant survives a step over one block. */
  lemma SplitStep(s: string, parts: seq<Part>, from: nat, p: nat, q: nat, next: seq<Part>)
    requires FindBlock(s, from) == Some((p, q)) && SplitSoFar(s, parts, from)
    requires next == parts + StepParts(s, from, p, q)
    ensures SplitSoFar(s, next, q + 3)
  {
    SegmentsFromStep(s, from, p, q);
    Assoc(parts, StepParts(s, from, p, q), SegmentsFrom(s, q + 3));
  }

  /** Past the last block, the invariant gives the whole result. */
  lemma SplitEnd(s: string, parts: seq<Part>, from: nat)
    requires FindBlock(s, from).None? && SplitSoFar(s, parts, from)
    ensures (if from < |s| then parts + [Text(s[from..])] else parts) == Segments(s)
  {
    SegmentsFromEnd(s, from);
  }

  /** A part written back: text as is, a block inside its two fences. */
  function PartSource(part: Part): string {
    match part
    case Text(t) => t
    case Code(i) => Fence + i + Fence
  }

  /** The content written back, part after part. */
  function Reassemble(parts: seq<Part>): string
  {
    if parts == [] then [] else PartSource(parts[0]) + Reassemble(parts[1..])
  }

  lemma ReassembleSingle(part: Part)
    ensures Reassemble([part]) == PartSource(part)
  {
    assert [part][1..] == [];
  }

  lemma {:induction false} ReassembleAppend(a: seq<Part>, b: seq<Part>)
    ensures Reassemble(a + b) == Reassemble(a) + Reassemble(b)
    decreases |a|
  {
    if a != [] {
      assert (a + b)[1..] == a[1..] + b;
      ReassembleAppend(a[1..], b);
    } else {
      assert a + b == b;
    }
  }

  lemma SliceSplit(s: string, a: nat, b: nat, c: nat)
    requires a <= b <= c <= |s|
    ensures s[a..c] == s[a..b] + s[b..c]
  {
  }

  lemma StepSource(s: string, from: nat, p: nat, q: nat)
    requires from <= p && p + 3 <= q && q + 3 <= |s|
    ensures Reassemble(StepParts(s, from, p, q)) == s[from..p] + Fence + s[p + 3..q] + Fence
  {
    var head := if p > from then [Text(s[from..p])] else [];
    assert StepParts(s, from, p, q) == head + [Code(s[p + 3..q])];
    ReassembleAppend(head, [Code(s[p + 3..q])]);
    if p > from {
      ReassembleSingle(Text(s[from..p]));
    }
    assert Reassemble(head) == s[from..p];
    ReassembleSingle(Code(s[p + 3..q]));
  }

  lemma FencedSlices(s: string, from: nat, p: nat, q: nat)
    requires from <= p && p + 3 <= q && q + 3 <= |s| && FenceAt(s, p) && FenceAt(s, q)
    ensures s[from..p] + Fence + s[p + 3..q] + Fence + s[q + 3..] == s[from..]
  {
    var a, b, c := s[from..p], s[p + 3..q], s[q + 3..];
    assert s[p..p + 3] == Fence;
    assert s[q..q + 3] == Fence;
    SliceSplit(s, q, q + 3, |s|);
    SliceSplit(s, p + 3, q, |s|);
    SliceSplit(s, p, p + 3, |s|);
    SliceSplit(s, from, p, |s|);
    assert s[from..] == a + (Fence + (b + (Fence + c)));
    Concat5(a, Fence, b, Fence, c);
  }

  lemma Concat5<X>(a: seq<X>, b: seq<X>, c: seq<X>, d: seq<X>, e: seq<X>)
    ensures a + (b + (c + (d + e))) == a + b + c + d + e
  {
  }

  lemma RoundTripLast(s: string, from: nat)
    requires from <= |s| && FindBlock(s, from).None?
    ensures Reassemble(SegmentsFrom(s, from)) == s[from..]
  {
    if from < |s| {
      ReassembleSingle(Text(s[from..]));
    }
  }

  lemma RoundTripStep(s: string, from: nat, p: nat, q: nat)
    requires from <= |s| && FindBlock(s, from) == Some((p, q))
    requires Reassemble(SegmentsFrom(s, q + 3)) == s[q + 3..]
    ensures Reassemble(SegmentsFrom(s, from)) == s[from..]
  {
    SegmentsFromStep(s, from, p, q);
    FindBlockFences(s, from, p, q);
    ReassembleAppend(StepParts(s, from, p, q), SegmentsFrom(s, q + 3));
    StepSource(s, from, p, q);
    FencedSlices(s, from, p, q);
  }

  lemma {:induction false} RoundTripFrom(s: string, from: nat)
    requires from <= |s|
    ensures Reassemble(SegmentsFrom(s, from)) == s[from..]
    decreases |s| - from
  {
    match FindBlock(s, from)
    case None =>
      RoundTripLast(s, from);
    case Some((p, q)) =>
      RoundTripFrom(s, q + 3);
      RoundTripStep(s, from, p, q);
  }

  /** Round trip: writing the parts back, blocks re-fenced and in order, gives the content. */
  lemma RoundTrip(s: string)
    ensures Reassemble(Segments(s)) == s
  {
    RoundTripFrom(s, 0);
  }

  /** `w` holds no fence at all. */
  ghost predicate FenceFree(w: string) {
    forall r: nat :: !FenceAt(w, r)
  }

  /** `w` holds no complete fenced block. */
  ghost predicate BlockFree(w: string) {
    forall p: nat, q: nat :: !BlockAt(w, p, q)
  }

  /** A text part is not empty and holds no block; a code part holds no fence. */
  ghost predicate PartWellFormed(part: Part) {
    match part
    case Text(t) => t != [] && BlockFree(t)
    case Code(i) => FenceFree(i)
  }

  ghost predicate WellFormed(parts: seq<Part>) {
    forall k :: 0 <= k < |parts| ==> PartWellFormed(parts[k])
  }

  lemma FenceInSlice(s: string, lo: nat, hi: nat, r: nat)
    requires lo <= hi <= |s| && FenceAt(s[lo..hi], r)
    ensures FenceAt(s, lo + r) && lo + r + 3 <= hi
  {
    assert s[lo..hi][r..r + 3] == s[lo + r..lo + r + 3];
  }

  /** A slice of `s` with no fence of `s` inside it holds no fence. */
  lemma NoFenceInSlice(s: string, lo: nat, hi: nat)
    requires lo <= hi <= |s|
    requires forall r: nat :: lo <= r && r + 3 <= hi ==> !FenceAt(s, r)
    ensures FenceFree(s[lo..hi])
  {
    forall r: nat ensures !FenceAt(s[lo..hi], r) {
      if FenceAt(s[lo..hi], r) {
        FenceInSlice(s, lo, hi, r);
      }
    }
  }

  lemma BlockFreeFromFenceFree(t: string)
    requires FenceFree(t)
    ensures BlockFree(t)
  {
  }

  /** The text after the last block holds no block. */
  lemma TailBlockFree(s: string, from: nat)
    requires from <= |s| && FindBlock(s, from).None?
    ensures BlockFree(s[from..])
  {
    FindBlockCorrect(s, from);
    var t := s[from..];
    forall a: nat, b: nat ensures !BlockAt(t, a, b) {
      if BlockAt(t, a, b) {
        FenceInSlice(s, from, |s|, a);
        FenceInSlice(s, from, |s|, b);
        forall r: nat | from + a + 3 <= r < from + b ensures !FenceAt(s, r) {
          assert FenceAt(s, r) == FenceAt(t, r - from);
        }
        assert BlockAt(s, from + a, from + b);
      }
    }
  }

  lemma StepWellFormed(s: string, from: nat, p: nat, q: nat)
    requires from <= |s| && FindBlock(s, from) == Some((p, q))
    ensures WellFormed(StepParts(s, from, p, q))
  {
    NextFenceCorrect(s, from);
    NextFenceCorrect(s, p + 3);
    if p > from {
      NoFenceInSlice(s, from, p);
      BlockFreeFromFenceFree(s[from..p]);
      assert PartWellFormed(Text(s[from..p]));
    }
    NoFenceInSlice(s, p + 3, q);
    assert PartWellFormed(Code(s[p + 3..q]));
  }

  lemma WellFormedAppend(a: seq<Part>, b: seq<Part>)
    requires WellFormed(a) && WellFormed(b)
    ensures WellFormed(a + b)
  {
    forall k | 0 <= k < |a + b| ensures PartWellFormed((a + b)[k]) {
      if k >= |a| {
        assert (a + b)[k] == b[k - |a|];
      }
    }
  }

  lemma {:induction false} SegmentsFromWellFormed(s: string, from: nat)
    requires from <= |s|
    ensures WellFormed(SegmentsFrom(s, from))
    decreases |s| - from
  {
    var m := FindBlock(s, from);
    if m.None? {
      if from < |s| {
        TailBlockFree(s, from);
        assert PartWellFormed(Text(s[from..]));
      }
    } else {
      var p, q := m.value.0, m.value.1;
      SegmentsFromStep(s, from, p, q);
      SegmentsFromWellFormed(s, q + 3);
      StepWellFormed(s, from, p, q);
      WellFormedAppend(StepParts(s, from, p, q), SegmentsFrom(s, q + 3));
    }
  }

  /**
   * Splitting never emits an empty text part, a text part never contains a whole
   * ``` block (an unclosed fence stays in the text), and a block's inner text
   * never contains ```.
   */
  lemma SegmentsWellFormed(s: string)
    ensures WellFormed(Segments(s))
  {
    SegmentsFromWellFormed(s, 0);
  }

  // ---------------------------------------------------------------- code blocks

  /** What a code block is shown with. */
  datatype CodeBlockProps = CodeBlockProps(language: string, code: string)

  /** The language tag: the trimmed first line of the trimmed inner text (empty when there is none). */
  function RawLanguage(inner: string): string {
    Trim(Split(Trim(inner), '\n')[0])
  }

  /** The props of the block with inner text `inner`; a missing language is shown as "plaintext". */
  function BlockProps(inner: string): (b: CodeBlockProps)
    ensures b.language != []
  {
    var code := Trim(inner);
    var language := Trim(Split(code, '\n')[0]);
    if language != [] then CodeBlockProps(language, Trim(code[|language|..]))
    else CodeBlockProps("plaintext", code)
  }

  /** A string that does not start with a separator has a first piece that starts like it. */
  lemma FirstPieceStart(s: string)
    requires s != [] && s[0] != '\n'
    ensures Split(s, '\n')[0] != [] && Split(s, '\n')[0][0] == s[0]
  {
    var parts := Split(s, '\n');
    if parts[0] != [] {
      assert parts[0][0] == s[0];
    }
  }

  /** Trimming a string that starts with a non-space keeps a prefix of it, and only spaces follow. */
  lemma TrimKeepsStart(s: string)
    requires s != [] && !IsJsSpace(s[0])
    ensures Trim(s) != [] && |Trim(s)| <= |s| && Trim(s) == s[..|Trim(s)|] && AllSpace(s[|Trim(s)|..])
  {
    var r := Trim(s);
    var i := TrimOffset(s);
  }

  /** The trimmed first line is the start of the text, followed only by spaces on its line. */
  lemma LanguageIsPrefix(code: string, first: string)
    requires first <= code && first != [] && !IsJsSpace(first[0])
    ensures Trim(first) != [] && |Trim(first)| <= |first|
    ensures code[|Trim(first)|..] == first[|Trim(first)|..] + code[|first|..]
    ensures AllSpace(first[|Trim(first)|..])
  {
    TrimKeepsStart(first);
    var n := |Trim(first)|;
    SliceSplit(code, n, |first|, |code|);
    assert first[n..] == code[n..|first|];
  }

  /**
   * The language is empty (and shown as "plaintext") exactly when the block holds only
   * spaces; otherwise it is the trimmed first line and the code is the rest of the
   * trimmed inner text, trimmed.
   */
  lemma BlockPropsCorrect(inner: string)
    ensures RawLanguage(inner) == [] <==> AllSpace(inner)
    ensures AllSpace(inner) ==> BlockProps(inner) == CodeBlockProps("plaintext", [])
    ensures !AllSpace(inner) ==>
      var first := Split(Trim(inner), '\n')[0];
      |first| <= |Trim(inner)| &&
      BlockProps(inner) == CodeBlockProps(Trim(first), Trim(Trim(inner)[|first|..]))
  {
    var code := Trim(inner);
    var first := Split(code, '\n')[0];
    if AllSpace(inner) {
      assert code == [];
      assert first == [];
    } else {
      FirstPieceStart(code);
      LanguageIsPrefix(code, first);
      var language := Trim(first);
      TrimSkipsLeadingSpace(first[|language|..], code[|first|..]);
    }
  }

  /** A block on one line: the whole trimmed text is the language and the code is empty. */
  lemma OneLineBlock(inner: string)
    requires !AllSpace(inner) && '\n' !in Trim(inner)
    ensures BlockProps(inner) == CodeBlockProps(Trim(inner), [])
  {
    var code := Trim(inner);
    BlockPropsCorrect(inner);
    assert Split(code, '\n') == [code];
    TrimIdempotent(inner);
    assert code[|code|..] == [];
  }

  // ---------------------------------------------------------------- text lines

  const BulletMark: char := '\U{2022}'

  /** A line written as the mark, a space and an item that neither starts nor ends with a space is a bullet item. */
  lemma BulletLineIsBullet(item: string, last: bool)
    requires item != [] && !IsJsSpace(item[0]) && !IsJsSpace(item[|item| - 1])
    ensures FormatLine([BulletMark, ' '] + item, last) == Bullet(item)
  {
    var line := [BulletMark, ' '] + item;
    TrimOfTrimmed(line);
    assert line[1..] == [' '] + item;
    assert TrimmedAt(line[1..], item, 1);
    TrimUnique(line[1..], item, 1);
  }

  /** A line that starts with anything but a space or the mark is shown as it is. */
  lemma OtherLineIsPlain(line: string, last: bool)
    requires line != [] && !IsJsSpace(line[0]) && line[0] != BulletMark
    ensures FormatLine(line, last) == Plain(line, !last)
  {
    TrimKeepsStart(line);
  }

  /** A formatted line: a bullet item, or the line as is with or without a break after it. */
  datatype Line = Bullet(item: string) | Plain(text: string, lineBreak: bool)

  function FormatLine(line: string, last: bool): (r: Line)
    ensures r.Plain? ==> r.text == line && r.lineBreak == !last
    ensures r.Bullet? ==> BulletMark in line && |r.item| < |line|
  {
    var t := Trim(line);
    if t != [] && t[0] == BulletMark then
      BulletMarkInLine(line);
      Bullet(Trim(t[1..]))
    else Plain(line, !last)
  }

  /** A line whose trim starts with the mark holds the mark, and its item is shorter than the line. */
  lemma BulletMarkInLine(line: string)
    requires Trim(line) != [] && Trim(line)[0] == BulletMark
    ensures BulletMark in line && |Trim(Trim(line)[1..])| < |line|
  {
    var t := Trim(line);
    var i := TrimOffset(line);
    assert line[i] == t[0];
    var k := TrimOffset(t[1..]);
  }

  /** Each line formatted; only the last one is marked as last. */
  function FormatLines(lines: seq<string>): (r: seq<Line>)
    ensures |r| == |lines|
  {
    seq(|lines|, k requires 0 <= k < |lines| => FormatLine(lines[k], k == |lines| - 1))
  }

  /** A text part, split on newlines and formatted line by line. */
  function FormatText(part: string): seq<Line> {
    FormatLines(Split(part, '\n'))
  }

  /** What a formatted line shows: a plain line and its break, or the mark and the item. */
  function LineShown(line: Line): string {
    match line
    case Plain(t, b) => if b then t + "\n" else t
    case Bullet(item) => [BulletMark] + item
  }

  function Shown(lines: seq<Line>): string {
    if lines == [] then [] else LineShown(lines[0]) + Shown(lines[1..])
  }

  ghost predicate NoBullets(lines: seq<Line>) {
    forall k :: 0 <= k < |lines| ==> lines[k].Plain?
  }

  lemma FormatLinesTail(lines: seq<string>)
    requires |lines| >= 2
    ensures FormatLines(lines) == [FormatLine(lines[0], false)] + FormatLines(lines[1..])
  {
    var r := FormatLines(lines);
    var h := [FormatLine(lines[0], false)];
    var t := FormatLines(lines[1..]);
    forall k | 0 <= k < |r| ensures r[k] == (h + t)[k] {
      if k > 0 {
        assert (h + t)[k] == t[k - 1];
        assert lines[1..][k - 1] == lines[k];
      }
    }
    assert r == h + t;
  }

  lemma {:induction false} ShownLines(lines: seq<string>)
    requires |lines| >= 1 && NoBullets(FormatLines(lines))
    ensures Shown(FormatLines(lines)) == Join(lines, '\n')
    decreases |lines|
  {
    var r := FormatLines(lines);
    if |lines| == 1 {
      assert r == [Plain(lines[0], false)];
      assert r[1..] == [];
    } else {
      FormatLinesTail(lines);
      assert r[1..] == FormatLines(lines[1..]);
      assert r[0] == Plain(lines[0], true);
      assert NoBullets(FormatLines(lines[1..])) by {
        forall k | 0 <= k < |lines| - 1 ensures FormatLines(lines[1..])[k].Plain? {
          assert FormatLines(lines[1..])[k] == r[k + 1];
        }
      }
      ShownLines(lines[1..]);
    }
  }

  /**
   * A text part without bullet lines is shown as it was written: its lines in order,
   * a break between two consecutive lines and none after the last.
   */
  lemma PlainTextShown(part: string)
    requires NoBullets(FormatText(part))
    ensures Shown(FormatText(part)) == part
  {
    ShownLines(Split(part, '\n'));
  }

  /**
   * A line shown as a bullet item is: spaces, the bullet mark, spaces, the item, spaces,
   * and the item itself neither starts nor ends with a space.
   */
  lemma BulletDecomposition(line: string, last: bool) returns (i: nat, j: nat)
    requires FormatLine(line, last).Bullet?
    ensures var item := FormatLine(line, last).item;
      i < j && j + |item| <= |line| &&
      AllSpace(line[..i]) && line[i] == BulletMark && AllSpace(line[i + 1..j]) &&
      line[j..j + |item|] == item && AllSpace(line[j + |item|..]) &&
      (item != [] ==> !IsJsSpace(item[0]) && !IsJsSpace(item[|item| - 1]))
  {
    var t, item, i0, k := BulletTrims(line, last);
    i, j := BulletShape(line, t, item, i0, k);
  }

  /** The two trims of a bullet line, each with its offset. */
  lemma BulletTrims(line: string, last: bool) returns (t: string, item: string, i0: nat, k: nat)
    requires FormatLine(line, last).Bullet?
    ensures item == FormatLine(line, last).item
    ensures t != [] && t[0] == BulletMark && TrimmedAt(line, t, i0) && TrimmedAt(t[1..], item, k)
    ensures item != [] ==> !IsJsSpace(item[0]) && !IsJsSpace(item[|item| - 1])
  {
    t := Trim(line);
    item := Trim(t[1..]);
    i0 := TrimOffset(line);
    k := TrimOffset(t[1..]);
  }

  lemma BulletShape(line: string, t: string, item: string, i0: nat, k: nat) returns (i: nat, j: nat)
    requires t != [] && t[0] == BulletMark && TrimmedAt(line, t, i0) && TrimmedAt(t[1..], item, k)
    ensures i < j && j + |item| <= |line| &&
      AllSpace(line[..i]) && line[i] == BulletMark && AllSpace(line[i + 1..j]) &&
      line[j..j + |item|] == item && AllSpace(line[j + |item|..])
  {
    TrimWithinTrim(line, t, i0, item, k);
    i, j := i0, i0 + 1 + k;
  }

  /** Slicing facts for a trimmed string trimmed again after its first character. */
  lemma TrimWithinTrim(line: string, t: string, i: nat, item: string, k: nat)
    requires t != [] && TrimmedAt(line, t, i) && TrimmedAt(t[1..], item, k)
    ensures i + 1 + k + |item| <= |line| && line[i] == t[0]
    ensures AllSpace(line[i + 1..i + 1 + k]) && line[i + 1 + k..i + 1 + k + |item|] == item
    ensures AllSpace(line[i + 1 + k + |item|..])
  {
    var u := t[1..];
    var j := i + 1 + k;
    assert line[i..i + |t|] == t;
    assert line[i] == t[0];
    assert u[..k] == line[i + 1..j];
    assert u[k..k + |item|] == item;
    forall x | 0 <= x < |item| ensures line[j + x] == item[x] {
      assert item[x] == u[k + x];
      assert u[k + x] == t[1 + k + x];
    }
    assert line[j + |item|..] == u[k + |item|..] + line[i + |t|..];
    AllSpaceConcat(u[k + |item|..], line[i + |t|..]);
  }

  // ---------------------------------------------------------------- rendering

  /** The content of a bubble: a string, or an element that is passed through. */
  datatype Content = Str(s: string) | Element(node: nat)

  /** A rendered part: a text part as formatted lines, or a code block. */
  datatype Piece = Lines(lines: seq<Line>) | Block(props: CodeBlockProps)

  datatype Rendered = Unchanged(node: nat) | Pieces(pieces: seq<Piece>)

  function RenderPart(part: Part): Piece {
    match part
    case Text(t) => Lines(FormatText(t))
    case Code(inner) => Block(BlockProps(inner))
  }

  /** `renderContent`: split the string, then render each part in order. */
  method RenderContent(content: Content) returns (r: Rendered)
    ensures content.Element? ==> r == Unchanged(content.node)
    ensures content.Str? ==> r.Pieces? && |r.pieces| == |Segments(content.s)|
    ensures content.Str? ==> forall k :: 0 <= k < |r.pieces| ==> r.pieces[k] == RenderPart(Segments(content.s)[k])
  {
    if content.Element? {
      return Unchanged(content.node);
    }
    var parts := SplitContent(content.s);
    r := Pieces(seq(|parts|, k requires 0 <= k < |parts| => RenderPart(parts[k])));
  }
}
