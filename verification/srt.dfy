/**
 `convert_object_to_srt`: numbers the chunks from 1 in input order,
 renders each as a three-line SRT block and joins the blocks with "\n".

 A chunk is a typed record, so the `KeyError`s that a missing "chunks",
 "timestamp" or "text" entry raises in the Python code cannot arise; the
 `speakers` entry is never read and is not represented.
 */
module Srt {
  import opened Decimal
  import opened Clock
  import opened Whitespace
  import opened Options

  /** One transcript chunk; `start` and `end` are offsets in microseconds. */
  datatype Chunk = Chunk(start: int, end: int, text: string)

  const Arrow: string := " --> "

  /** The block for the chunk numbered `index`:
      `f"{index}\n{start} --> {end}\n{text}\n"`. */
  function Block(index: nat, c: Chunk): (b: string)
    ensures |b| > 0 && b[|b| - 1] == '\n'
  {
    BlockText(NatToString(index), FormatTime(c.start), FormatTime(c.end), Strip(c.text))
  }

  /** The three lines of a block, from its already rendered pieces. */
  function BlockText(number: string, start: string, end: string, caption: string): string {
    number + "\n" + TimingLine(start, end) + "\n" + caption + "\n"
  }

  /** The `start --> end` line. */
  function TimingLine(start: string, end: string): string {
    start + Arrow + end
  }

  /** Numbers the chunks from 1 in input order and renders each with
      its number. */
  function Numbered(cs: seq<Chunk>, render: (nat, Chunk) -> string): (bs: seq<string>)
    ensures |bs| == |cs|
  {
    if |cs| == 0 then [] else Numbered(cs[..|cs| - 1], render) + [render(|cs|, cs[|cs| - 1])]
  }

  /** Entry `i` (0-based) is chunk `i` rendered with number `i + 1`. */
  lemma {:induction false} NumberedAt(cs: seq<Chunk>, render: (nat, Chunk) -> string, i: nat)
    requires i < |cs|
    ensures Numbered(cs, render)[i] == render(i + 1, cs[i])
  {
    var n := |cs|;
    if i < n - 1 {
      var p := cs[..n - 1];
      NumberedAt(p, render, i);
      assert p[i] == cs[i];
    }
  }

  lemma NumberedSnoc(cs: seq<Chunk>, render: (nat, Chunk) -> string, c: Chunk)
    ensures Numbered(cs + [c], render) == Numbered(cs, render) + [render(|cs| + 1, c)]
  {
    assert (cs + [c])[..|cs|] == cs;
  }

  /** Growing the numbered prefix by one chunk appends that chunk's
      rendering, with the next number. */
  lemma NumberedPrefix(cs: seq<Chunk>, render: (nat, Chunk) -> string, k: nat)
    requires k < |cs|
    ensures Numbered(cs[..k + 1], render) == Numbered(cs[..k], render) + [render(k + 1, cs[k])]
  {
    assert cs[..k + 1][..k] == cs[..k];
  }

  /** The SRT blocks of `cs`, in input order. */
  function Blocks(cs: seq<Chunk>): seq<string> {
    Numbered(cs, Block)
  }

  lemma BlocksAt(cs: seq<Chunk>, i: nat)
    requires i < |cs|
    ensures |Blocks(cs)| == |cs|
    ensures Blocks(cs)[i] == Block(i + 1, cs[i])
  {
    NumberedAt(cs, Block, i);
  }

  /** `sep.join(parts)`. */
  function Join(parts: seq<string>, sep: string): string {
    if |parts| == 0 then ""
    else if |parts| == 1 then parts[0]
    else Join(parts[..|parts| - 1], sep) + sep + parts[|parts| - 1]
  }

  /** `t` appears in `s` starting at position `at`. */
  predicate OccursAt(s: string, t: string, at: nat) {
    at + |t| <= |s| && s[at..at + |t|] == t
  }

  /** Where the `i`-th part starts in the joined string. */
  function Offset(parts: seq<string>, sep: string, i: nat): nat
    requires i <= |parts|
  {
    if i == 0 then 0 else Offset(parts, sep, i - 1) + |parts[i - 1]| + |sep|
  }

  lemma {:induction false} OffsetOfPrefix(parts: seq<string>, sep: string, n: nat, i: nat)
    requires i <= n <= |parts|
    ensures Offset(parts[..n], sep, i) == Offset(parts, sep, i)
  {
    if i > 0 {
      OffsetOfPrefix(parts, sep, n, i - 1);
    }
  }

  lemma {:induction false} JoinLength(parts: seq<string>, sep: string)
    requires |parts| >= 1
    ensures |Join(parts, sep)| + |sep| == Offset(parts, sep, |parts|)
  {
    var n := |parts|;
    if n > 1 {
      JoinLength(parts[..n - 1], sep);
      OffsetOfPrefix(parts, sep, n - 1, n - 1);
    }
  }

  lemma {:induction false} JoinPart(parts: seq<string>, sep: string, i: nat)
    requires i < |parts|
    ensures OccursAt(Join(parts, sep), parts[i], Offset(parts, sep, i))
  {
    var n := |parts|;
    if n > 1 {
      var p := parts[..n - 1];
      var j := Join(p, sep);
      var r := Join(parts, sep);
      assert r == j + sep + parts[n - 1];
      JoinLength(p, sep);
      OffsetOfPrefix(parts, sep, n - 1, i);
      if i < n - 1 {
        JoinPart(p, sep, i);
        assert p[i] == parts[i];
        assert r[..|j|] == j;
      } else {
        OffsetOfPrefix(parts, sep, n - 1, n - 1);
      }
    }
  }

  lemma {:induction false} JoinSeparator(parts: seq<string>, sep: string, i: nat)
    requires i + 1 < |parts|
    ensures OccursAt(Join(parts, sep), sep, Offset(parts, sep, i) + |parts[i]|)
  {
    var n := |parts|;
    var p := parts[..n - 1];
    var j := Join(p, sep);
    var r := Join(parts, sep);
    assert r == j + sep + parts[n - 1];
    JoinLength(p, sep);
    OffsetOfPrefix(parts, sep, n - 1, i);
    OffsetOfPrefix(parts, sep, n - 1, i + 1);
    assert p[i] == parts[i];
    if i + 1 < n - 1 {
      JoinSeparator(p, sep, i);
      assert r[..|j|] == j;
    }
  }

  /** `convert_object_to_srt`, as a function of the chunk sequence. */
  function Convert(cs: seq<Chunk>): (r: string)
    ensures r == [] <==> |cs| == 0
  {
    var bs := Blocks(cs);
    if |cs| == 0 then Join(bs, "\n")
    else
      JoinLength(bs, "\n");
      JoinPart(bs, "\n", 0);
      Join(bs, "\n")
  }

  /** The loop of `convert_object_to_srt`: one block per chunk, numbered
      by a running counter from 1, collected in order and then joined by
      a newline. */
  method ConvertObjectToSrt(chunks: seq<Chunk>) returns (srt: string)
    ensures srt == Convert(chunks)
  {
    var content: seq<string> := [];
    var index := 1;
    for k := 0 to |chunks|
      invariant index == k + 1
      invariant content == Blocks(chunks[..k])
    {
      NumberedPrefix(chunks, Block, k);
      content := content + [Block(index, chunks[k])];
      index := index + 1;
    }
    assert chunks[..|chunks|] == chunks;
    srt := Join(content, "\n");
  }

  /** Appending a chunk appends a newline and its block, numbered one past
      the chunks before it. */
  lemma ConvertSnoc(cs: seq<Chunk>, c: Chunk)
    requires |cs| > 0
    ensures Convert(cs + [c]) == Convert(cs) + "\n" + Block(|cs| + 1, c)
  {
    assert (cs + [c])[..|cs|] == cs;
  }

  /** `s` ends with `t`. */
  predicate EndsWith(s: string, t: string) {
    |t| <= |s| && s[|s| - |t|..] == t
  }

  lemma EndsWithTrans(s: string, t: string, u: string)
    requires EndsWith(s, t) && EndsWith(t, u)
    ensures EndsWith(s, u)
  {
    assert s[|s| - |u|..] == t[|t| - |u|..];
  }

  /** A joined sequence ends with its last part. */
  lemma JoinEndsWithLast(parts: seq<string>, sep: string)
    requires |parts| >= 1
    ensures EndsWith(Join(parts, sep), parts[|parts| - 1])
  {
    var n := |parts|;
    if n > 1 {
      var h := Join(parts[..n - 1], sep) + sep;
      assert Join(parts, sep) == h + parts[n - 1];
    }
  }

  /** A block ends with its stripped caption and a "\n". */
  lemma BlockEnding(index: nat, c: Chunk)
    ensures EndsWith(Block(index, c), Strip(c.text) + "\n")
  {
    BlockTextEnding(NatToString(index), FormatTime(c.start), FormatTime(c.end), Strip(c.text));
  }

  lemma BlockTextEnding(number: string, start: string, end: string, caption: string)
    ensures EndsWith(BlockText(number, start, end, caption), caption + "\n")
  {
    var h := number + "\n" + TimingLine(start, end) + "\n";
    assert BlockText(number, start, end, caption) == h + (caption + "\n");
  }

  /** The text ends with the last chunk's stripped caption and a single
      "\n"; when that caption is not empty, the character before the
      final "\n" is not whitespace. */
  lemma ConvertEnding(cs: seq<Chunk>)
    requires |cs| > 0
    ensures EndsWith(Convert(cs), Strip(cs[|cs| - 1].text) + "\n")
    ensures Strip(cs[|cs| - 1].text) != [] ==> !IsSpace(Convert(cs)[|Convert(cs)| - 2])
  {
    var n := |cs|;
    var bs := Blocks(cs);
    var r := Convert(cs);
    var tail := Strip(cs[n - 1].text) + "\n";
    BlocksAt(cs, n - 1);
    JoinEndsWithLast(bs, "\n");
    BlockEnding(n, cs[n - 1]);
    EndsWithTrans(r, bs[n - 1], tail);
    if |tail| > 1 {
      assert r[|r| - 2] == tail[|tail| - 2];
    }
  }

  /** The offset of block `i` (0-based) in the converted text. */
  function BlockOffset(cs: seq<Chunk>, i: nat): nat
    requires i <= |cs|
  {
    Offset(Blocks(cs), "\n", i)
  }

  /** Every part of a joined sequence sits at its offset. */
  lemma JoinParts(parts: seq<string>, sep: string)
    ensures forall i :: 0 <= i < |parts| ==> OccursAt(Join(parts, sep), parts[i], Offset(parts, sep, i))
  {
    forall i | 0 <= i < |parts| {
      JoinPart(parts, sep, i);
    }
  }

  /** A separator follows every part but the last. */
  lemma JoinSeparators(parts: seq<string>, sep: string)
    ensures forall i :: 1 <= i < |parts| ==> OccursAt(Join(parts, sep), sep, Offset(parts, sep, i) - |sep|)
  {
    forall i | 1 <= i < |parts|
      ensures OccursAt(Join(parts, sep), sep, Offset(parts, sep, i) - |sep|)
    {
      JoinSeparator(parts, sep, i - 1);
      assert Offset(parts, sep, i) == Offset(parts, sep, i - 1) + |parts[i - 1]| + |sep|;
    }
  }

  /** The converted text is the blocks numbered 1..n in input order, each
      at its offset, with a single "\n" between neighbours and nothing
      after the last block. */
  lemma ConvertLayout(cs: seq<Chunk>)
    requires |cs| > 0
    ensures |Convert(cs)| + 1 == BlockOffset(cs, |cs|)
    ensures forall i :: 0 <= i < |cs| ==> OccursAt(Convert(cs), Block(i + 1, cs[i]), BlockOffset(cs, i))
    ensures forall i :: 1 <= i < |cs| ==> OccursAt(Convert(cs), "\n", BlockOffset(cs, i) - 1)
  {
    var bs := Blocks(cs);
    JoinLength(bs, "\n");
    JoinParts(bs, "\n");
    JoinSeparators(bs, "\n");
    assert Convert(cs) == Join(bs, "\n");
    forall i | 0 <= i < |cs|
      ensures OccursAt(Convert(cs), Block(i + 1, cs[i]), BlockOffset(cs, i))
    {
      BlocksAt(cs, i);
    }
    forall i | 1 <= i < |cs|
      ensures OccursAt(Convert(cs), "\n", BlockOffset(cs, i) - 1)
    {
      assert OccursAt(Join(bs, "\n"), "\n", Offset(bs, "\n", i) - |"\n"|);
    }
  }

  /** What a block carries: its number, both clocks in milliseconds of the
      day, and the caption. */
  datatype Subtitle = Subtitle(index: nat, startMillis: nat, endMillis: nat, text: string)

  /** Position of the first "\n" in `s`, or `|s|` when there is none. */
  function FirstNewline(s: string): (k: nat)
    ensures k <= |s|
    ensures forall j :: 0 <= j < k ==> s[j] != '\n'
    ensures k < |s| ==> s[k] == '\n'
  {
    if |s| == 0 || s[0] == '\n' then 0 else 1 + FirstNewline(s[1..])
  }

  /** Reads a `start --> end` line of two clocks back into milliseconds.
      An accepted line is exactly its two clocks around the arrow. */
  function ParseTiming(line: string): (r: Option<(nat, nat)>)
    ensures r.Some? ==> |line| == 29 && line[12..17] == Arrow
    ensures r.Some? ==> IsClockShape(line[..12]) && IsClockShape(line[17..])
    ensures r.Some? ==> TimingLine(line[..12], line[17..]) == line
  {
    if |line| != 29 || line[12..17] != Arrow then None
    else
      var start := ParseClock(line[..12]);
      var end := ParseClock(line[17..]);
      if start.None? || end.None? then None else Some((start.value, end.value))
  }

  /** Reads one SRT block back: a canonical decimal index line, a
      timing line, then the caption up to the block's final "\n". */
  function ParseBlock(b: string): Option<Subtitle> {
    var k := FirstNewline(b);
    if k + 32 > |b| || !IsCanonical(b[..k]) || b[k + 30] != '\n' || b[|b| - 1] != '\n' then None
    else
      var timing := ParseTiming(b[k + 1..k + 30]);
      if timing.None? then None
      else Some(Subtitle(DecimalValue(b[..k]), timing.value.0, timing.value.1, b[k + 31..|b| - 1]))
  }

  /** A timing line of two accepted clocks reads back as their values. */
  lemma ParseTimingLine(start: string, end: string)
    requires |start| == 12 && ParseClock(start).Some?
    requires |end| == 12 && ParseClock(end).Some?
    ensures ParseTiming(TimingLine(start, end)) == Some((ParseClock(start).value, ParseClock(end).value))
  {
    var t := TimingLine(start, end);
    assert t[..12] == start && t[12..17] == Arrow && t[17..] == end;
  }

  /** The first line of a block is its digits alone. */
  lemma FirstNewlineAt(b: string, k: nat)
    requires k < |b| && b[k] == '\n' && AllDigits(b[..k])
    ensures FirstNewline(b) == k
  {
    assert forall j :: 0 <= j < k ==> IsDigit(b[j]) by {
      forall j | 0 <= j < k
        ensures IsDigit(b[j])
      {
        assert b[..k][j] == b[j];
      }
    }
  }

  /** Where the pieces of three "\n"-terminated lines sit. */
  lemma ThreeLines(a: string, t: string, c: string)
    ensures var b := a + "\n" + t + "\n" + c + "\n";
      && |b| == |a| + |t| + |c| + 3
      && b[..|a|] == a && b[|a|] == '\n'
      && b[|a| + 1..|a| + 1 + |t|] == t && b[|a| + 1 + |t|] == '\n'
      && b[|a| + 2 + |t|..|b| - 1] == c && b[|b| - 1] == '\n'
  {
    var b := a + "\n" + t + "\n" + c + "\n";
    var p := a + "\n" + t + "\n";
    assert b == p + c + "\n";
    assert b[..|p|] == p;
    assert p[..|a|] == a;
    assert p[|a| + 1..|a| + 1 + |t|] == t;
    assert b[|p|..|b| - 1] == c;
  }

  /** A block laid out from a canonical number and two accepted clocks
      parses back into those pieces. */
  lemma ParseBlockText(number: string, start: string, end: string, caption: string)
    requires IsCanonical(number)
    requires |start| == 12 && ParseClock(start).Some?
    requires |end| == 12 && ParseClock(end).Some?
    ensures ParseBlock(BlockText(number, start, end, caption))
         == Some(Subtitle(DecimalValue(number), ParseClock(start).value, ParseClock(end).value, caption))
  {
    var b := BlockText(number, start, end, caption);
    var t := TimingLine(start, end);
    ThreeLines(number, t, caption);
    FirstNewlineAt(b, |number|);
    ParseTimingLine(start, end);
  }

  /** Parsing a block recovers its number, the time of day of both
      offsets to the millisecond, and the stripped caption. */
  lemma ParseBlockRoundTrip(index: nat, c: Chunk)
    ensures ParseBlock(Block(index, c))
         == Some(Subtitle(index, MillisOfDay(c.start), MillisOfDay(c.end), Strip(c.text)))
  {
    NatToStringCanonical(index);
    DecimalRoundTrip(index);
    FormatTimeShape(c.start);
    FormatTimeShape(c.end);
    ParseFormatRoundTrip(c.start);
    ParseFormatRoundTrip(c.end);
    ParseBlockText(NatToString(index), FormatTime(c.start), FormatTime(c.end), Strip(c.text));
  }
}
