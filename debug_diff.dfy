/** The server/client comparison shown in the debug overlay, and the ordering of
    the two endpoints of a marker connection (RenderTickListener). */
module DebugDiff {

  /** Minecraft's section-sign formatting codes used by the marker. */
  const Red: string := "\U{00A7}c"
  const Bold: string := "\U{00A7}l"
  const Reset: string := "\U{00A7}r"

  /** The marker put in front of a client line that differs from the server line. */
  const DiffStart: string := Red + Bold + "!" + Reset

  /** The marker switches to red and bold, shows "!", then resets the
      formatting, so the line's own text is drawn in the default style. */
  lemma DiffStartFormatting()
    ensures |DiffStart| == 7
    ensures DiffStart[..2] == Red && DiffStart[2..4] == Bold
    ensures DiffStart[4] == '!' && DiffStart[5..] == Reset
    ensures DiffStart[0] == '\U{00A7}' && DiffStart[1] == 'c' && DiffStart[2] == '\U{00A7}' && DiffStart[3] == 'l'
    ensures DiffStart[5] == '\U{00A7}' && DiffStart[6] == 'r'
  {
  }

  /** `diff` with one leading space removed when it starts with one. */
  function DropLeadingSpace(diff: string): (r: string)
    ensures diff == r || diff == " " + r
    ensures |r| >= |diff| - 1
    ensures diff != [] && diff[0] == ' ' <==> |r| < |diff|
  {
    if |diff| > 0 && diff[0] == ' ' then diff[1..] else diff
  }

  /** How the client line `diff` is shown next to the server line `shown`. */
  function MarkLine(shown: string, diff: string): (r: string)
    ensures r == diff <==> shown == diff
    ensures shown != diff ==> |r| >= |DiffStart| && r[..|DiffStart|] == DiffStart
    ensures shown != diff ==> diff == r[|DiffStart|..] || diff == " " + r[|DiffStart|..]
    ensures shown != diff ==> (diff != [] && diff[0] == ' ' <==> diff == " " + r[|DiffStart|..])
  {
    if shown == diff then diff else DiffStart + DropLeadingSpace(diff)
  }

  /** The client lines of a same-length comparison, each one marked against
      the server line at the same index. */
  function MarkedLines(first: seq<string>, second: seq<string>): (r: seq<string>)
    requires |first| == |second|
    ensures |r| == |second|
    ensures forall l {:trigger r[l]} :: 0 <= l < |r| ==> r[l] == MarkLine(first[l], second[l])
  {
    if first == [] then [] else [MarkLine(first[0], second[0])] + MarkedLines(first[1..], second[1..])
  }

  /** The lines appended to the overlay for one side of the screen. */
  function DiffBlock(first: seq<string>, second: seq<string>, headerFirst: string, headerSecond: string): (r: seq<string>)
    ensures first == [] ==> r == []
    ensures first != [] ==> |r| == 4 + |first| + |second|
    ensures first != [] ==> r[..4 + |first|] == ["", headerFirst] + first + ["", headerSecond]
    ensures first != [] && |first| != |second| ==> r[4 + |first|..] == second
    ensures first != [] && |first| == |second| ==> r[4 + |first|..] == MarkedLines(first, second)
  {
    if first == [] then []
    else
      var head := ["", headerFirst] + first + ["", headerSecond];
      var tail := if |first| != |second| then second else MarkedLines(first, second);
      assert (head + tail)[..4 + |first|] == head;
      assert (head + tail)[4 + |first|..] == tail;
      head + tail
  }

  /** A list of overlay text lines that is appended to in place. */
  class LineList {
    var lines: seq<string>

    constructor (lines: seq<string>)
      ensures this.lines == lines
    {
      this.lines := lines;
    }
  }

  /** Appends the server lines `first` and the client lines `second` to `dest`,
      marking each client line that differs from the server line at its index
      when both lists have the same length. */
  method AppendDiff(dest: LineList, first: seq<string>, second: seq<string>, headerFirst: string, headerSecond: string)
    modifies dest
    ensures dest.lines == old(dest.lines) + DiffBlock(first, second, headerFirst, headerSecond)
  {
    if |first| == 0 {
      return;
    }
    ghost var start := dest.lines;
    dest.lines := dest.lines + [""];
    dest.lines := dest.lines + [headerFirst];
    dest.lines := dest.lines + first;
    dest.lines := dest.lines + [""];
    dest.lines := dest.lines + [headerSecond];
    ghost var head := ["", headerFirst] + first + ["", headerSecond];
    HeadAppended(start, first, headerFirst, headerSecond);
    assert dest.lines == start + head;
    ghost var tail := if |first| != |second| then second else MarkedLines(first, second);
    if |first| != |second| {
      dest.lines := dest.lines + second;
    } else {
      AppendMarked(dest, first, second);
    }
    assert dest.lines == start + head + tail;
    DiffBlockSplit(first, second, headerFirst, headerSecond);
    AppendAssoc(start, head, tail);
  }

  lemma AppendAssoc(a: seq<string>, b: seq<string>, c: seq<string>)
    ensures a + b + c == a + (b + c)
  {
  }

  /** A non-empty block is its head followed by the client lines, marked or not. */
  lemma DiffBlockSplit(first: seq<string>, second: seq<string>, headerFirst: string, headerSecond: string)
    requires first != []
    ensures DiffBlock(first, second, headerFirst, headerSecond)
         == ["", headerFirst] + first + ["", headerSecond]
          + (if |first| != |second| then second else MarkedLines(first, second))
  {
  }

  /** The five header appends of appendDiff add the block's head in one go. */
  lemma HeadAppended(start: seq<string>, first: seq<string>, headerFirst: string, headerSecond: string)
    ensures start + [""] + [headerFirst] + first + [""] + [headerSecond]
         == start + (["", headerFirst] + first + ["", headerSecond])
  {
  }

  /** The same-length branch of appendDiff: appends each client line, marked
      against the server line at its index. */
  method AppendMarked(dest: LineList, first: seq<string>, second: seq<string>)
    requires |first| == |second|
    modifies dest
    ensures dest.lines == old(dest.lines) + MarkedLines(first, second)
  {
    ghost var prefix := dest.lines;
    for l := 0 to |first|
      invariant dest.lines == prefix + MarkedLines(first[..l], second[..l])
    {
      var shownLine := first[l];
      var diffLine := second[l];
      var marked;
      if shownLine == diffLine {
        marked := diffLine;
      } else if |diffLine| > 0 && diffLine[0] == ' ' {
        marked := DiffStart + diffLine[1..];
      } else {
        marked := DiffStart + diffLine;
      }
      assert marked == MarkLine(shownLine, diffLine);
      dest.lines := dest.lines + [marked];
      MarkedLinesSnoc(first, second, l);
    }
    assert first[..|first|] == first && second[..|second|] == second;
  }

  /** Marking the first `l + 1` lines appends the mark of line `l` to the marks
      of the first `l`. */
  lemma MarkedLinesSnoc(first: seq<string>, second: seq<string>, l: nat)
    requires |first| == |second| && l < |first|
    ensures MarkedLines(first[..l + 1], second[..l + 1])
         == MarkedLines(first[..l], second[..l]) + [MarkLine(first[l], second[l])]
  {
    var a := MarkedLines(first[..l + 1], second[..l + 1]);
    var b := MarkedLines(first[..l], second[..l]) + [MarkLine(first[l], second[l])];
    assert |a| == |b|;
    forall k | 0 <= k <= l ensures a[k] == b[k] {
    }
  }

  /** Puts the two endpoints of a marker connection in order of their packed
      position `key`; equal keys keep the original order. */
  method OrderEndpoints<P(==)>(tileEnd: P, toEnd: P, key: P -> int) returns (a: P, b: P)
    ensures key(a) <= key(b)
    ensures (a == tileEnd && b == toEnd) || (a == toEnd && b == tileEnd)
    ensures key(tileEnd) <= key(toEnd) ==> a == tileEnd && b == toEnd
  {
    a := tileEnd;
    b := toEnd;
    if key(a) > key(b) {
      var hold := b;
      b := a;
      a := hold;
    }
  }
}
