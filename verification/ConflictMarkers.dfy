/** Choosing a side of a conflict block by reading the marker lines, as a user or a tool would. */
module ConflictMarkers {
  type Lines = seq<string>

  /** The first position of `line` at or after `from`; the length of the text when there is none. */
  function IndexOf(lines: Lines, line: string, from: nat): (i: nat)
    requires from <= |lines|
    ensures from <= i <= |lines|
    decreases |lines| - from
  {
    if from == |lines| || lines[from] == line then from else IndexOf(lines, line, from + 1)
  }

  /** Cuts the first block open at its markers and keeps one side of it. */
  function KeepSide(lines: Lines, opening: string, middle: string, closing: string, first: bool): Lines {
    var i := IndexOf(lines, opening, 0);
    var j := IndexOf(lines, middle, i);
    var k := IndexOf(lines, closing, j);
    if k == |lines| || i == j || j == k then lines
    else lines[..i] + (if first then lines[i + 1..j] else lines[j + 1..k]) + lines[k + 1..]
  }

  function Render(pre: Lines, opening: string, side1: Lines, middle: string, side2: Lines,
                  closing: string, post: Lines): Lines
  {
    pre + [opening] + side1 + [middle] + side2 + [closing] + post
  }

  lemma {:induction false} IndexOfIs(lines: Lines, line: string, from: nat, i: nat)
    requires from <= i < |lines| && lines[i] == line && line !in lines[from..i]
    ensures IndexOf(lines, line, from) == i
    decreases i - from
  {
    if from < i {
      assert lines[from] == lines[from..i][0] && lines[from + 1..i] == lines[from..i][1..];
      IndexOfIs(lines, line, from + 1, i);
    }
  }

  /** A text is cut open at the first marker of each kind after the one before. */
  lemma KeepSideAt(lines: Lines, opening: string, middle: string, closing: string, i: nat, j: nat, k: nat)
    requires i < j < k < |lines| && lines[i] == opening && lines[j] == middle && lines[k] == closing
    requires opening !in lines[..i] && middle !in lines[i..j] && closing !in lines[j..k]
    ensures KeepSide(lines, opening, middle, closing, true) == lines[..i] + lines[i + 1..j] + lines[k + 1..]
    ensures KeepSide(lines, opening, middle, closing, false) == lines[..i] + lines[j + 1..k] + lines[k + 1..]
  {
    hide IndexOf;
    assert lines[0..i] == lines[..i];
    IndexOfIs(lines, opening, 0, i);
    IndexOfIs(lines, middle, i, j);
    IndexOfIs(lines, closing, j, k);
  }

  /** Reading the markers back finds the two sides, if no earlier line looks like a marker. */
  lemma KeepSideOfRender(pre: Lines, opening: string, side1: Lines, middle: string, side2: Lines,
                         closing: string, post: Lines)
    requires opening !in pre && middle !in side1 && closing !in side2
    requires opening != middle && middle != closing
    ensures var lines := Render(pre, opening, side1, middle, side2, closing, post);
            && KeepSide(lines, opening, middle, closing, true) == pre + side1 + post
            && KeepSide(lines, opening, middle, closing, false) == pre + side2 + post
  {
    RenderCut(pre, opening, side1, middle, side2, closing, post);
    KeepSideOfBlock(Render(pre, opening, side1, middle, side2, closing, post),
                    pre, opening, side1, middle, side2, closing, post);
  }

  ghost predicate CutInto(lines: Lines, pre: Lines, opening: string, side1: Lines, middle: string, side2: Lines,
                          closing: string, post: Lines)
  {
    var i, j := |pre|, |pre| + 1 + |side1|;
    var k := j + 1 + |side2|;
    && k < |lines| && lines[i] == opening && lines[j] == middle && lines[k] == closing
    && lines[..i] == pre && lines[i + 1..j] == side1 && lines[j + 1..k] == side2 && lines[k + 1..] == post
    && lines[i..j] == [opening] + side1 && lines[j..k] == [middle] + side2
  }

  lemma KeepSideOfBlock(lines: Lines, pre: Lines, opening: string, side1: Lines, middle: string, side2: Lines,
                        closing: string, post: Lines)
    requires CutInto(lines, pre, opening, side1, middle, side2, closing, post)
    requires opening !in pre && middle !in side1 && closing !in side2
    requires opening != middle && middle != closing
    ensures KeepSide(lines, opening, middle, closing, true) == pre + side1 + post
    ensures KeepSide(lines, opening, middle, closing, false) == pre + side2 + post
  {
    hide KeepSide;
    var i, j := |pre|, |pre| + 1 + |side1|;
    MarkerFirst(opening, side1, middle);
    MarkerFirst(middle, side2, closing);
    KeepSideAt(lines, opening, middle, closing, i, j, j + 1 + |side2|);
  }

  lemma MarkerFirst(marker: string, side: Lines, next: string)
    ensures next !in [marker] + side <==> next != marker && next !in side
  {
  }

  lemma RenderCut(pre: Lines, opening: string, side1: Lines, middle: string, side2: Lines,
                  closing: string, post: Lines)
    ensures CutInto(Render(pre, opening, side1, middle, side2, closing, post),
                    pre, opening, side1, middle, side2, closing, post)
  {
  }
}
