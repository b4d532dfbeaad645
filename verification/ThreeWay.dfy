/** The three-way text merge with a base version. */
module ThreeWay {
  import opened Text
  import opened LineMerge
  import opened ConflictMarkers

  const HEAD := "<<<<<<< HEAD"
  const SEPARATOR := "======="
  const REMOTE := ">>>>>>> remote"

  function Min(x: nat, y: nat): nat {
    if x < y then x else y
  }

  /** Lines common to all three texts at the front, and at the back. */
  function Prefix3(base: Lines, a: Lines, b: Lines): (n: nat)
    ensures n <= |base| && n <= |a| && n <= |b|
  {
    Min(PrefixLen(base, a), PrefixLen(base, b))
  }

  function Suffix3(base: Lines, a: Lines, b: Lines): (n: nat)
    ensures n <= |base| && n <= |a| && n <= |b|
  {
    Min(SuffixLen(base, a), SuffixLen(base, b))
  }

  method FindCommonPrefixCount(base: Lines, lines1: Lines, lines2: Lines) returns (count: nat)
    ensures count == Prefix3(base, lines1, lines2)
  {
    var minLen := Min(|base|, Min(|lines1|, |lines2|));
    count := 0;
    for i := 0 to minLen
      invariant count == i
      invariant PrefixLen(base, lines1) == PrefixFrom(base, lines1, i)
      invariant PrefixLen(base, lines2) == PrefixFrom(base, lines2, i)
    {
      if base[i] == lines1[i] && base[i] == lines2[i] {
        count := count + 1;
      } else {
        break;
      }
    }
    PrefixFromGrows(base, lines1, count);
    PrefixFromGrows(base, lines2, count);
  }

  method FindCommonSuffixCount(base: Lines, lines1: Lines, lines2: Lines) returns (count: nat)
    ensures count == Suffix3(base, lines1, lines2)
  {
    var minLen := Min(|base|, Min(|lines1|, |lines2|));
    count := 0;
    for i := 1 to minLen + 1
      invariant count == i - 1
      invariant SuffixLen(base, lines1) == SuffixFrom(base, lines1, i - 1)
      invariant SuffixLen(base, lines2) == SuffixFrom(base, lines2, i - 1)
    {
      if base[|base| - i] == lines1[|lines1| - i] && base[|base| - i] == lines2[|lines2| - i] {
        count := count + 1;
      } else {
        break;
      }
    }
    SuffixFromGrows(base, lines1, count);
    SuffixFromGrows(base, lines2, count);
  }

  method ArraysEqual(a: Lines, b: Lines) returns (equal: bool)
    ensures equal <==> a == b
  {
    if |a| != |b| {
      return false;
    }
    for i := 0 to |a|
      invariant a[..i] == b[..i]
    {
      if a[i] != b[i] {
        return false;
      }
    }
    return true;
  }

  /** The pieces of a block: common start, the two changed middles, common end. */
  datatype Hunk = Hunk(pre: Lines, head: Lines, remote: Lines, post: Lines) {
    function Text(): string {
      Join(Render(pre, HEAD, head, SEPARATOR, remote, REMOTE, post), NEWLINE)
    }
  }

  function HunkOf(base: Lines, a: Lines, b: Lines): Hunk {
    var p, s := Prefix3(base, a, b), Suffix3(base, a, b);
    Hunk(base[..p], Middle(a, p, s), Middle(b, p, s), base[|base| - s..])
  }

  predicate PairwiseDifferent<T(==)>(x: T, y: T, z: T) {
    x != y && x != z && y != z
  }

  /** A block is emitted when neither early exit applies and the three middles differ. */
  predicate EmitsBlock(base: string, branch1: string, branch2: string) {
    var ls, a, b := Split(base, NEWLINE), Split(branch1, NEWLINE), Split(branch2, NEWLINE);
    var p, s := Prefix3(ls, a, b), Suffix3(ls, a, b);
    && PairwiseDifferent(base, branch1, branch2)
    && PairwiseDifferent(Middle(ls, p, s), Middle(a, p, s), Middle(b, p, s))
  }

  /** When no block is emitted the result is one of the branches: the one that changed. */
  function MergedWithBase(base: string, branch1: string, branch2: string): string {
    var ls, a, b := Split(base, NEWLINE), Split(branch1, NEWLINE), Split(branch2, NEWLINE);
    var p, s := Prefix3(ls, a, b), Suffix3(ls, a, b);
    if EmitsBlock(base, branch1, branch2) then HunkOf(ls, a, b).Text()
    else if branch1 == base then branch2
    else if branch2 == base || branch1 == branch2 then branch1
    else if Middle(ls, p, s) != Middle(a, p, s) then branch1
    else branch2
  }

  method BuildBlock(base: Lines, prefix: nat, suffix: nat, middle1: Lines, middle2: Lines)
    returns (result: Lines)
    requires prefix <= |base| && suffix <= |base|
    ensures result == Render(base[..prefix], HEAD, middle1, SEPARATOR, middle2, REMOTE, base[|base| - suffix..])
  {
    result := [];
    result := result + base[..prefix];
    result := result + [HEAD];
    result := result + middle1;
    result := result + [SEPARATOR];
    result := result + middle2;
    result := result + [REMOTE];
    if suffix > 0 {
      result := result + base[|base| - suffix..];
    }
  }

  method ThreeWayMergeWithBase(base: string, branch1: string, branch2: string) returns (r: string)
    ensures r == MergedWithBase(base, branch1, branch2)
    ensures branch1 == base || branch1 == branch2 ==> r == branch2
    ensures branch2 == base ==> r == branch1
  {
    var baseLines, lines1, lines2 := Split(base, NEWLINE), Split(branch1, NEWLINE), Split(branch2, NEWLINE);
    if branch1 == base {
      return branch2;
    }
    if branch2 == base {
      return branch1;
    }
    if branch1 == branch2 {
      return branch1;
    }
    var commonPrefix := FindCommonPrefixCount(baseLines, lines1, lines2);
    var commonSuffix := FindCommonSuffixCount(baseLines, lines1, lines2);
    var baseMiddle := Middle(baseLines, commonPrefix, commonSuffix);
    var middle1 := Middle(lines1, commonPrefix, commonSuffix);
    var middle2 := Middle(lines2, commonPrefix, commonSuffix);
    var base1 := ArraysEqual(baseMiddle, middle1);
    var base2 := ArraysEqual(baseMiddle, middle2);
    var both := ArraysEqual(middle1, middle2);
    if !base1 && !base2 && !both {
      var result := BuildBlock(baseLines, commonPrefix, commonSuffix, middle1, middle2);
      return Join(result, NEWLINE);
    }
    if !base1 {
      return branch1;
    }
    return branch2;
  }

  // ---- the three texts share their ends ----

  lemma {:induction false} CommonEnds3(base: Lines, a: Lines, b: Lines)
    ensures var p, s := Prefix3(base, a, b), Suffix3(base, a, b);
            base[..p] == a[..p] == b[..p] && base[|base| - s..] == a[|a| - s..] == b[|b| - s..]
  {
    var p, s := Prefix3(base, a, b), Suffix3(base, a, b);
    PrefixLenIsLongest(base, a, p);
    PrefixLenIsLongest(base, b, p);
    SuffixLenIsLongest(base, a, s);
    SuffixLenIsLongest(base, b, s);
  }

  /** They are as long as possible: any common start or end of all three is within. */
  lemma CommonEndsAreLongest(base: Lines, a: Lines, b: Lines, k: nat)
    requires k <= |base| && k <= |a| && k <= |b|
    ensures base[..k] == a[..k] == b[..k] <==> k <= Prefix3(base, a, b)
    ensures base[|base| - k..] == a[|a| - k..] == b[|b| - k..] <==> k <= Suffix3(base, a, b)
  {
    PrefixLenIsLongest(base, a, k);
    PrefixLenIsLongest(base, b, k);
    SuffixLenIsLongest(base, a, k);
    SuffixLenIsLongest(base, b, k);
  }

  /** Two texts with the same ends have the same middle only if they are equal or both ends
      cover both of them. */
  lemma EqualMiddles(x: Lines, y: Lines, p: nat, s: nat)
    requires p <= |x| && p <= |y| && s <= |x| && s <= |y| && x != y
    requires x[..p] == y[..p] && x[|x| - s..] == y[|y| - s..]
    ensures Middle(x, p, s) == Middle(y, p, s) <==> |x| <= p + s && |y| <= p + s
  {
    if p + s <= |x| {
      assert x == x[..p] + Middle(x, p, s) + x[|x| - s..];
    }
    if p + s <= |y| {
      assert y == y[..p] + Middle(y, p, s) + y[|y| - s..];
    }
  }

  /** A block is emitted exactly when the texts are pairwise different and the common lines,
      counted at both ends, cover at most one of the three. */
  lemma BlockEmittedExactly(base: string, branch1: string, branch2: string)
    ensures var ls, a, b := Split(base, NEWLINE), Split(branch1, NEWLINE), Split(branch2, NEWLINE);
            var covered := Prefix3(ls, a, b) + Suffix3(ls, a, b);
            EmitsBlock(base, branch1, branch2) <==>
              && PairwiseDifferent(base, branch1, branch2)
              && !(|ls| <= covered && |a| <= covered)
              && !(|ls| <= covered && |b| <= covered)
              && !(|a| <= covered && |b| <= covered)
  {
    var ls, a, b := Split(base, NEWLINE), Split(branch1, NEWLINE), Split(branch2, NEWLINE);
    var p, s := Prefix3(ls, a, b), Suffix3(ls, a, b);
    SplitIsInjective(base, branch1, NEWLINE);
    SplitIsInjective(base, branch2, NEWLINE);
    SplitIsInjective(branch1, branch2, NEWLINE);
    CommonEnds3(ls, a, b);
    if PairwiseDifferent(base, branch1, branch2) {
      EqualMiddles(ls, a, p, s);
      EqualMiddles(ls, b, p, s);
      EqualMiddles(a, b, p, s);
    }
  }

  /** Three different texts without a block: one branch is the result and the other is dropped. It is
      the second one that wins exactly when the common lines cover both the base and the first. */
  lemma OneBranchIsDropped(base: string, branch1: string, branch2: string)
    requires PairwiseDifferent(base, branch1, branch2) && !EmitsBlock(base, branch1, branch2)
    ensures var ls, a, b := Split(base, NEWLINE), Split(branch1, NEWLINE), Split(branch2, NEWLINE);
            var covered := Prefix3(ls, a, b) + Suffix3(ls, a, b);
            MergedWithBase(base, branch1, branch2) == if |ls| <= covered && |a| <= covered then branch2 else branch1
  {
    var ls, a, b := Split(base, NEWLINE), Split(branch1, NEWLINE), Split(branch2, NEWLINE);
    SplitIsInjective(base, branch1, NEWLINE);
    CommonEnds3(ls, a, b);
    EqualMiddles(ls, a, Prefix3(ls, a, b), Suffix3(ls, a, b));
  }

  /** A file of one line `x` that one peer doubles and the other one triples: no block is emitted, and
      whichever branch has two lines is dropped. */
  lemma DoubledLineIsDropped(x: string)
    requires NEWLINE !in x
    ensures var one, two, three := x, Join([x, x], NEWLINE), Join([x, x, x], NEWLINE);
            && PairwiseDifferent(one, two, three) && !EmitsBlock(one, two, three) && !EmitsBlock(one, three, two)
            && MergedWithBase(one, two, three) == three == MergedWithBase(one, three, two)
  {
    var one, two, three := x, Join([x, x], NEWLINE), Join([x, x, x], NEWLINE);
    SplitOfLine(x, NEWLINE);
    SplitOfJoin([x, x], NEWLINE);
    SplitOfJoin([x, x, x], NEWLINE);
    EndsAre([x], [x, x], 1, 1);
    EndsAre([x], [x, x, x], 1, 1);
    BlockEmittedExactly(one, two, three);
    BlockEmittedExactly(one, three, two);
    OneBranchIsDropped(one, two, three);
    OneBranchIsDropped(one, three, two);
  }

  /** An edit made on one side alone, or alike on both sides, is the result. */
  lemma OnlyEditIsTheResult(text: string, edited: string)
    ensures MergedWithBase(text, text, edited) == edited
    ensures MergedWithBase(text, edited, text) == edited
    ensures MergedWithBase(text, edited, edited) == edited
  {
  }

  /** The result is the base again exactly if neither branch changed it, or if it is the text of the very
      block that is emitted. Without a block it is one of the branches. */
  lemma ResultIsBaseExactly(base: string, branch1: string, branch2: string)
    ensures var h := HunkOf(Split(base, NEWLINE), Split(branch1, NEWLINE), Split(branch2, NEWLINE));
            MergedWithBase(base, branch1, branch2) == base <==>
              (branch1 == base && branch2 == base) || (EmitsBlock(base, branch1, branch2) && h.Text() == base)
    ensures !EmitsBlock(base, branch1, branch2) ==> MergedWithBase(base, branch1, branch2) in [branch1, branch2]
  {
  }

  /** Which happens: a conflict block that the peers resolve differently, each to its own side, comes back
      as it was. */
  lemma BlockResolvedBothWaysComesBack(line1: string, line2: string)
    requires NEWLINE !in line1 && NEWLINE !in line2 && line1 != line2
    requires forall m :: m in [HEAD, REMOTE] ==> line1 != m && line2 != m
    ensures var base := Join([HEAD, line1, SEPARATOR, line2, REMOTE], NEWLINE);
            EmitsBlock(base, line1, line2) && MergedWithBase(base, line1, line2) == base
  {
    var lines := [HEAD, line1, SEPARATOR, line2, REMOTE];
    var base := Join(lines, NEWLINE);
    MarkersApart();
    SplitOfJoin(lines, NEWLINE);
    SplitOfLine(line1, NEWLINE);
    SplitOfLine(line2, NEWLINE);
    assert HEAD in [HEAD, REMOTE] && REMOTE in [HEAD, REMOTE];
    EndsAre(lines, [line1], 0, 0);
    EndsAre(lines, [line2], 0, 0);
    BlockEmittedExactly(base, line1, line2);
    assert Render([], HEAD, [line1], SEPARATOR, [line2], REMOTE, []) == lines;
    assert HunkOf(lines, [line1], [line2]) == Hunk([], [line1], [line2], []);
  }

  // ---- keeping one side ----

  /** Between the common ends of the base, a branch's middle rebuilds that branch exactly when
      the ends fit side by side into it. */
  lemma EndsRebuild(base: Lines, x: Lines, p: nat, s: nat)
    requires p <= |x| && s <= |x| && p <= |base| && s <= |base|
    requires base[..p] == x[..p] && base[|base| - s..] == x[|x| - s..]
    ensures base[..p] + Middle(x, p, s) + base[|base| - s..] == x <==> p + s <= |x|
  {
    assert p + s <= |x| ==> x == x[..p] + Middle(x, p, s) + x[|x| - s..];
  }

  /** The pieces of a hunk rebuild each text exactly when the common lines fit into it. */
  lemma HunkRebuilds(base: Lines, a: Lines, b: Lines)
    ensures var h := HunkOf(base, a, b);
            && (h.pre + h.head + h.post == a <==> |h.pre| + |h.post| <= |a|)
            && (h.pre + h.remote + h.post == b <==> |h.pre| + |h.post| <= |b|)
            && |h.pre + h.head + h.post| >= |a| && |h.pre + h.remote + h.post| >= |b|
  {
    CommonEnds3(base, a, b);
    EndsRebuild(base, a, Prefix3(base, a, b), Suffix3(base, a, b));
    EndsRebuild(base, b, Prefix3(base, a, b), Suffix3(base, a, b));
  }

  ghost predicate NoNewline(lines: Lines) {
    forall l :: l in lines ==> NEWLINE !in l
  }

  lemma HunkHasNoNewline(base: Lines, a: Lines, b: Lines)
    requires NoNewline(base) && NoNewline(a) && NoNewline(b)
    ensures var h := HunkOf(base, a, b);
            && NoNewline(h.pre + h.head + h.post) && NoNewline(h.pre + h.remote + h.post)
            && NoNewline(Render(h.pre, HEAD, h.head, SEPARATOR, h.remote, REMOTE, h.post))
  {
    MarkersApart();
  }

  lemma LinesOf(text: string) returns (lines: Lines)
    ensures lines == Split(text, NEWLINE) && lines != [] && NoNewline(lines)
  {
    lines := Split(text, NEWLINE);
    SplitHasNoSeparator(text, NEWLINE);
  }

  lemma JoinGives(lines: Lines, text: string)
    requires lines != [] && NoNewline(lines)
    ensures Join(lines, NEWLINE) == text <==> lines == Split(text, NEWLINE)
  {
    SplitOfJoin(lines, NEWLINE);
    JoinOfSplit(text, NEWLINE);
  }

  /** Keeping the HEAD side of an emitted block gives the text of branch 1 exactly when the common
      lines fit into it, and likewise the remote side and branch 2. */
  lemma KeepSideGivesBranch(base: string, branch1: string, branch2: string, h: Hunk)
    requires h == HunkOf(Split(base, NEWLINE), Split(branch1, NEWLINE), Split(branch2, NEWLINE))
    ensures Join(h.pre + h.head + h.post, NEWLINE) == branch1 <==>
            |h.pre| + |h.post| <= |Split(branch1, NEWLINE)|
    ensures Join(h.pre + h.remote + h.post, NEWLINE) == branch2 <==>
            |h.pre| + |h.post| <= |Split(branch2, NEWLINE)|
  {
    var ls := LinesOf(base);
    var a := LinesOf(branch1);
    var b := LinesOf(branch2);
    HunkRebuilds(ls, a, b);
    HunkHasNoNewline(ls, a, b);
    JoinGives(h.pre + h.head + h.post, branch1);
    JoinGives(h.pre + h.remote + h.post, branch2);
  }

  lemma ShortBranchHunk(x: string, y: string, z: string)
    requires x != y && y != z && x != z
    ensures HunkOf([x, y, x], [x], [x, z, x]) == Hunk([x], [], [z], [x])
    ensures Prefix3([x, y, x], [x], [x, z, x]) == 1 == Suffix3([x, y, x], [x], [x, z, x])
  {
    EndsAre([x, y, x], [x], 1, 1);
    EndsAre([x, y, x], [x, z, x], 1, 1);
  }

  /** One peer keeps only the first of the lines `x`, `y`, `x`, the other one changes the middle: the
      block is emitted, its HEAD side reads `x`, `x`, and branch 1 is not in it. */
  lemma BlockLosesShortBranch(x: string, y: string, z: string)
    requires NEWLINE !in x && NEWLINE !in y && NEWLINE !in z && x != y && y != z && x != z
    ensures var base, branch2, h := Join([x, y, x], NEWLINE), Join([x, z, x], NEWLINE), Hunk([x], [], [z], [x]);
            && EmitsBlock(base, x, branch2) && MergedWithBase(base, x, branch2) == h.Text()
            && Join(h.pre + h.head + h.post, NEWLINE) != x
            && Join(h.pre + h.remote + h.post, NEWLINE) == branch2
  {
    var base, branch2 := Join([x, y, x], NEWLINE), Join([x, z, x], NEWLINE);
    SplitOfJoin([x, y, x], NEWLINE);
    SplitOfLine(x, NEWLINE);
    SplitOfJoin([x, z, x], NEWLINE);
    ShortBranchHunk(x, y, z);
    BlockEmittedExactly(base, x, branch2);
    KeepSideGivesBranch(base, x, branch2, Hunk([x], [], [z], [x]));
  }

  /** Splitting the text of a block gives its lines back. */
  lemma BlockText(base: string, branch1: string, branch2: string, h: Hunk)
    requires h == HunkOf(Split(base, NEWLINE), Split(branch1, NEWLINE), Split(branch2, NEWLINE))
    ensures Split(h.Text(), NEWLINE) == Render(h.pre, HEAD, h.head, SEPARATOR, h.remote, REMOTE, h.post)
  {
    var ls := LinesOf(base);
    var a := LinesOf(branch1);
    var b := LinesOf(branch2);
    HunkHasNoNewline(ls, a, b);
    JoinGives(Render(h.pre, HEAD, h.head, SEPARATOR, h.remote, REMOTE, h.post), h.Text());
  }

  lemma HunkSides(base: Lines, a: Lines, b: Lines)
    requires HEAD !in a && SEPARATOR !in a && REMOTE !in b
    ensures var h := HunkOf(base, a, b);
            var lines := Render(h.pre, HEAD, h.head, SEPARATOR, h.remote, REMOTE, h.post);
            && KeepSide(lines, HEAD, SEPARATOR, REMOTE, true) == h.pre + h.head + h.post
            && KeepSide(lines, HEAD, SEPARATOR, REMOTE, false) == h.pre + h.remote + h.post
  {
    var h := HunkOf(base, a, b);
    CommonEnds3(base, a, b);
    MarkersApart();
    assert HEAD !in h.pre && SEPARATOR !in h.head && REMOTE !in h.remote;
    KeepSideOfRender(h.pre, HEAD, h.head, SEPARATOR, h.remote, REMOTE, h.post);
  }

  /** From the merged text alone: splitting it, keeping one side at the markers and joining again
      gives that branch exactly when the common lines fit, provided no branch contains a marker
      line that could be mistaken for one of the block. */
  lemma MergedTextHoldsBothBranches(base: string, branch1: string, branch2: string, h: Hunk)
    requires EmitsBlock(base, branch1, branch2)
    requires HEAD !in Split(branch1, NEWLINE) && SEPARATOR !in Split(branch1, NEWLINE)
    requires REMOTE !in Split(branch2, NEWLINE)
    requires h == HunkOf(Split(base, NEWLINE), Split(branch1, NEWLINE), Split(branch2, NEWLINE))
    ensures var merged := Split(MergedWithBase(base, branch1, branch2), NEWLINE);
            && (Join(KeepSide(merged, HEAD, SEPARATOR, REMOTE, true), NEWLINE) == branch1 <==>
                |h.pre| + |h.post| <= |Split(branch1, NEWLINE)|)
            && (Join(KeepSide(merged, HEAD, SEPARATOR, REMOTE, false), NEWLINE) == branch2 <==>
                |h.pre| + |h.post| <= |Split(branch2, NEWLINE)|)
  {
    assert MergedWithBase(base, branch1, branch2) == h.Text();
    KeepSideGivesBranch(base, branch1, branch2, h);
    BlockText(base, branch1, branch2, h);
    HunkSides(Split(base, NEWLINE), Split(branch1, NEWLINE), Split(branch2, NEWLINE));
  }

  lemma MarkersApart()
    ensures HEAD != SEPARATOR && SEPARATOR != REMOTE
    ensures NEWLINE !in HEAD && NEWLINE !in SEPARATOR && NEWLINE !in REMOTE
  {
    assert HEAD[0] != SEPARATOR[0] && SEPARATOR[0] != REMOTE[0];
  }
}
