/** The two-way line merge used on concurrent edits of a text file. */
module LineMerge {
  import opened Text
  import opened ConflictMarkers

  const NEWLINE := '\n'
  const HEAD_MARKER := "<<<<<<< branch1"
  const MIDDLE_MARKER := "======="
  const TAIL_MARKER := ">>>>>>> branch2"

  // ---- common prefix and suffix ----

  /** How far two texts agree from the front, counting on from `n` lines. */
  function PrefixFrom(a: Lines, b: Lines, n: nat): (r: nat)
    requires n <= |a| && n <= |b|
    ensures r <= |a| && r <= |b|
    decreases |a| - n
  {
    if n < |a| && n < |b| && a[n] == b[n] then PrefixFrom(a, b, n + 1) else n
  }

  function PrefixLen(a: Lines, b: Lines): (r: nat) {
    PrefixFrom(a, b, 0)
  }

  /** How far two texts agree from the back, counting on from `n` lines. */
  function SuffixFrom(a: Lines, b: Lines, n: nat): (r: nat)
    requires n <= |a| && n <= |b|
    ensures r <= |a| && r <= |b|
    decreases |a| - n
  {
    if n < |a| && n < |b| && a[|a| - 1 - n] == b[|b| - 1 - n] then SuffixFrom(a, b, n + 1) else n
  }

  function SuffixLen(a: Lines, b: Lines): (r: nat) {
    SuffixFrom(a, b, 0)
  }

  lemma {:induction false} PrefixFromIsLongest(a: Lines, b: Lines, n: nat, k: nat)
    requires n <= k <= |a| && k <= |b| && a[..n] == b[..n]
    ensures a[..k] == b[..k] <==> k <= PrefixFrom(a, b, n)
    decreases |a| - n
  {
    if n == k {
      PrefixFromGrows(a, b, n);
    } else if a[n] == b[n] {
      assert a[..n + 1] == a[..n] + [a[n]] && b[..n + 1] == b[..n] + [b[n]];
      PrefixFromIsLongest(a, b, n + 1, k);
    } else {
      assert a[..k][n] != b[..k][n];
    }
  }

  lemma {:induction false} PrefixFromGrows(a: Lines, b: Lines, n: nat)
    requires n <= |a| && n <= |b|
    ensures n <= PrefixFrom(a, b, n)
    decreases |a| - n
  {
    if n < |a| && n < |b| && a[n] == b[n] {
      PrefixFromGrows(a, b, n + 1);
    }
  }

  lemma {:induction false} SuffixFromIsLongest(a: Lines, b: Lines, n: nat, k: nat)
    requires n <= k <= |a| && k <= |b| && a[|a| - n..] == b[|b| - n..]
    ensures a[|a| - k..] == b[|b| - k..] <==> k <= SuffixFrom(a, b, n)
    decreases |a| - n
  {
    if n == k {
      SuffixFromGrows(a, b, n);
    } else if a[|a| - 1 - n] == b[|b| - 1 - n] {
      assert a[|a| - 1 - n..] == [a[|a| - 1 - n]] + a[|a| - n..];
      assert b[|b| - 1 - n..] == [b[|b| - 1 - n]] + b[|b| - n..];
      SuffixFromIsLongest(a, b, n + 1, k);
    } else {
      assert a[|a| - k..][k - 1 - n] != b[|b| - k..][k - 1 - n];
    }
  }

  lemma {:induction false} SuffixFromGrows(a: Lines, b: Lines, n: nat)
    requires n <= |a| && n <= |b|
    ensures n <= SuffixFrom(a, b, n)
    decreases |a| - n
  {
    if n < |a| && n < |b| && a[|a| - 1 - n] == b[|b| - 1 - n] {
      SuffixFromGrows(a, b, n + 1);
    }
  }

  /** `PrefixLen` is the length of the longest common prefix. */
  lemma PrefixLenIsLongest(a: Lines, b: Lines, k: nat)
    requires k <= |a| && k <= |b|
    ensures a[..k] == b[..k] <==> k <= PrefixLen(a, b)
  {
    PrefixFromIsLongest(a, b, 0, k);
  }

  /** `SuffixLen` is the length of the longest common suffix. */
  lemma SuffixLenIsLongest(a: Lines, b: Lines, k: nat)
    requires k <= |a| && k <= |b|
    ensures a[|a| - k..] == b[|b| - k..] <==> k <= SuffixLen(a, b)
  {
    SuffixFromIsLongest(a, b, 0, k);
  }

  lemma CommonEnds(a: Lines, b: Lines)
    ensures a[..PrefixLen(a, b)] == b[..PrefixLen(a, b)]
    ensures a[|a| - SuffixLen(a, b)..] == b[|b| - SuffixLen(a, b)..]
  {
    hide PrefixFrom, SuffixFrom;
    PrefixLenIsLongest(a, b, PrefixLen(a, b));
    SuffixLenIsLongest(a, b, SuffixLen(a, b));
  }

  /** Texts that agree at `p` lines in front and at `s` behind, and no further. */
  lemma EndsAre(a: Lines, b: Lines, p: nat, s: nat)
    requires p <= |a| && p <= |b| && s <= |a| && s <= |b|
    requires a[..p] == b[..p] && a[|a| - s..] == b[|b| - s..]
    requires p == |a| || p == |b| || a[p] != b[p]
    requires s == |a| || s == |b| || a[|a| - 1 - s] != b[|b| - 1 - s]
    ensures PrefixLen(a, b) == p && SuffixLen(a, b) == s
  {
    PrefixLenIsLongest(a, b, p);
    SuffixLenIsLongest(a, b, s);
    if p < |a| && p < |b| {
      PrefixLenIsLongest(a, b, p + 1);
      assert a[..p + 1][p] != b[..p + 1][p];
    }
    if s < |a| && s < |b| {
      SuffixLenIsLongest(a, b, s + 1);
      assert a[|a| - (s + 1)..][0] != b[|b| - (s + 1)..][0];
    }
  }

  method FindCommonPrefix(lines1: Lines, lines2: Lines) returns (common: Lines)
    ensures common == lines1[..PrefixLen(lines1, lines2)]
  {
    var minLen := if |lines2| < |lines1| then |lines2| else |lines1|;
    common := [];
    var i := 0;
    while i < minLen
      invariant i <= minLen && common == lines1[..i]
      invariant PrefixLen(lines1, lines2) == PrefixFrom(lines1, lines2, i)
    {
      if lines1[i] == lines2[i] {
        common := common + [lines1[i]];
      } else {
        break;
      }
      i := i + 1;
    }
  }

  method FindCommonSuffix(lines1: Lines, lines2: Lines) returns (common: Lines)
    ensures common == lines1[|lines1| - SuffixLen(lines1, lines2)..]
  {
    var minLen := if |lines2| < |lines1| then |lines2| else |lines1|;
    common := [];
    var i := 1;
    while i <= minLen
      invariant 1 <= i <= minLen + 1 && common == lines1[|lines1| - (i - 1)..]
      invariant SuffixLen(lines1, lines2) == SuffixFrom(lines1, lines2, i - 1)
    {
      if lines1[|lines1| - i] == lines2[|lines2| - i] {
        common := [lines1[|lines1| - i]] + common;
      } else {
        break;
      }
      i := i + 1;
    }
  }

  // ---- the label of a line ----

  /** One white-space character, encoded in UTF-8. */
  predicate IsSpace(u: string) {
    || (|u| == 1 && ('\t' <= u[0] <= '\r' || u[0] == ' '))
    || (|u| == 2 && u[0] == '\U{C2}' && (u[1] == '\U{85}' || u[1] == '\U{A0}'))
    || (|u| == 3 && u[0] == '\U{E1}' && u[1] == '\U{9A}' && u[2] == '\U{80}')
    || (|u| == 3 && u[0] == '\U{E2}' && u[1] == '\U{80}' &&
        ('\U{80}' <= u[2] <= '\U{8A}' || u[2] == '\U{A8}' || u[2] == '\U{A9}' || u[2] == '\U{AF}'))
    || (|u| == 3 && u[0] == '\U{E2}' && u[1] == '\U{81}' && u[2] == '\U{9F}')
    || (|u| == 3 && u[0] == '\U{E3}' && u[1] == '\U{80}' && u[2] == '\U{80}')
  }

  /** How many bytes the white-space character at the front takes; 0 if there is none. */
  function LeadingSpace(s: string): (n: nat)
    ensures n <= |s|
  {
    if |s| >= 1 && IsSpace(s[..1]) then 1
    else if |s| >= 2 && IsSpace(s[..2]) then 2
    else if |s| >= 3 && IsSpace(s[..3]) then 3
    else 0
  }

  function TrailingSpace(s: string): (n: nat)
    ensures n <= |s|
  {
    if |s| >= 1 && IsSpace(s[|s| - 1..]) then 1
    else if |s| >= 2 && IsSpace(s[|s| - 2..]) then 2
    else if |s| >= 3 && IsSpace(s[|s| - 3..]) then 3
    else 0
  }

  function TrimLeft(s: string): string
    decreases |s|
  {
    var n := LeadingSpace(s);
    if n > 0 then TrimLeft(s[n..]) else s
  }

  function TrimRight(s: string): string
    decreases |s|
  {
    var n := TrailingSpace(s);
    if n > 0 then TrimRight(s[..|s| - n]) else s
  }

  /** "Line 2: some content" is labelled "Line 2:"; a line without such a start has no label. */
  function GetLinePrefix(line: string): string {
    var parts := Split(line, ':');
    if |parts| < 2 then ""
    else
      var prefix := TrimRight(TrimLeft(parts[0]));
      if "Line " <= prefix || ' ' in prefix then prefix + ":" else ""
  }

  /** Nothing but white space. */
  ghost predicate Blank(s: string)
    decreases |s|
  {
    s == "" || (LeadingSpace(s) > 0 && Blank(s[LeadingSpace(s)..]))
  }

  /** No encoded white space begins with another, or ends with another. */
  lemma SpaceIsCut(u: string, rest: string)
    requires IsSpace(u)
    ensures LeadingSpace(u + rest) == |u| && (u + rest)[|u|..] == rest
    ensures TrailingSpace(rest + u) == |u| && (rest + u)[..|rest|] == rest
  {
    var s, t := u + rest, rest + u;
    assert s[..|u|] == u && t[|rest|..] == u;
    assert |u| > 1 ==> s[..1][0] == u[0] && t[|t| - 1..][0] == u[|u| - 1];
    assert |u| > 2 ==> s[..2][0] == u[0] && t[|t| - 2..][0] == u[1];
  }

  /** White space starts afresh: it completes nothing begun by the bytes before it. */
  lemma SpaceStartsAfresh(core: string, right: string)
    requires core != "" && LeadingSpace(core) == 0 && Blank(right)
    ensures LeadingSpace(core + right) == 0
  {
    var s := core + right;
    if right != "" {
      var u := right[..LeadingSpace(right)];
      assert s[|core|] == right[0] == u[0];
    } else {
      assert s == core;
    }
    assert |core| >= 1 ==> s[..1] == core[..1];
    assert |core| >= 2 ==> s[..2] == core[..2];
    assert |core| >= 3 ==> s[..3] == core[..3];
  }

  lemma TrimStep(u: string, rest: string)
    requires IsSpace(u)
    ensures TrimLeft(u + rest) == TrimLeft(rest) && TrimRight(rest + u) == TrimRight(rest)
  {
    SpaceIsCut(u, rest);
  }

  lemma BlankStarts(s: string) returns (u: string, rest: string)
    requires Blank(s) && s != ""
    ensures s == u + rest && IsSpace(u) && Blank(rest)
  {
    u, rest := s[..LeadingSpace(s)], s[LeadingSpace(s)..];
  }

  lemma BlankGrows(u: string, rest: string)
    requires IsSpace(u) && Blank(rest)
    ensures Blank(u + rest)
  {
    SpaceIsCut(u, rest);
  }

  lemma {:induction false} BlankEnds(s: string) returns (init: string, u: string)
    requires Blank(s) && s != ""
    ensures s == init + u && IsSpace(u) && Blank(init)
    decreases |s|
  {
    var first, rest := BlankStarts(s);
    if rest == "" {
      init, u := "", first;
    } else {
      init, u := BlankEnds(rest);
      BlankGrows(first, init);
      assert first + (init + u) == first + init + u;
      init := first + init;
    }
  }

  lemma {:induction false} TrimBlank(s: string)
    requires Blank(s)
    ensures TrimLeft(s) == ""
    decreases |s|
  {
    if s != "" {
      TrimBlank(s[LeadingSpace(s)..]);
    }
  }

  lemma {:induction false} TrimRightDropsPadding(core: string, right: string)
    requires Blank(right) && TrailingSpace(core) == 0
    ensures TrimRight(core + right) == core
    decreases |right|
  {
    hide IsSpace, Blank, LeadingSpace, TrailingSpace;
    if right == "" {
      assert core + right == core;
    } else {
      var init, u := BlankEnds(right);
      assert core + right == (core + init) + u;
      TrimStep(u, core + init);
      TrimRightDropsPadding(core, init);
    }
  }

  lemma TrimFromCore(core: string, right: string)
    requires Blank(right) && LeadingSpace(core) == 0 == TrailingSpace(core)
    ensures TrimRight(TrimLeft(core + right)) == core
  {
    if core == "" {
      assert core + right == right;
      TrimBlank(right);
    } else {
      SpaceStartsAfresh(core, right);
      TrimRightDropsPadding(core, right);
    }
  }

  lemma {:induction false} TrimLeftDropsPadding(left: string, rest: string)
    requires Blank(left)
    ensures TrimLeft(left + rest) == TrimLeft(rest)
    decreases |left|
  {
    if left == "" {
      assert left + rest == rest;
    } else {
      var u, more := BlankStarts(left);
      JoinedEitherWay(u, more, rest);
      TrimStep(u, more + rest);
      TrimLeftDropsPadding(more, rest);
    }
  }

  lemma TrimDropsPadding(left: string, core: string, right: string)
    requires Blank(left) && Blank(right) && LeadingSpace(core) == 0 == TrailingSpace(core)
    ensures TrimRight(TrimLeft(left + (core + right))) == core
  {
    TrimLeftDropsPadding(left, core + right);
    TrimFromCore(core, right);
  }

  lemma {:induction false} BlankHasNoColon(s: string)
    requires Blank(s)
    ensures ':' !in s
    decreases |s|
  {
    if s != "" {
      var u, rest := BlankStarts(s);
      BlankHasNoColon(rest);
    }
  }

  lemma PaddedHead(left: string, core: string, right: string, head: string)
    requires Blank(left) && Blank(right) && LeadingSpace(core) == 0 == TrailingSpace(core)
    requires ':' !in core && head == left + core + right
    ensures ':' !in head && TrimRight(TrimLeft(head)) == core
  {
    NoColonInPadded(left, core, right);
    TrimDropsPadding(left, core, right);
    JoinedEitherWay(left, core, right);
  }

  lemma NoColonInPadded(left: string, core: string, right: string)
    requires Blank(left) && Blank(right) && ':' !in core
    ensures ':' !in left + core + right
  {
    BlankHasNoColon(left);
    BlankHasNoColon(right);
    NoneInParts(left, core, right, ':');
  }

  lemma NoneInParts(a: string, b: string, c: string, x: char)
    requires x !in a && x !in b && x !in c
    ensures x !in a + b + c
  {
  }

  lemma JoinedEitherWay(a: string, b: string, c: string)
    ensures a + (b + c) == a + b + c
  {
  }

  lemma LabelOfHead(head: string, core: string, rest: string)
    requires ':' !in head && TrimRight(TrimLeft(head)) == core
    ensures GetLinePrefix(head + ":" + rest) == if ' ' in core then core + ":" else ""
    ensures GetLinePrefix(head) == ""
  {
    SplitOfLineAndRest(head, rest, ':');
    SplitOfLine(head, ':');
    assert "Line " <= core ==> core[4] == ' ';
  }

  /** The label is the text before the first colon without the white space around it, if a blank is
      left inside; whatever follows the colon does not matter. A line without a colon has none. */
  lemma LabelOfLine(left: string, core: string, right: string, rest: string)
    requires Blank(left) && Blank(right) && ':' !in core && LeadingSpace(core) == 0 == TrailingSpace(core)
    ensures GetLinePrefix(left + core + right + ":" + rest) == if ' ' in core then core + ":" else ""
    ensures GetLinePrefix(left + core + right) == ""
  {
    var head := left + core + right;
    PaddedHead(left, core, right, head);
    LabelOfHead(head, core, rest);
  }

  ghost predicate SharesLabel(line: string, lines: Lines) {
    GetLinePrefix(line) != "" && exists l :: l in lines && GetLinePrefix(l) == GetLinePrefix(line)
  }

  ghost predicate SharesLine(a: Lines, b: Lines) {
    exists l :: l in a && l in b
  }

  method AreDisjoint(lines1: Lines, lines2: Lines) returns (disjoint: bool)
    ensures disjoint <==> !SharesLine(lines1, lines2)
  {
    var set1: set<string> := {};
    for i := 0 to |lines1|
      invariant forall l :: l in set1 <==> l in lines1[..i]
    {
      set1 := set1 + {lines1[i]};
    }
    for i := 0 to |lines2|
      invariant forall l :: l in lines2[..i] ==> l !in lines1
    {
      if lines2[i] in set1 {
        assert lines2[i] in lines1 && lines2[i] in lines2;
        return false;
      }
    }
    return true;
  }

  method Contains(lines: Lines, line: string) returns (found: bool)
    ensures found <==> line in lines
  {
    for i := 0 to |lines|
      invariant line !in lines[..i]
    {
      if lines[i] == line {
        return true;
      }
    }
    return false;
  }

  method IsModificationOf(line: string, lines: Lines) returns (b: bool)
    ensures b <==> SharesLabel(line, lines)
  {
    var linePrefix := GetLinePrefix(line);
    if linePrefix == "" {
      return false;
    }
    for i := 0 to |lines|
      invariant forall l :: l in lines[..i] ==> GetLinePrefix(l) != linePrefix
    {
      if GetLinePrefix(lines[i]) == linePrefix {
        return true;
      }
    }
    return false;
  }

  // ---- the merge, in five cases ----

  function Middle(lines: Lines, prefix: nat, suffix: nat): Lines {
    if prefix + suffix < |lines| then lines[prefix..|lines| - suffix] else []
  }

  /** The lines of `m1`, in order, that `m2` neither contains nor relabels. */
  ghost function Additions(m1: Lines, m2: Lines): Lines {
    if m1 == [] then []
    else
      var l := m1[|m1| - 1];
      Additions(m1[..|m1| - 1], m2) + if l in m2 || SharesLabel(l, m2) then [] else [l]
  }

  ghost function MergedMiddles(m1: Lines, m2: Lines, hasSuffix: bool): Lines {
    if m1 == [] then m2
    else if m2 == [] then m1
    else if SharesLine(m1, m2) then m2 + Additions(m1, m2)
    else if hasSuffix then [HEAD_MARKER] + m1 + [MIDDLE_MARKER] + m2 + [TAIL_MARKER]
    else m1 + m2
  }

  /** Prefix and suffix are found independently, so they may overlap in either text. */
  ghost function Merged(a: Lines, b: Lines): Lines {
    var p, s := PrefixLen(a, b), SuffixLen(a, b);
    a[..p] + MergedMiddles(Middle(a, p, s), Middle(b, p, s), s > 0) + a[|a| - s..]
  }

  /** The second search for a common suffix always comes back empty-handed. */
  lemma SecondSuffixIsEmpty(a: Lines, b: Lines)
    ensures var p, s := PrefixLen(a, b), SuffixLen(a, b);
            Middle(a, p, s) != [] && Middle(b, p, s) != [] ==>
              SuffixLen(Middle(a, p, s), Middle(b, p, s)) == 0
  {
    var s := SuffixLen(a, b);
    if s < |a| && s < |b| {
      CommonEnds(a, b);
      SuffixLenIsLongest(a, b, s + 1);
      assert a[|a| - 1 - s..] == [a[|a| - 1 - s]] + a[|a| - s..];
      assert b[|b| - 1 - s..] == [b[|b| - 1 - s]] + b[|b| - s..];
    }
  }

  method UniqueAdditions(before1: Lines, before2: Lines, middleSuffix: Lines) returns (additions: Lines)
    ensures middleSuffix == [] ==> additions == Additions(before1, before2)
  {
    additions := [];
    for i := 0 to |before1|
      invariant middleSuffix == [] ==> additions == Additions(before1[..i], before2)
    {
      assert before1[..i + 1][..i] == before1[..i];
      var line := before1[i];
      var in2 := Contains(before2, line);
      var inSuffix := Contains(middleSuffix, line);
      if !in2 && !inSuffix {
        var modified := IsModificationOf(line, before2);
        if !modified {
          additions := additions + [line];
        }
      }
    }
    assert before1[..|before1|] == before1;
  }

  /** The case of two non-empty pieces that end differently, or are followed by a common end. */
  method MergeDifferent(before1: Lines, before2: Lines, middleSuffix: Lines, suffix: Lines) returns (result: Lines)
    requires before1 != [] && before2 != []
    ensures middleSuffix == [] ==> result == MergedMiddles(before1, before2, suffix != [])
  {
    hide SharesLine, Additions;
    var disjoint := AreDisjoint(before1, before2);
    result := [];
    if !disjoint {
      result := result + before2 + middleSuffix;
      var additions := UniqueAdditions(before1, before2, middleSuffix);
      result := result + additions;
    } else if |middleSuffix| > 0 {
      result := result + before2 + middleSuffix;
      for i := 0 to |before1| {
        var in2 := Contains(before2, before1[i]);
        if !in2 {
          result := result + [before1[i]];
        }
      }
    } else if |suffix| > 0 {
      result := result + [HEAD_MARKER] + before1 + [MIDDLE_MARKER] + before2 + [TAIL_MARKER];
    } else {
      result := result + before1 + before2;
    }
  }

  /** The case of two non-empty middles. */
  method MergeBothMiddles(middle1: Lines, middle2: Lines, suffix: Lines) returns (result: Lines)
    requires middle1 != [] && middle2 != []
    ensures SuffixLen(middle1, middle2) == 0 ==>
              result == MergedMiddles(middle1, middle2, suffix != [])
  {
    var middleSuffix := FindCommonSuffix(middle1, middle2);
    var before1, before2 := middle1, middle2;
    if |middleSuffix| > 0 {
      before1 := middle1[..|middle1| - |middleSuffix|];
      before2 := middle2[..|middle2| - |middleSuffix|];
    }
    if |before1| == 0 && |before2| == 0 {
      result := middleSuffix;
    } else if |before1| == 0 {
      result := before2 + middleSuffix;
    } else if |before2| == 0 {
      result := before1 + middleSuffix;
    } else {
      hide *;
      result := MergeDifferent(before1, before2, middleSuffix, suffix);
    }
  }

  method MergeMiddles(middle1: Lines, middle2: Lines, suffix: Lines) returns (result: Lines)
    requires middle1 != [] && middle2 != [] ==> SuffixLen(middle1, middle2) == 0
    ensures result == MergedMiddles(middle1, middle2, suffix != [])
  {
    result := [];
    if |middle1| == 0 && |middle2| == 0 {
      // no differences
    } else if |middle1| == 0 {
      result := result + middle2;
    } else if |middle2| == 0 {
      result := result + middle1;
    } else {
      result := MergeBothMiddles(middle1, middle2, suffix);
    }
  }

  method MergeLinesDiff(lines1: Lines, lines2: Lines) returns (result: Lines)
    ensures result == Merged(lines1, lines2)
  {
    var prefix := FindCommonPrefix(lines1, lines2);
    var suffix := FindCommonSuffix(lines1, lines2);
    var middle1End, middle2End := |lines1| - |suffix|, |lines2| - |suffix|;
    var middle1: Lines, middle2: Lines := [], [];
    if middle1End > |prefix| {
      middle1 := lines1[|prefix|..middle1End];
    }
    if middle2End > |prefix| {
      middle2 := lines2[|prefix|..middle2End];
    }
    SecondSuffixIsEmpty(lines1, lines2);
    assert middle1 == Middle(lines1, |prefix|, |suffix|) && middle2 == Middle(lines2, |prefix|, |suffix|);
    var middle := MergeMiddles(middle1, middle2, suffix);
    result := prefix + middle + suffix;
  }

  // ---- nothing of the second text is lost ----

  /** `x` is what is left of `y` after striking out some of its elements. */
  ghost predicate IsSubsequence(x: Lines, y: Lines) {
    if x == [] then true
    else if y == [] then false
    else if x[0] == y[0] && IsSubsequence(x[1..], y[1..]) then true
    else IsSubsequence(x, y[1..])
  }

  lemma {:induction false} PadLeft(x: Lines, pad: Lines, y: Lines)
    requires IsSubsequence(x, y)
    ensures IsSubsequence(x, pad + y)
  {
    if pad == [] {
      assert pad + y == y;
    } else {
      PadLeft(x, pad[1..], y);
      assert (pad + y)[1..] == pad[1..] + y;
    }
  }

  lemma {:induction false} ConcatSubsequences(x: Lines, y: Lines, u: Lines, v: Lines)
    requires IsSubsequence(x, y) && IsSubsequence(u, v)
    ensures IsSubsequence(x + u, y + v)
    decreases y
  {
    if x == [] {
      assert x + u == u;
      PadLeft(u, y, v);
    } else {
      assert (y + v)[1..] == y[1..] + v && (x + u)[1..] == x[1..] + u;
      if x[0] == y[0] && IsSubsequence(x[1..], y[1..]) {
        ConcatSubsequences(x[1..], y[1..], u, v);
      } else {
        ConcatSubsequences(x, y[1..], u, v);
      }
    }
  }

  lemma {:induction false} SelfSubsequence(x: Lines)
    ensures IsSubsequence(x, x)
  {
    if x != [] {
      SelfSubsequence(x[1..]);
    }
  }

  lemma Embed(x: Lines, left: Lines, right: Lines)
    ensures IsSubsequence(x, left + x + right)
  {
    SelfSubsequence(x);
    PadLeft(x, left, x);
    ConcatSubsequences(x, left + x, [], right);
    assert x + [] == x;
  }

  /** A text whose middle survives, between prefix and suffix that may overlap in it, survives. */
  lemma AroundMiddle(x: Lines, p: nat, s: nat, pre: Lines, middle: Lines, post: Lines)
    requires p <= |x| && s <= |x| && pre == x[..p] && post == x[|x| - s..]
    requires IsSubsequence(Middle(x, p, s), middle)
    ensures IsSubsequence(x, pre + middle + post)
  {
    var tail := x[if p + s <= |x| then |x| - s else p..];
    assert x == pre + Middle(x, p, s) + tail;
    SelfSubsequence(pre);
    SelfSubsequence(tail);
    if p + s > |x| {
      PadLeft(tail, x[|x| - s..p], tail);
      assert post == x[|x| - s..p] + tail;
    }
    ConcatSubsequences(pre, pre, Middle(x, p, s), middle);
    ConcatSubsequences(pre + Middle(x, p, s), pre + middle, tail, post);
  }

  lemma MiddlesSurvive(m1: Lines, m2: Lines, hasSuffix: bool)
    ensures IsSubsequence(m2, MergedMiddles(m1, m2, hasSuffix))
    ensures m1 == [] || m2 == [] || !SharesLine(m1, m2) ==>
              IsSubsequence(m1, MergedMiddles(m1, m2, hasSuffix))
  {
    SelfSubsequence(m1);
    SelfSubsequence(m2);
    if m1 != [] && m2 != [] {
      if SharesLine(m1, m2) {
        Embed(m2, [], Additions(m1, m2));
        assert [] + m2 == m2;
      } else if hasSuffix {
        Embed(m1, [HEAD_MARKER], [MIDDLE_MARKER] + m2 + [TAIL_MARKER]);
        Embed(m2, [HEAD_MARKER] + m1 + [MIDDLE_MARKER], [TAIL_MARKER]);
        assert [HEAD_MARKER] + m1 + ([MIDDLE_MARKER] + m2 + [TAIL_MARKER])
            == [HEAD_MARKER] + m1 + [MIDDLE_MARKER] + m2 + [TAIL_MARKER];
      } else {
        Embed(m1, [], m2);
        Embed(m2, m1, []);
        assert [] + m1 == m1 && m1 + m2 + [] == m1 + m2;
      }
    }
  }

  /** For all texts, the second one survives the merge line by line and in order; so does the
      first one unless both have a non-empty middle and these share a line. */
  lemma MergeKeepsTexts(a: Lines, b: Lines)
    ensures IsSubsequence(b, Merged(a, b))
    ensures var p, s := PrefixLen(a, b), SuffixLen(a, b);
            var m1, m2 := Middle(a, p, s), Middle(b, p, s);
            m1 == [] || m2 == [] || !SharesLine(m1, m2) ==> IsSubsequence(a, Merged(a, b))
  {
    var p, s := PrefixLen(a, b), SuffixLen(a, b);
    var m1, m2 := Middle(a, p, s), Middle(b, p, s);
    CommonEnds(a, b);
    MiddlesSurvive(m1, m2, s > 0);
    AroundMiddle(b, p, s, a[..p], MergedMiddles(m1, m2, s > 0), a[|a| - s..]);
    if m1 == [] || m2 == [] || !SharesLine(m1, m2) {
      AroundMiddle(a, p, s, a[..p], MergedMiddles(m1, m2, s > 0), a[|a| - s..]);
    }
  }

  // ---- every line is accounted for ----

  lemma CountOneMore(init: Lines, last: string, l: string)
    ensures multiset(init + [last])[l] == multiset(init)[l] + if last == l then 1 else 0
  {
    assert multiset(init + [last]) == multiset(init) + multiset{last};
  }

  /** Each line is added as often as the first text has it, if the second neither has nor relabels it. */
  lemma {:induction false} AdditionsAreCounted(m1: Lines, m2: Lines, l: string)
    ensures multiset(Additions(m1, m2))[l] == if l in m2 || SharesLabel(l, m2) then 0 else multiset(m1)[l]
  {
    hide SharesLabel;
    if m1 != [] {
      var init, last := m1[..|m1| - 1], m1[|m1| - 1];
      AdditionsAreCounted(init, m2, l);
      CountOneMore(init, last, l);
      CountOneMore(Additions(init, m2), last, l);
      assert m1 == init + [last];
    }
  }

  lemma AdditionsAre(m1: Lines, m2: Lines, l: string)
    ensures l in Additions(m1, m2) <==> l in m1 && l !in m2 && !SharesLabel(l, m2)
  {
    AdditionsAreCounted(m1, m2, l);
    assert l in Additions(m1, m2) <==> multiset(Additions(m1, m2))[l] > 0;
    assert l in m1 <==> multiset(m1)[l] > 0;
  }

  ghost predicate ConflictBlock(a: Lines, b: Lines) {
    var p, s := PrefixLen(a, b), SuffixLen(a, b);
    var m1, m2 := Middle(a, p, s), Middle(b, p, s);
    m1 != [] && m2 != [] && !SharesLine(m1, m2) && s > 0
  }

  /** A line comes out of the merge exactly when a text had it or it is a marker of an emitted
      block, unless it is lost: a line of the first middle only, whose label the second middle has. */
  lemma EveryLineAccountedFor(a: Lines, b: Lines, l: string)
    ensures var p, s := PrefixLen(a, b), SuffixLen(a, b);
            var m1, m2 := Middle(a, p, s), Middle(b, p, s);
            var lost := SharesLine(m1, m2) && l !in b && SharesLabel(l, m2) && l !in a[..p] + a[|a| - s..];
            l in Merged(a, b) <==>
              || (ConflictBlock(a, b) && l in [HEAD_MARKER, MIDDLE_MARKER, TAIL_MARKER])
              || ((l in a || l in b) && !lost)
  {
    var p, s := PrefixLen(a, b), SuffixLen(a, b);
    var m1, m2 := Middle(a, p, s), Middle(b, p, s);
    CommonEnds(a, b);
    AdditionsAre(m1, m2, l);
    InPieces(a, p, s, l);
    InPieces(b, p, s, l);
  }

  /** Text that makes a label as it is: with a blank inside and no white space around. */
  predicate PlainLabel(core: string) {
    ':' !in core && ' ' in core && LeadingSpace(core) == 0 == TrailingSpace(core)
  }

  lemma LabelOfEntry(core: string, value: string)
    requires PlainLabel(core)
    ensures GetLinePrefix(core + ":" + value) == core + ":"
  {
    LabelOfHead(core, core, value);
  }

  /** Two entries with one label, in texts that share another line: the first text's entry is lost. */
  lemma RelabelledLineIsLost(shared: string, core: string, value1: string, value2: string)
    requires PlainLabel(core) && value1 != value2 && shared != core + ":" + value1 && shared != core + ":" + value2
    ensures var line1, line2 := core + ":" + value1, core + ":" + value2;
            line1 !in Merged([shared, line1], [line2, shared])
  {
    var line1, line2 := core + ":" + value1, core + ":" + value2;
    LabelOfEntry(core, value1);
    LabelOfEntry(core, value2);
    assert line1[|core| + 1..] == value1 && line2[|core| + 1..] == value2;
    OnlyLabelShared(shared, line1, line2);
  }

  const ENTRY := "A b"

  /** For one, the edit "A b:1" of a line that the other peer made "A b:2". */
  lemma EditedEntryIsLost()
    ensures ENTRY + ":" + "1" !in Merged(["k", ENTRY + ":" + "1"], [ENTRY + ":" + "2", "k"])
  {
    EntryIsLabel(ENTRY);
    assert "1"[0] != "2"[0];
    assert |"k"| < |ENTRY + ":" + "1"|;
    RelabelledLineIsLost("k", ENTRY, "1", "2");
  }

  lemma EntryIsLabel(core: string)
    requires |core| == 3 && core[0] == 'A' && core[1] == ' ' && core[2] == 'b'
    ensures PlainLabel(core)
  {
    assert core[..1][0] == core[..2][0] == core[..3][0] == 'A';
    assert core[2..][0] == 'b' && core[1..][0] == ' ' && core[0..][0] == 'A';
  }

  lemma OnlyLabelShared(shared: string, x: string, y: string)
    requires shared != x && shared != y && x != y && GetLinePrefix(x) == GetLinePrefix(y) != ""
    ensures x !in Merged([shared, x], [y, shared])
  {
    LabelIsShared(x, [y, shared]);
    MergeOfSwapped(shared, x, y);
    AdditionsAre([shared, x], [y, shared], x);
  }

  lemma LabelIsShared(x: string, lines: Lines)
    requires lines != [] && GetLinePrefix(x) == GetLinePrefix(lines[0]) != ""
    ensures SharesLabel(x, lines)
  {
    assert lines[0] in lines;
  }

  lemma MergeOfSwapped(shared: string, x: string, y: string)
    requires shared != x && shared != y && x != y
    ensures Merged([shared, x], [y, shared]) == [y, shared] + Additions([shared, x], [y, shared])
  {
    var a, b := [shared, x], [y, shared];
    EndsAre(a, b, 0, 0);
    assert Middle(a, 0, 0) == a && Middle(b, 0, 0) == b;
    assert a[0] == b[1] && a[0] in a && a[0] in b;
  }

  lemma InPieces(x: Lines, p: nat, s: nat, l: string)
    requires p <= |x| && s <= |x|
    ensures l in x <==> l in x[..p] || l in Middle(x, p, s) || l in x[|x| - s..]
  {
    if l in x {
      var i :| 0 <= i < |x| && x[i] == l;
      if p <= i < |x| - s {
        assert Middle(x, p, s)[i - p] == l;
      } else if i >= |x| - s {
        assert x[|x| - s..][i - (|x| - s)] == l;
      }
    }
  }

  lemma AdditionsAreFew(m1: Lines, m2: Lines)
    ensures multiset(Additions(m1, m2)) <= multiset(m1)
  {
    hide SharesLabel, Additions;
    forall l
      ensures multiset(Additions(m1, m2))[l] <= multiset(m1)[l]
    {
      AdditionsAreCounted(m1, m2, l);
    }
  }

  lemma MiddlesInventNothing(m1: Lines, m2: Lines, hasSuffix: bool)
    ensures multiset(MergedMiddles(m1, m2, hasSuffix)) <=
            multiset(m1) + multiset(m2) +
            if m1 != [] && m2 != [] && !SharesLine(m1, m2) && hasSuffix
            then multiset{HEAD_MARKER, MIDDLE_MARKER, TAIL_MARKER} else multiset{}
  {
    AdditionsAreFew(m1, m2);
  }

  lemma FrontAndMiddle(x: Lines, p: nat, s: nat)
    requires p <= |x| && s <= |x|
    ensures multiset(x[..p]) + multiset(Middle(x, p, s)) <= multiset(x)
    ensures multiset(Middle(x, p, s)) + multiset(x[|x| - s..]) <= multiset(x)
  {
    assert x == x[..p] + x[p..] && x == x[..|x| - s] + x[|x| - s..];
    if p + s < |x| {
      assert x == x[..p] + Middle(x, p, s) + x[|x| - s..];
    }
  }

  lemma PiecesAdd(pre: Lines, middle: Lines, post: Lines, a: Lines, b: Lines, m1: Lines, m2: Lines,
                  markers: multiset<string>)
    requires multiset(pre) + multiset(m1) <= multiset(a) && multiset(m2) + multiset(post) <= multiset(b)
    requires multiset(middle) <= multiset(m1) + multiset(m2) + markers
    ensures multiset(pre + middle + post) <= multiset(a) + multiset(b) + markers
  {
    assert multiset(pre + middle + post) == multiset(pre) + multiset(middle) + multiset(post);
  }

  /** No line comes out more often than both texts together have it, but for one of each marker in an
      emitted block. */
  lemma NothingIsInvented(a: Lines, b: Lines)
    ensures multiset(Merged(a, b)) <=
            multiset(a) + multiset(b) +
            if ConflictBlock(a, b) then multiset{HEAD_MARKER, MIDDLE_MARKER, TAIL_MARKER} else multiset{}
  {
    hide PrefixFrom, SuffixFrom, Middle, MergedMiddles, SharesLine;
    var p, s := PrefixLen(a, b), SuffixLen(a, b);
    var m1, m2 := Middle(a, p, s), Middle(b, p, s);
    var markers := if ConflictBlock(a, b) then multiset{HEAD_MARKER, MIDDLE_MARKER, TAIL_MARKER} else multiset{};
    CommonEnds(a, b);
    FrontAndMiddle(a, p, s);
    FrontAndMiddle(b, p, s);
    MiddlesInventNothing(m1, m2, s > 0);
    PiecesAdd(a[..p], MergedMiddles(m1, m2, s > 0), a[|a| - s..], a, b, m1, m2, markers);
  }

  // ---- in which order ----

  /** Texts that end differently and share no line after their common start: the first one comes out
      whole, and then the rest of the second. */
  lemma DisjointRestsAreJoined(a: Lines, b: Lines)
    requires SuffixLen(a, b) == 0 && !SharesLine(a[PrefixLen(a, b)..], b[PrefixLen(a, b)..])
    ensures Merged(a, b) == a + b[PrefixLen(a, b)..]
  {
    var p := PrefixLen(a, b);
    CommonEnds(a, b);
    assert Middle(a, p, 0) == a[p..] && Middle(b, p, 0) == b[p..] && a[|a|..] == [];
    assert a == a[..p] + a[p..];
  }

  /** Two peers append different lines to one text: both additions come out, the first one first. */
  lemma AppendedLinesAreJoined(text: Lines, more1: Lines, more2: Lines)
    requires more1 != [] && more2 != [] && !SharesLine(more1, more2)
    ensures Merged(text + more1, text + more2) == text + more1 + more2
  {
    var a, b := text + more1, text + more2;
    assert more1[0] in more1 && more2[0] in more2;
    assert more1[|more1| - 1] in more1 && more2[|more2| - 1] in more2;
    assert a[|text|] == more1[0] && b[|text|] == more2[0];
    assert a[..|text|] == text == b[..|text|];
    assert a[|a|..] == [] == b[|b|..];
    EndsAre(a, b, |text|, 0);
    assert a[|text|..] == more1 && b[|text|..] == more2;
    DisjointRestsAreJoined(a, b);
  }

  lemma {:induction false} AdditionsAreInOrder(m1: Lines, m2: Lines)
    ensures IsSubsequence(Additions(m1, m2), m1)
  {
    hide SharesLabel;
    if m1 == [] {
      SelfSubsequence([]);
    } else {
      var init, l := m1[..|m1| - 1], m1[|m1| - 1];
      var last := if l in m2 || SharesLabel(l, m2) then [] else [l];
      AdditionsAreInOrder(init, m2);
      assert m1 == init + [l] && Additions(m1, m2) == Additions(init, m2) + last;
      SelfSubsequence(last);
      ConcatSubsequences(Additions(init, m2), init, last, [l]);
    }
  }

  /** `kept` are the lines of `m1` that `m2` neither has nor relabels, in order and as often. */
  ghost predicate KeepsOthers(kept: Lines, m1: Lines, m2: Lines) {
    && IsSubsequence(kept, m1)
    && forall l :: multiset(kept)[l] == if l in m2 || SharesLabel(l, m2) then 0 else multiset(m1)[l]
  }

  /** When the middles share a line, the second one comes first, and behind it what the first adds. */
  lemma SecondMiddleGoesFirst(a: Lines, b: Lines) returns (kept: Lines)
    requires var p, s := PrefixLen(a, b), SuffixLen(a, b); SharesLine(Middle(a, p, s), Middle(b, p, s))
    ensures var p, s := PrefixLen(a, b), SuffixLen(a, b);
            var m1, m2 := Middle(a, p, s), Middle(b, p, s);
            Merged(a, b) == a[..p] + m2 + kept + a[|a| - s..] && KeepsOthers(kept, m1, m2)
  {
    hide PrefixFrom, SuffixFrom, Middle, SharesLabel, Additions, IsSubsequence;
    var p, s := PrefixLen(a, b), SuffixLen(a, b);
    var m1, m2 := Middle(a, p, s), Middle(b, p, s);
    kept := Additions(m1, m2);
    AdditionsAreInOrder(m1, m2);
    forall l {
      AdditionsAreCounted(m1, m2, l);
    }
    assert a[..p] + (m2 + kept) + a[|a| - s..] == a[..p] + m2 + kept + a[|a| - s..];
  }

  // ---- insertions, and what overlap does to them ----

  /** When one text is the other with lines inserted, the merge is the longer text exactly if the
      common prefix and suffix fit side by side into it. */
  lemma InsertionMerges(x: Lines, inserted: Lines, y: Lines)
    ensures var a, b := x + y, x + inserted + y;
            Merged(a, b) == b <==> PrefixLen(a, b) + SuffixLen(a, b) <= |b|
    ensures var a, b := x + inserted + y, x + y;
            Merged(a, b) == a <==> PrefixLen(a, b) + SuffixLen(a, b) <= |a|
  {
    var short, long := x + y, x + inserted + y;
    assert short[..|x|] == x == long[..|x|];
    assert short[|short| - |y|..] == y == long[|long| - |y|..];
    PrefixLenIsLongest(short, long, |x|);
    SuffixLenIsLongest(short, long, |y|);
    PrefixLenIsLongest(long, short, |x|);
    SuffixLenIsLongest(long, short, |y|);
    MergeWithEmptyMiddle(short, long);
    MergeWithEmptyMiddle(long, short);
  }

  lemma MergeWithEmptyMiddle(a: Lines, b: Lines)
    ensures var p, s := PrefixLen(a, b), SuffixLen(a, b);
            p + s >= |a| ==> (Merged(a, b) == b <==> p + s <= |b|)
    ensures var p, s := PrefixLen(a, b), SuffixLen(a, b);
            p + s >= |b| ==> (Merged(a, b) == a <==> p + s <= |a|)
  {
    hide PrefixFrom, SuffixFrom, SharesLine, Additions;
    var p, s := PrefixLen(a, b), SuffixLen(a, b);
    CommonEnds(a, b);
    assert p + s <= |b| ==> b == b[..p] + Middle(b, p, s) + b[|b| - s..];
    assert p + s <= |a| ==> a == a[..p] + Middle(a, p, s) + a[|a| - s..];
  }

  /** Overlap can repeat lines: inserting a third equal line yields four, and a text merged with
      itself comes out twice. */
  lemma OverlapRepeatsLines(x: string, a: Lines)
    ensures Merged([x, x], [x, x, x]) == [x, x, x, x]
    ensures Merged(a, a) == a + a
  {
    EndsAre([x, x], [x, x, x], 2, 2);
    EndsAre(a, a, |a|, |a|);
  }

  // ---- a conflict block holds both texts ----

  /** When a block is emitted, taking the first side of it gives the first text back, line by
      line, and taking the second side gives the second. */
  lemma KeepOneSide(a: Lines, b: Lines) returns (pre: Lines, side1: Lines, side2: Lines, post: Lines)
    requires ConflictBlock(a, b)
    ensures Merged(a, b) == Render(pre, HEAD_MARKER, side1, MIDDLE_MARKER, side2, TAIL_MARKER, post)
    ensures pre + side1 + post == a && pre + side2 + post == b
  {
    hide PrefixLen, SuffixLen;
    var p, s := PrefixLen(a, b), SuffixLen(a, b);
    CommonEnds(a, b);
    pre, side1, side2, post := a[..p], Middle(a, p, s), Middle(b, p, s), a[|a| - s..];
  }

  /** Reading the markers back does the same, if the texts contain no line that looks like one. */
  lemma KeepSideOfMerge(a: Lines, b: Lines)
    requires ConflictBlock(a, b) && HEAD_MARKER !in a && MIDDLE_MARKER !in a && TAIL_MARKER !in b
    ensures KeepSide(Merged(a, b), HEAD_MARKER, MIDDLE_MARKER, TAIL_MARKER, true) == a
    ensures KeepSide(Merged(a, b), HEAD_MARKER, MIDDLE_MARKER, TAIL_MARKER, false) == b
  {
    var pre, side1, side2, post := KeepOneSide(a, b);
    assert HEAD_MARKER[0] != MIDDLE_MARKER[0] && MIDDLE_MARKER[0] != TAIL_MARKER[0];
    KeepSideOfRender(pre, HEAD_MARKER, side1, MIDDLE_MARKER, side2, TAIL_MARKER, post);
  }
}
