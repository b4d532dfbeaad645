/** Text as lines: splitting on a separator and joining again. Text is a sequence of bytes,
    each written as the character with that code. */
module Text {
  function Split(s: string, sep: char): (lines: seq<string>)
    ensures lines != []
  {
    if s == "" then [""]
    else
      var rest := Split(s[1..], sep);
      if s[0] == sep then [""] + rest else [[s[0]] + rest[0]] + rest[1..]
  }

  function Join(lines: seq<string>, sep: char): string {
    if |lines| == 0 then ""
    else if |lines| == 1 then lines[0]
    else lines[0] + [sep] + Join(lines[1..], sep)
  }

  lemma {:induction false} JoinOfSplit(s: string, sep: char)
    ensures Join(Split(s, sep), sep) == s
  {
    if s != "" {
      JoinOfSplit(s[1..], sep);
      var rest := Split(s[1..], sep);
      if s[0] == sep {
        assert Split(s, sep)[1..] == rest;
      } else {
        assert Split(s, sep)[1..] == rest[1..];
      }
    }
  }

  lemma {:induction false} SplitHasNoSeparator(s: string, sep: char)
    ensures forall l :: l in Split(s, sep) ==> sep !in l
  {
    if s != "" {
      SplitHasNoSeparator(s[1..], sep);
    }
  }

  lemma {:induction false} SplitOfLine(l: string, sep: char)
    requires sep !in l
    ensures Split(l, sep) == [l]
  {
    if l != "" {
      SplitOfLine(l[1..], sep);
      assert [l[0]] + l[1..] == l;
    }
  }

  lemma {:induction false} SplitOfLineAndRest(l: string, rest: string, sep: char)
    requires sep !in l
    ensures Split(l + [sep] + rest, sep) == [l] + Split(rest, sep)
  {
    if l == "" {
      assert l + [sep] + rest == [sep] + rest;
      assert ([sep] + rest)[1..] == rest;
    } else {
      SplitOfLineAndRest(l[1..], rest, sep);
      assert (l + [sep] + rest)[1..] == l[1..] + [sep] + rest;
      assert [l[0]] + l[1..] == l;
    }
  }

  lemma {:induction false} SplitOfJoin(lines: seq<string>, sep: char)
    requires lines != [] && forall l :: l in lines ==> sep !in l
    ensures Split(Join(lines, sep), sep) == lines
  {
    if |lines| == 1 {
      SplitOfLine(lines[0], sep);
    } else {
      SplitOfJoin(lines[1..], sep);
      SplitOfLineAndRest(lines[0], Join(lines[1..], sep), sep);
    }
  }

  /** Equal line lists come from equal texts only. */
  lemma SplitIsInjective(s: string, t: string, sep: char)
    ensures Split(s, sep) == Split(t, sep) <==> s == t
  {
    JoinOfSplit(s, sep);
    JoinOfSplit(t, sep);
  }
}
