/** Reading lines with universal newlines, against a simpler definition: translate all
    line breaks, then split. */
module UniversalLines {
  import opened Text
  import opened Separator
  import opened AuditFile

  /** Every line break as "\n". */
  function Translated(s: string): string {
    if s == "" then ""
    else if s[0] != '\r' then [s[0]] + Translated(s[1..])
    else if |s| > 1 && s[1] == '\n' then "\n" + Translated(s[2..])
    else "\n" + Translated(s[1..])
  }

  lemma {:induction false} TranslatedFront(s: string, i: nat)
    requires i <= |s| && forall j :: 0 <= j < i ==> !IsBreak(s[j])
    ensures Translated(s) == s[..i] + Translated(s[i..])
  {
    if i > 0 {
      TranslatedFront(s[1..], i - 1);
      assert s[..i] == [s[0]] + s[1..][..i - 1] && s[1..][i - 1..] == s[i..];
    }
  }

  lemma TranslatedBreak(s: string)
    requires s != "" && IsBreak(s[0])
    ensures Translated(s) == "\n" + Translated(s[AfterBreak(s, 0)..])
  {
  }

  lemma BreakInRest(s: string, i: nat)
    requires i < |s|
    ensures AfterBreak(s[i..], 0) == AfterBreak(s, i) - i
    ensures s[i..][AfterBreak(s, i) - i..] == s[AfterBreak(s, i)..]
  {
  }

  lemma TranslatedLine(s: string, i: nat)
    requires i < |s| && FirstBreak(s) == i
    ensures Translated(s) == s[..i] + "\n" + Translated(s[AfterBreak(s, i)..])
  {
    TranslatedFront(s, i);
    BreakInRest(s, i);
    TranslatedBreak(s[i..]);
    Regroup(s[..i], "\n", Translated(s[AfterBreak(s, i)..]));
  }

  lemma SplitFirst(front: string, rest: string)
    requires '\n' !in front
    ensures Split(front + "\n" + rest, "\n") == [front] + Split(rest, "\n")
  {
    var s := front + "\n" + rest;
    FirstSeparator(front, "\n", rest, 0);
    assert s[..|front|] == front && s[|front| + 1..] == rest;
  }

  /** The part after the last break, if a text ends in one or is empty. */
  function Tail(s: string): seq<string> {
    if s == "" || IsBreak(s[|s| - 1]) then [""] else []
  }

  lemma UnbrokenIsKept(s: string)
    requires Unbroken(s)
    ensures Translated(s) == s
  {
  }

  lemma OneLine(s: string)
    requires FirstBreak(s) == |s|
    ensures Split(Translated(s), "\n") == ReadLines(s) + Tail(s)
  {
    UnbrokenIsKept(s);
    NoSeparator(s, "\n", 0);
    assert Split(s, "\n") == [s];
  }

  lemma MoreLines(s: string, i: nat, n: nat)
    requires i < |s| && FirstBreak(s) == i && AfterBreak(s, i) == n
    ensures ReadLines(s) == [s[..i]] + ReadLines(s[n..])
  {
  }

  lemma SameTail(s: string, n: nat)
    requires 0 < n <= |s| && (n == |s| ==> IsBreak(s[|s| - 1]))
    ensures Tail(s) == Tail(s[n..])
  {
  }

  /** Both ways take the same first line off. */
  lemma SameFront(s: string) returns (front: string, rest: string)
    requires FirstBreak(s) < |s|
    ensures |rest| < |s| && Tail(s) == Tail(rest) && ReadLines(s) == [front] + ReadLines(rest)
    ensures Split(Translated(s), "\n") == [front] + Split(Translated(rest), "\n")
  {
    var i := FirstBreak(s);
    front, rest := s[..i], s[AfterBreak(s, i)..];
    MoreLines(s, i, AfterBreak(s, i));
    SameTail(s, AfterBreak(s, i));
    TranslatedLine(s, i);
    SplitFirst(front, Translated(rest));
  }

  /** Reading lines is translating all breaks and splitting at them; the empty part
      after a final break is no line. */
  lemma {:induction false} LinesAreParts(s: string)
    ensures Split(Translated(s), "\n") == ReadLines(s) + Tail(s)
    decreases |s|
  {
    if FirstBreak(s) == |s| {
      OneLine(s);
    } else {
      var front, rest := SameFront(s);
      LinesAreParts(rest);
      Regroup([front], ReadLines(rest), Tail(rest));
    }
  }
}
