/** The separator of log lines: what splitting a text that was joined by it finds,
    also where the text before runs into the separator. */
module Separator {
  import opened Text

  const SEP: string := " | "

  function LastOf(parts: seq<string>): string
    requires parts != []
  {
    parts[|parts| - 1]
  }

  predicate EndsInBar(s: string) {
    |s| >= 2 && s[|s| - 2..] == " |"
  }

  // ------------------------------------------------------- Strings

  lemma DropNothing(b: string)
    ensures "" + b == b
  {
  }

  lemma SliceConcat(a: string, b: string, i: nat, n: nat)
    requires i <= n <= |a|
    ensures (a + b)[..i] == a[..i] && (a + b)[n..] == a[n..] + b
  {
  }

  lemma Regroup<T>(a: seq<T>, b: seq<T>, c: seq<T>)
    ensures a + (b + c) == a + b + c
  {
  }

  lemma RegroupFour(a: string, b: string, c: string, d: string)
    ensures a + (b + c + d) == a + b + c + d
  {
  }

  lemma SamePrefix(a: string, b: string, tail: string)
    requires a + SEP + tail == b + SEP + tail
    ensures a == b
  {
    assert |a + SEP + tail| == |b + SEP + tail|;
    assert a == (a + SEP + tail)[..|a|] && b == (b + SEP + tail)[..|b|];
  }

  // ------------------------------------------------------- Joining

  lemma {:induction false} JoinSnoc(parts: seq<string>, last: string, sep: string)
    requires parts != []
    ensures Join(parts + [last], sep) == Join(parts, sep) + sep + last
  {
    if |parts| == 1 {
      assert (parts + [last])[1..] == [last];
    } else {
      assert (parts + [last])[1..] == parts[1..] + [last];
      JoinSnoc(parts[1..], last, sep);
    }
  }

  /** A part that holds the separator is joined like two parts. */
  lemma {:induction false} JoinSplits(front: seq<string>, a: string, b: string, rest: seq<string>, sep: string)
    requires rest != []
    ensures Join(front + [a + sep + b] + rest, sep) == Join(front + [a, b] + rest, sep)
  {
    var one, two := front + [a + sep + b] + rest, front + [a, b] + rest;
    if front == [] {
      assert one[1..] == rest && two[1..] == [b] + rest && ([b] + rest)[1..] == rest;
    } else {
      assert one[1..] == front[1..] + [a + sep + b] + rest && two[1..] == front[1..] + [a, b] + rest;
      JoinSplits(front[1..], a, b, rest, sep);
    }
  }

  /** The parts before the last one, joined, are the text before the last part. */
  lemma PartsRestore(parts: seq<string>, x: string, h: string)
    requires |parts| == 7 && LastOf(parts) == h && Join(parts, SEP) == x + SEP + h
    ensures Join(parts[..6], SEP) == x
  {
    assert parts == parts[..6] + [h];
    JoinSnoc(parts[..6], h, SEP);
    SamePrefix(Join(parts[..6], SEP), x, h);
  }

  // ------------------------------------------------------- Finding

  lemma OccursIn(text: string, i: nat)
    ensures OccursAt(text, SEP, i) <==> i + 2 < |text| && text[i] == ' ' && text[i + 1] == '|' && text[i + 2] == ' '
  {
  }

  lemma FoundAt(text: string, i: nat)
    requires OccursAt(text, SEP, i) && forall j: nat :: j < i ==> !OccursAt(text, SEP, j)
    ensures FindFrom(text, SEP, 0) == i
  {
  }

  /** The first separator of a text that continues. */
  lemma FindInFront(x: string, rest: string)
    requires FindFrom(x, SEP, 0) >= 0
    ensures FindFrom(x + rest, SEP, 0) == FindFrom(x, SEP, 0)
  {
    var i := FindFrom(x, SEP, 0);
    forall j: nat | j <= i
      ensures OccursAt(x + rest, SEP, j) <==> OccursAt(x, SEP, j)
    {
      OccursIn(x, i);
      OccursIn(x, j);
      OccursIn(x + rest, j);
    }
    FoundAt(x + rest, i);
  }

  lemma SeamOccurs(x: string, rest: string, j: nat)
    requires j <= |x| && !OccursAt(x, SEP, j)
    ensures OccursAt(x + SEP + rest, SEP, j) <==> j == |x| || (j + 2 == |x| && EndsInBar(x))
  {
    var text := x + SEP + rest;
    OccursIn(text, j);
    OccursIn(x, j);
    assert text[|x|] == ' ' && text[|x| + 1] == '|' && text[|x| + 2] == ' ';
    if |x| >= 2 {
      assert x[|x| - 2..] == [x[|x| - 2], x[|x| - 1]];
    }
  }

  /** The separator at the seam, unless the text before runs into it. */
  lemma FindAtSeam(x: string, rest: string)
    requires FindFrom(x, SEP, 0) < 0
    ensures FindFrom(x + SEP + rest, SEP, 0) == if EndsInBar(x) then |x| - 2 else |x|
  {
    var i := if EndsInBar(x) then |x| - 2 else |x|;
    forall j: nat | j <= i
      ensures OccursAt(x + SEP + rest, SEP, j) <==> j == i
    {
      SeamOccurs(x, rest, j);
    }
    FoundAt(x + SEP + rest, i);
  }

  // ------------------------------------------------------- Splitting

  lemma SplitStep(text: string, i: nat)
    requires FindFrom(text, SEP, 0) == i
    ensures Split(text, SEP) == [text[..i]] + Split(text[i + 3..], SEP)
  {
  }

  lemma SplitNone(text: string)
    requires FindFrom(text, SEP, 0) < 0
    ensures Split(text, SEP) == [text]
  {
  }

  /** Both texts go on alike after the first separator of the one in front. */
  lemma SplitFront(x: string, rest: string)
    requires FindFrom(x, SEP, 0) >= 0
    ensures var i := FindFrom(x, SEP, 0);
            && Split(x, SEP) == [x[..i]] + Split(x[i + 3..], SEP)
            && Split(x + SEP + rest, SEP) == [x[..i]] + Split(x[i + 3..] + SEP + rest, SEP)
  {
    var i := FindFrom(x, SEP, 0);
    FindInFront(x, SEP + rest);
    SplitStep(x, i);
    SplitStep(x + (SEP + rest), i);
    SliceConcat(x, SEP + rest, i, i + 3);
    Regroup(x, SEP, rest);
    Regroup(x[i + 3..], SEP, rest);
  }

  lemma LastOfRest(first: string, rest: seq<string>)
    requires rest != []
    ensures LastOf([first] + rest) == LastOf(rest)
  {
  }

  /** Splitting goes on after the separator at the seam. */
  lemma {:induction false} SplitAtSeam(x: string, rest: string)
    requires !EndsInBar(LastOf(Split(x, SEP)))
    ensures Split(x + SEP + rest, SEP) == Split(x, SEP) + Split(rest, SEP)
    decreases |x|
  {
    var i := FindFrom(x, SEP, 0);
    if i < 0 {
      var text := x + SEP + rest;
      SplitNone(x);
      FindAtSeam(x, rest);
      SplitStep(text, |x|);
      assert text[..|x|] == x && text[|x| + 3..] == rest;
    } else {
      SplitFront(x, rest);
      LastOfRest(x[..i], Split(x[i + 3..], SEP));
      SplitAtSeam(x[i + 3..], rest);
      Regroup([x[..i]], Split(x[i + 3..], SEP), Split(rest, SEP));
    }
  }

  lemma BarSlices(x: string, rest: string)
    requires EndsInBar(x)
    ensures var text := x + SEP + rest; text[..|x| - 2] == x[..|x| - 2] && text[|x| - 2 + 3..] == "| " + rest
  {
  }

  lemma SplitBar(x: string, rest: string)
    requires FindFrom(x, SEP, 0) < 0 && EndsInBar(x)
    ensures Split(x + SEP + rest, SEP) == [x[..|x| - 2]] + Split("| " + rest, SEP)
  {
    var text := x + SEP + rest;
    FindAtSeam(x, rest);
    SplitStep(text, |x| - 2);
    BarSlices(x, rest);
  }

  /** A part that ends in a bar loses it to the seam. */
  lemma {:induction false} SplitOverSeam(x: string, rest: string) returns (front: seq<string>)
    requires EndsInBar(LastOf(Split(x, SEP)))
    ensures |front| == |Split(x, SEP)| && Split(x + SEP + rest, SEP) == front + Split("| " + rest, SEP)
    decreases |x|
  {
    var i := FindFrom(x, SEP, 0);
    if i < 0 {
      SplitNone(x);
      SplitBar(x, rest);
      front := [x[..|x| - 2]];
    } else {
      SplitFront(x, rest);
      LastOfRest(x[..i], Split(x[i + 3..], SEP));
      var more := SplitOverSeam(x[i + 3..], rest);
      Regroup([x[..i]], more, Split("| " + rest, SEP));
      front := [x[..i]] + more;
    }
  }

  lemma SplitPlain(s: string)
    requires '|' !in s
    ensures Split(s, SEP) == [s]
  {
  }

  /** The last part of a text is what follows its last separator, if no bar comes
      right before that. */
  lemma {:induction false} LastPart(x: string, h: string)
    requires '|' !in h && (x == "" || x[|x| - 1] != '|')
    ensures LastOf(Split(x + SEP + h, SEP)) == h
    decreases |x|
  {
    var i := FindFrom(x, SEP, 0);
    if i < 0 {
      SplitNone(x);
      SplitAtSeam(x, h);
      SplitPlain(h);
    } else {
      SplitFront(x, h);
      LastPart(x[i + 3..], h);
      LastOfRest(x[..i], Split(x[i + 3..] + SEP + h, SEP));
    }
  }

  lemma SplitHashes(x: string, h: string)
    requires Split(x, SEP) == [x] && !EndsInBar(x) && '|' !in h
    ensures Split(x + SEP + h, SEP) == [x, h]
  {
    SplitAtSeam(x, h);
    SplitPlain(h);
  }

  lemma PlainHasNoBar(s: string)
    requires '|' !in s
    ensures !EndsInBar(s)
  {
    if |s| >= 2 {
      assert s[|s| - 2..][1] == s[|s| - 1];
    }
  }

  lemma PartsOfTail(prev: string, h: string)
    requires '|' !in prev && '|' !in h
    ensures Split(prev + SEP + h, SEP) == [prev, h]
  {
    SplitPlain(prev);
    PlainHasNoBar(prev);
    SplitHashes(prev, h);
  }

  lemma PlainParts(body: string, tail: string, prev: string, h: string)
    requires !EndsInBar(LastOf(Split(body, SEP))) && Split(tail, SEP) == [prev, h]
    ensures Split(body + SEP + tail, SEP) == Split(body, SEP) + [prev, h]
  {
    SplitAtSeam(body, tail);
  }

  lemma MergedParts(body: string, tail: string, prev: string, h: string)
    requires EndsInBar(LastOf(Split(body, SEP))) && Split("| " + tail, SEP) == ["| " + prev, h]
    ensures var parts := Split(body + SEP + tail, SEP);
            |parts| == |Split(body, SEP)| + 2 && parts[|Split(body, SEP)|] == "| " + prev != prev
  {
    var front := SplitOverSeam(body, tail);
    assert |"| " + prev| == |prev| + 2;
  }

  // ------------------------------------------------------- Stripping

  /** Stripping a text that ends in a visible character takes away only leading
      whitespace. */
  lemma {:induction false} StripKeepsTail(x: string, tail: string, k: nat) returns (y: string)
    requires k < |x| && !IsSpace(x[k]) && tail != "" && !IsSpace(tail[|tail| - 1])
    ensures Strip(x + tail) == y + tail && 0 < |y| <= |x| && y == x[|x| - |y|..]
    ensures y == x <==> !IsSpace(x[0])
  {
    var s := x + tail;
    assert StripRight(s) == s;
    if IsSpace(x[0]) {
      y := StripKeepsTail(x[1..], tail, k - 1);
      assert s[1..] == x[1..] + tail;
      assert StripRight(s[1..]) == s[1..];
    } else {
      y := x;
    }
  }
}
