/** Which runs of the file log verify: after an acceptable event, exactly those whose
    every event was acceptable. */
module AuditFileRuns {
  import opened Text
  import opened Separator
  import opened AuditFile

  // ------------------------------------------------------- Text and lines

  lemma UnbrokenConcat(a: string, b: string)
    ensures Unbroken(a + b) <==> Unbroken(a) && Unbroken(b)
  {
    if Unbroken(a + b) {
      forall i | 0 <= i < |a|
        ensures !IsBreak(a[i])
      {
        assert (a + b)[i] == a[i];
      }
      forall i | 0 <= i < |b|
        ensures !IsBreak(b[i])
      {
        assert (a + b)[|a| + i] == b[i];
      }
    }
  }

  lemma {:induction false} UnbrokenJoin(parts: seq<string>)
    ensures Unbroken(Join(parts, SEP)) <==> forall f :: f in parts ==> Unbroken(f)
  {
    if |parts| == 1 {
      assert parts[0] in parts;
    } else if |parts| > 1 {
      UnbrokenConcat(parts[0] + SEP, Join(parts[1..], SEP));
      UnbrokenConcat(parts[0], SEP);
      UnbrokenJoin(parts[1..]);
      assert parts == [parts[0]] + parts[1..];
      assert parts[0] in parts;
    }
  }

  /** The file ends a line. */
  predicate Ended(s: string) {
    s != "" && s[|s| - 1] == '\n'
  }

  lemma FirstBreakIs(s: string, i: nat)
    requires i < |s| && IsBreak(s[i]) && forall j :: 0 <= j < i ==> !IsBreak(s[j])
    ensures FirstBreak(s) == i
  {
  }

  lemma SameBreak(a: string, b: string)
    requires Ended(a)
    ensures FirstBreak(a) < |a| && FirstBreak(a + b) == FirstBreak(a)
    ensures AfterBreak(a + b, FirstBreak(a)) == AfterBreak(a, FirstBreak(a))
  {
    var i := FirstBreak(a);
    FirstBreakIs(a + b, i);
    assert (a + b)[i] == a[i] && (i + 1 < |a| ==> (a + b)[i + 1] == a[i + 1]);
  }

  lemma ReadStep(s: string, i: nat, n: nat)
    requires i < |s| && FirstBreak(s) == i && AfterBreak(s, i) == n
    ensures ReadLines(s) == [s[..i]] + ReadLines(s[n..])
  {
  }

  lemma RestIsEnded(a: string, n: nat)
    requires Ended(a) && n <= |a|
    ensures a[n..] == "" || Ended(a[n..])
  {
  }

  /** Both texts begin with the same line and go on alike. */
  lemma ReadFront(a: string, b: string) returns (front: string, rest: string)
    requires Ended(a)
    ensures |rest| < |a| && (rest == "" || Ended(rest))
    ensures ReadLines(a) == [front] + ReadLines(rest) && ReadLines(a + b) == [front] + ReadLines(rest + b)
  {
    SameBreak(a, b);
    var i := FirstBreak(a);
    var n := AfterBreak(a, i);
    front, rest := a[..i], a[n..];
    RestIsEnded(a, n);
    SliceConcat(a, b, i, n);
    ReadStep(a, i, n);
    ReadStep(a + b, i, n);
  }

  /** What is appended to an ended text is read after it. */
  lemma {:induction false} ReadConcat(a: string, b: string)
    requires Ended(a)
    ensures ReadLines(a + b) == ReadLines(a) + ReadLines(b)
    decreases |a|
  {
    var front, rest := ReadFront(a, b);
    if rest == "" {
      DropNothing(b);
    } else {
      ReadConcat(rest, b);
      Regroup([front], ReadLines(rest), ReadLines(b));
    }
  }

  lemma ReadOne(x: string)
    requires Unbroken(x)
    ensures ReadLines(x + "\n") == [x]
  {
    var s := x + "\n";
    FirstBreakIs(s, |x|);
    assert s[..|x|] == x && s[|x| + 1..] == "";
  }

  // ------------------------------------------------------- A printed line

  lemma DigestIsPlain(s: string)
    requires IsDigest(s)
    ensures '|' !in s && Unbroken(s) && !IsSpace(s[|s| - 1])
  {
  }

  lemma BarPrefix(prev: string)
    requires IsHash(prev)
    ensures Split("| " + prev, SEP) == ["| " + prev] && !EndsInBar("| " + prev)
  {
    var x := "| " + prev;
    var i := FindFrom(x, SEP, 0);
    if i >= 0 {
      OccursIn(x, i);
    }
    SplitNone(x);
    assert x[|x| - 2..][1] == x[|x| - 1];
  }

  lemma PartsOfBarTail(prev: string, h: string)
    requires IsHash(prev) && '|' !in h
    ensures Split("| " + (prev + SEP + h), SEP) == ["| " + prev, h]
  {
    BarPrefix(prev);
    SplitHashes("| " + prev, h);
    RegroupFour("| ", prev, SEP, h);
  }

  /** The parts of a line: those of its body, then the two hashes, unless the body
      runs into the separator behind it. */
  lemma LineParts(body: string, prev: string, h: string)
    requires IsHash(prev) && IsDigest(h)
    ensures var bodyParts, parts := Split(body, SEP), Split(body + SEP + (prev + SEP + h), SEP);
            && |parts| == |bodyParts| + 2
            && if EndsInBar(LastOf(bodyParts)) then parts[|bodyParts|] != prev else parts == bodyParts + [prev, h]
  {
    DigestIsPlain(h);
    if EndsInBar(LastOf(Split(body, SEP))) {
      PartsOfBarTail(prev, h);
      MergedParts(body, prev + SEP + h, prev, h);
    } else {
      PartsOfTail(prev, h);
      PlainParts(body, prev + SEP + h, prev, h);
    }
  }

  // ------------------------------------------------------- What a scan accepts

  /** The hash after a list of accepted contents. */
  function Head(xs: seq<string>, sha: string -> string): string {
    if xs == [] then "" else sha(LastOf(xs))
  }

  function TraceParts(parts: seq<string>, xs: seq<string>, sha: string -> string): Option<seq<string>> {
    if |parts| != 7 then Some(xs)
    else if parts[5] != Head(xs, sha) then None
    else if sha(Join(parts[..6], SEP)) != parts[6] then None
    else Some(xs + [Join(parts[..6], SEP)])
  }

  /** A scan that remembers the contents it accepted. */
  function TraceLine(line: string, xs: seq<string>, sha: string -> string): Option<seq<string>> {
    if "#" <= line then Some(xs) else TraceParts(Split(Strip(line), SEP), xs, sha)
  }

  function Trace(lines: seq<string>, xs: seq<string>, sha: string -> string): Option<seq<string>>
    decreases |lines|
  {
    if lines == [] then Some(xs)
    else
      var next := TraceLine(lines[0], xs, sha);
      if next.None? then None else Trace(lines[1..], next.value, sha)
  }

  lemma {:induction false} ScanIsTrace(lines: seq<string>, xs: seq<string>, sha: string -> string)
    ensures var r := Trace(lines, xs, sha);
            Scan(lines, Head(xs, sha), sha) == if r.None? then None else Some(Head(r.value, sha))
    decreases |lines|
  {
    if lines != [] {
      var next := TraceLine(lines[0], xs, sha);
      assert ScanLine(lines[0], Head(xs, sha), sha) == if next.None? then None else Some(Head(next.value, sha));
      if next.Some? {
        ScanIsTrace(lines[1..], next.value, sha);
      }
    }
  }

  lemma {:induction false} TraceConcat(a: seq<string>, b: seq<string>, xs: seq<string>, sha: string -> string)
    ensures var r := Trace(a, xs, sha); Trace(a + b, xs, sha) == if r.None? then None else Trace(b, r.value, sha)
    decreases |a|
  {
    if a == [] {
      assert a + b == b;
    } else {
      assert (a + b)[1..] == a[1..] + b;
      var next := TraceLine(a[0], xs, sha);
      if next.Some? {
        TraceConcat(a[1..], b, next.value, sha);
      }
    }
  }

  /** x names prev as the hash before it. */
  ghost predicate Names(x: string, prev: string) {
    |x| >= |prev| + 3 && x[|x| - |prev| - 3..] == SEP + prev
  }

  lemma NamesOne(x: string, p: string, q: string)
    requires IsHash(p) && IsHash(q) && Names(x, p) && Names(x, q)
    ensures p == q
  {
    assert x[|x| - |p| - 2] == (SEP + p)[1] == '|';
    assert x[|x| - |q| - 2] == (SEP + q)[1] == '|';
    if |p| < |q| {
      BarIsOutside(x, p, q);
    } else if |q| < |p| {
      BarIsOutside(x, q, p);
    } else {
      assert p == (SEP + p)[3..] && q == (SEP + q)[3..];
    }
  }

  lemma BarIsOutside(x: string, p: string, q: string)
    requires |p| < |q| && IsHash(q) && Names(x, q) && |x| >= |p| + 3
    ensures x[|x| - |p| - 2] != '|'
  {
  }

  /** Each content names the hash of the one before. */
  ghost predicate Chain(xs: seq<string>, sha: string -> string) {
    xs != [] ==> Chain(xs[..|xs| - 1], sha) && Names(LastOf(xs), Head(xs[..|xs| - 1], sha))
  }

  lemma ChainSnoc(xs: seq<string>, x: string, sha: string -> string)
    requires Chain(xs, sha) && Names(x, Head(xs, sha))
    ensures Chain(xs + [x], sha)
  {
  }

  lemma HeadIsHash(xs: seq<string>, sha: string -> string)
    requires Hashing(sha)
    ensures IsHash(Head(xs, sha)) && (Head(xs, sha) == "" <==> xs == [])
  {
  }

  lemma SameHash(x: string, y: string, sha: string -> string)
    requires Hashing(sha) && sha(x) == sha(y)
    ensures x == y
  {
  }

  lemma SameEnds(xs: seq<string>, ys: seq<string>)
    requires xs != [] && ys != [] && LastOf(xs) == LastOf(ys) && xs[..|xs| - 1] == ys[..|ys| - 1]
    ensures xs == ys
  {
  }

  /** The last hash fixes the whole chain. */
  lemma {:induction false} SameHeadSameChain(xs: seq<string>, ys: seq<string>, sha: string -> string)
    requires Hashing(sha) && Chain(xs, sha) && Chain(ys, sha) && Head(xs, sha) == Head(ys, sha)
    ensures xs == ys
    decreases |xs|
  {
    HeadIsHash(xs, sha);
    HeadIsHash(ys, sha);
    if xs != [] {
      var xs', ys' := xs[..|xs| - 1], ys[..|ys| - 1];
      SameHash(LastOf(xs), LastOf(ys), sha);
      HeadIsHash(xs', sha);
      HeadIsHash(ys', sha);
      NamesOne(LastOf(xs), Head(xs', sha), Head(ys', sha));
      SameHeadSameChain(xs', ys', sha);
      SameEnds(xs, ys);
    }
  }

  // ------------------------------------------------------- One event

  lemma BodyBegins(e: Event)
    ensures |Body(e)| >= 3 && Body(e)[0] == if e.kind == "" then ' ' else e.kind[0]
  {
  }

  lemma ContentNames(body: string, prev: string)
    ensures Names(body + SEP + prev, prev)
  {
  }

  /** Any text that ends in a separator and a digest: if its seven parts are
      accepted, the text before is. */
  lemma AcceptedText(y: string, h: string, xs: seq<string>, sha: string -> string)
    requires IsDigest(h) && y != "" && y[|y| - 1] != '|'
    ensures var r := TraceParts(Split(y + SEP + h, SEP), xs, sha);
            r.Some? ==> r.value == xs || (r.value == xs + [y] && sha(y) == h)
  {
    var parts := Split(y + SEP + h, SEP);
    DigestIsPlain(h);
    LastPart(y, h);
    if |parts| == 7 {
      PartsRestore(parts, y, h);
    }
  }

  lemma ContentEnds(body: string, prev: string)
    requires IsHash(prev)
    ensures var x := body + SEP + prev; x[|body| + 1] == '|' && x[|x| - 1] != '|'
  {
  }

  /** Stripping a line takes away leading whitespace of the kind, or of the
      separator after an empty kind. */
  lemma StrippedLine(e: Event, prev: string, h: string) returns (y: string)
    requires IsHash(prev) && IsDigest(h)
    ensures Strip(Content(e, prev) + SEP + h) == y + SEP + h && y != "" && y[|y| - 1] != '|'
    ensures y == Content(e, prev) <==> e.kind != "" && !IsSpace(e.kind[0])
  {
    var x := Content(e, prev);
    ContentEnds(Body(e), prev);
    DigestIsPlain(h);
    BodyBegins(e);
    y := StripKeepsTail(x, SEP + h, |Body(e)| + 1);
    Regroup(x, SEP, h);
    Regroup(y, SEP, h);
    assert y[|y| - 1] == x[|x| - 1];
  }

  /** Nothing is stripped from the line of such an event. */
  lemma WordLine(e: Event, prev: string, xs: seq<string>, sha: string -> string)
    requires Hashing(sha) && IsHash(prev) && WordKind(e)
    ensures var h := sha(Content(e, prev));
            TraceLine(Line(e, prev, sha), xs, sha) == TraceParts(Split(Body(e) + SEP + (prev + SEP + h), SEP), xs, sha)
  {
    BodyBegins(e);
    var y := StrippedLine(e, prev, sha(Content(e, prev)));
    LineRegroup(Body(e), prev, sha(Content(e, prev)));
  }

  /** The line of any other event is passed over or refused. */
  lemma OtherLine(e: Event, prev: string, xs: seq<string>, sha: string -> string)
    requires Hashing(sha) && IsHash(prev) && !WordKind(e)
    ensures var r := TraceLine(Line(e, prev, sha), xs, sha); r.Some? ==> r.value == xs
  {
    var x, h := Content(e, prev), sha(Content(e, prev));
    BodyBegins(e);
    if e.kind == "" || e.kind[0] != '#' {
      var y := StrippedLine(e, prev, h);
      AcceptedText(y, h, xs, sha);
      if sha(y) == h {
        SameHash(y, x, sha);
      }
    }
  }

  lemma SevenParts(bodyParts: seq<string>, h: string, xs: seq<string>, sha: string -> string)
    requires |bodyParts| == 5 && h == sha(Join(bodyParts, SEP) + SEP + Head(xs, sha))
    ensures TraceParts(bodyParts + [Head(xs, sha), h], xs, sha) ==
            Some(xs + [Join(bodyParts, SEP) + SEP + Head(xs, sha)])
  {
    var prev := Head(xs, sha);
    assert (bodyParts + [prev, h])[..6] == bodyParts + [prev];
    JoinSnoc(bodyParts, prev, SEP);
  }

  lemma SyncedParts(body: string, h: string, xs: seq<string>, sha: string -> string)
    requires Hashing(sha) && h == sha(body + SEP + Head(xs, sha))
    ensures var prev, parts := Head(xs, sha), Split(body, SEP);
            var r := TraceParts(Split(body + SEP + (prev + SEP + h), SEP), xs, sha);
            if |parts| == 5 && !EndsInBar(LastOf(parts)) then r == Some(xs + [body + SEP + prev])
            else r.Some? ==> r.value == xs
  {
    HeadIsHash(xs, sha);
    LineParts(body, Head(xs, sha), h);
    if |Split(body, SEP)| == 5 {
      SevenParts(Split(body, SEP), h, xs, sha);
    }
  }

  /** After exactly its predecessors, an event's line is accepted if and only if the
      event is readable. */
  lemma SyncedLine(e: Event, xs: seq<string>, sha: string -> string)
    requires Hashing(sha)
    ensures var prev := Head(xs, sha); var r := TraceLine(Line(e, prev, sha), xs, sha);
            if Readable(e) then r == Some(xs + [Content(e, prev)]) else r.Some? ==> r.value == xs
  {
    HeadIsHash(xs, sha);
    if WordKind(e) {
      WordLine(e, Head(xs, sha), xs, sha);
      SyncedParts(Body(e), sha(Content(e, Head(xs, sha))), xs, sha);
    } else {
      OtherLine(e, Head(xs, sha), xs, sha);
    }
  }

  lemma LineRegroup(body: string, prev: string, h: string)
    ensures body + SEP + (prev + SEP + h) == body + SEP + prev + SEP + h
  {
  }

  /** After anything else a readable line is refused. */
  lemma StrayLine(e: Event, prev: string, xs: seq<string>, sha: string -> string)
    requires Hashing(sha) && IsHash(prev) && Readable(e) && Head(xs, sha) != prev
    ensures TraceLine(Line(e, prev, sha), xs, sha) == None
  {
    WordLine(e, prev, xs, sha);
    LineParts(Body(e), prev, sha(Content(e, prev)));
  }

  // ------------------------------------------------------- Whole traces

  ghost predicate AllUnbroken(xs: seq<string>) {
    forall x :: x in xs ==> Unbroken(x)
  }

  lemma {:induction false} UnbrokenStripLeft(s: string)
    requires Unbroken(s)
    ensures Unbroken(StripLeft(s))
  {
    if s != "" && IsSpace(s[0]) {
      UnbrokenStripLeft(s[1..]);
    }
  }

  lemma UnbrokenStrip(s: string)
    requires Unbroken(s)
    ensures Unbroken(Strip(s))
  {
    UnbrokenStripLeft(StripRight(s));
  }

  lemma AcceptedNames(parts: seq<string>)
    requires |parts| == 7
    ensures Names(Join(parts[..6], SEP), parts[5]) && (Unbroken(Join(parts, SEP)) ==> Unbroken(Join(parts[..6], SEP)))
  {
    assert parts[..6] == parts[..5] + [parts[5]] && parts == parts[..6] + [parts[6]];
    JoinSnoc(parts[..5], parts[5], SEP);
    JoinSnoc(parts[..6], parts[6], SEP);
    ContentNames(Join(parts[..5], SEP), parts[5]);
    UnbrokenConcat(Join(parts[..6], SEP) + SEP, parts[6]);
    UnbrokenConcat(Join(parts[..6], SEP), SEP);
  }

  /** A line adds at most one content, which names the one before. */
  lemma TracePartsGrows(parts: seq<string>, xs: seq<string>, sha: string -> string)
    requires Unbroken(Join(parts, SEP)) && Chain(xs, sha) && AllUnbroken(xs)
    ensures var r := TraceParts(parts, xs, sha);
            r.Some? ==> |r.value| <= |xs| + 1 && Chain(r.value, sha) && AllUnbroken(r.value)
  {
    if |parts| == 7 && parts[5] == Head(xs, sha) {
      AcceptedNames(parts);
      ChainSnoc(xs, Join(parts[..6], SEP), sha);
      UnbrokenSnoc(xs, Join(parts[..6], SEP));
    }
  }

  lemma TraceLineGrows(line: string, xs: seq<string>, sha: string -> string)
    requires Unbroken(line) && Chain(xs, sha) && AllUnbroken(xs)
    ensures var r := TraceLine(line, xs, sha);
            r.Some? ==> |r.value| <= |xs| + 1 && Chain(r.value, sha) && AllUnbroken(r.value)
  {
    UnbrokenStrip(line);
    TracePartsGrows(Split(Strip(line), SEP), xs, sha);
  }

  lemma UnbrokenSnoc(xs: seq<string>, x: string)
    requires AllUnbroken(xs) && Unbroken(x)
    ensures AllUnbroken(xs + [x])
  {
  }

  lemma {:induction false} TraceGrows(lines: seq<string>, xs: seq<string>, sha: string -> string)
    requires AllUnbroken(lines) && Chain(xs, sha) && AllUnbroken(xs)
    ensures var r := Trace(lines, xs, sha);
            r.Some? ==> |r.value| <= |xs| + |lines| && Chain(r.value, sha) && AllUnbroken(r.value)
    decreases |lines|
  {
    if lines != [] {
      TraceLineGrows(lines[0], xs, sha);
      var next := TraceLine(lines[0], xs, sha);
      if next.Some? {
        TraceGrows(lines[1..], next.value, sha);
      }
    }
  }

  // ------------------------------------------------------- The last hash is read back

  /** The hash is taken from what follows the last line break before the final
      character. */
  lemma LastHashAt(text: string, b: nat)
    requires b < |text| - 1 && text[b] == '\n' && forall k :: b < k < |text| - 1 ==> text[k] != '\n'
    ensures LastHash(text) == LastField(text[b + 1..])
  {
  }

  /** Without such a break there is none. */
  lemma NoLastHash(text: string)
    requires forall k :: 0 <= k < |text| - 1 ==> text[k] != '\n'
    ensures LastHash(text) == ""
  {
  }

  lemma StripBreak(s: string)
    requires s != "" && !IsSpace(s[|s| - 1])
    ensures Strip(s + "\n") == Strip(s)
  {
  }

  /** A line's last field is its hash, also of what is left behind a line break. */
  lemma LastFieldIsHash(w: string, prev: string, h: string)
    requires IsHash(prev) && IsDigest(h)
    ensures LastField(w + SEP + prev + SEP + h + "\n") == h
  {
    var x := w + SEP + prev;
    ContentEnds(w, prev);
    DigestIsPlain(h);
    var y := StripKeepsTail(x, SEP + h, |w| + 1);
    Regroup(x, SEP, h);
    Regroup(y, SEP, h);
    assert y[|y| - 1] == x[|x| - 1];
    StripBreak(x + SEP + h);
    LastPart(y, h);
  }

  lemma CutSlices(front: string, tail: string, b: nat)
    requires b < |front| && front[b] == '\n' && '\n' !in tail && forall k :: b < k < |front| ==> front[k] != '\n'
    ensures var text := front + tail + "\n";
            && text[b] == '\n' && text[b + 1..] == front[b + 1..] + tail + "\n"
            && forall k :: b < k < |text| - 1 ==> text[k] != '\n'
  {
  }

  lemma CutAtBreak(front: string, tail: string, b: nat)
    requires b < |front| && front[b] == '\n' && '\n' !in tail && forall k :: b < k < |front| ==> front[k] != '\n'
    ensures LastHash(front + tail + "\n") == LastField(front[b + 1..] + tail + "\n")
  {
    CutSlices(front, tail, b);
    LastHashAt(front + tail + "\n", b);
  }

  lemma TailRegroup(front: string, prev: string, h: string)
    ensures front + (SEP + prev + SEP + h) + "\n" == front + SEP + prev + SEP + h + "\n"
  {
  }

  lemma TextRegroup(text: string, body: string, prev: string, h: string)
    ensures text + (body + SEP + prev + SEP + h + "\n") == text + body + SEP + prev + SEP + h + "\n"
  {
  }

  lemma TailHasNoBreak(prev: string, h: string)
    requires IsHash(prev) && IsDigest(h)
    ensures '\n' !in SEP + prev + SEP + h
  {
  }

  /** Whatever was logged, opening the file again finds the last hash. */
  lemma LastHashReadBack(text: string, body: string, prev: string, h: string)
    requires Ended(text) && IsHash(prev) && IsDigest(h)
    ensures LastHash(text + (body + SEP + prev + SEP + h + "\n")) == h
  {
    var front := text + body;
    var b := LastBreak(front, |front|);
    assert front[|text| - 1] == '\n';
    TailHasNoBreak(prev, h);
    CutAtBreak(front, SEP + prev + SEP + h, b);
    TextRegroup(text, body, prev, h);
    TailRegroup(front, prev, h);
    TailRegroup(front[b + 1..], prev, h);
    LastFieldIsHash(front[b + 1..], prev, h);
  }

  // ------------------------------------------------------- Every run

  /** The state of a log whose events so far had these contents; `clean` says that
      all of them were acceptable. Then the scan accepts exactly them; otherwise it
      fails, or lacks one, or one of them can never be accepted as a line. */
  ghost predicate Inv(log: Log, contents: seq<string>, clean: bool, sha: string -> string) {
    Kept(log, contents, sha) && Scanned(Trace(ReadLines(log.text), [], sha), contents, clean)
  }

  ghost predicate Kept(log: Log, contents: seq<string>, sha: string -> string) {
    && Ended(log.text) && log.lastHash == Head(contents, sha) && Chain(contents, sha)
    && (contents != [] ==> LastHash(log.text) == log.lastHash)
  }

  ghost predicate Scanned(r: Option<seq<string>>, contents: seq<string>, clean: bool) {
    if clean then r == Some(contents) else r.Some? ==> |r.value| < |contents| || !AllUnbroken(contents)
  }

  /** What the scan has accepted is a chain of unbroken contents. */
  lemma TraceOf(text: string, sha: string -> string)
    ensures var r := Trace(ReadLines(text), [], sha); r.Some? ==> Chain(r.value, sha) && AllUnbroken(r.value)
  {
    TraceGrows(ReadLines(text), [], sha);
  }

  lemma LineUnbrokenIff(e: Event, prev: string, h: string)
    requires IsHash(prev) && IsDigest(h)
    ensures Unbroken(Content(e, prev)) <==> forall f :: f in Fields(e) ==> Unbroken(f)
    ensures Unbroken(Content(e, prev) + SEP + h) <==> Unbroken(Content(e, prev))
  {
    UnbrokenJoin(Fields(e));
    UnbrokenConcat(Body(e) + SEP, prev);
    UnbrokenConcat(Body(e), SEP);
    UnbrokenConcat(Content(e, prev) + SEP, h);
    UnbrokenConcat(Content(e, prev), SEP);
    DigestIsPlain(h);
    if prev != "" {
      DigestIsPlain(prev);
    }
  }

  /** The lines that logging adds are scanned after the others. */
  lemma TraceAppended(text: string, more: string, sha: string -> string)
    requires Ended(text)
    ensures var r := Trace(ReadLines(text), [], sha);
            Trace(ReadLines(text + more), [], sha) == if r.None? then None else Trace(ReadLines(more), r.value, sha)
  {
    ReadConcat(text, more);
    TraceConcat(ReadLines(text), ReadLines(more), [], sha);
  }

  lemma TraceOne(line: string, xs: seq<string>, sha: string -> string)
    requires Unbroken(line)
    ensures Trace(ReadLines(line + "\n"), xs, sha) == TraceLine(line, xs, sha)
  {
  }

  /** A broken event leaves a content that no line can hold. */
  lemma BrokenSnoc(xs: seq<string>, x: string)
    requires !Unbroken(x)
    ensures !AllUnbroken(xs + [x])
  {
  }

  lemma UnbrokenStep(log: Log, contents: seq<string>, clean: bool, e: Event, sha: string -> string)
    requires Hashing(sha) && Inv(log, contents, clean, sha) && Unbroken(Line(e, log.lastHash, sha))
    ensures Scanned(Trace(ReadLines(LogEvent(log, e, sha).text), [], sha), contents + [Content(e, log.lastHash)],
                    clean && Readable(e))
  {
    var line := Line(e, log.lastHash, sha);
    TraceAppended(log.text, line + "\n", sha);
    var r := Trace(ReadLines(log.text), [], sha);
    if r.Some? {
      TraceOne(line, r.value, sha);
      if clean {
        SyncedLine(e, contents, sha);
      } else {
        TraceOf(log.text, sha);
        TraceLineGrows(line, r.value, sha);
        StaysBroken(contents, Content(e, log.lastHash));
      }
    }
  }

  lemma StaysBroken(xs: seq<string>, x: string)
    ensures AllUnbroken(xs + [x]) ==> AllUnbroken(xs)
  {
  }

  lemma EventTrace(log: Log, contents: seq<string>, clean: bool, e: Event, sha: string -> string)
    requires Hashing(sha) && Inv(log, contents, clean, sha)
    ensures Scanned(Trace(ReadLines(LogEvent(log, e, sha).text), [], sha), contents + [Content(e, log.lastHash)],
                    clean && Acceptable(e))
  {
    HeadIsHash(contents, sha);
    LineUnbrokenIff(e, log.lastHash, sha(Content(e, log.lastHash)));
    if Unbroken(Content(e, log.lastHash)) {
      UnbrokenStep(log, contents, clean, e, sha);
    } else {
      BrokenSnoc(contents, Content(e, log.lastHash));
    }
  }

  lemma EventKept(log: Log, contents: seq<string>, e: Event, sha: string -> string)
    requires Hashing(sha) && Kept(log, contents, sha)
    ensures Kept(LogEvent(log, e, sha), contents + [Content(e, log.lastHash)], sha)
  {
    var prev, h := log.lastHash, sha(Content(e, log.lastHash));
    HeadIsHash(contents, sha);
    ContentNames(Body(e), prev);
    ChainSnoc(contents, Content(e, prev), sha);
    LastHashReadBack(log.text, Body(e), prev, h);
  }

  /** Logging any event keeps the invariant; the log stays clean exactly if the event
      is acceptable. */
  lemma LogKeepsInv(log: Log, contents: seq<string>, clean: bool, e: Event, sha: string -> string)
    requires Hashing(sha) && Inv(log, contents, clean, sha)
    ensures Inv(LogEvent(log, e, sha), contents + [Content(e, log.lastHash)], clean && Acceptable(e), sha)
  {
    EventKept(log, contents, e, sha);
    EventTrace(log, contents, clean, e, sha);
  }

  lemma {:induction false} RunKeepsInv(log: Log, contents: seq<string>, clean: bool, steps: seq<Step>,
                                       sha: string -> string)
    returns (contents': seq<string>)
    requires Hashing(sha) && Inv(log, contents, clean, sha) && contents != []
    ensures Inv(RunOf(log, steps, sha), contents', clean && AllAcceptable(steps), sha) && contents' != []
    decreases |steps|
  {
    if steps == [] {
      contents' := contents;
    } else {
      AcceptableSteps(steps);
      match steps[0]
      case DoLog(e) =>
        LogKeepsInv(log, contents, clean, e, sha);
        contents' := RunKeepsInv(LogEvent(log, e, sha), contents + [Content(e, log.lastHash)],
                                 clean && Acceptable(e), steps[1..], sha);
      case Reopen(timestamp) =>
        HeadIsHash(contents, sha);
        contents' := RunKeepsInv(log, contents, clean, steps[1..], sha);
    }
  }

  lemma AcceptableSteps(steps: seq<Step>)
    requires steps != []
    ensures AllAcceptable(steps) <==> (steps[0].DoLog? ==> Acceptable(steps[0].event)) && AllAcceptable(steps[1..])
  {
  }

  lemma HeadersInv(a: string, b: string, sha: string -> string)
    requires Unbroken(a) && Unbroken(b) && "#" <= a && "#" <= b
    ensures Inv(Log((a + "\n") + (b + "\n"), ""), [], true, sha)
  {
    ReadOne(a);
    ReadOne(b);
    ReadConcat(a + "\n", b + "\n");
    TwoComments(a, b, sha);
  }

  lemma EmptyInv(sha: string -> string)
    ensures Inv(Empty(), [], true, sha)
  {
    HeadersInv(Header(), SecondHeader(), sha);
  }

  lemma TwoComments(a: string, b: string, sha: string -> string)
    requires "#" <= a && "#" <= b
    ensures Trace([a] + [b], [], sha) == Some([])
  {
    var lines := [a] + [b];
    assert lines[1..] == [b] && [b][1..] == [];
    assert TraceLine(lines[0], [], sha) == Some([]);
    assert TraceLine([b][0], [], sha) == Some([]);
    assert Trace([b], [], sha) == Trace([], [], sha);
  }

  lemma RunInv(timestamp: string, steps: seq<Step>, sha: string -> string) returns (contents: seq<string>)
    requires Hashing(sha)
    ensures Inv(RunOf(Initial(timestamp, sha), steps, sha), contents,
                Acceptable(Genesis(timestamp)) && AllAcceptable(steps), sha) && contents != []
  {
    EmptyInv(sha);
    LogKeepsInv(Empty(), [], true, Genesis(timestamp), sha);
    contents := RunKeepsInv(Initial(timestamp, sha), [] + [Content(Genesis(timestamp), "")],
                            Acceptable(Genesis(timestamp)), steps, sha);
  }

  lemma VerifiesTrace(text: string, sha: string -> string)
    ensures Verifies(text, sha) <==> Trace(ReadLines(text), [], sha).Some?
  {
    ScanIsTrace(ReadLines(text), [], sha);
  }

  /** Opening any text: the hash in memory is the last one of the file that results,
      which is the text itself, or a new log if the text names no hash. */
  lemma OpenSyncs(text: string, timestamp: string, sha: string -> string)
    requires Hashing(sha)
    ensures var log := Open(text, timestamp, sha);
            && LastHash(log.text) == log.lastHash != ""
            && (if LastHash(text) == "" then log == Initial(timestamp, sha) else log.text == text)
  {
    EveryRunVerifies(timestamp, [], sha);
  }

  /** Whatever is logged, the file ends in the hash in memory; and while every event
      is acceptable, the file verifies, wherever it is closed and opened again. */
  lemma EveryRunVerifies(timestamp: string, steps: seq<Step>, sha: string -> string)
    requires Hashing(sha)
    ensures var log := RunOf(Initial(timestamp, sha), steps, sha);
            && LastHash(log.text) == log.lastHash != ""
            && (Acceptable(Genesis(timestamp)) && AllAcceptable(steps) ==> Verifies(log.text, sha))
  {
    var contents := RunInv(timestamp, steps, sha);
    InvFacts(RunOf(Initial(timestamp, sha), steps, sha), contents,
             Acceptable(Genesis(timestamp)) && AllAcceptable(steps), sha);
  }

  lemma InvFacts(log: Log, contents: seq<string>, clean: bool, sha: string -> string)
    requires Hashing(sha) && Inv(log, contents, clean, sha)
    ensures contents != [] ==> LastHash(log.text) == log.lastHash != ""
    ensures clean ==> Verifies(log.text, sha)
  {
    HeadIsHash(contents, sha);
    VerifiesTrace(log.text, sha);
  }

  /** A log that is not clean has left the scan behind for good. */
  lemma ScanLeftBehind(log: Log, contents: seq<string>, xs: seq<string>, sha: string -> string)
    requires Hashing(sha) && Inv(log, contents, false, sha)
    ensures Trace(ReadLines(log.text), [], sha) == Some(xs) ==> Head(xs, sha) != log.lastHash
  {
    TraceOf(log.text, sha);
    if Trace(ReadLines(log.text), [], sha) == Some(xs) && Head(xs, sha) == log.lastHash {
      SameHeadSameChain(xs, contents, sha);
    }
  }

  /** For every run of arbitrary events, with the file opened again anywhere: one more
      acceptable event leaves a file that verifies if and only if every event
      before was acceptable. */
  lemma VerifiesIff(timestamp: string, steps: seq<Step>, f: Event, sha: string -> string)
    requires Hashing(sha) && Acceptable(f)
    ensures Verifies(LogEvent(RunOf(Initial(timestamp, sha), steps, sha), f, sha).text, sha) <==>
            Acceptable(Genesis(timestamp)) && AllAcceptable(steps)
  {
    var log := RunOf(Initial(timestamp, sha), steps, sha);
    var contents := RunInv(timestamp, steps, sha);
    NextVerifiesIff(log, contents, Acceptable(Genesis(timestamp)) && AllAcceptable(steps), f, sha);
  }

  lemma NextVerifiesIff(log: Log, contents: seq<string>, clean: bool, f: Event, sha: string -> string)
    requires Hashing(sha) && Inv(log, contents, clean, sha) && Acceptable(f)
    ensures Verifies(LogEvent(log, f, sha).text, sha) <==> clean
  {
    var prev := log.lastHash;
    var line, r := Line(f, prev, sha), Trace(ReadLines(log.text), [], sha);
    HeadIsHash(contents, sha);
    LineUnbrokenIff(f, prev, sha(Content(f, prev)));
    VerifiesTrace(LogEvent(log, f, sha).text, sha);
    TraceAppended(log.text, line + "\n", sha);
    if r.Some? {
      TraceOne(line, r.value, sha);
      if clean {
        SyncedLine(f, contents, sha);
      } else {
        ScanLeftBehind(log, contents, r.value, sha);
        StrayLine(f, prev, r.value, sha);
      }
    }
  }

  /** Splitting a line printed from clean fields returns the seven fields. */
  lemma PrintedLineSplits(e: Event, prev: string, sha: string -> string)
    requires Hashing(sha) && IsHash(prev) && Clean(e)
    ensures Split(Line(e, prev, sha), SEP) == Fields(e) + [prev, sha(Content(e, prev))]
  {
    CleanIsAcceptable(e);
    LineParts(Body(e), prev, sha(Content(e, prev)));
    LineRegroup(Body(e), prev, sha(Content(e, prev)));
  }

  // ------------------------------------------------------- Examples

  lemma GenesisAcceptable(timestamp: string)
    requires PlainField(timestamp)
    ensures Acceptable(Genesis(timestamp))
  {
    assert PlainField("GENESIS");
    assert PlainField("SYSTEM");
    assert PlainField("Log Initialized");
    assert PlainField("Initial state.");
    CleanIsAcceptable(Genesis(timestamp));
  }

  /** One separator inside an otherwise clean target makes six parts. */
  lemma SeparatorInTarget(e: Event, a: string, b: string)
    requires e.target == a + SEP + b && Clean(e.(target := a)) && PlainField(b)
    ensures !Acceptable(e)
  {
    var front, rest := [e.kind, e.actor], [e.timestamp, e.details];
    var parts := front + [a, b] + rest;
    assert Fields(e) == front + [a + SEP + b] + rest;
    JoinSplits(front, a, b, rest, SEP);
    forall i | 0 <= i < |parts|
      ensures '|' !in parts[i]
    {
      assert parts[i] == b || parts[i] in Fields(e.(target := a));
    }
    assert Unmarked(parts, SEP, 1);
    SplitJoin(parts, SEP, 1);
  }

  lemma BrokenAfter(timestamp: string, e: Event, f: Event, sha: string -> string)
    requires Hashing(sha) && Acceptable(f) && !Acceptable(e)
    ensures !Verifies(LogEvent(LogEvent(Initial(timestamp, sha), e, sha), f, sha).text, sha)
  {
    VerifiesIff(timestamp, [DoLog(e)], f, sha);
    assert [DoLog(e)][1..] == [];
    assert RunOf(Initial(timestamp, sha), [DoLog(e)], sha) == LogEvent(Initial(timestamp, sha), e, sha);
    assert DoLog(e) in [DoLog(e)];
  }

  /** Three inputs that break the chain: a line break in the target, a separator in
      it, and a kind that looks like a comment. */
  lemma ThreeUnacceptable(actor: string, timestamp: string, details: string)
    requires PlainField(actor) && PlainField(timestamp) && PlainField(details)
    ensures !Acceptable(Event("K", actor, "a\nb", timestamp, details))
    ensures !Acceptable(Event("K", actor, "a | b", timestamp, details))
    ensures !Acceptable(Event("#K", actor, "a", timestamp, details))
  {
    var broken, split := Event("K", actor, "a\nb", timestamp, details), Event("K", actor, "a | b", timestamp, details);
    assert broken.target in Fields(broken) && IsBreak(broken.target[1]);
    assert split.target == "a" + SEP + "b" && PlainField("b") && PlainField("a") && PlainField("K");
    SeparatorInTarget(split, "a", "b");
  }
}
