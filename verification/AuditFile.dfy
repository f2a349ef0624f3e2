/** The audit log in a file: text that `log_event` appends to, that
    `verify_log_integrity` reads line by line and `_get_last_hash` from its end. */
module AuditFile {
  import opened Text
  import opened Separator

  datatype Event = Event(kind: string, actor: string, target: string, timestamp: string, details: string)

  // ------------------------------------------------------- Hashes

  /** A non-empty string of hexadecimal digits. */
  ghost predicate IsDigest(s: string) {
    s != "" && forall i :: 0 <= i < |s| ==> '0' <= s[i] <= '9' || 'a' <= s[i] <= 'f'
  }

  /** A hash, or the empty string that stands before the first one. */
  ghost predicate IsHash(s: string) {
    s == "" || IsDigest(s)
  }

  ghost predicate Injective(sha: string -> string) {
    forall s, t :: sha(s) == sha(t) ==> s == t
  }

  /** SHA-256, taken as injective. */
  ghost predicate Hashing(sha: string -> string) {
    (forall s :: IsDigest(sha(s))) && Injective(sha)
  }

  // ------------------------------------------------------- Writing

  function Fields(e: Event): (fs: seq<string>)
    ensures |fs| == 5
  {
    [e.kind, e.actor, e.target, e.timestamp, e.details]
  }

  function Body(e: Event): string {
    Join(Fields(e), SEP)
  }

  function Content(e: Event, prev: string): string {
    Body(e) + SEP + prev
  }

  function Line(e: Event, prev: string, sha: string -> string): string {
    Content(e, prev) + SEP + sha(Content(e, prev))
  }

  /** The text of the file, and the hash kept in memory. */
  datatype Log = Log(text: string, lastHash: string)

  /** `log_event` */
  function LogEvent(log: Log, e: Event, sha: string -> string): Log {
    Log(log.text + (Line(e, log.lastHash, sha) + "\n"), sha(Content(e, log.lastHash)))
  }

  // ------------------------------------------------------- Reading

  predicate IsBreak(c: char) {
    c == '\n' || c == '\r'
  }

  ghost predicate Unbroken(s: string) {
    forall i :: 0 <= i < |s| ==> !IsBreak(s[i])
  }

  /** The index of the first line break, or the length. */
  function FirstBreak(s: string): (i: nat)
    ensures i <= |s| && (i < |s| ==> IsBreak(s[i])) && forall j :: 0 <= j < i ==> !IsBreak(s[j])
  {
    if s == "" || IsBreak(s[0]) then 0 else 1 + FirstBreak(s[1..])
  }

  /** "\r\n" is one break. */
  function AfterBreak(s: string, i: nat): (n: nat)
    requires i < |s|
    ensures i < n <= |s|
  {
    if s[i] == '\r' && i + 1 < |s| && s[i + 1] == '\n' then i + 2 else i + 1
  }

  /** `readlines()` with universal newlines; without the breaks, which `strip`
      would remove. */
  function ReadLines(s: string): (lines: seq<string>)
    ensures forall line :: line in lines ==> Unbroken(line)
  {
    if s == "" then []
    else
      var i := FirstBreak(s);
      if i == |s| then [s] else [s[..i]] + ReadLines(s[AfterBreak(s, i)..])
  }

  /** One turn of the loop in `verify_log_integrity`: the running hash after the
      line, or None when the chain is broken there. */
  function ScanLine(line: string, current: string, sha: string -> string): Option<string> {
    if "#" <= line then Some(current)
    else
      var parts := Split(Strip(line), SEP);
      if |parts| != 7 then Some(current)
      else if parts[5] != current then None
      else if sha(Join(parts[..6], SEP)) != parts[6] then None
      else Some(parts[6])
  }

  function Scan(lines: seq<string>, current: string, sha: string -> string): Option<string>
    decreases |lines|
  {
    if lines == [] then Some(current)
    else
      var next := ScanLine(lines[0], current, sha);
      if next.None? then None else Scan(lines[1..], next.value, sha)
  }

  predicate Verifies(text: string, sha: string -> string) {
    Scan(ReadLines(text), "", sha).Some?
  }

  /** `verify_log_integrity`: a loop with a running hash. */
  method VerifyLogIntegrity(text: string, sha: string -> string) returns (ok: bool)
    ensures ok <==> Verifies(text, sha)
  {
    var lines := ReadLines(text);
    var current := "";
    for i := 0 to |lines|
      invariant Scan(lines, "", sha) == Scan(lines[i..], current, sha)
    {
      assert lines[i..][1..] == lines[i + 1..];
      if !("#" <= lines[i]) {
        var parts := Split(Strip(lines[i]), SEP);
        if |parts| == 7 {
          if parts[5] != current || sha(Join(parts[..6], SEP)) != parts[6] {
            return false;
          }
          current := parts[6];
        }
      }
    }
    ok := true;
  }

  /** The last "\n" before index i, or -1. */
  function LastBreak(text: string, i: nat): (b: int)
    requires i <= |text|
    ensures -1 <= b < i && (b >= 0 ==> text[b] == '\n') && forall k :: b < k < i ==> text[k] != '\n'
  {
    if i == 0 then -1 else if text[i - 1] == '\n' then i - 1 else LastBreak(text, i - 1)
  }

  function LastField(line: string): string {
    LastOf(Split(Strip(line), SEP))
  }

  /** What follows the last line break before the final character. */
  function LastLine(text: string): Option<string> {
    if |text| < 2 || LastBreak(text, |text| - 1) < 0 then None else Some(text[LastBreak(text, |text| - 1) + 1..])
  }

  /** What `_get_last_hash` returns: the last field of the last line, or the empty
      string when there is no line break before the last character. */
  function LastHash(text: string): string {
    if LastLine(text).None? then "" else LastField(LastLine(text).value)
  }

  /** Steps back from the character before the last one. */
  method FindLastBreak(text: string) returns (i: int)
    requires |text| >= 2
    ensures i == LastBreak(text, |text| - 1)
  {
    i := |text| - 2;
    while i >= 0 && text[i] != '\n'
      invariant -1 <= i <= |text| - 2
      invariant LastBreak(text, |text| - 1) == LastBreak(text, i + 1)
    {
      i := i - 1;
    }
  }

  /** `_get_last_hash` */
  method GetLastHash(text: string) returns (hash: string)
    ensures hash == LastHash(text)
  {
    if |text| < 2 {
      return "";
    }
    var i := FindLastBreak(text);
    return if i < 0 then "" else LastField(text[i + 1..]);
  }

  // ------------------------------------------------------- Runs

  /** The two comment lines at the top of a new file. */
  function Header(): (text: string)
    ensures Unbroken(text) && "#" <= text
  {
    "#" + " Audit Log - Chain of Custody Simulator"
  }

  function SecondHeader(): (text: string)
    ensures Unbroken(text) && "#" <= text
  {
    "#" + SecondHeaderWords() + SecondHeaderEnd()
  }

  function SecondHeaderWords(): (text: string)
    ensures Unbroken(text)
  {
    " Each entry is chained by "
  }

  function SecondHeaderEnd(): (text: string)
    ensures Unbroken(text)
  {
    "hashing the previous entry's hash."
  }

  function Genesis(timestamp: string): Event {
    Event("GENESIS", "SYSTEM", "Log Initialized", timestamp, "Initial state.")
  }

  function Empty(): Log {
    Log((Header() + "\n") + (SecondHeader() + "\n"), "")
  }

  /** `_initialize_log` */
  function Initial(timestamp: string, sha: string -> string): Log {
    LogEvent(Empty(), Genesis(timestamp), sha)
  }

  /** Opening a file: a text without a last hash is replaced by a new log. */
  function Open(text: string, timestamp: string, sha: string -> string): Log {
    if LastHash(text) == "" then Initial(timestamp, sha) else Log(text, LastHash(text))
  }

  datatype Step = DoLog(event: Event) | Reopen(timestamp: string)

  function Apply(log: Log, s: Step, sha: string -> string): Log {
    match s
    case DoLog(e) => LogEvent(log, e, sha)
    case Reopen(timestamp) => Open(log.text, timestamp, sha)
  }

  function RunOf(log: Log, steps: seq<Step>, sha: string -> string): Log
    decreases |steps|
  {
    if steps == [] then log else RunOf(Apply(log, steps[0], sha), steps[1..], sha)
  }

  // ------------------------------------------------------- Acceptable events

  /** The kind begins like a word. */
  ghost predicate WordKind(e: Event) {
    e.kind != "" && e.kind[0] != '#' && !IsSpace(e.kind[0])
  }

  /** The line is neither a comment nor stripped, and its fields joined by the
      separator fall into five parts again, of which the last cannot run into the
      next separator. */
  ghost predicate Readable(e: Event) {
    && WordKind(e)
    && |Split(Body(e), SEP)| == 5 && !EndsInBar(LastOf(Split(Body(e), SEP)))
  }

  /** What a caller can check before logging. */
  ghost predicate Acceptable(e: Event) {
    Readable(e) && forall f :: f in Fields(e) ==> Unbroken(f)
  }

  ghost predicate AllAcceptable(steps: seq<Step>) {
    forall s :: s in steps && s.DoLog? ==> Acceptable(s.event)
  }

  ghost predicate PlainField(s: string) {
    '|' !in s && Unbroken(s)
  }

  ghost predicate Clean(e: Event) {
    WordKind(e) && forall f :: f in Fields(e) ==> PlainField(f)
  }

  /** Fields without bars and line breaks split back one by one. */
  lemma CleanIsAcceptable(e: Event)
    requires Clean(e)
    ensures Split(Body(e), SEP) == Fields(e) && Acceptable(e)
  {
    var fs := Fields(e);
    forall i | 0 <= i < |fs|
      ensures '|' !in fs[i] && Unbroken(fs[i])
    {
      assert fs[i] in fs;
    }
    assert SEP[1] == '|' && Unmarked(fs, SEP, 1);
    SplitJoin(fs, SEP, 1);
  }
}
