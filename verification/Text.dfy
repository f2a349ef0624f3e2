/** Python's `str.join` and `str.split`, used for share values, log lines and
    text lines. */
module Text {

  datatype Option<+T> = None | Some(value: T)

  /** `sep.join(parts)` */
  function Join(parts: seq<string>, sep: string): string {
    if parts == [] then ""
    else if |parts| == 1 then parts[0]
    else parts[0] + sep + Join(parts[1..], sep)
  }

  predicate OccursAt(s: string, sep: string, i: nat) {
    i + |sep| <= |s| && s[i..i + |sep|] == sep
  }

  /** `s.find(sep, i)`: the first occurrence at or after i, or -1. */
  function FindFrom(s: string, sep: string, i: nat): (r: int)
    requires i <= |s|
    ensures r == -1 || (i <= r && OccursAt(s, sep, r))
    ensures forall j: nat :: i <= j && (r == -1 || j < r) ==> !OccursAt(s, sep, j)
    decreases |s| - i
  {
    if OccursAt(s, sep, i) then i
    else if i == |s| then -1
    else FindFrom(s, sep, i + 1)
  }

  /** `s.split(sep)`: leftmost, non-overlapping separators. Joining the parts
      with the separator gives the text back. */
  function Split(s: string, sep: string): (parts: seq<string>)
    requires sep != ""
    ensures parts != []
    ensures Join(parts, sep) == s
  {
    var i := FindFrom(s, sep, 0);
    if i < 0 then [s]
    else
      var rest := Split(s[i + |sep|..], sep);
      assert s == s[..i] + sep + s[i + |sep|..];
      assert ([s[..i]] + rest)[1..] == rest;
      [s[..i]] + rest
  }

  /** No part holds the character that marks the separator at position k. */
  ghost predicate Unmarked(parts: seq<string>, sep: string, k: nat)
    requires k < |sep|
  {
    sep[k] !in sep[..k] && forall i :: 0 <= i < |parts| ==> sep[k] !in parts[i]
  }

  lemma FirstSeparator(part: string, sep: string, rest: string, k: nat)
    requires k < |sep| && sep[k] !in part && sep[k] !in sep[..k]
    ensures FindFrom(part + sep + rest, sep, 0) == |part|
  {
    var s := part + sep + rest;
    assert s[|part|..|part| + |sep|] == sep;
    assert OccursAt(s, sep, |part|);
    forall i: nat | i < |part|
      ensures !OccursAt(s, sep, i)
    {
      assert s[i..i + |sep|][k] == s[i + k];
      if i + k >= |part| {
        assert s[i + k] == sep[..k][i + k - |part|];
      } else {
        assert s[i + k] == part[i + k];
      }
    }
  }

  lemma NoSeparator(s: string, sep: string, k: nat)
    requires k < |sep| && sep[k] !in s
    ensures FindFrom(s, sep, 0) == -1
  {
  }

  /** Splitting a joined list gives the list back. */
  lemma {:induction false} SplitJoin(parts: seq<string>, sep: string, k: nat)
    requires parts != [] && k < |sep| && Unmarked(parts, sep, k)
    ensures Split(Join(parts, sep), sep) == parts
  {
    if |parts| == 1 {
      NoSeparator(parts[0], sep, k);
    } else {
      var rest := parts[1..];
      FirstSeparator(parts[0], sep, Join(rest, sep), k);
      var s := Join(parts, sep);
      assert s == parts[0] + sep + Join(rest, sep);
      assert s[..|parts[0]|] == parts[0] && s[|parts[0]| + |sep|..] == Join(rest, sep);
      SplitJoin(rest, sep, k);
    }
  }

  // ------------------------------------------------------- Whitespace

  /** `str.isspace` of one character. */
  predicate IsSpace(c: char) {
    || '\U{9}' <= c <= '\U{d}' || '\U{1c}' <= c <= '\U{20}' || c == '\U{85}' || c == '\U{a0}' || c == '\U{1680}'
    || '\U{2000}' <= c <= '\U{200a}' || c == '\U{2028}' || c == '\U{2029}' || c == '\U{202f}' || c == '\U{205f}'
    || c == '\U{3000}'
  }

  /** `s.rstrip()` */
  function StripRight(s: string): (r: string)
    ensures r <= s && (r == "" || !IsSpace(r[|r| - 1]))
    ensures s != "" && !IsSpace(s[|s| - 1]) ==> r == s
  {
    if s != "" && IsSpace(s[|s| - 1]) then StripRight(s[..|s| - 1]) else s
  }

  /** `s.lstrip()` */
  function StripLeft(s: string): (r: string)
    ensures s != "" && !IsSpace(s[0]) ==> r == s
  {
    if s != "" && IsSpace(s[0]) then StripLeft(s[1..]) else s
  }

  /** `s.strip()` */
  function Strip(s: string): string {
    StripLeft(StripRight(s))
  }
}
