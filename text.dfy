/** String primitives the tool relies on from Go's standard library:
    strings.TrimSpace, strings.ToLower, strings.Contains and the line
    splitting of bufio.ScanLines. Strings are sequences of Unicode scalar
    values. */
module Text {

  /** The Unicode White_Space characters, which strings.TrimSpace strips. */
  predicate IsSpace(c: char) {
    || ('\t' <= c <= '\r')
    || c == ' '
    || c == '\U{85}'
    || c == '\U{A0}'
    || c == '\U{1680}'
    || ('\U{2000}' <= c <= '\U{200A}')
    || c == '\U{2028}'
    || c == '\U{2029}'
    || c == '\U{202F}'
    || c == '\U{205F}'
    || c == '\U{3000}'
  }

  /** Neither starts nor ends with white space. */
  predicate IsTrimmed(s: string) {
    s == [] || (!IsSpace(s[0]) && !IsSpace(s[|s| - 1]))
  }

  /** The index of the first non-space character of s at or after i, or |s|. */
  function SkipSpace(s: string, i: nat): nat
    requires i <= |s|
    decreases |s| - i
  {
    if i < |s| && IsSpace(s[i]) then SkipSpace(s, i + 1) else i
  }

  /** The index just past the last non-space character of s[lo..j], or lo. */
  function SkipSpaceBack(s: string, lo: nat, j: nat): nat
    requires lo <= j <= |s|
  {
    if lo < j && IsSpace(s[j - 1]) then SkipSpaceBack(s, lo, j - 1) else j
  }

  lemma {:induction false} SkipSpaceSpec(s: string, i: nat)
    requires i <= |s|
    ensures i <= SkipSpace(s, i) <= |s|
    ensures forall k :: i <= k < SkipSpace(s, i) ==> IsSpace(s[k])
    ensures SkipSpace(s, i) < |s| ==> !IsSpace(s[SkipSpace(s, i)])
    decreases |s| - i
  {
    if i < |s| && IsSpace(s[i]) {
      SkipSpaceSpec(s, i + 1);
    }
  }

  lemma {:induction false} SkipSpaceBackSpec(s: string, lo: nat, j: nat)
    requires lo <= j <= |s|
    ensures lo <= SkipSpaceBack(s, lo, j) <= j
    ensures forall k :: SkipSpaceBack(s, lo, j) <= k < j ==> IsSpace(s[k])
    ensures lo < SkipSpaceBack(s, lo, j) ==> !IsSpace(s[SkipSpaceBack(s, lo, j) - 1])
  {
    if lo < j && IsSpace(s[j - 1]) {
      SkipSpaceBackSpec(s, lo, j - 1);
    }
  }

  /** The bounds of s with leading and trailing white space removed. */
  function TrimBounds(s: string): (b: (nat, nat))
    ensures b.0 <= b.1 <= |s|
    ensures forall k :: 0 <= k < b.0 ==> IsSpace(s[k])
    ensures forall k :: b.1 <= k < |s| ==> IsSpace(s[k])
    ensures b.0 < b.1 ==> !IsSpace(s[b.0]) && !IsSpace(s[b.1 - 1])
  {
    var start := SkipSpace(s, 0);
    SkipSpaceSpec(s, 0);
    SkipSpaceBackSpec(s, start, |s|);
    (start, SkipSpaceBack(s, start, |s|))
  }

  /** strings.TrimSpace: the part of s left after removing leading and
      trailing white space. */
  function Trim(s: string): (r: string)
    ensures IsTrimmed(r)
  {
    var b := TrimBounds(s);
    s[b.0..b.1]
  }

  /** Trimming never introduces a newline. */
  lemma TrimOneLine(s: string)
    requires '\n' !in s
    ensures '\n' !in Trim(s)
  {
    var b := TrimBounds(s);
    assert forall k :: 0 <= k < |Trim(s)| ==> Trim(s)[k] == s[b.0 + k];
  }

  /** Trimming a trimmed string changes nothing. */
  lemma TrimTrimmed(s: string)
    requires IsTrimmed(s)
    ensures Trim(s) == s
  {
  }

  /** unicode.ToLower on one character: the ASCII, Latin-1 and basic
      Cyrillic capitals, and the three letter-like signs that lower into
      those ranges (capital I with dot above to 'i', the Kelvin sign to 'k',
      the Angstrom sign to a with ring above). */
  function LowerChar(c: char): char {
    if 'A' <= c <= 'Z' then (c as int + 32) as char
    else if '\U{C0}' <= c <= '\U{DE}' && c != '\U{D7}' then (c as int + 32) as char
    else if '\U{410}' <= c <= '\U{42F}' then (c as int + 32) as char
    else if '\U{400}' <= c <= '\U{40F}' then (c as int + 80) as char
    else if c == '\U{130}' then 'i'
    else if c == '\U{212A}' then 'k'
    else if c == '\U{212B}' then '\U{E5}'
    else c
  }

  /** A character with nothing left to lower. */
  predicate IsLowered(c: char) {
    LowerChar(c) == c
  }

  /** strings.ToLower: the length is kept, no character of the result has
      anything left to lower, a character already lowered is kept, and every
      other character is changed. */
  function ToLower(s: string): (r: string)
    ensures |r| == |s|
    ensures forall i :: 0 <= i < |r| ==> IsLowered(r[i])
    ensures forall i :: 0 <= i < |s| && IsLowered(s[i]) ==> r[i] == s[i]
    ensures forall i :: 0 <= i < |s| && !IsLowered(s[i]) ==> r[i] != s[i]
  {
    seq(|s|, i requires 0 <= i < |s| => LowerChar(s[i]))
  }

  /** Lowering is idempotent, so matching on a lowered string does not
      depend on whether it was lowered before. */
  lemma ToLowerIdempotent(s: string)
    ensures ToLower(ToLower(s)) == ToLower(s)
  {
    var r := ToLower(s);
    assert forall i :: 0 <= i < |r| ==> ToLower(r)[i] == r[i];
  }

  /** sub occurs in s starting at position i. */
  predicate OccursAt(s: string, sub: string, i: nat) {
    i + |sub| <= |s| && s[i..i + |sub|] == sub
  }

  /** strings.Contains. */
  function Contains(s: string, sub: string): (r: bool)
    ensures r <==> exists i: nat :: OccursAt(s, sub, i)
    decreases |s|
  {
    if |sub| > |s| then
      assert forall i: nat :: !OccursAt(s, sub, i);
      false
    else if s[..|sub|] == sub then
      assert OccursAt(s, sub, 0);
      true
    else
      ShiftOccurrence(s, sub);
      Contains(s[1..], sub)
  }

  lemma ShiftOccurrence(s: string, sub: string)
    requires |sub| <= |s| && s[..|sub|] != sub
    ensures (exists i: nat :: OccursAt(s, sub, i)) <==> (exists i: nat :: OccursAt(s[1..], sub, i))
  {
    forall i: nat | OccursAt(s, sub, i)
      ensures i >= 1 && OccursAt(s[1..], sub, i - 1)
    {
      assert s[1..][i - 1..i - 1 + |sub|] == s[i..i + |sub|];
    }
    forall i: nat | OccursAt(s[1..], sub, i)
      ensures OccursAt(s, sub, i + 1)
    {
      assert s[1..][i..i + |sub|] == s[i + 1..i + 1 + |sub|];
    }
  }

  /** Index of the first newline of s, or |s| when there is none. */
  function LineEnd(s: string): (k: nat)
    ensures k <= |s|
    ensures k < |s| ==> s[k] == '\n'
    ensures forall i :: 0 <= i < k ==> s[i] != '\n'
  {
    if s == [] || s[0] == '\n' then 0 else 1 + LineEnd(s[1..])
  }

  /** bufio.ScanLines drops one trailing carriage return from each line. */
  function DropCR(line: string): (r: string)
    ensures r == line || (line == r + ['\r'])
  {
    if |line| > 0 && line[|line| - 1] == '\r' then line[..|line| - 1] else line
  }

  /** The tokens bufio.Scanner yields with ScanLines: the text split at each
      newline, the newline itself removed, and a final piece after the last
      newline kept only when it is non-empty. */
  function Lines(s: string): (lines: seq<string>)
    ensures forall j :: 0 <= j < |lines| ==> '\n' !in lines[j]
    decreases |s|
  {
    if s == [] then []
    else
      var k := LineEnd(s);
      var line := DropCR(s[..k]);
      assert '\n' !in line by {
        assert forall i :: 0 <= i < |line| ==> line[i] == s[i];
      }
      [line] + (if k == |s| then [] else Lines(s[k + 1..]))
  }

  /** A line followed by a newline scans as exactly that line, then the rest. */
  lemma LinesCons(line: string, rest: string)
    requires '\n' !in line
    requires line == [] || line[|line| - 1] != '\r'
    ensures Lines(line + "\n" + rest) == [line] + Lines(rest)
  {
    var s := line + "\n" + rest;
    var k := LineEnd(s);
    assert s[|line|] == '\n';
    assert k == |line|;
    assert s[..k] == line;
    assert s[k + 1..] == rest;
  }

  /** A last line with no newline after it is still read, as itself. */
  lemma LinesLast(line: string)
    requires line != [] && '\n' !in line
    requires line[|line| - 1] != '\r'
    ensures Lines(line) == [line]
  {
    var k := LineEnd(line);
    assert k == |line|;
    assert line[..k] == line;
  }

  /** Concatenation is associative; stated once so that proofs over
      sequences of strings can use it without element-wise reasoning. */
  lemma Assoc<T>(a: seq<T>, b: seq<T>, c: seq<T>)
    ensures (a + b) + c == a + (b + c)
  {
  }

  /** Dropping a prefix of a concatenation that lies within its first part. */
  lemma DropAppend<T>(a: seq<T>, b: seq<T>, n: nat)
    requires n <= |a|
    ensures (a + b)[n..] == a[n..] + b
  {
  }
}
