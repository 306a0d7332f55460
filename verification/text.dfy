/**
 * The PHP string functions the core relies on: `trim`, `strtolower`,
 * `strpos`-style search, `explode($sep, $s, 2)` and `implode`.
 */
module Text {

  /** The characters PHP's `trim` strips by default: " \t\n\r\0\x0B". */
  predicate IsBlank(c: char) {
    c == ' ' || c == '\t' || c == '\n' || c == '\r' || c == '\0' || c == '\U{B}'
  }

  function TrimStart(s: string): (r: string)
    ensures |r| <= |s| && r == s[|s| - |r|..]
    ensures |r| > 0 ==> !IsBlank(r[0])
  {
    if |s| > 0 && IsBlank(s[0]) then TrimStart(s[1..]) else s
  }

  function TrimEnd(s: string): (r: string)
    ensures |r| <= |s| && r == s[..|r|]
    ensures |r| > 0 ==> !IsBlank(r[|r| - 1])
  {
    if |s| > 0 && IsBlank(s[|s| - 1]) then TrimEnd(s[..|s| - 1]) else s
  }

  /** PHP's `trim($s)`. */
  function Trim(s: string): (r: string)
    ensures |r| <= |s|
    ensures |r| > 0 ==> !IsBlank(r[0]) && !IsBlank(r[|r| - 1])
  {
    TrimEnd(TrimStart(s))
  }

  /** A string that starts and ends with non-blank characters is its own trim. */
  lemma TrimUnchanged(s: string)
    requires |s| == 0 || (!IsBlank(s[0]) && !IsBlank(s[|s| - 1]))
    ensures Trim(s) == s
  {
  }

  /** Trimming twice is trimming once. */
  lemma TrimIdempotent(s: string)
    ensures Trim(Trim(s)) == Trim(s)
  {
    TrimUnchanged(Trim(s));
  }

  /** `trim` only removes characters: whatever is in the result was in the input. */
  lemma TrimWithin(s: string)
    ensures forall c :: c in Trim(s) ==> c in s
  {
    var a := TrimStart(s);
    SliceWithin(s, |s| - |a|, |s|);
    SliceWithin(a, 0, |TrimEnd(a)|);
  }

  lemma SliceWithin(s: string, i: nat, j: nat)
    requires i <= j <= |s|
    ensures forall c :: c in s[i..j] ==> c in s
  {
    forall c | c in s[i..j]
      ensures c in s
    {
      var k :| i <= k < j && s[k] == c;
    }
  }

  /** PHP's `strtolower`: ASCII letters only. */
  function LowerChar(c: char): (r: char)
    ensures 'A' <= c <= 'Z' ==> r as int == c as int + 32
    ensures !('A' <= c <= 'Z') ==> r == c
  {
    if 'A' <= c <= 'Z' then (c as int + 32) as char else c
  }

  function ToLower(s: string): (r: string)
    ensures |r| == |s|
    ensures forall i :: 0 <= i < |s| ==> r[i] == LowerChar(s[i])
  {
    seq(|s|, i requires 0 <= i < |s| => LowerChar(s[i]))
  }

  /** The position of the first `c` in `s`, or `|s|` when there is none. */
  function FirstIndex(s: string, c: char): (i: nat)
    ensures i <= |s|
    ensures i < |s| ==> s[i] == c
    ensures forall j :: 0 <= j < i ==> s[j] != c
  {
    if |s| == 0 then 0
    else if s[0] == c then 0
    else 1 + FirstIndex(s[1..], c)
  }

  /** `explode($sep, $s, 2)` for a one-character separator: the parts around the first `sep`, if any. */
  function SplitOnce(s: string, sep: char): (r: Split)
    ensures r.Parts? <==> sep in s
    ensures r.Parts? ==> s == r.before + [sep] + r.after && sep !in r.before
  {
    var i := FirstIndex(s, sep);
    if i < |s| then
      assert s == s[..i] + [sep] + s[i + 1..];
      Parts(s[..i], s[i + 1..])
    else
      NoSeparator
  }

  datatype Split = NoSeparator | Parts(before: string, after: string)

  /** A string with exactly one marked first separator splits there. */
  lemma SplitOnceAt(prefix: string, c: char, rest: string)
    requires c !in prefix
    ensures SplitOnce(prefix + [c] + rest, c) == Parts(prefix, rest)
  {
    var s := prefix + [c] + rest;
    assert s[|prefix|] == c;
    assert forall j :: 0 <= j < |prefix| ==> s[j] == prefix[j];
    assert FirstIndex(s, c) == |prefix|;
    assert s[..|prefix|] == prefix;
    assert s[|prefix| + 1..] == rest;
  }

  function StartsWith(s: string, prefix: string): bool {
    |prefix| <= |s| && s[..|prefix|] == prefix
  }

  function EndsWith(s: string, suffix: string): bool {
    |suffix| <= |s| && s[|s| - |suffix|..] == suffix
  }

  /** `implode($sep, $parts)`. */
  function Join(parts: seq<string>, sep: string): (r: string)
    ensures |parts| == 1 ==> r == parts[0]
    ensures |parts| == 0 ==> r == ""
  {
    if |parts| == 0 then ""
    else if |parts| == 1 then parts[0]
    else parts[0] + sep + Join(parts[1..], sep)
  }
}
