/** The string operations of the standard library that the readers use. */
module Text {
  import opened Wrappers

  /** The characters with the Unicode White_Space property. */
  predicate IsWhitespace(c: char) {
    var n := c as int;
    9 <= n <= 13 || n == 32 || n == 0x85 || n == 0xA0 || n == 0x1680 || 0x2000 <= n <= 0x200A
    || n == 0x2028 || n == 0x2029 || n == 0x202F || n == 0x205F || n == 0x3000
  }

  function TrimStart(s: string): string {
    if s != "" && IsWhitespace(s[0]) then TrimStart(s[1..]) else s
  }

  function TrimEnd(s: string): string {
    if s != "" && IsWhitespace(s[|s| - 1]) then TrimEnd(s[..|s| - 1]) else s
  }

  function TrimSpaces(s: string): string {
    if s != "" && s[0] == ' ' then TrimSpaces(s[1..]) else s
  }

  /** Upper case of the ASCII letters. */
  function UpperChar(c: char): char {
    if 'a' <= c <= 'z' then (c as int - 32) as char else c
  }

  function Upper(s: string): (u: string)
    ensures |u| == |s|
    ensures forall i :: 0 <= i < |s| ==> u[i] == UpperChar(s[i])
  {
    seq(|s|, i requires 0 <= i < |s| => UpperChar(s[i]))
  }

  function StripPrefix(s: string, prefix: string): Option<string> {
    if prefix <= s then Some(s[|prefix|..]) else None
  }

  function StripSuffix(s: string, suffix: string): Option<string> {
    if |suffix| <= |s| && s[|s| - |suffix|..] == suffix then Some(s[..|s| - |suffix|]) else None
  }

  /** What comes before and after the first `c`. */
  function SplitChar(s: string, c: char): (r: Option<(string, string)>)
    ensures r.Some? ==> s == r.value.0 + [c] + r.value.1 && c !in r.value.0
    ensures r.None? ==> c !in s
  {
    if s == "" then None
    else if s[0] == c then Some(("", s[1..]))
    else
      var r := SplitChar(s[1..], c);
      if r.None? then None else Some(([s[0]] + r.value.0, r.value.1))
  }

  /** What comes before and after the first occurrence of `sep`. */
  function SplitOnce(s: string, sep: string): (r: Option<(string, string)>)
    ensures r.Some? ==> s == r.value.0 + sep + r.value.1
    decreases |s|
  {
    if sep <= s then Some(("", s[|sep|..]))
    else if s == "" then None
    else
      var r := SplitOnce(s[1..], sep);
      if r.None? then None else Some(([s[0]] + r.value.0, r.value.1))
  }

  /** The first character is where the string splits. */
  lemma {:induction false} SplitCharAt(a: string, c: char, b: string)
    requires c !in a
    ensures SplitChar(a + [c] + b, c) == Some((a, b))
  {
    var s := a + [c] + b;
    if a == "" {
      assert s == [c] + b;
    } else {
      SplitCharAt(a[1..], c, b);
      assert s[1..] == a[1..] + [c] + b;
      assert [a[0]] + a[1..] == a;
    }
  }
}
