/** The ECMAScript string primitives the core relies on: the `\s` class of
    regular expressions, `String.prototype.trim`, and `s.split("/").pop()`. */
module Text {

  /** LineTerminator of ECMAScript: LF, CR, LINE SEPARATOR, PARAGRAPH SEPARATOR.
      These are exactly the characters `.` does not match. */
  predicate IsLineTerminator(c: char)
  {
    c == '\n' || c == '\r' || c == '\U{2028}' || c == '\U{2029}'
  }

  /** WhiteSpace or LineTerminator of ECMAScript: the class `\s`, and the set
      that `trim` removes. */
  predicate IsWhiteSpace(c: char)
  {
    || IsLineTerminator(c)
    || c == '\t' || c == '\U{000B}' || c == '\U{000C}' || c == ' '
    || c == '\U{00A0}' || c == '\U{1680}' || ('\U{2000}' <= c <= '\U{200A}')
    || c == '\U{202F}' || c == '\U{205F}' || c == '\U{3000}' || c == '\U{FEFF}'
  }

  predicate AllWhiteSpace(s: string)
  {
    forall i :: 0 <= i < |s| ==> IsWhiteSpace(s[i])
  }

  /** Drops the leading white space of `s`. */
  function TrimStart(s: string): (r: string)
    ensures |r| <= |s| && r == s[|s| - |r|..]
    ensures AllWhiteSpace(s[..|s| - |r|])
    ensures r == [] || !IsWhiteSpace(r[0])
  {
    if s == [] || !IsWhiteSpace(s[0]) then s else TrimStart(s[1..])
  }

  /** Drops the trailing white space of `s`. */
  function TrimEnd(s: string): (r: string)
    ensures |r| <= |s| && r == s[..|r|]
    ensures AllWhiteSpace(s[|r|..])
    ensures r == [] || !IsWhiteSpace(r[|r| - 1])
  {
    if s == [] || !IsWhiteSpace(s[|s| - 1]) then s else TrimEnd(s[..|s| - 1])
  }

  /** `s.trim()`. */
  function Trim(s: string): (r: string)
  {
    TrimEnd(TrimStart(s))
  }

  /** `trim` removes white space from both ends and nothing else: the result is
      a slice of `s`, everything cut off is white space, and the result neither
      starts nor ends with white space. */
  lemma TrimIsSlice(s: string)
    ensures exists i, j :: 0 <= i <= j <= |s| && Trim(s) == s[i..j]
                           && AllWhiteSpace(s[..i]) && AllWhiteSpace(s[j..])
    ensures Trim(s) == [] || (!IsWhiteSpace(Trim(s)[0]) && !IsWhiteSpace(Trim(s)[|Trim(s)| - 1]))
  {
    var u := TrimStart(s);
    var i := |s| - |u|;
    var v := TrimEnd(u);
    var j := i + |v|;
    assert u == s[i..];
    assert v == s[i..j];
    assert u[|v|..] == s[j..];
    assert AllWhiteSpace(s[..i]) && AllWhiteSpace(s[j..]);
    assert Trim(s) == s[i..j] by { assert Trim(s) == v; }
    if v != [] {
      assert v[0] == u[0];
    }
  }

  /** `s.split("/").pop()`: the text after the last `/`, or all of `s` when it
      has none. */
  function LastSegment(s: string): (r: string)
    ensures |r| <= |s| && r == s[|s| - |r|..]
    ensures '/' !in r
    ensures |r| == |s| || s[|s| - |r| - 1] == '/'
  {
    if s == [] then []
    else if s[|s| - 1] == '/' then []
    else LastSegment(s[..|s| - 1]) + [s[|s| - 1]]
  }

  /** The last segment of a path whose final part is `/` and a name without
      `/` is that name. */
  lemma LastSegmentOfName(base: string, name: string)
    requires '/' !in name
    ensures LastSegment(base + "/" + name) == name
  {
    LastSegmentAt(base + "/" + name, |base| + 1);
  }

  /** A stretch at the end of `s` without `/`, after a `/` or from the start,
      is its last segment. */
  lemma {:induction false} LastSegmentAt(s: string, i: nat)
    requires i <= |s| && '/' !in s[i..]
    requires i == 0 || s[i - 1] == '/'
    ensures LastSegment(s) == s[i..]
  {
    if s != [] && s[|s| - 1] != '/' {
      var n := |s| - 1;
      if i <= n {
        assert s[..n][i..] == s[i..n];
        LastSegmentAt(s[..n], i);
        assert s[i..] == s[i..n] + [s[n]];
      }
    }
  }

  /** `s.replace(from, to)` with a one-character pattern: only the first
      occurrence is replaced. */
  function ReplaceFirst(s: string, from: char, to: char): (r: string)
    ensures |r| == |s|
    ensures from !in s ==> r == s
  {
    if s == [] then []
    else if s[0] == from then [to] + s[1..]
    else [s[0]] + ReplaceFirst(s[1..], from, to)
  }

  /** When the first `from` of `s` is at `i`, exactly that character changes. */
  lemma {:induction false} ReplaceFirstAt(s: string, from: char, to: char, i: nat)
    requires i < |s| && s[i] == from && from !in s[..i]
    ensures ReplaceFirst(s, from, to) == s[..i] + [to] + s[i + 1..]
  {
    if i > 0 {
      assert s[0] in s[..i];
      assert s[1..][..i - 1] == s[1..i];
      ReplaceFirstAt(s[1..], from, to, i - 1);
      assert s[1..][i..] == s[i + 1..];
    }
  }
}
