/** The JavaScript string primitives the route handlers and the translator
    component rely on: `String.prototype.trim`, `toLowerCase` on ASCII letters,
    `split` on one character and `Array.prototype.join`. */
module Text {

  /** The characters `trim` removes: ECMAScript WhiteSpace (tab, vertical tab,
      form feed, space, no-break space, byte order mark and every Zs space)
      and LineTerminator (LF, CR, line and paragraph separator). */
  predicate IsWhitespace(c: char) {
    c == '\t' || c == '\n' || c == '\U{000B}' || c == '\U{000C}' || c == '\r' || c == ' '
    || c == '\U{00A0}' || c == '\U{1680}' || ('\U{2000}' <= c <= '\U{200A}')
    || c == '\U{2028}' || c == '\U{2029}' || c == '\U{202F}' || c == '\U{205F}'
    || c == '\U{3000}' || c == '\U{FEFF}'
  }

  predicate AllWhitespace(s: string) {
    forall i :: 0 <= i < |s| ==> IsWhitespace(s[i])
  }

  /** Drops the leading whitespace. */
  function TrimStart(s: string): string {
    if |s| > 0 && IsWhitespace(s[0]) then TrimStart(s[1..]) else s
  }

  /** Drops the trailing whitespace. */
  function TrimEnd(s: string): string {
    if |s| > 0 && IsWhitespace(s[|s| - 1]) then TrimEnd(s[..|s| - 1]) else s
  }

  /** `String.prototype.trim`. */
  function Trim(s: string): string {
    TrimEnd(TrimStart(s))
  }

  /** What `TrimStart` removes is all whitespace, and what remains is a
      suffix that does not start with whitespace. */
  lemma {:induction false} TrimStartShape(s: string)
    ensures |TrimStart(s)| <= |s| && TrimStart(s) == s[|s| - |TrimStart(s)|..]
    ensures AllWhitespace(s[..|s| - |TrimStart(s)|])
    ensures TrimStart(s) == [] || !IsWhitespace(TrimStart(s)[0])
  {
    if |s| > 0 && IsWhitespace(s[0]) {
      var r := TrimStart(s[1..]);
      TrimStartShape(s[1..]);
      assert TrimStart(s) == r;
      assert r == s[1..][|s| - 1 - |r|..] == s[|s| - |r|..];
      var d := s[..|s| - |r|];
      forall i | 0 <= i < |d| ensures IsWhitespace(d[i]) {
        if i > 0 {
          assert d[i] == s[1..][..|s| - 1 - |r|][i - 1];
        }
      }
    }
  }

  /** What `TrimEnd` removes is all whitespace, and what remains is a
      prefix that does not end with whitespace. */
  lemma {:induction false} TrimEndShape(s: string)
    ensures |TrimEnd(s)| <= |s| && TrimEnd(s) == s[..|TrimEnd(s)|]
    ensures AllWhitespace(s[|TrimEnd(s)|..])
    ensures TrimEnd(s) == [] || !IsWhitespace(TrimEnd(s)[|TrimEnd(s)| - 1])
  {
    if |s| > 0 && IsWhitespace(s[|s| - 1]) {
      var r := TrimEnd(s[..|s| - 1]);
      TrimEndShape(s[..|s| - 1]);
      assert s[|r|..] == s[..|s| - 1][|r|..] + [s[|s| - 1]];
    }
  }

  /** The input is whitespace, then the trimmed string, then whitespace, and
      the trimmed string neither starts nor ends with whitespace. */
  lemma {:induction false} TrimShape(s: string)
    ensures |Trim(s)| <= |s|
    ensures Trim(s) == [] || (!IsWhitespace(Trim(s)[0]) && !IsWhitespace(Trim(s)[|Trim(s)| - 1]))
    ensures exists k :: 0 <= k <= |s| - |Trim(s)| && s[k..k + |Trim(s)|] == Trim(s)
                        && AllWhitespace(s[..k]) && AllWhitespace(s[k + |Trim(s)|..])
  {
    var t := TrimStart(s);
    var r := TrimEnd(t);
    TrimStartShape(s);
    TrimEndShape(t);
    assert Trim(s) == r;
    var k := |s| - |t|;
    assert s[k..] == t;
    assert s[k..k + |r|] == r by {
      assert s[k..k + |r|] == s[k..][..|r|];
    }
    assert AllWhitespace(s[k + |r|..]) by {
      assert s[k + |r|..] == t[|r|..];
    }
    assert r == [] || !IsWhitespace(r[0]) by {
      if r != [] {
        assert r[0] == t[0];
      }
    }
  }

  /** Trimming keeps only characters of the input. */
  lemma TrimChars(s: string)
    ensures |Trim(s)| <= |s|
    ensures forall i :: 0 <= i < |Trim(s)| ==> Trim(s)[i] in s
  {
    var t := TrimStart(s);
    TrimStartShape(s);
    TrimEndShape(t);
    var k := |s| - |t|;
    forall i | 0 <= i < |Trim(s)| ensures Trim(s)[i] in s {
      assert Trim(s)[i] == t[i] == s[k + i];
    }
  }

  /** A string is blank, i.e. `!s.trim()`, exactly when it is all whitespace. */
  lemma {:induction false} TrimEmptyIffBlank(s: string)
    ensures Trim(s) == [] <==> AllWhitespace(s)
  {
    var t := TrimStart(s);
    TrimShape(s);
    TrimStartShape(s);
    if Trim(s) == [] {
      var k :| 0 <= k <= |s| && s[k..k] == [] && AllWhitespace(s[..k]) && AllWhitespace(s[k..]);
      forall i | 0 <= i < |s| ensures IsWhitespace(s[i]) {
        if i < k { assert s[i] == s[..k][i]; } else { assert s[i] == s[k..][i - k]; }
      }
    }
  }

  /** A string that neither starts nor ends with whitespace is left as it
      is by `trim`; whitespace inside it stays. */
  lemma {:induction false} TrimKeepsUnpadded(s: string)
    requires s == [] || (!IsWhitespace(s[0]) && !IsWhitespace(s[|s| - 1]))
    ensures Trim(s) == s
  {
    TrimStartShape(s);
    var t := TrimStart(s);
    assert t == s;
    TrimEndShape(t);
    var r := TrimEnd(t);
    assert r == t;
  }

  /** `toLowerCase` on one character, for the ASCII letters; every other
      character is kept (case mapping beyond ASCII is not part of this model). */
  function LowerChar(c: char): char {
    if 'A' <= c <= 'Z' then (c as int + 32) as char else c
  }

  function ToLower(s: string): (r: string)
    ensures |r| == |s|
    ensures forall i :: 0 <= i < |s| ==> r[i] == LowerChar(s[i])
  {
    if s == [] then [] else [LowerChar(s[0])] + ToLower(s[1..])
  }

  /** `Array.prototype.join(sep)` on strings: no separator before the first
      part, one between each two parts, and the empty string for no parts. */
  function Join(parts: seq<string>, sep: string): string {
    if |parts| == 0 then ""
    else if |parts| == 1 then parts[0]
    else parts[0] + sep + Join(parts[1..], sep)
  }

  /** Joining one more part adds the separator and that part at the end. */
  lemma {:induction false} JoinSnoc(parts: seq<string>, p: string, sep: string)
    requires |parts| > 0
    ensures Join(parts + [p], sep) == Join(parts, sep) + sep + p
  {
    if |parts| == 1 {
      assert (parts + [p])[1..] == [p];
    } else {
      assert (parts + [p])[1..] == parts[1..] + [p];
      JoinSnoc(parts[1..], p, sep);
    }
  }

  /** `String.prototype.split(sep)` for a one-character separator: the pieces
      joined back with the separator give the input, and no piece holds the
      separator. There is always at least one piece. */
  function Split(s: string, sep: char): (parts: seq<string>)
    ensures |parts| >= 1
    ensures Join(parts, [sep]) == s
    ensures forall i :: 0 <= i < |parts| ==> sep !in parts[i]
  {
    if s == [] then [""]
    else
      var rest := Split(s[1..], sep);
      if s[0] == sep then
        assert ([""] + rest)[1..] == rest;
        [""] + rest
      else
        var parts := [[s[0]] + rest[0]] + rest[1..];
        assert parts[1..] == rest[1..];
        assert s == [s[0]] + s[1..];
        parts
  }

  /** `t` occurs in `s` starting at index `i`. */
  predicate OccursAt(s: string, t: string, i: int) {
    0 <= i <= |s| - |t| && s[i..i + |t|] == t
  }

  /** The second part of a concatenation occurs right after the first. */
  lemma OccursAtEnd(a: string, b: string)
    ensures OccursAt(a + b, b, |a|)
  {
    assert (a + b)[|a|..] == b;
  }

  /** An occurrence stays where it is when more text is appended. */
  lemma OccursAtExtend(s: string, more: string, t: string, i: int)
    requires OccursAt(s, t, i)
    ensures OccursAt(s + more, t, i)
  {
    assert (s + more)[i..i + |t|] == s[i..i + |t|];
  }

  /** `s.includes(t)`. */
  predicate Contains(s: string, t: string) {
    exists i :: 0 <= i <= |s| && OccursAt(s, t, i)
  }

  /** `a` is obtained from `b` by deleting characters. */
  predicate IsSubsequence(a: string, b: string) {
    if a == [] then true
    else if b == [] then false
    else if a[0] == b[0] then IsSubsequence(a[1..], b[1..])
    else IsSubsequence(a, b[1..])
  }
}
