/** The Python string operations that thumbnail_maker.py relies on, over `seq<char>`. */
module Strings {

  /** `s.endswith(t)`. */
  predicate EndsWith(s: string, t: string)
  {
    |t| <= |s| && s[|s| - |t|..] == t
  }

  /** `s.startswith(t)`. */
  predicate StartsWith(s: string, t: string)
  {
    |t| <= |s| && s[..|t|] == t
  }

  /** A `sep` stands just before the suffix `t` of `s`, unless `t` is all of `s`. */
  predicate SeparatedSuffix(s: string, t: string, sep: char)
  {
    |t| < |s| ==> s[|s| - |t| - 1] == sep
  }

  /** Python 3's `str.isspace()`: the characters that `str.strip()` with no argument
      removes. */
  predicate IsSpace(c: char)
  {
    || '\t' <= c <= '\r'
    || '\U{1C}' <= c <= ' '
    || c == '\U{85}' || c == '\U{A0}' || c == '\U{1680}'
    || '\U{2000}' <= c <= '\U{200A}'
    || c == '\U{2028}' || c == '\U{2029}' || c == '\U{202F}' || c == '\U{205F}'
    || c == '\U{3000}'
  }

  /** The 29 characters for which Python 3's `str.isspace()` holds, listed one by one. */
  const PythonWhitespace: set<char> := {
    '\t', '\n', '\U{0B}', '\U{0C}', '\r', '\U{1C}', '\U{1D}', '\U{1E}', '\U{1F}', ' ',
    '\U{85}', '\U{A0}', '\U{1680}',
    '\U{2000}', '\U{2001}', '\U{2002}', '\U{2003}', '\U{2004}', '\U{2005}',
    '\U{2006}', '\U{2007}', '\U{2008}', '\U{2009}', '\U{200A}',
    '\U{2028}', '\U{2029}', '\U{202F}', '\U{205F}', '\U{3000}'
  }

  /** The ranges of `IsSpace` cover exactly the listed whitespace characters. */
  lemma IsSpaceExactly(c: char)
    ensures IsSpace(c) <==> c in PythonWhitespace
  {
  }

  /** `s.split(sep).pop()`: the text after the last `sep`, or the whole of `s` when
      `sep` does not occur in it. */
  function LastField(s: string, sep: char): (r: string)
    ensures EndsWith(s, r)
    ensures sep !in r
    ensures r == s || (|r| < |s| && s[|s| - |r| - 1] == sep)
  {
    if s == [] then []
    else if s[|s| - 1] == sep then []
    else LastField(s[..|s| - 1], sep) + [s[|s| - 1]]
  }

  /** The last field follows a separator unless it is the whole text. */
  lemma LastFieldSeparated(s: string, sep: char)
    ensures SeparatedSuffix(s, LastField(s, sep), sep)
  {
    var r := LastField(s, sep);
    if |r| < |s| {
      assert r != s;
    }
  }

  /** Whatever stands before the last separator, the last field is what follows it. */
  lemma {:induction false} LastFieldAfterSeparator(prefix: string, sep: char, x: string)
    requires sep !in x
    ensures LastField(prefix + [sep] + x, sep) == x
  {
    var s := prefix + [sep] + x;
    if x == [] {
      assert s[|s| - 1] == sep;
    } else {
      var x' := x[..|x| - 1];
      assert s[..|s| - 1] == prefix + [sep] + x';
      assert s[|s| - 1] == x[|x| - 1];
      LastFieldAfterSeparator(prefix, sep, x');
      assert x' + [x[|x| - 1]] == x;
    }
  }

  /** `s.lstrip(...)`: drops the longest prefix whose characters all satisfy `drop`.
      Python reads a string argument as a set of characters, not as a prefix. */
  function LStrip(s: string, drop: char -> bool): (r: string)
    ensures EndsWith(s, r)
    ensures forall i :: 0 <= i < |s| - |r| ==> drop(s[i])
    ensures r == [] || !drop(r[0])
  {
    if s != [] && drop(s[0]) then LStrip(s[1..], drop) else s
  }

  /** `s.rstrip(...)`: drops the longest suffix whose characters all satisfy `drop`. */
  function RStrip(s: string, drop: char -> bool): (r: string)
    ensures StartsWith(s, r)
    ensures forall i :: |r| <= i < |s| ==> drop(s[i])
    ensures r == [] || !drop(r[|r| - 1])
  {
    if s != [] && drop(s[|s| - 1]) then RStrip(s[..|s| - 1], drop) else s
  }

  /** `s.strip()`: drops leading and trailing whitespace and keeps what lies between. */
  function Strip(s: string): (r: string)
    ensures |r| <= |s|
    ensures forall c :: c in r ==> c in s
    ensures r == [] || (!IsSpace(r[0]) && !IsSpace(r[|r| - 1]))
    ensures forall k :: 0 <= k < |s| - |LStrip(s, IsSpace)| ==> IsSpace(s[k])
    ensures StartsWith(LStrip(s, IsSpace), r)
    ensures forall k :: |r| <= k < |LStrip(s, IsSpace)| ==> IsSpace(LStrip(s, IsSpace)[k])
  {
    var l := LStrip(s, IsSpace);
    var r := RStrip(l, IsSpace);
    StripParts(s, l, r);
    r
  }

  /** The two halves of `Strip`: what each trim removed is white space. */
  lemma StripParts(s: string, l: string, r: string)
    requires l == LStrip(s, IsSpace) && r == RStrip(l, IsSpace)
    ensures forall c :: c in r ==> c in s
    ensures forall k :: 0 <= k < |s| - |l| ==> IsSpace(s[k])
    ensures forall k :: |r| <= k < |l| ==> IsSpace(l[k])
  {
    SuffixChars(s, l);
    PrefixChars(l, r);
  }

  /** A suffix holds no character that its text lacks. */
  lemma SuffixChars(s: string, r: string)
    requires EndsWith(s, r)
    ensures forall c :: c in r ==> c in s
  {
    assert forall k :: 0 <= k < |r| ==> r[k] == s[|s| - |r| + k];
  }

  /** A prefix holds no character that its text lacks. */
  lemma PrefixChars(s: string, r: string)
    requires StartsWith(s, r)
    ensures forall c :: c in r ==> c in s
  {
    assert forall k :: 0 <= k < |r| ==> r[k] == s[k];
  }

  /** A text without surrounding whitespace is its own `strip()`; in particular
      `strip()` is idempotent. */
  lemma StripKeepsTrimmed(s: string)
    requires s == [] || (!IsSpace(s[0]) && !IsSpace(s[|s| - 1]))
    ensures Strip(s) == s
  {
    assert LStrip(s, IsSpace) == s;
  }

  /** One differing character rules a suffix out. */
  lemma DiffersAt(s: string, t: string, k: nat)
    requires k < |t|
    requires |t| <= |s| ==> s[|s| - |t| + k] != t[k]
    ensures !EndsWith(s, t)
  {
    if |t| <= |s| {
      assert s[|s| - |t|..][k] == s[|s| - |t| + k];
    }
  }

  /** For a text without the separator `sep`, looking at the end of `dir + [sep] + name`
      is looking at the end of `name`. */
  lemma {:induction false} EndsWithAfterSeparator(dir: string, sep: char, name: string, t: string)
    requires sep !in name && sep !in t
    ensures EndsWith(dir + [sep] + name, t) <==> EndsWith(name, t)
  {
    var s := dir + [sep] + name;
    if |t| <= |name| {
      assert s[|s| - |t|..] == name[|name| - |t|..];
    } else {
      DiffersAt(s, t, |t| - |name| - 1);
    }
  }
}
