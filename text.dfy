/**
 * The handful of Python `str` operations the converter relies on, on
 * `seq<char>`: `strip`, `lower`, `capitalize`, `replace`, splitting on a set of
 * single-character delimiters, substring search and `"".join`.
 */
module Text {
  import opened Wrappers

  /** Python truthiness of an optional string: present and non-empty. */
  predicate Truthy(o: Option<string>) {
    o.Some? && o.value != ""
  }

  /** Python's `str.isspace()` for one character. */
  predicate IsSpace(c: char) {
    || c == ' '
    || '\t' <= c <= '\r'
    || '\U{1c}' <= c <= '\U{1f}'
    || c == '\U{85}' || c == '\U{a0}' || c == '\U{1680}'
    || '\U{2000}' <= c <= '\U{200a}'
    || c == '\U{2028}' || c == '\U{2029}'
    || c == '\U{202f}' || c == '\U{205f}' || c == '\U{3000}'
  }

  /** `s` without its leading whitespace. */
  function TrimStart(s: string): string {
    if s != [] && IsSpace(s[0]) then TrimStart(s[1..]) else s
  }

  /** `s` without its trailing whitespace. */
  function TrimEnd(s: string): string {
    if s != [] && IsSpace(s[|s| - 1]) then TrimEnd(s[..|s| - 1]) else s
  }

  /** Python's `s.strip()`: both ends trimmed. */
  function Strip(s: string): string {
    TrimEnd(TrimStart(s))
  }

  /** TrimStart drops exactly the leading whitespace: a suffix that does not start with a space. */
  lemma {:induction false} TrimStartSpec(s: string)
    ensures var r := TrimStart(s);
      && |r| <= |s| && r == s[|s| - |r|..]
      && (r == [] || !IsSpace(r[0]))
      && (forall i :: 0 <= i < |s| - |r| ==> IsSpace(s[i]))
  {
    if s != [] && IsSpace(s[0]) {
      TrimStartSpec(s[1..]);
      var r := TrimStart(s);
      assert r == s[1..][|s| - 1 - |r|..];
      forall i | 1 <= i < |s| - |r| ensures IsSpace(s[i]) {
        assert s[i] == s[1..][i - 1];
      }
    }
  }

  /** TrimEnd drops exactly the trailing whitespace: a prefix that does not end with a space. */
  lemma {:induction false} TrimEndSpec(s: string)
    ensures var r := TrimEnd(s);
      && |r| <= |s| && r == s[..|r|]
      && (r == [] || !IsSpace(r[|r| - 1]))
      && (forall i :: |r| <= i < |s| ==> IsSpace(s[i]))
  {
    if s != [] && IsSpace(s[|s| - 1]) {
      TrimEndSpec(s[..|s| - 1]);
      var r := TrimEnd(s);
      assert r == s[..|s| - 1][..|r|];
      forall i | |r| <= i < |s| - 1 ensures IsSpace(s[i]) {
        assert s[i] == s[..|s| - 1][i];
      }
    }
  }

  /**
   * Strip gives the longest infix that neither starts nor ends with
   * whitespace: everything before and after it is whitespace.
   */
  lemma StripSpec(s: string)
    ensures var r, lead := Strip(s), |s| - |TrimStart(s)|;
      && (r == [] || (!IsSpace(r[0]) && !IsSpace(r[|r| - 1])))
      && 0 <= lead && lead + |r| <= |s|
      && r == s[lead..lead + |r|]
      && (forall i :: 0 <= i < lead ==> IsSpace(s[i]))
      && (forall i :: lead + |r| <= i < |s| ==> IsSpace(s[i]))
  {
    var t := TrimStart(s);
    TrimStartSpec(s);
    TrimEndSpec(t);
    var r, lead := Strip(s), |s| - |t|;
    assert r == t[..|r|];
    assert r == s[lead..lead + |r|];
    if r != [] {
      assert r[0] == t[0];
    }
    forall i | lead + |r| <= i < |s| ensures IsSpace(s[i]) {
      assert s[i] == t[i - lead];
    }
  }

  /**
   * Python's lower-casing of one character, for the characters whose lower
   * case is ASCII: the letters A to Z and the Kelvin sign U+212A. Every other
   * character is kept as it is.
   */
  function LowerChar(c: char): char {
    if 'A' <= c <= 'Z' then (c as int + 32) as char
    else if c == '\U{212a}' then 'k'
    else c
  }

  /** Python's upper-casing of one ASCII letter; other characters are kept. */
  function UpperChar(c: char): char {
    if 'a' <= c <= 'z' then (c as int - 32) as char else c
  }

  /** Python's `s.lower()`, character by character. */
  function Lower(s: string): (r: string)
    ensures |r| == |s|
    ensures forall i :: 0 <= i < |s| ==> r[i] == LowerChar(s[i])
  {
    seq(|s|, i requires 0 <= i < |s| => LowerChar(s[i]))
  }

  /**
   * Lower-casing leaves no ASCII upper-case letter and no Kelvin sign behind,
   * and lower-casing again changes nothing.
   */
  lemma LowerIsLowered(s: string)
    ensures forall i :: 0 <= i < |Lower(s)| ==> !('A' <= Lower(s)[i] <= 'Z') && Lower(s)[i] != '\U{212a}'
    ensures Lower(Lower(s)) == Lower(s)
  {
    var r := Lower(s);
    assert forall i :: 0 <= i < |r| ==> LowerChar(r[i]) == r[i];
  }

  /** Python's `s.capitalize()`: the first character upper-cased, the rest lower-cased. */
  function Capitalize(s: string): (r: string)
    ensures |r| == |s|
    ensures s != [] ==> r[0] == UpperChar(s[0]) && r[1..] == Lower(s[1..])
  {
    if s == [] then [] else [UpperChar(s[0])] + Lower(s[1..])
  }

  /** Python's `s.replace(a, b)` for single characters `a` and `b`. */
  function ReplaceChar(s: string, a: char, b: char): (r: string)
    ensures |r| == |s|
    ensures forall i :: 0 <= i < |s| ==> r[i] == if s[i] == a then b else s[i]
  {
    seq(|s|, i requires 0 <= i < |s| => if s[i] == a then b else s[i])
  }

  /**
   * After `replace(a, b)` with `b` different from `a`, no `a` is left; every
   * other character stays where it was, and text without `a` is unchanged.
   */
  lemma ReplaceCharRemoves(s: string, a: char, b: char)
    ensures a != b ==> a !in ReplaceChar(s, a, b)
    ensures forall i :: 0 <= i < |s| && s[i] != a ==> ReplaceChar(s, a, b)[i] == s[i]
    ensures a !in s ==> ReplaceChar(s, a, b) == s
  {
    var r := ReplaceChar(s, a, b);
    if a != b {
      forall i | 0 <= i < |r| ensures r[i] != a {
      }
    }
  }

  /**
   * Splitting `s` at every character of `delims`, as Python's `re.split` on a
   * character class (or `str.split` on a single character) does: `n`
   * delimiters give `n + 1` parts, empty parts included.
   */
  function Split(s: string, delims: set<char>): (parts: seq<string>)
    ensures |parts| >= 1
  {
    if s == [] then [""]
    else
      var rest := Split(s[1..], delims);
      if s[0] in delims then [""] + rest
      else [[s[0]] + rest[0]] + rest[1..]
  }

  /**
   * No part holds a delimiter, and the first part is the prefix of `s` that
   * ends at its first delimiter, or all of `s`.
   */
  lemma {:induction false} SplitSpec(s: string, delims: set<char>)
    ensures var parts := Split(s, delims);
      && (forall i, j :: 0 <= i < |parts| && 0 <= j < |parts[i]| ==> parts[i][j] !in delims)
      && |parts[0]| <= |s| && parts[0] == s[..|parts[0]|]
      && (|parts[0]| == |s| || s[|parts[0]|] in delims)
  {
    if s != [] {
      SplitSpec(s[1..], delims);
      var rest := Split(s[1..], delims);
      var parts := Split(s, delims);
      if s[0] in delims {
        assert parts == [""] + rest;
        forall i, j | 0 <= i < |parts| && 0 <= j < |parts[i]| ensures parts[i][j] !in delims {
          assert parts[i] == rest[i - 1];
        }
      } else {
        assert parts == [[s[0]] + rest[0]] + rest[1..];
        forall i, j | 0 <= i < |parts| && 0 <= j < |parts[i]| ensures parts[i][j] !in delims {
          if i == 0 {
            if j > 0 {
              assert parts[0][j] == rest[0][j - 1];
            }
          } else {
            assert parts[i] == rest[i];
          }
        }
        assert parts[0] == [s[0]] + s[1..][..|rest[0]|];
      }
    }
  }

  /** `s.split(d)[0]`: the text before the first delimiter, or all of `s`. */
  function FirstSegment(s: string, delims: set<char>): (r: string)
    ensures |r| <= |s|
    ensures forall i :: 0 <= i < |r| ==> r[i] == s[i] && r[i] !in delims
    ensures |r| == |s| || s[|r|] in delims
  {
    if s == [] || s[0] in delims then "" else [s[0]] + FirstSegment(s[1..], delims)
  }

  /** FirstSegment is the first part Split produces. */
  lemma {:induction false} FirstSegmentIsFirstPart(s: string, delims: set<char>)
    ensures FirstSegment(s, delims) == Split(s, delims)[0]
  {
    if s != [] && s[0] !in delims {
      FirstSegmentIsFirstPart(s[1..], delims);
    }
  }

  /** A string without delimiters is a single part. */
  lemma {:induction false} SplitNoDelimiter(s: string, delims: set<char>)
    requires forall i :: 0 <= i < |s| ==> s[i] !in delims
    ensures Split(s, delims) == [s]
  {
    if s != [] {
      SplitNoDelimiter(s[1..], delims);
      assert [s[0]] + s[1..] == s;
    }
  }

  /** A delimiter after a delimiter-free prefix ends the first part. */
  lemma {:induction false} SplitAtFirstDelimiter(a: string, d: char, b: string, delims: set<char>)
    requires forall i :: 0 <= i < |a| ==> a[i] !in delims
    requires d in delims
    ensures Split(a + [d] + b, delims) == [a] + Split(b, delims)
  {
    if a == [] {
      assert a + [d] + b == [d] + b;
      assert ([d] + b)[1..] == b;
    } else {
      SplitAtFirstDelimiter(a[1..], d, b, delims);
      assert (a + [d] + b)[1..] == a[1..] + [d] + b;
      assert [a[0]] + a[1..] == a;
    }
  }

  /** The delimiter characters of `s`, in order. */
  function DelimitersOf(s: string, delims: set<char>): (ds: seq<char>)
    ensures forall i :: 0 <= i < |ds| ==> ds[i] in delims
  {
    if s == [] then []
    else (if s[0] in delims then [s[0]] else []) + DelimitersOf(s[1..], delims)
  }

  /** Rebuilding a string from its parts and the delimiters that stood between them. */
  function Weave(parts: seq<string>, seps: seq<char>): string
    requires |parts| == |seps| + 1
  {
    if seps == [] then parts[0]
    else parts[0] + [seps[0]] + Weave(parts[1..], seps[1..])
  }

  /** A character put in front of the first part comes out in front of the woven string. */
  lemma WeaveCons(c: char, first: string, rest: seq<string>, seps: seq<char>)
    requires |rest| == |seps|
    ensures Weave([[c] + first] + rest, seps) == [c] + Weave([first] + rest, seps)
  {
    var p, q := [[c] + first] + rest, [first] + rest;
    assert p[0] == [c] + first && q[0] == first;
    if seps != [] {
      assert p[1..] == rest && q[1..] == rest;
      AppendAssoc([c], first, [seps[0]] + Weave(rest, seps[1..]));
    }
  }

  lemma AppendAssoc(a: string, b: string, c: string)
    ensures (a + b) + c == a + (b + c)
  {
  }

  /** Splitting loses nothing: weaving the parts back with the delimiters gives `s`. */
  lemma {:induction false} SplitWeave(s: string, delims: set<char>)
    ensures |Split(s, delims)| == |DelimitersOf(s, delims)| + 1
    ensures Weave(Split(s, delims), DelimitersOf(s, delims)) == s
  {
    if s != [] {
      SplitWeave(s[1..], delims);
      if s[0] in delims {
        SplitWeaveAtDelimiter(s, delims);
      } else {
        SplitWeaveInsidePart(s, delims);
      }
    }
  }

  /** The step of SplitWeave when `s` starts with a delimiter: an empty part, then that delimiter. */
  lemma SplitWeaveAtDelimiter(s: string, delims: set<char>)
    requires s != [] && s[0] in delims
    requires |Split(s[1..], delims)| == |DelimitersOf(s[1..], delims)| + 1
    requires Weave(Split(s[1..], delims), DelimitersOf(s[1..], delims)) == s[1..]
    ensures |Split(s, delims)| == |DelimitersOf(s, delims)| + 1
    ensures Weave(Split(s, delims), DelimitersOf(s, delims)) == s
  {
    var rest, ds := Split(s[1..], delims), DelimitersOf(s[1..], delims);
    var parts := [""] + rest;
    assert Split(s, delims) == parts;
    assert DelimitersOf(s, delims) == [s[0]] + ds;
    assert parts[0] == "" && parts[1..] == rest;
    assert Weave(parts, [s[0]] + ds) == "" + [s[0]] + s[1..];
  }

  /** The step of SplitWeave when `s` starts inside a part: that character heads the first part. */
  lemma SplitWeaveInsidePart(s: string, delims: set<char>)
    requires s != [] && s[0] !in delims
    requires |Split(s[1..], delims)| == |DelimitersOf(s[1..], delims)| + 1
    requires Weave(Split(s[1..], delims), DelimitersOf(s[1..], delims)) == s[1..]
    ensures |Split(s, delims)| == |DelimitersOf(s, delims)| + 1
    ensures Weave(Split(s, delims), DelimitersOf(s, delims)) == s
  {
    var rest, ds := Split(s[1..], delims), DelimitersOf(s[1..], delims);
    var first, others := rest[0], rest[1..];
    assert [first] + others == rest;
    assert Split(s, delims) == [[s[0]] + first] + others;
    assert DelimitersOf(s, delims) == ds;
    WeaveCons(s[0], first, others, ds);
    assert Weave(Split(s, delims), ds) == [s[0]] + s[1..];
    assert [s[0]] + s[1..] == s;
  }

  /** Python's `s.startswith(prefix)`. */
  predicate StartsWith(s: string, prefix: string) {
    |prefix| <= |s| && s[..|prefix|] == prefix
  }

  /** Python's `sub in s` on two strings. */
  predicate Contains(s: string, sub: string)
    decreases |s|
  {
    StartsWith(s, sub) || (s != [] && Contains(s[1..], sub))
  }

  /** `Contains` holds exactly when `sub` occurs at some offset of `s`. */
  lemma {:induction false} ContainsAt(s: string, sub: string)
    ensures Contains(s, sub) <==> exists i :: 0 <= i <= |s| - |sub| && StartsWith(s[i..], sub)
  {
    if StartsWith(s, sub) {
      assert s[0..] == s;
    } else if s != [] {
      ContainsAt(s[1..], sub);
      if Contains(s[1..], sub) {
        var i :| 0 <= i <= |s[1..]| - |sub| && StartsWith(s[1..][i..], sub);
        assert s[1..][i..] == s[i + 1..];
      }
      forall i | 0 <= i <= |s| - |sub| && StartsWith(s[i..], sub)
        ensures Contains(s[1..], sub)
      {
        assert i != 0;
        assert s[1..][i - 1..] == s[i..];
      }
    }
  }

  /** Python's `"".join(parts)`. */
  function Concat(parts: seq<string>): string {
    if parts == [] then "" else parts[0] + Concat(parts[1..])
  }

  /** Containment is transitive: an occurrence inside an occurrence is an occurrence. */
  lemma ContainsTrans(s: string, t: string, u: string)
    requires Contains(s, t) && Contains(t, u)
    ensures Contains(s, u)
  {
    ContainsAt(s, t);
    ContainsAt(t, u);
    var i :| 0 <= i <= |s| - |t| && StartsWith(s[i..], t);
    var j :| 0 <= j <= |t| - |u| && StartsWith(t[j..], u);
    assert i + j + |u| <= |s|;
    forall k | 0 <= k < |u| ensures s[i + j..][k] == u[k] {
      assert s[i + j..][k] == s[i..][..|t|][j + k];
      assert u[k] == t[j..][..|u|][k];
    }
    assert StartsWith(s[i + j..], u);
    ContainsAt(s, u);
  }

  /** The middle of a concatenation occurs in it. */
  lemma ContainsInfix(a: string, b: string, c: string)
    ensures Contains(a + b + c, b)
  {
    var s := a + b + c;
    assert s[|a|..][..|b|] == b;
    ContainsAt(s, b);
  }

  /** Lower-casing works character by character, so it distributes over concatenation. */
  lemma LowerAppend(a: string, b: string)
    ensures Lower(a + b) == Lower(a) + Lower(b)
  {
  }

  /** `"".join(parts)` holds each part between the join of those before it and of those after it. */
  lemma {:induction false} ConcatAt(parts: seq<string>, k: nat)
    requires k < |parts|
    ensures Concat(parts) == Concat(parts[..k]) + parts[k] + Concat(parts[k + 1..])
  {
    if k == 0 {
      assert parts[..0] == [];
      assert parts[1..] == parts[k + 1..];
    } else {
      ConcatAt(parts[1..], k - 1);
      assert parts[1..][..k - 1] == parts[1..k];
      assert parts[1..][k - 1] == parts[k];
      assert parts[1..][k..] == parts[k + 1..];
      assert parts[..k] == [parts[0]] + parts[1..k];
      assert Concat(parts[..k]) == parts[0] + Concat(parts[1..k]);
    }
  }
}
