/**
 * The Python string operations the scraper relies on, on `seq<char>`:
 * `lower()`, the `in` substring test, `startswith`, `lstrip`/`rstrip` with an
 * explicit character set, argument-less `strip()`, `split(sep)` on one
 * character and `sep.join(parts)`.
 */
module PyStrings {

  /** The characters for which Python's `str.isspace()` holds; `strip()` removes these. */
  const Whitespace: set<char> := {
    '\t', '\n', '\U{0B}', '\U{0C}', '\r', '\U{1C}', '\U{1D}', '\U{1E}', '\U{1F}', ' ',
    '\U{85}', '\U{A0}', '\U{1680}',
    '\U{2000}', '\U{2001}', '\U{2002}', '\U{2003}', '\U{2004}', '\U{2005}',
    '\U{2006}', '\U{2007}', '\U{2008}', '\U{2009}', '\U{200A}',
    '\U{2028}', '\U{2029}', '\U{202F}', '\U{205F}', '\U{3000}'
  }

  // ---------------------------------------------------------------- lower()

  /** Lower-casing of one character: ASCII letters and the Polish capitals. */
  function LowerChar(c: char): (r: char)
    ensures !IsUpper(r)
    ensures !IsUpper(c) ==> r == c
  {
    if 'A' <= c <= 'Z' then (c as int + 32) as char
    else match c
      case 'Ą' => 'ą'
      case 'Ć' => 'ć'
      case 'Ę' => 'ę'
      case 'Ł' => 'ł'
      case 'Ń' => 'ń'
      case 'Ó' => 'ó'
      case 'Ś' => 'ś'
      case 'Ź' => 'ź'
      case 'Ż' => 'ż'
      case _ => c
  }

  predicate IsUpper(c: char)
  {
    'A' <= c <= 'Z' || c in {'Ą', 'Ć', 'Ę', 'Ł', 'Ń', 'Ó', 'Ś', 'Ź', 'Ż'}
  }

  /** `s.lower()`: character by character, so the length never changes. */
  function Lower(s: string): (r: string)
    ensures |r| == |s|
    ensures forall i :: 0 <= i < |s| ==> r[i] == LowerChar(s[i])
    ensures forall i :: 0 <= i < |s| ==> !IsUpper(r[i])
    ensures forall i :: 0 <= i < |s| && !IsUpper(s[i]) ==> r[i] == s[i]
  {
    seq(|s|, i requires 0 <= i < |s| => LowerChar(s[i]))
  }

  /** Each character is lower-cased on its own, so lower-casing distributes over concatenation. */
  lemma LowerConcat(a: string, b: string)
    ensures Lower(a + b) == Lower(a) + Lower(b)
  {
  }

  /** `s.lower().lower() == s.lower()`. */
  lemma LowerIdempotent(s: string)
    ensures Lower(Lower(s)) == Lower(s)
  {
    forall i | 0 <= i < |s|
      ensures Lower(Lower(s))[i] == Lower(s)[i]
    {
      assert Lower(Lower(s))[i] == LowerChar(LowerChar(s[i]));
    }
  }

  // ---------------------------------------------------------- in, startswith

  /** `s.startswith(prefix)`: `prefix` occurs at offset 0. */
  predicate StartsWith(s: string, prefix: string)
    ensures StartsWith(s, prefix) <==> OccursAt(s, prefix, 0)
  {
    |prefix| <= |s| && s[..|prefix|] == prefix
  }

  /** `s.startswith(prefix)` holds exactly when `s` is `prefix` followed by some rest. */
  lemma StartsWithIff(s: string, prefix: string)
    ensures StartsWith(s, prefix) <==> exists t :: s == prefix + t
  {
    if StartsWith(s, prefix) {
      assert s == prefix + s[|prefix|..];
    }
    if t :| s == prefix + t {
      assert s[..|prefix|] == prefix;
    }
  }

  /** `t` occurs in `s` at offset `i`. */
  ghost predicate OccursAt(s: string, t: string, i: int)
  {
    0 <= i && i + |t| <= |s| && s[i..i + |t|] == t
  }

  /** `t in s`, searched from the left. */
  predicate Contains(s: string, t: string)
    decreases |s|
  {
    StartsWith(s, t) || (|s| > 0 && Contains(s[1..], t))
  }

  /** An occurrence in `b` is an occurrence in `a + b`, shifted by `|a|`. */
  lemma OccursShift(a: string, b: string, t: string, o: int)
    requires OccursAt(b, t, o)
    ensures OccursAt(a + b, t, |a| + o)
  {
    assert (a + b)[|a| + o..|a| + o + |t|] == b[o..o + |t|];
  }

  /** `t in s` holds exactly when `t` occurs at some offset of `s`. */
  lemma {:induction false} ContainsIff(s: string, t: string)
    ensures Contains(s, t) <==> exists i :: OccursAt(s, t, i)
    decreases |s|
  {
    if StartsWith(s, t) {
      assert OccursAt(s, t, 0);
    } else if |s| > 0 {
      ContainsIff(s[1..], t);
      assert s == [s[0]] + s[1..];
      if Contains(s[1..], t) {
        var i :| OccursAt(s[1..], t, i);
        OccursShift([s[0]], s[1..], t, i);
      }
      if i :| OccursAt(s, t, i) {
        assert i != 0;
        assert s[1..][i - 1..i - 1 + |t|] == s[i..i + |t|];
        assert OccursAt(s[1..], t, i - 1);
      }
    } else {
      assert forall i :: OccursAt(s, t, i) ==> StartsWith(s, t);
    }
  }

  // --------------------------------------------------- lstrip, rstrip, strip

  /** `s.lstrip(chars)`: drop every leading character that is in `chars`. */
  function LStrip(s: string, chars: set<char>): (r: string)
    ensures |r| <= |s| && r == s[|s| - |r|..]
    ensures forall i :: 0 <= i < |s| - |r| ==> s[i] in chars
    ensures r == [] || r[0] !in chars
    decreases |s|
  {
    if |s| > 0 && s[0] in chars then LStrip(s[1..], chars) else s
  }

  /** `s.rstrip(chars)`: drop every trailing character that is in `chars`. */
  function RStrip(s: string, chars: set<char>): (r: string)
    ensures |r| <= |s| && r == s[..|r|]
    ensures forall i :: |r| <= i < |s| ==> s[i] in chars
    ensures r == [] || r[|r| - 1] !in chars
    decreases |s|
  {
    if |s| > 0 && s[|s| - 1] in chars then RStrip(s[..|s| - 1], chars) else s
  }

  /** `r` is the slice of `s` at offset `a` and only whitespace surrounds it. */
  ghost predicate TrimmedAt(s: string, r: string, a: int)
  {
    OccursAt(s, r, a)
    && (forall i :: 0 <= i < a ==> s[i] in Whitespace)
    && (forall i :: a + |r| <= i < |s| ==> s[i] in Whitespace)
  }

  /** Neither end of `s` is whitespace. */
  predicate NoOuterSpace(s: string)
  {
    s == [] || (s[0] !in Whitespace && s[|s| - 1] !in Whitespace)
  }

  /** `s.strip()`: whitespace removed from both ends. */
  function Strip(s: string): (r: string)
    ensures |r| <= |s|
    ensures NoOuterSpace(r)
  {
    RStrip(LStrip(s, Whitespace), Whitespace)
  }

  /** What `strip()` keeps is one slice of the input, with only whitespace around it. */
  lemma StripIsTrimmed(s: string)
    ensures exists a :: TrimmedAt(s, Strip(s), a)
  {
    var left := LStrip(s, Whitespace);
    var r := RStrip(left, Whitespace);
    assert s[|s| - |left|..][..|r|] == s[|s| - |left|..|s| - |left| + |r|];
    assert TrimmedAt(s, r, |s| - |left|);
    assert Strip(s) == r;
  }

  /** A string with no surrounding whitespace is its own `strip()`. */
  lemma StripClean(s: string)
    requires NoOuterSpace(s)
    ensures Strip(s) == s
  {
    assert LStrip(s, Whitespace) == s;
  }

  /** `s.strip().strip() == s.strip()`. */
  lemma StripIdempotent(s: string)
    ensures Strip(Strip(s)) == Strip(s)
  {
    StripClean(Strip(s));
  }

  // ------------------------------------------------------------ split, join

  /** `s.split(c)` for a one-character separator: always at least one piece. */
  function Split(s: string, c: char): (r: seq<string>)
    ensures |r| >= 1
    ensures forall i :: 0 <= i < |r| ==> c !in r[i]
    decreases |s|
  {
    if s == [] then [[]]
    else
      var rest := Split(s[1..], c);
      if s[0] == c then [[]] + rest
      else [[s[0]] + rest[0]] + rest[1..]
  }

  /** `sep.join(parts)`. */
  function Join(sep: string, parts: seq<string>): (r: string)
    decreases |parts|
  {
    if |parts| == 0 then []
    else if |parts| == 1 then parts[0]
    else parts[0] + sep + Join(sep, parts[1..])
  }

  /** A string without the separator splits into itself alone. */
  lemma {:induction false} SplitNoSeparator(s: string, c: char)
    requires c !in s
    ensures Split(s, c) == [s]
    decreases |s|
  {
    if s != [] {
      SplitNoSeparator(s[1..], c);
      assert [s[0]] + s[1..] == s;
    }
  }

  /** Splitting at one occurrence of the separator splits the two sides independently. */
  lemma {:induction false} SplitAtSeparator(a: string, b: string, c: char)
    ensures Split(a + [c] + b, c) == Split(a, c) + Split(b, c)
    decreases |a|
  {
    var s := a + [c] + b;
    if a == [] {
      assert s[1..] == b;
    } else {
      assert s[1..] == a[1..] + [c] + b;
      SplitAtSeparator(a[1..], b, c);
    }
  }

  /** Joining with the separator undoes `split`: `c.join(s.split(c)) == s`. */
  lemma {:induction false} JoinSplit(s: string, c: char)
    ensures Join([c], Split(s, c)) == s
    decreases |s|
  {
    if s != [] {
      var rest := Split(s[1..], c);
      JoinSplit(s[1..], c);
      if s[0] == c {
        assert Split(s, c) == [[]] + rest;
        assert Join([c], [[]] + rest) == [] + [c] + Join([c], rest);
      } else {
        var parts := [[s[0]] + rest[0]] + rest[1..];
        if |rest| == 1 {
          assert Join([c], parts) == [s[0]] + rest[0];
        } else {
          assert Join([c], rest) == rest[0] + [c] + Join([c], rest[1..]);
          assert parts[1..] == rest[1..];
          assert Join([c], parts) == [s[0]] + rest[0] + [c] + Join([c], rest[1..]);
        }
      }
    }
  }

  /** Splitting undoes `join` when no part holds the separator. */
  lemma {:induction false} SplitJoin(parts: seq<string>, c: char)
    requires |parts| >= 1
    requires forall i :: 0 <= i < |parts| ==> c !in parts[i]
    ensures Split(Join([c], parts), c) == parts
    decreases |parts|
  {
    SplitNoSeparator(parts[0], c);
    if |parts| > 1 {
      SplitJoin(parts[1..], c);
      SplitAtSeparator(parts[0], Join([c], parts[1..]), c);
      assert [parts[0]] + parts[1..] == parts;
    }
  }

  /** Where part `i` starts inside `sep.join(parts)`. */
  function JoinOffset(sep: string, parts: seq<string>, i: nat): nat
    requires i <= |parts|
  {
    if i == 0 then 0 else JoinOffset(sep, parts, i - 1) + |parts[i - 1]| + |sep|
  }

  lemma {:induction false} JoinOffsetTail(sep: string, parts: seq<string>, i: nat)
    requires 1 <= i <= |parts|
    ensures JoinOffset(sep, parts, i) == |parts[0]| + |sep| + JoinOffset(sep, parts[1..], i - 1)
    decreases i
  {
    if i > 1 {
      JoinOffsetTail(sep, parts, i - 1);
    }
  }

  /** `sep.join(parts)` is as long as the parts and the separators between them. */
  lemma {:induction false} JoinLength(sep: string, parts: seq<string>)
    requires |parts| >= 1
    ensures |Join(sep, parts)| + |sep| == JoinOffset(sep, parts, |parts|)
    decreases |parts|
  {
    if |parts| > 1 {
      JoinLength(sep, parts[1..]);
      JoinOffsetTail(sep, parts, |parts|);
    }
  }

  /**
   * The layout of `sep.join(parts)`: part `i` sits at its offset and, unless it
   * is the last part, the separator follows it.
   */
  lemma {:induction false} JoinLayout(sep: string, parts: seq<string>, i: nat)
    requires i < |parts|
    ensures OccursAt(Join(sep, parts), parts[i], JoinOffset(sep, parts, i))
    ensures i + 1 < |parts| ==> OccursAt(Join(sep, parts), sep, JoinOffset(sep, parts, i) + |parts[i]|)
    decreases |parts|
  {
    var j := Join(sep, parts);
    if i == 0 {
      if |parts| > 1 {
        assert j == parts[0] + sep + Join(sep, parts[1..]);
        assert j[..|parts[0]|] == parts[0];
        assert j[|parts[0]|..|parts[0]| + |sep|] == sep;
      }
    } else {
      var tail := parts[1..];
      JoinLayout(sep, tail, i - 1);
      JoinOffsetTail(sep, parts, i);
      assert j == (parts[0] + sep) + Join(sep, tail);
      OccursShift(parts[0] + sep, Join(sep, tail), parts[i], JoinOffset(sep, tail, i - 1));
      if i + 1 < |parts| {
        OccursShift(parts[0] + sep, Join(sep, tail), sep, JoinOffset(sep, tail, i - 1) + |parts[i]|);
      }
    }
  }
}
