/**
 * The Python `str` built-ins the core relies on, as functions over `string`:
 * `startswith`, `in`, `find`, `split(sep, 1)`, `strip()`, `strip(c)`,
 * `splitlines()`, `sep.join(...)` and `replace(old, new)`.
 *
 * Whitespace is restricted to the ASCII characters Python's `str.isspace`
 * accepts, and line boundaries to '\n'.
 */
module Text {
  import opened Wrappers

  // ---------------------------------------------------------------------
  // Occurrences
  // ---------------------------------------------------------------------

  /** `p` occurs in `s` starting at index `i`. */
  predicate OccursAt(s: string, p: string, i: nat) {
    i + |p| <= |s| && s[i..i + |p|] == p
  }

  /** Python's `p in s`. */
  predicate Contains(s: string, p: string) {
    exists i | 0 <= i <= |s| :: OccursAt(s, p, i)
  }

  /** Python's `s.startswith(p)`. */
  predicate StartsWith(s: string, p: string) {
    OccursAt(s, p, 0)
  }

  /** Python's `s.find(p, from)`, with `None` for -1: the leftmost occurrence at or after `from`. */
  function Find(s: string, p: string, from: nat): (r: Option<nat>)
    decreases |s| - from
    ensures r.Some? ==> from <= r.value && OccursAt(s, p, r.value)
    ensures r.Some? ==> forall i :: from <= i < r.value ==> !OccursAt(s, p, i)
    ensures r.None? ==> forall i :: from <= i ==> !OccursAt(s, p, i)
  {
    if |s| < from + |p| then None
    else if OccursAt(s, p, from) then Some(from)
    else Find(s, p, from + 1)
  }

  /** Python's `s.split(sep, 1)` for a one-character separator that occurs in `s`. */
  function SplitOnce(s: string, sep: char): (r: (string, string))
    requires sep in s
    ensures s == r.0 + [sep] + r.1
    ensures sep !in r.0
  {
    if s[0] == sep then ([], s[1..])
    else
      var (before, after) := SplitOnce(s[1..], sep);
      assert s == [s[0]] + s[1..];
      ([s[0]] + before, after)
  }

  // ---------------------------------------------------------------------
  // Stripping
  // ---------------------------------------------------------------------

  /** The characters Python's argument-less `strip()` removes (its ASCII part). */
  const Whitespace: set<char> :=
    {' ', '\t', '\n', '\U{0B}', '\U{0C}', '\r', '\U{1C}', '\U{1D}', '\U{1E}', '\U{1F}'}

  /** Python's `s.lstrip(chars)`. */
  function LStrip(s: string, chars: set<char>): string {
    if s != [] && s[0] in chars then LStrip(s[1..], chars) else s
  }

  /** Python's `s.rstrip(chars)`. */
  function RStrip(s: string, chars: set<char>): string {
    if s != [] && s[|s| - 1] in chars then RStrip(s[..|s| - 1], chars) else s
  }

  /** `lstrip` drops a prefix made only of characters of the set and stops at the first one outside it. */
  lemma {:induction false} LStripSuffix(s: string, chars: set<char>)
    ensures var r := LStrip(s, chars);
            && |r| <= |s| && r == s[|s| - |r|..]
            && (forall i :: 0 <= i < |s| - |r| ==> s[i] in chars)
            && (r == [] || r[0] !in chars)
  {
    if s != [] && s[0] in chars {
      var t := s[1..];
      LStripSuffix(t, chars);
      var r := LStrip(t, chars);
      assert LStrip(s, chars) == r;
      assert r == t[|t| - |r|..] == s[|s| - |r|..];
      forall i | 0 <= i < |s| - |r| ensures s[i] in chars {
        if i > 0 {
          assert s[i] == t[i - 1];
        }
      }
    }
  }

  /** `rstrip` drops a suffix made only of characters of the set and stops at the last one outside it. */
  lemma {:induction false} RStripPrefix(s: string, chars: set<char>)
    ensures var r := RStrip(s, chars);
            && |r| <= |s| && r == s[..|r|]
            && (forall i :: |r| <= i < |s| ==> s[i] in chars)
            && (r == [] || r[|r| - 1] !in chars)
  {
    if s != [] && s[|s| - 1] in chars {
      RStripPrefix(s[..|s| - 1], chars);
    }
  }

  /** Python's `s.strip(chars)`: `lstrip` then `rstrip`, so every leading and trailing character of the set goes. */
  function Strip(s: string, chars: set<char>): (r: string)
    ensures |r| <= |s|
    ensures r == [] || (r[0] !in chars && r[|r| - 1] !in chars)
  {
    LStripSuffix(s, chars);
    RStripPrefix(LStrip(s, chars), chars);
    RStrip(LStrip(s, chars), chars)
  }

  /** What `strip` returns: a contiguous slice of `s`, every removed character in the set, both ends kept. */
  lemma StripIsSlice(s: string, chars: set<char>)
    ensures var r := Strip(s, chars);
            && (r == [] || (r[0] !in chars && r[|r| - 1] !in chars))
            && exists a: nat :: OccursAt(s, r, a)
                           && (forall i :: 0 <= i < a ==> s[i] in chars)
                           && (forall i :: a + |r| <= i < |s| ==> s[i] in chars)
  {
    var left := LStrip(s, chars);
    var r := RStrip(left, chars);
    LStripSuffix(s, chars);
    RStripPrefix(left, chars);
    var a := |s| - |left|;
    assert left == s[a..] && r == left[..|r|];
    assert r == s[a..a + |r|];
    assert OccursAt(s, r, a);
    forall i | a + |r| <= i < |s| ensures s[i] in chars {
      assert s[i] == left[i - a];
    }
  }

  /** Python's `s.strip()`. */
  function Trim(s: string): (r: string)
    ensures |r| <= |s|
    ensures r == [] || (r[0] !in Whitespace && r[|r| - 1] !in Whitespace)
  {
    Strip(s, Whitespace)
  }

  /** Python's `s.strip(c)`: every leading and trailing `c`, not one matched pair. */
  function StripChar(s: string, c: char): (r: string)
    ensures |r| <= |s|
    ensures r == [] || (r[0] != c && r[|r| - 1] != c)
  {
    Strip(s, {c})
  }

  /** A string with no character of the set at either end is its own strip. */
  lemma StripKeeps(s: string, chars: set<char>)
    requires s == [] || (s[0] !in chars && s[|s| - 1] !in chars)
    ensures Strip(s, chars) == s
  {
    assert LStrip(s, chars) == s;
  }

  /** Padding from the set in front of a string that is its own strip is removed again. */
  lemma {:induction false} StripPadded(pad: string, s: string, chars: set<char>)
    requires forall i :: 0 <= i < |pad| ==> pad[i] in chars
    requires s != [] && s[0] !in chars && s[|s| - 1] !in chars
    ensures Strip(pad + s, chars) == s
  {
    if pad == [] {
      assert pad + s == s;
      StripKeeps(s, chars);
    } else {
      assert (pad + s)[1..] == pad[1..] + s;
      StripPadded(pad[1..], s, chars);
      assert LStrip(pad + s, chars) == LStrip(pad[1..] + s, chars);
    }
  }

  // ---------------------------------------------------------------------
  // Lines
  // ---------------------------------------------------------------------

  /** Index of the first '\n' in `s`, or `|s|` when there is none. */
  function LineEnd(s: string): (i: nat)
    ensures i <= |s| && '\n' !in s[..i]
    ensures i < |s| ==> s[i] == '\n'
  {
    if s == [] || s[0] == '\n' then 0
    else
      var j := LineEnd(s[1..]);
      assert s[..1 + j] == [s[0]] + s[1..][..j];
      1 + j
  }

  /**
   * Python's `s.splitlines()` with '\n' as the only boundary: no line
   * contains '\n', and a final '\n' does not open an empty last line.
   */
  function SplitLines(s: string): (r: seq<string>)
    decreases |s|
    ensures forall i :: 0 <= i < |r| ==> '\n' !in r[i]
  {
    if s == [] then []
    else
      var i := LineEnd(s);
      if i == |s| then [s] else [s[..i]] + SplitLines(s[i + 1..])
  }

  /** Python's `sep.join(parts)`. */
  function Join(parts: seq<string>, sep: string): (r: string)
    decreases |parts|
    ensures parts == [] ==> r == ""
    ensures parts != [] ==> parts[0] <= r
    ensures |parts| == 1 ==> r == parts[0]
  {
    if parts == [] then ""
    else if |parts| == 1 then parts[0]
    else parts[0] + sep + Join(parts[1..], sep)
  }

  /** The first '\n' is the one at `k` when none comes before it. */
  lemma {:induction false} LineEndAt(s: string, k: nat)
    requires k <= |s| && (forall i :: 0 <= i < k ==> s[i] != '\n')
    requires k < |s| ==> s[k] == '\n'
    ensures LineEnd(s) == k
  {
    if s != [] && s[0] != '\n' {
      LineEndAt(s[1..], k - 1);
    }
  }

  /** Splitting joined lines gives the lines back when none holds '\n' and the last is not empty. */
  lemma {:induction false} SplitLinesJoin(lines: seq<string>)
    requires forall i :: 0 <= i < |lines| ==> '\n' !in lines[i]
    requires lines == [] || lines[|lines| - 1] != []
    ensures SplitLines(Join(lines, "\n")) == lines
  {
    if |lines| == 1 {
      var s := lines[0];
      forall i | 0 <= i < |s| ensures s[i] != '\n' { assert s[i] in s; }
      LineEndAt(s, |s|);
    } else if |lines| > 1 {
      var head, rest := lines[0], Join(lines[1..], "\n");
      var s := head + "\n" + rest;
      assert Join(lines, "\n") == s;
      forall i | 0 <= i < |head| ensures s[i] != '\n' { assert s[i] == head[i]; assert head[i] in head; }
      LineEndAt(s, |head|);
      assert s[..|head|] == head;
      assert s[|head| + 1..] == rest;
      SplitLinesJoin(lines[1..]);
      assert lines == [head] + lines[1..];
    }
  }

  /** Lines each followed by '\n', as a text file holds them. */
  function Unlines(lines: seq<string>): string {
    if lines == [] then "" else lines[0] + "\n" + Unlines(lines[1..])
  }

  /** Splitting '\n'-terminated lines gives the lines back when none holds '\n'. */
  lemma {:induction false} SplitLinesUnlines(lines: seq<string>)
    requires forall i :: 0 <= i < |lines| ==> '\n' !in lines[i]
    ensures SplitLines(Unlines(lines)) == lines
  {
    if lines != [] {
      var head, rest := lines[0], Unlines(lines[1..]);
      var s := head + "\n" + rest;
      assert Unlines(lines) == s;
      forall i | 0 <= i < |head| ensures s[i] != '\n' { assert s[i] == head[i]; assert head[i] in head; }
      LineEndAt(s, |head|);
      assert s[..|head|] == head;
      assert s[|head| + 1..] == rest;
      SplitLinesUnlines(lines[1..]);
      assert lines == [head] + lines[1..];
    }
  }

  /** A character outside every line and other than '\n' is not in their text. */
  lemma {:induction false} NotInUnlines(lines: seq<string>, c: char)
    requires c != '\n' && forall i :: 0 <= i < |lines| ==> c !in lines[i]
    ensures c !in Unlines(lines)
  {
    if lines != [] {
      NotInUnlines(lines[1..], c);
      assert c !in lines[0];
    }
  }

  /** `split(sep, 1)` cuts at the first separator, so a split at a separator-free prefix is that split. */
  lemma SplitOnceAt(s: string, sep: char, a: string, b: string)
    requires s == a + [sep] + b && sep !in a
    ensures SplitOnce(s, sep) == (a, b)
  {
    var r := SplitOnce(s, sep);
    forall i | 0 <= i < |a| ensures s[i] != sep { assert s[i] == a[i] && a[i] in a; }
    forall i | 0 <= i < |r.0| ensures s[i] != sep { assert s[i] == r.0[i] && r.0[i] in r.0; }
    assert s[|a|] == sep && s[|r.0|] == sep;
    assert |r.0| == |a|;
    assert r.0 == s[..|a|] == a;
    assert r.1 == s[|a| + 1..] == b;
  }

  // ---------------------------------------------------------------------
  // Replacement
  // ---------------------------------------------------------------------

  /**
   * Python's `s.replace(p, r)` for a non-empty `p`: a left-to-right scan
   * that replaces each leftmost, non-overlapping occurrence of `p`.
   */
  function Replace(s: string, p: string, r: string): string
    requires p != []
    decreases |s|
  {
    if |s| < |p| then s
    else if s[..|p|] == p then r + Replace(s[|p|..], p, r)
    else [s[0]] + Replace(s[1..], p, r)
  }

  /** No occurrence of `p` starts inside `x` once `y` follows it. */
  predicate NoMatchBefore(x: string, y: string, p: string) {
    forall i :: 0 <= i < |x| ==> !OccursAt(x + y, p, i)
  }

  /** Occurrences move one place left when the first character is dropped. */
  lemma OccursShift(s: string, p: string, i: nat)
    requires s != []
    ensures OccursAt(s, p, i + 1) <==> OccursAt(s[1..], p, i)
  {
    if i + 1 + |p| <= |s| {
      assert s[1..][i..i + |p|] == s[i + 1..i + 1 + |p|];
    }
  }

  /** A prefix in which no occurrence starts is copied through unchanged. */
  lemma {:induction false} ReplaceSkips(x: string, y: string, p: string, r: string)
    requires p != []
    requires NoMatchBefore(x, y, p)
    ensures Replace(x + y, p, r) == x + Replace(y, p, r)
  {
    if x == [] {
      assert x + y == y;
    } else {
      var s := x + y;
      assert !OccursAt(s, p, 0);
      assert s[1..] == x[1..] + y;
      forall i | 0 <= i < |x| - 1
        ensures !OccursAt(x[1..] + y, p, i)
      {
        OccursShift(s, p, i);
      }
      ReplaceSkips(x[1..], y, p, r);
      if |s| < |p| {
        assert |y| < |p|;
        assert Replace(s, p, r) == s;
      } else {
        assert s[..|p|] != p by { assert s[0..|p|] == s[..|p|]; }
        assert Replace(s, p, r) == [s[0]] + Replace(s[1..], p, r);
      }
      assert x == [x[0]] + x[1..];
    }
  }

  /** The leftmost occurrence of `p` after an untouched prefix is the one replaced. */
  lemma ReplaceFirst(a: string, b: string, p: string, r: string)
    requires p != []
    requires NoMatchBefore(a, p + b, p)
    ensures Replace(a + p + b, p, r) == a + r + Replace(b, p, r)
  {
    assert a + p + b == a + (p + b);
    ReplaceSkips(a, p + b, p, r);
    assert (p + b)[..|p|] == p;
    assert (p + b)[|p|..] == b;
  }

  /** A string without `p` is left as it is. */
  lemma {:induction false} ReplaceAbsent(s: string, p: string, r: string)
    requires p != []
    requires !Contains(s, p)
    ensures Replace(s, p, r) == s
  {
    forall i | 0 <= i < |s| ensures !OccursAt(s + [], p, i) {
      assert s + [] == s;
    }
    ReplaceSkips(s, [], p, r);
    assert s + [] == s;
  }

  /** Replacing `p` by itself changes nothing. */
  lemma {:induction false} ReplaceIdentity(s: string, p: string)
    requires p != []
    ensures Replace(s, p, p) == s
    decreases |s|
  {
    if |s| >= |p| {
      if s[..|p|] == p {
        ReplaceIdentity(s[|p|..], p);
        assert s == p + s[|p|..];
      } else {
        ReplaceIdentity(s[1..], p);
        assert s == [s[0]] + s[1..];
      }
    }
  }
}
