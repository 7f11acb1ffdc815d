/**
 * The JavaScript string primitives the parser relies on: `split` on one
 * character, `join` with a separator, and `trim`.  Strings are sequences of
 * Unicode scalar values rather than UTF-16 code units; the parser only ever
 * inspects whitespace, ASCII punctuation and U+2192, all in the Basic
 * Multilingual Plane, and never compares lengths.
 */
module Text {

  /** The alternative arrow token U+2192 (RIGHTWARDS ARROW). */
  const ARROW: char := '\U{2192}'

  /** ECMAScript LineTerminator: what the regular expression `.` refuses to match. */
  predicate IsLineTerminator(c: char)
  {
    c == '\n' || c == '\r' || c == '\U{2028}' || c == '\U{2029}'
  }

  /**
   * What `String.prototype.trim` removes: ECMAScript WhiteSpace (TAB, VT, FF,
   * ZWNBSP and the Unicode space separators) plus LineTerminator.
   */
  const WHITESPACE: set<char> := {
    '\n', '\r', '\U{2028}', '\U{2029}',
    '\t', '\U{000B}', '\U{000C}', ' ', '\U{00A0}', '\U{FEFF}', '\U{1680}',
    '\U{2000}', '\U{2001}', '\U{2002}', '\U{2003}', '\U{2004}', '\U{2005}',
    '\U{2006}', '\U{2007}', '\U{2008}', '\U{2009}', '\U{200A}',
    '\U{202F}', '\U{205F}', '\U{3000}'
  }

  predicate IsWhitespace(c: char)
  {
    c in WHITESPACE
  }

  predicate AllWhitespace(s: string)
  {
    forall i :: 0 <= i < |s| ==> IsWhitespace(s[i])
  }

  /** Neither end of `s` is whitespace (the empty string counts as trimmed). */
  predicate IsTrimmed(s: string)
  {
    |s| == 0 || (!IsWhitespace(s[0]) && !IsWhitespace(s[|s| - 1]))
  }

  /** The number of whitespace characters `s` starts with. */
  function LeadingSpace(s: string): (n: nat)
    ensures n <= |s| && AllWhitespace(s[..n])
    ensures n < |s| ==> !IsWhitespace(s[n])
  {
    if |s| > 0 && IsWhitespace(s[0]) then
      var n := 1 + LeadingSpace(s[1..]);
      assert s[..n] == [s[0]] + s[1..][..n - 1];
      n
    else 0
  }

  /** The number of whitespace characters `s` ends with. */
  function TrailingSpace(s: string): (n: nat)
    ensures n <= |s| && AllWhitespace(s[|s| - n..])
    ensures n < |s| ==> !IsWhitespace(s[|s| - n - 1])
  {
    if |s| > 0 && IsWhitespace(s[|s| - 1]) then
      var m := TrailingSpace(s[..|s| - 1]);
      TrailingStep(s, m);
      m + 1
    else 0
  }

  /** A whitespace run at the end of all but the last character, grown by a whitespace last character. */
  lemma TrailingStep(s: string, m: nat)
    requires |s| > 0 && IsWhitespace(s[|s| - 1])
    requires m <= |s| - 1 && AllWhitespace(s[..|s| - 1][|s| - 1 - m..])
    requires m < |s| - 1 ==> !IsWhitespace(s[..|s| - 1][|s| - 2 - m])
    ensures AllWhitespace(s[|s| - (m + 1)..])
    ensures m + 1 < |s| ==> !IsWhitespace(s[|s| - m - 2])
  {
    var u := s[..|s| - 1];
    forall k | |s| - (m + 1) <= k < |s| ensures IsWhitespace(s[k]) {
      if k < |s| - 1 {
        assert s[k] == u[|u| - m..][k - (|u| - m)];
      }
    }
  }

  /** The whitespace run at the start of a string is the only prefix of its kind. */
  lemma {:induction false} LeadingSpaceUnique(s: string, n: nat)
    requires n <= |s| && AllWhitespace(s[..n])
    requires n < |s| ==> !IsWhitespace(s[n])
    ensures LeadingSpace(s) == n
  {
    if n > 0 {
      assert IsWhitespace(s[..n][0]);
      assert s[1..][..n - 1] == s[..n][1..];
      LeadingSpaceUnique(s[1..], n - 1);
    }
  }

  /** The whitespace run at the end of a string is the only suffix of its kind. */
  lemma {:induction false} TrailingSpaceUnique(s: string, n: nat)
    requires n <= |s| && AllWhitespace(s[|s| - n..])
    requires n < |s| ==> !IsWhitespace(s[|s| - n - 1])
    ensures TrailingSpace(s) == n
  {
    if n > 0 {
      var u := s[..|s| - 1];
      assert IsWhitespace(s[|s| - 1]) by {
        assert s[|s| - 1] == s[|s| - n..][n - 1];
      }
      assert AllWhitespace(u[|u| - (n - 1)..]) by {
        forall k | |s| - n <= k < |s| - 1 ensures IsWhitespace(u[k]) {
          assert u[k] == s[|s| - n..][k - (|s| - n)];
        }
      }
      assert n - 1 < |u| ==> u[|u| - (n - 1) - 1] == s[|s| - n - 1];
      TrailingSpaceUnique(u, n - 1);
    }
  }

  /**
   * `String.prototype.trim`: `s` without its leading and its trailing
   * whitespace run; the empty string when `s` is whitespace only.
   */
  function Trim(s: string): (r: string)
    ensures IsTrimmed(r)
    ensures |r| == 0 <==> AllWhitespace(s)
  {
    var i := LeadingSpace(s);
    if i == |s| then
      assert s[..i] == s;
      ""
    else
      var j := TrailingSpace(s);
      TrimWindow(s, i, j);
      s[i..|s| - j]
  }

  /**
   * Below a non-blank character at `i` preceded only by whitespace, and a
   * maximal whitespace run of length `j` at the end, the window between them
   * is non-empty and trimmed.
   */
  lemma TrimWindow(s: string, i: nat, j: nat)
    requires i < |s| && AllWhitespace(s[..i]) && !IsWhitespace(s[i])
    requires j <= |s| && AllWhitespace(s[|s| - j..]) && (j < |s| ==> !IsWhitespace(s[|s| - j - 1]))
    ensures i + j < |s|
    ensures IsTrimmed(s[i..|s| - j])
    ensures !AllWhitespace(s)
  {
    assert forall k :: |s| - j <= k < |s| ==> IsWhitespace(s[k]) by {
      forall k | |s| - j <= k < |s| ensures IsWhitespace(s[k]) {
        assert s[k] == s[|s| - j..][k - (|s| - j)];
      }
    }
  }

  /** Two whitespace runs in a row are a whitespace run. */
  lemma WhitespaceConcat(a: string, b: string)
    ensures AllWhitespace(a) && AllWhitespace(b) ==> AllWhitespace(a + b)
  {
    if AllWhitespace(a) && AllWhitespace(b) {
      forall k | 0 <= k < |a + b| ensures IsWhitespace((a + b)[k]) {
        if k >= |a| { assert (a + b)[k] == b[k - |a|]; }
      }
    }
  }

  /** Whatever holds of every character of `s` holds of every character of `Trim(s)`. */
  lemma TrimChars(s: string, P: char -> bool)
    ensures (forall i :: 0 <= i < |s| ==> P(s[i])) ==> forall i :: 0 <= i < |Trim(s)| ==> P(Trim(s)[i])
  {
    var i := LeadingSpace(s);
    if i < |s| {
      var j := TrailingSpace(s);
      TrimWindow(s, i, j);
      assert forall k :: 0 <= k < |Trim(s)| ==> Trim(s)[k] == s[i + k];
    }
  }

  /** A string ending with a non-whitespace character keeps its last character under `Trim`. */
  lemma TrimKeepsLast(s: string)
    requires |s| > 0 && !IsWhitespace(s[|s| - 1])
    ensures |Trim(s)| > 0 && Trim(s)[|Trim(s)| - 1] == s[|s| - 1]
  {
    var r := Trim(s);
    var i := LeadingSpace(s);
    assert !AllWhitespace(s);
  }

  /** A string starting with a non-whitespace character keeps its first character under `Trim`. */
  lemma TrimKeepsHead(s: string)
    requires |s| > 0 && !IsWhitespace(s[0])
    ensures |Trim(s)| > 0 && Trim(s)[0] == s[0]
  {
    LeadingSpaceUnique(s, 0);
  }

  /** Trimming a trimmed string padded with whitespace on both sides gives the string back. */
  lemma TrimPadded(a: string, x: string, b: string)
    requires AllWhitespace(a) && AllWhitespace(b) && IsTrimmed(x)
    ensures Trim(a + x + b) == x
  {
    var s := a + x + b;
    if |x| == 0 {
      assert AllWhitespace(s) by {
        forall k | 0 <= k < |s| ensures IsWhitespace(s[k]) {
          if k < |a| { assert s[k] == a[k]; } else { assert s[k] == b[k - |a|]; }
        }
      }
    } else {
      assert s[..|a|] == a && s[|a|] == x[0];
      assert s[|s| - |b|..] == b && s[|s| - |b| - 1] == x[|x| - 1];
      TrimOf(s, |a|, |b|);
      assert s[|a|..|s| - |b|] == x;
    }
  }

  /** `Trim` cuts exactly the whitespace runs that cannot be extended, on either side of a non-blank string. */
  lemma TrimOf(s: string, i: nat, j: nat)
    requires i + j < |s|
    requires AllWhitespace(s[..i]) && !IsWhitespace(s[i])
    requires AllWhitespace(s[|s| - j..]) && !IsWhitespace(s[|s| - j - 1])
    ensures Trim(s) == s[i..|s| - j]
  {
    LeadingSpaceUnique(s, i);
    TrailingSpaceUnique(s, j);
  }

  /** No character of `s` is `c`. */
  predicate Lacks(s: string, c: char)
  {
    forall i :: 0 <= i < |s| ==> s[i] != c
  }

  /** No string of `ss` contains `c`. */
  predicate FreeOf(ss: seq<string>, c: char)
  {
    forall i :: 0 <= i < |ss| ==> Lacks(ss[i], c)
  }

  /** `s.split(sep)`: the pieces between occurrences of `sep`; never empty. */
  function Split(s: string, sep: char): (parts: seq<string>)
    ensures |parts| >= 1
  {
    if |s| == 0 then [""]
    else
      var rest := Split(s[1..], sep);
      if s[0] == sep then [""] + rest
      else [[s[0]] + rest[0]] + rest[1..]
  }

  /** Splitting a string that starts with `c`: a new empty piece, or `c` glued to the first piece. */
  lemma SplitCons(c: char, t: string, sep: char)
    ensures Split([c] + t, sep)
         == if c == sep then [""] + Split(t, sep) else [[c] + Split(t, sep)[0]] + Split(t, sep)[1..]
  {
    assert ([c] + t)[1..] == t;
  }

  /** No piece of a split holds the separator. */
  lemma {:induction false} SplitFree(s: string, sep: char)
    ensures FreeOf(Split(s, sep), sep)
  {
    if |s| > 0 {
      SplitFree(s[1..], sep);
      var rest := Split(s[1..], sep);
      assert s == [s[0]] + s[1..];
      SplitCons(s[0], s[1..], sep);
      if s[0] != sep {
        assert Lacks([s[0]] + rest[0], sep);
      }
    }
  }

  /** `parts.join(sep)`: the parts with `sep` between neighbours; `[]` joins to "". */
  function Join(parts: seq<string>, sep: string): string
  {
    if |parts| == 0 then ""
    else if |parts| == 1 then parts[0]
    else parts[0] + sep + Join(parts[1..], sep)
  }

  /** A character in neither the parts nor the separator is not in their join. */
  lemma {:induction false} JoinFree(parts: seq<string>, sep: string, c: char)
    requires FreeOf(parts, c) && Lacks(sep, c)
    ensures Lacks(Join(parts, sep), c)
  {
    if |parts| > 1 {
      JoinFree(parts[1..], sep, c);
    }
  }

  /** A character missing from `s` is missing from every piece of its split. */
  lemma {:induction false} SplitChars(s: string, sep: char, c: char)
    requires Lacks(s, c)
    ensures FreeOf(Split(s, sep), c)
  {
    if |s| > 0 {
      SplitChars(s[1..], sep, c);
      assert s == [s[0]] + s[1..];
    }
  }

  /** Joining the pieces of a split with the separator rebuilds the string. */
  lemma {:induction false} JoinSplit(s: string, sep: char)
    ensures Join(Split(s, sep), [sep]) == s
  {
    if |s| > 0 {
      var c, t := s[0], s[1..];
      var rest := Split(t, sep);
      JoinSplit(t, sep);
      assert s == [c] + t;
      SplitCons(c, t, sep);
      if c == sep {
        JoinCons("", rest, [sep]);
      } else {
        JoinGlue([c], rest, [sep]);
      }
    }
  }

  /** Joining a first part onto a non-empty rest puts one separator between them. */
  lemma JoinCons(x: string, rest: seq<string>, sep: string)
    requires |rest| > 0
    ensures Join([x] + rest, sep) == x + sep + Join(rest, sep)
  {
    assert ([x] + rest)[1..] == rest;
  }

  /** An empty last part adds just one separator. */
  lemma {:induction false} JoinEmptyLast(parts: seq<string>, sep: string)
    requires |parts| > 0
    ensures Join(parts + [""], sep) == Join(parts, sep) + sep
    decreases |parts|
  {
    var x := parts[0];
    assert parts + [""] == [x] + (parts[1..] + [""]);
    JoinCons(x, parts[1..] + [""], sep);
    if |parts| == 1 {
      assert Join([""], sep) == "";
      assert Join(parts, sep) == x;
    } else {
      JoinEmptyLast(parts[1..], sep);
      assert parts == [x] + parts[1..];
      JoinCons(x, parts[1..], sep);
    }
  }

  /** Gluing `x` onto the first part of a join puts `x` in front of the joined string. */
  lemma JoinGlue(x: string, parts: seq<string>, sep: string)
    requires |parts| > 0
    ensures Join([x + parts[0]] + parts[1..], sep) == x + Join(parts, sep)
  {
    if |parts| > 1 {
      JoinCons(x + parts[0], parts[1..], sep);
    } else {
      assert [x + parts[0]] + parts[1..] == [x + parts[0]];
    }
  }

  /** Splitting at one separator splits the two sides independently. */
  lemma {:induction false} SplitConcat(a: string, b: string, sep: char)
    ensures Split(a + [sep] + b, sep) == Split(a, sep) + Split(b, sep)
  {
    if |a| == 0 {
      assert a + [sep] + b == [sep] + b;
      SplitCons(sep, b, sep);
    } else {
      var c, t := a[0], a[1..];
      assert a == [c] + t;
      assert a + [sep] + b == [c] + (t + [sep] + b);
      SplitConcat(t, b, sep);
      SplitSameHead(c, t, t + [sep] + b, sep, Split(b, sep));
    }
  }

  /** Two strings with the same first character split alike once their tails do. */
  lemma SplitSameHead(c: char, t1: string, t2: string, sep: char, extra: seq<string>)
    requires Split(t2, sep) == Split(t1, sep) + extra
    ensures Split([c] + t2, sep) == Split([c] + t1, sep) + extra
  {
    SplitCons(c, t1, sep);
    SplitCons(c, t2, sep);
    if c == sep {
      AppendAssoc([""], Split(t1, sep), extra);
    } else {
      GlueFirst([c], Split(t1, sep), extra);
    }
  }

  /** Concatenation of sequences is associative. */
  lemma AppendAssoc<T>(x: seq<T>, y: seq<T>, z: seq<T>)
    ensures x + (y + z) == (x + y) + z
  {
  }

  /** Gluing `x` onto the first piece commutes with appending more pieces. */
  lemma GlueFirst<T>(x: seq<T>, pieces: seq<seq<T>>, extra: seq<seq<T>>)
    requires |pieces| >= 1
    ensures [x + (pieces + extra)[0]] + (pieces + extra)[1..] == ([x + pieces[0]] + pieces[1..]) + extra
  {
    assert (pieces + extra)[1..] == pieces[1..] + extra;
  }

  /** A string without the separator splits into itself alone. */
  lemma {:induction false} SplitNoSep(s: string, sep: char)
    requires Lacks(s, sep)
    ensures Split(s, sep) == [s]
  {
    if |s| > 0 {
      SplitNoSep(s[1..], sep);
      assert s == [s[0]] + s[1..];
    }
  }

  /** Splitting a join of separator-free parts gives the parts back. */
  lemma {:induction false} SplitJoin(parts: seq<string>, sep: char)
    requires |parts| > 0
    requires FreeOf(parts, sep)
    ensures Split(Join(parts, [sep]), sep) == parts
  {
    if |parts| == 1 {
      SplitNoSep(parts[0], sep);
    } else {
      SplitJoin(parts[1..], sep);
      SplitNoSep(parts[0], sep);
      SplitConcat(parts[0], Join(parts[1..], [sep]), sep);
      assert parts == [parts[0]] + parts[1..];
    }
  }
}
