/**
 * The string operations the generator borrows from Python: `sep.join`,
 * one-character `str.replace`, `os.path.basename`, and substring search.
 */
module Strings {

  /** `sep.join(parts)`: the parts in order, with `sep` between neighbours. */
  function Join(parts: seq<string>, sep: string): string
    decreases |parts|
  {
    if |parts| == 0 then ""
    else if |parts| == 1 then parts[0]
    else Join(parts[..|parts| - 1], sep) + sep + parts[|parts| - 1]
  }

  /** Sum of the lengths of the parts. */
  function TotalLength(parts: seq<string>): nat
    decreases |parts|
  {
    if |parts| == 0 then 0 else TotalLength(parts[..|parts| - 1]) + |parts[|parts| - 1]|
  }

  /** A join is as long as its parts plus one separator between each neighbouring pair. */
  lemma {:induction false} JoinLength(parts: seq<string>, sep: string)
    ensures |parts| > 0 ==> |Join(parts, sep)| == TotalLength(parts) + |sep| * (|parts| - 1)
    ensures |parts| == 0 ==> Join(parts, sep) == ""
    decreases |parts|
  {
    if |parts| > 1 {
      var init, last := parts[..|parts| - 1], parts[|parts| - 1];
      JoinLength(init, sep);
      assert Join(parts, sep) == Join(init, sep) + sep + last;
      assert TotalLength(parts) == TotalLength(init) + |last|;
      var k := |init| - 1;
      assert |sep| * (|parts| - 1) == |sep| * k + |sep| by {
        assert |parts| - 1 == k + 1;
      }
    }
  }

  /** `s.replace(c, repl)` for a one-character pattern `c`: every `c` becomes `repl`. */
  function ReplaceAll(s: string, c: char, repl: string): (r: string)
    ensures c !in repl ==> c !in r
    ensures c !in s ==> r == s
    ensures forall x :: x in r ==> x in s || x in repl
    decreases |s|
  {
    if |s| == 0 then ""
    else
      var init, last := s[..|s| - 1], s[|s| - 1];
      assert forall x :: x in init ==> x in s;
      ReplaceAll(init, c, repl) + (if last == c then repl else [last])
  }

  /** `s.split(c)`: the maximal pieces between occurrences of `c` (at least one piece). */
  function Split(s: string, c: char): (r: seq<string>)
    ensures |r| > 0
    ensures forall i :: 0 <= i < |r| ==> c !in r[i]
    decreases |s|
  {
    if |s| == 0 then [""]
    else
      var pieces, last := Split(s[..|s| - 1], c), s[|s| - 1];
      if last == c then pieces + [""]
      else pieces[..|pieces| - 1] + [pieces[|pieces| - 1] + [last]]
  }

  /**
   * Replacing every `c` by `repl` is the same as cutting at each `c` and
   * gluing the pieces back together with `repl`: each occurrence becomes exactly
   * one `repl`, and the text between occurrences is kept verbatim.
   */
  lemma {:induction false} ReplaceAllIsJoinOfSplit(s: string, c: char, repl: string)
    ensures ReplaceAll(s, c, repl) == Join(Split(s, c), repl)
    decreases |s|
  {
    if |s| > 0 {
      var init, last := s[..|s| - 1], s[|s| - 1];
      var p := Split(init, c);
      ReplaceAllIsJoinOfSplit(init, c, repl);
      if last == c {
        var q := p + [""];
        assert q[..|q| - 1] == p;
      } else {
        var q := p[..|p| - 1] + [p[|p| - 1] + [last]];
        if |p| > 1 {
          assert q[..|q| - 1] == p[..|p| - 1];
        }
      }
    }
  }

  /**
   * The pieces of a split glue back into the text with the separator between
   * them: nothing is lost, reordered or added.
   */
  lemma {:induction false} SplitJoin(s: string, c: char)
    ensures Join(Split(s, c), [c]) == s
    decreases |s|
  {
    if |s| > 0 {
      var init, last := s[..|s| - 1], s[|s| - 1];
      var p := Split(init, c);
      SplitJoin(init, c);
      assert s == init + [last];
      if last == c {
        assert Split(s, c) == p + [""];
        JoinNewPart(p, [c]);
      } else {
        assert Split(s, c) == p[..|p| - 1] + [p[|p| - 1] + [last]];
        JoinExtendLast(p, [c], [last]);
      }
    }
  }

  /** Starting an empty last part appends one separator. */
  lemma JoinNewPart(parts: seq<string>, sep: string)
    requires |parts| > 0
    ensures Join(parts + [""], sep) == Join(parts, sep) + sep
  {
    var q := parts + [""];
    assert q[..|q| - 1] == parts;
  }

  /** Growing the last part grows the join at its end. */
  lemma JoinExtendLast(parts: seq<string>, sep: string, more: string)
    requires |parts| > 0
    ensures Join(parts[..|parts| - 1] + [parts[|parts| - 1] + more], sep) == Join(parts, sep) + more
  {
    var q := parts[..|parts| - 1] + [parts[|parts| - 1] + more];
    if |parts| > 1 {
      assert q[..|q| - 1] == parts[..|parts| - 1];
    }
  }

  /** `os.path.basename(path)`: the text after the last `/` (all of `path` if it has none). */
  function Basename(path: string): (r: string)
    ensures |r| <= |path|
    decreases |path|
  {
    if |path| == 0 then ""
    else if path[|path| - 1] == '/' then ""
    else Basename(path[..|path| - 1]) + [path[|path| - 1]]
  }

  /**
   * The basename is a suffix of the path without `/`, and whatever precedes
   * it is a `/`: it is exactly the last component.
   */
  lemma {:induction false} BasenameIsLastComponent(path: string)
    ensures '/' !in Basename(path)
    ensures Basename(path) == path[|path| - |Basename(path)|..]
    ensures |Basename(path)| < |path| ==> path[|path| - |Basename(path)| - 1] == '/'
    decreases |path|
  {
    if |path| > 0 && path[|path| - 1] != '/' {
      var init, last := path[..|path| - 1], path[|path| - 1];
      BasenameIsLastComponent(init);
      var b := Basename(init);
      var k := |init| - |b|;
      assert Basename(path) == b + [last];
      assert path[k..] == path[k..|path| - 1] + [last];
      assert path[k..|path| - 1] == init[k..];
      if |b| < |init| {
        assert path[k - 1] == init[k - 1];
      }
    }
  }

  /** Only the last component matters: a directory prefix does not change the basename. */
  lemma {:induction false} BasenameIgnoresDirectory(dir: string, name: string)
    requires '/' !in name
    ensures Basename(dir + "/" + name) == name
    decreases |name|
  {
    if |name| > 0 {
      var init := name[..|name| - 1];
      assert (dir + "/" + name)[..|dir + "/" + name| - 1] == dir + "/" + init;
      BasenameIgnoresDirectory(dir, init);
      assert init + [name[|name| - 1]] == name;
    }
  }

  /** `needle` stands in `hay` starting at position `at`. */
  predicate OccursAt(hay: string, needle: string, at: int) {
    0 <= at && at + |needle| <= |hay| && hay[at..at + |needle|] == needle
  }

  /** `needle in hay` for strings. */
  predicate Contains(hay: string, needle: string) {
    exists at :: 0 <= at <= |hay| && OccursAt(hay, needle, at)
  }

  /** A string occurs at the end of anything it is appended to. */
  lemma OccursAtEnd(before: string, needle: string)
    ensures OccursAt(before + needle, needle, |before|)
  {
    assert (before + needle)[|before|..|before| + |needle|] == needle;
  }

  /** An occurrence survives appending text after it. */
  lemma OccursAtExtend(hay: string, needle: string, at: int, after: string)
    requires OccursAt(hay, needle, at)
    ensures OccursAt(hay + after, needle, at)
  {
    assert (hay + after)[at..at + |needle|] == hay[at..at + |needle|];
  }

  /** An occurrence moves right by the length of text put before it. */
  lemma OccursAtShift(before: string, hay: string, needle: string, at: int)
    requires OccursAt(hay, needle, at)
    ensures OccursAt(before + hay, needle, |before| + at)
  {
    assert (before + hay)[|before| + at..|before| + at + |needle|] == hay[at..at + |needle|];
  }

  /** A string that lacks one of the needle's characters does not contain the needle. */
  lemma NotContainsChar(hay: string, needle: string, k: int)
    requires 0 <= k < |needle| && needle[k] !in hay
    ensures !Contains(hay, needle)
  {
    forall at | 0 <= at <= |hay|
      ensures !OccursAt(hay, needle, at)
    {
      if at + |needle| <= |hay| {
        assert hay[at..at + |needle|][k] == hay[at + k];
      }
    }
  }

  /**
   * Two strings free of a needle stay free of it when joined, as long as
   * one character at the seam is not in the needle at all.
   */
  lemma NotContainsJoin(a: string, b: string, needle: string)
    requires |needle| > 0 && !Contains(a, needle) && !Contains(b, needle)
    requires (|a| > 0 && a[|a| - 1] !in needle) || (|b| > 0 && b[0] !in needle)
    ensures !Contains(a + b, needle)
  {
    var n := |needle|;
    forall at | 0 <= at <= |a + b|
      ensures !OccursAt(a + b, needle, at)
    {
      if at + n > |a + b| {
      } else if at + n <= |a| {
        assert !OccursAt(a, needle, at);
        assert (a + b)[at..at + n] == a[at..at + n];
      } else if at >= |a| {
        assert !OccursAt(b, needle, at - |a|);
        assert (a + b)[at..at + n] == b[at - |a|..at - |a| + n];
      } else if |a| > 0 && a[|a| - 1] !in needle {
        assert (a + b)[at..at + n][|a| - 1 - at] == a[|a| - 1];
      } else {
        assert (a + b)[at..at + n][|a| - at] == b[0];
      }
    }
  }

  /** A string put between two others starts with the first and ends with the last. */
  lemma Framing(open: string, body: string, close: string)
    ensures (open + body + close)[..|open|] == open
    ensures (open + body + close)[|open + body|..] == close
    ensures (open + body + close)[|open|..|open + body|] == body
  {
    assert (open + body + close)[..|open|] == open;
    assert (open + body + close)[|open + body|..] == close;
    assert (open + body + close)[|open|..|open + body|] == body;
  }

  /** Text between an opening and a closing starts with the one and ends with the other. */
  lemma Wrapped(open: string, body: string, close: string)
    ensures OccursAt(open + body + close, open, 0)
    ensures OccursAt(open + body + close, close, |open + body + close| - |close|)
  {
    Framing(open, body, close);
  }

  /** The same, when the opening and closing are each followed or preceded by more text. */
  lemma WrappedTwice(open: string, a: string, body: string, b: string, close: string)
    ensures OccursAt((open + a) + body + (b + close), open, 0)
    ensures OccursAt((open + a) + body + (b + close), close, |(open + a) + body + (b + close)| - |close|)
  {
    assert (open + a) + body + (b + close) == open + (a + body + b) + close;
    Wrapped(open, a + body + b, close);
  }

  /** An occurrence inside `hay` survives wrapping `hay` in text on both sides. */
  lemma ContainsInside(before: string, hay: string, needle: string, at: int, after: string)
    requires OccursAt(hay, needle, at)
    ensures OccursAt(before + hay + after, needle, |before| + at)
    ensures Contains(before + hay + after, needle)
  {
    OccursAtShift(before, hay, needle, at);
    OccursAtExtend(before + hay, needle, |before| + at, after);
  }

  /** A string placed between two others occurs in the result, right after the first. */
  lemma ContainsMiddle(before: string, needle: string, after: string)
    ensures OccursAt(before + needle + after, needle, |before|)
    ensures Contains(before + needle + after, needle)
  {
    OccursAtEnd(before, needle);
    OccursAtExtend(before + needle, needle, |before|, after);
  }
}
