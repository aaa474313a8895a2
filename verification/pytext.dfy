/** The Python `str` operations the scraper relies on, over `string` (a `seq<char>`):
    `find`, `in`, `partition`, `split(sep)`, `split(sep, 1)`, `split()`, `replace`,
    `join`, `strip`, `int(...)`, `re.findall(r"\d+", ...)`, `re.sub(r"\D", "", ...)`,
    and the `os.path` functions `join`, `basename` and `splitext` (POSIX flavour).
    `\d` is restricted to the ASCII digits. */
module PyText {
  import opened Maybe

  // ---------------------------------------------------------------------------
  // Character classes

  /** `\d`, restricted to ASCII. */
  predicate IsAsciiDigit(c: char) {
    '0' <= c <= '9'
  }

  /** `str.isspace()` for one character: the characters Python's `strip()` and `split()` drop. */
  predicate IsSpace(c: char) {
    || c == ' '
    || '\t' <= c <= '\r'
    || '\U{1C}' <= c <= '\U{1F}'
    || c == '\U{85}' || c == '\U{A0}' || c == '\U{1680}'
    || '\U{2000}' <= c <= '\U{200A}'
    || c == '\U{2028}' || c == '\U{2029}' || c == '\U{202F}' || c == '\U{205F}' || c == '\U{3000}'
  }

  predicate IsNotSpace(c: char) {
    !IsSpace(c)
  }

  predicate AllDigits(s: string) {
    forall i :: 0 <= i < |s| ==> IsAsciiDigit(s[i])
  }

  // ---------------------------------------------------------------------------
  // Python list indexing

  /** `xs[i]` with Python's negative indices; `None` is the `IndexError`. */
  function At<T>(xs: seq<T>, i: int): (r: Option<T>)
    ensures r.Some? <==> -|xs| <= i < |xs|
    ensures 0 <= i < |xs| ==> r == Some(xs[i])
    ensures -|xs| <= i < 0 ==> r == Some(xs[|xs| + i])
  {
    if 0 <= i < |xs| then Some(xs[i])
    else if -|xs| <= i < 0 then Some(xs[|xs| + i])
    else None
  }

  // ---------------------------------------------------------------------------
  // Searching

  /** `sub` occurs in `s` at index `i`. */
  predicate OccursAt(s: string, sub: string, i: int) {
    0 <= i && i + |sub| <= |s| && s[i..i + |sub|] == sub
  }

  /** `s.find(sub, start)`, with `None` for -1. */
  function FindFrom(s: string, sub: string, start: nat): (r: Option<nat>)
    ensures r.Some? ==> start <= r.value && OccursAt(s, sub, r.value)
    ensures r.Some? ==> forall k :: start <= k < r.value ==> !OccursAt(s, sub, k)
    ensures r.None? ==> forall k :: start <= k ==> !OccursAt(s, sub, k)
    decreases |s| - start
  {
    if start + |sub| > |s| then None
    else if s[start..start + |sub|] == sub then Some(start)
    else FindFrom(s, sub, start + 1)
  }

  /** `s.find(sub)`: the first occurrence. */
  function Find(s: string, sub: string): Option<nat> {
    FindFrom(s, sub, 0)
  }

  /** `sub in s`. */
  function Contains(s: string, sub: string): (b: bool)
    ensures b <==> exists i :: OccursAt(s, sub, i)
  {
    Find(s, sub).Some?
  }

  lemma ContainsChar(s: string, c: char)
    ensures Contains(s, [c]) <==> c in s
  {
    if c in s {
      var i :| 0 <= i < |s| && s[i] == c;
      assert OccursAt(s, [c], i);
    }
    if Contains(s, [c]) {
      var i :| OccursAt(s, [c], i);
      assert s[i] == s[i..i + 1][0];
    }
  }

  /** An occurrence inside a prefix of `s` is an occurrence in `s`. */
  lemma OccursInPrefix(s: string, n: nat, sub: string, k: int)
    requires n <= |s| && OccursAt(s[..n], sub, k)
    ensures OccursAt(s, sub, k)
  {
    assert s[..n][k..k + |sub|] == s[k..k + |sub|];
  }

  /** An occurrence inside a suffix of `s` is an occurrence in `s`, shifted. */
  lemma OccursInSuffix(s: string, n: nat, sub: string, k: int)
    requires n <= |s| && OccursAt(s[n..], sub, k)
    ensures OccursAt(s, sub, n + k)
  {
    assert s[n..][k..k + |sub|] == s[n + k..n + k + |sub|];
  }

  // ---------------------------------------------------------------------------
  // partition, split

  datatype Parts = Parts(before: string, sep: string, after: string)

  /** `s.partition(sep)`: around the first occurrence, or `(s, "", "")` when there is none. */
  function Partition(s: string, sep: string): (r: Parts)
    requires |sep| > 0
    ensures r.before + r.sep + r.after == s
    ensures r.sep == "" <==> !Contains(s, sep)
    ensures r.sep == "" ==> r == Parts(s, "", "")
    ensures r.sep != "" ==> r.sep == sep && OccursAt(s, sep, |r.before|)
    ensures r.sep != "" ==> forall k :: 0 <= k < |r.before| ==> !OccursAt(s, sep, k)
  {
    match Find(s, sep)
    case None => Parts(s, "", "")
    case Some(i) =>
      assert s[..i] + sep + s[i + |sep|..] == s by {
        assert s[i..i + |sep|] == sep;
        assert s == s[..i] + s[i..i + |sep|] + s[i + |sep|..];
      }
      Parts(s[..i], sep, s[i + |sep|..])
  }

  /** Partitioning `x + sep + y` where `sep` first occurs right after `x`. */
  lemma PartitionAt(x: string, sep: string, y: string)
    requires |sep| > 0
    requires forall k :: 0 <= k < |x| ==> !OccursAt(x + sep + y, sep, k)
    ensures Partition(x + sep + y, sep) == Parts(x, sep, y)
  {
    var s := x + sep + y;
    assert s[|x|..|x| + |sep|] == sep;
    assert OccursAt(s, sep, |x|);
    var p := Partition(s, sep);
    assert |p.before| == |x|;
    assert p.before == s[..|x|] == x;
    assert p.after == s[|x| + |sep|..] == y;
  }

  /** When `x` lacks the first character of `sep`, partitioning `x + sep + y` splits
      at the `sep` right after `x`. */
  lemma PartitionAfterFree(x: string, sep: string, y: string)
    requires |sep| > 0 && sep[0] !in x
    ensures Partition(x + sep + y, sep) == Parts(x, sep, y)
  {
    var s := x + sep + y;
    forall k | 0 <= k < |x|
      ensures !OccursAt(s, sep, k)
    {
      assert s[k..k + |sep|][0] == s[k] == x[k];
    }
    PartitionAt(x, sep, y);
  }

  /** The text before the first occurrence of `sep` holds no occurrence of it. */
  lemma BeforeFirstHasNone(s: string, sep: string)
    requires |sep| > 0
    ensures !Contains(Partition(s, sep).before, sep)
  {
    var p := Partition(s, sep);
    assert p.before == s[..|p.before|];
    forall k | OccursAt(p.before, sep, k)
      ensures false
    {
      OccursInPrefix(s, |p.before|, sep, k);
    }
  }

  /** `sep.join(parts)`. */
  function Join(parts: seq<string>, sep: string): string
    decreases |parts|
  {
    if |parts| == 0 then ""
    else if |parts| == 1 then parts[0]
    else parts[0] + sep + Join(parts[1..], sep)
  }

  /** `s.split(sep)`: the texts between the occurrences of `sep`. Joining them back
      with `sep` gives `s` again, and none of them holds `sep`. */
  function Split(s: string, sep: string): (r: seq<string>)
    requires |sep| > 0
    ensures |r| >= 1
    ensures |r| == 1 <==> !Contains(s, sep)
    ensures Join(r, sep) == s
    ensures forall i :: 0 <= i < |r| ==> !Contains(r[i], sep)
    decreases |s|
  {
    var p := Partition(s, sep);
    if p.sep == "" then [s]
    else
      BeforeFirstHasNone(s, sep);
      var rest := Split(p.after, sep);
      assert ([p.before] + rest)[1..] == rest;
      [p.before] + rest
  }

  /** `s.split(sep, 1)[-1]`: what follows the first `sep`, or all of `s` when `sep` is absent. */
  function AfterFirst(s: string, sep: string): (r: string)
    requires |sep| > 0
    ensures !Contains(s, sep) ==> r == s
    ensures Contains(s, sep) ==> |r| + |sep| <= |s| && r == s[|s| - |r|..]
    ensures Contains(s, sep) ==> OccursAt(s, sep, |s| - |r| - |sep|)
    ensures Contains(s, sep) ==> forall k :: 0 <= k < |s| - |r| - |sep| ==> !OccursAt(s, sep, k)
  {
    var p := Partition(s, sep);
    if p.sep == "" then s
    else
      assert s == p.before + sep + p.after;
      assert s[|s| - |p.after|..] == p.after;
      p.after
  }

  /** `s.split(sep)[0]` is what precedes the first `sep`. */
  lemma SplitFirst(s: string, sep: string)
    requires |sep| > 0
    ensures Split(s, sep)[0] == Partition(s, sep).before
  {
  }

  /** `s.split(sep)[1]` exists exactly when `sep` occurs, and is the text between the
      first and the second occurrence (or the end). */
  lemma SplitSecond(s: string, sep: string)
    requires |sep| > 0
    ensures |Split(s, sep)| >= 2 <==> Contains(s, sep)
    ensures Contains(s, sep) ==> Split(s, sep)[1] == Partition(Partition(s, sep).after, sep).before
  {
    if Contains(s, sep) {
      SplitFirst(Partition(s, sep).after, sep);
    }
  }

  /** `Join` followed by `Split` on `", "` gives the parts back when none of them holds `", "`. */
  lemma {:induction false} SplitJoinComma(parts: seq<string>)
    requires |parts| >= 1
    requires forall i :: 0 <= i < |parts| ==> !Contains(parts[i], ", ")
    ensures Split(Join(parts, ", "), ", ") == parts
    decreases |parts|
  {
    var sep := ", ";
    if |parts| == 1 {
      assert Join(parts, sep) == parts[0];
    } else {
      var p := parts[0];
      var rest := Join(parts[1..], sep);
      assert Join(parts, sep) == p + sep + rest;
      SplitAfterCommaFree(p, rest);
      SplitJoinComma(parts[1..]);
      assert parts == [p] + parts[1..];
    }
  }

  /** Splitting `x + ", " + y` on `", "` gives `x` first when `x` holds no `", "`. */
  lemma SplitAfterCommaFree(x: string, y: string)
    requires !Contains(x, ", ")
    ensures Split(x + ", " + y, ", ") == [x] + Split(y, ", ")
  {
    PartitionAfterCommaFree(x, y);
    assert Partition(x + ", " + y, ", ").sep != "";
  }

  /** Partitioning `x + ", " + y` on `", "` splits right after `x` when `x` holds no `", "`. */
  lemma PartitionAfterCommaFree(x: string, y: string)
    requires !Contains(x, ", ")
    ensures Partition(x + ", " + y, ", ") == Parts(x, ", ", y)
  {
    var s := x + ", " + y;
    forall k | 0 <= k < |x|
      ensures !OccursAt(s, ", ", k)
    {
      if k + 2 <= |x| {
        assert s[k..k + 2] == x[k..k + 2];
        assert !OccursAt(x, ", ", k);
      } else {
        assert s[k..k + 2][1] == s[k + 1] == ',';
      }
    }
    PartitionAt(x, ", ", y);
  }

  /** `part` is the text of `s` before its first `c`, or all of `s` when it has none. */
  predicate IsTextBefore(s: string, c: char, part: string) {
    c !in part && |part| <= |s| && s[..|part|] == part && (|part| == |s| || s[|part|] == c)
  }

  /** `s.split(c)[0]` is the text before the first `c`. */
  lemma SplitFirstChar(s: string, c: char)
    ensures IsTextBefore(s, c, Split(s, [c])[0])
  {
    SplitFirst(s, [c]);
    ContainsChar(Split(s, [c])[0], c);
    var p := Partition(s, [c]);
    assert s == p.before + p.sep + p.after;
    assert s[..|p.before|] == p.before;
    if p.sep != "" {
      assert OccursAt(s, [c], |p.before|);
      assert s[|p.before|..|p.before| + 1] == [c];
    }
  }

  /** Splitting `x + [c] + y` on `c`, with no `c` in `x`, puts `x` first. */
  lemma SplitFirstAt(x: string, c: char, y: string)
    requires c !in x
    ensures Split(x + [c] + y, [c])[0] == x
  {
    var s := x + [c] + y;
    forall k | 0 <= k < |x|
      ensures !OccursAt(s, [c], k)
    {
      assert s[k..k + 1][0] == s[k] == x[k];
    }
    PartitionAt(x, [c], y);
    SplitFirst(s, [c]);
  }

  /** A character in no part and not in the separator is not in the join. */
  lemma {:induction false} JoinAvoids(parts: seq<string>, sep: string, c: char)
    requires c !in sep && forall i :: 0 <= i < |parts| ==> c !in parts[i]
    ensures c !in Join(parts, sep)
    decreases |parts|
  {
    if |parts| > 1 {
      JoinAvoids(parts[1..], sep, c);
      assert c !in parts[0];
    }
  }

  /** A join starts with the first part and ends with the last one. */
  lemma {:induction false} JoinEnds(parts: seq<string>, sep: string)
    requires |parts| >= 1
    ensures var j := Join(parts, sep);
      |parts[0]| <= |j| && j[..|parts[0]|] == parts[0] &&
      |parts[|parts| - 1]| <= |j| && j[|j| - |parts[|parts| - 1]|..] == parts[|parts| - 1]
    decreases |parts|
  {
    if |parts| > 1 {
      JoinEnds(parts[1..], sep);
      var rest := Join(parts[1..], sep);
      assert Join(parts, sep) == parts[0] + sep + rest;
      assert parts[1..][|parts| - 2] == parts[|parts| - 1];
    }
  }

  // ---------------------------------------------------------------------------
  // replace

  /** `s.replace(pat, repl)`: every occurrence of `pat`, scanning left to right without
      overlaps, is replaced by `repl`. */
  function Replace(s: string, pat: string, repl: string): string
    requires |pat| > 0
    decreases |s|
  {
    if |s| < |pat| then s
    else if s[..|pat|] == pat then repl + Replace(s[|pat|..], pat, repl)
    else [s[0]] + Replace(s[1..], pat, repl)
  }

  /** Replacing a text that does not occur changes nothing. */
  lemma {:induction false} ReplaceAbsent(s: string, pat: string, repl: string)
    requires |pat| > 0 && !Contains(s, pat)
    ensures Replace(s, pat, repl) == s
    decreases |s|
  {
    if |s| >= |pat| {
      assert !OccursAt(s, pat, 0);
      assert s[..|pat|] != pat;
      forall k | OccursAt(s[1..], pat, k)
        ensures false
      {
        OccursInSuffix(s, 1, pat, k);
      }
      ReplaceAbsent(s[1..], pat, repl);
      assert s == [s[0]] + s[1..];
    }
  }

  /** Replacing one character by a text without it leaves none of that character. */
  lemma {:induction false} ReplaceRemovesChar(s: string, c: char, repl: string)
    requires c !in repl
    ensures c !in Replace(s, [c], repl)
    decreases |s|
  {
    if |s| >= 1 {
      if s[..1] == [c] {
        ReplaceRemovesChar(s[1..], c, repl);
      } else {
        assert s[0] != c by {
          assert s[..1] == [s[0]];
        }
        ReplaceRemovesChar(s[1..], c, repl);
      }
    }
  }

  /** A text without the first character of `pat` holds no occurrence to replace. */
  lemma {:induction false} ReplaceWithoutFirstChar(s: string, pat: string, repl: string)
    requires |pat| > 0 && pat[0] !in s
    ensures Replace(s, pat, repl) == s
    decreases |s|
  {
    if |s| >= |pat| {
      assert s[..|pat|][0] == s[0];
      ReplaceWithoutFirstChar(s[1..], pat, repl);
      assert s == [s[0]] + s[1..];
    }
  }

  /** When `x` cannot start an occurrence, the first occurrence of `pat` after it is the
      first one replaced. */
  lemma {:induction false} ReplaceAfterPrefix(x: string, pat: string, repl: string, y: string)
    requires |pat| > 0 && pat[0] !in x
    ensures Replace(x + pat + y, pat, repl) == x + repl + Replace(y, pat, repl)
    decreases |x|
  {
    var s := x + pat + y;
    if x == [] {
      assert s == pat + y && s[..|pat|] == pat && s[|pat|..] == y;
    } else {
      var t := x[1..] + pat + y;
      assert s == [x[0]] + t;
      assert s[..|pat|] != pat by {
        assert s[..|pat|][0] == x[0];
      }
      assert s[1..] == t;
      ReplaceAfterPrefix(x[1..], pat, repl, y);
      assert x == [x[0]] + x[1..];
    }
  }

  /** Replacing a one-character separator changes the separator of a join. */
  lemma {:induction false} ReplaceJoinSeparator(parts: seq<string>, c: char, repl: string)
    requires forall i :: 0 <= i < |parts| ==> c !in parts[i]
    ensures Replace(Join(parts, [c]), [c], repl) == Join(parts, repl)
    decreases |parts|
  {
    if |parts| == 1 {
      ReplaceWithoutFirstChar(parts[0], [c], repl);
    } else if |parts| > 1 {
      ReplaceAfterPrefix(parts[0], [c], repl, Join(parts[1..], [c]));
      ReplaceJoinSeparator(parts[1..], c, repl);
    }
  }

  /** Replacing a character that a prefix lacks leaves that prefix alone. */
  lemma {:induction false} ReplaceCharAfterFree(x: string, c: char, repl: string, y: string)
    requires c !in x
    ensures Replace(x + y, [c], repl) == x + Replace(y, [c], repl)
    decreases |x|
  {
    if x != [] {
      var s := x + y;
      assert s[0] == x[0] && s[..1] == [x[0]] != [c];
      assert s[1..] == x[1..] + y;
      assert Replace(s, [c], repl) == [s[0]] + Replace(s[1..], [c], repl);
      ReplaceCharAfterFree(x[1..], c, repl, y);
      assert x == [x[0]] + x[1..];
    } else {
      assert x + y == y;
    }
  }

  /** Replacing the first character of a join's separator, when no part and nothing
      else in the separator holds it, changes only the separator: replacing `\r` in a
      `"\r\n"`-join by `""` gives the `"\n"`-join. */
  lemma {:induction false} ReplaceJoinLeadingChar(parts: seq<string>, c: char, rest: string, repl: string)
    requires c !in rest && forall i :: 0 <= i < |parts| ==> c !in parts[i]
    ensures Replace(Join(parts, [c] + rest), [c], repl) == Join(parts, repl + rest)
    decreases |parts|
  {
    var sep := [c] + rest;
    if |parts| == 1 {
      ReplaceWithoutFirstChar(parts[0], [c], repl);
    } else if |parts| > 1 {
      var tail := Join(parts[1..], sep);
      assert Join(parts, sep) == parts[0] + sep + tail;
      ReplaceJoinStep(parts[0], c, rest, repl, tail);
      assert forall i :: 0 <= i < |parts| - 1 ==> parts[1..][i] == parts[i + 1];
      ReplaceJoinLeadingChar(parts[1..], c, rest, repl);
      assert Join(parts, repl + rest) == parts[0] + (repl + rest) + Join(parts[1..], repl + rest);
    }
  }

  lemma ReplaceJoinStep(p: string, c: char, rest: string, repl: string, tail: string)
    requires c !in p && c !in rest
    ensures Replace(p + ([c] + rest) + tail, [c], repl) == p + (repl + rest) + Replace(tail, [c], repl)
  {
    assert p + ([c] + rest) + tail == p + [c] + (rest + tail);
    assert [c][0] !in p;
    ReplaceAfterPrefix(p, [c], repl, rest + tail);
    ReplaceCharAfterFree(rest, c, repl, tail);
  }

  /** A character in neither the text nor the replacement is not in the result. */
  lemma {:induction false} ReplaceAvoids(s: string, pat: string, repl: string, c: char)
    requires |pat| > 0 && c !in s && c !in repl
    ensures c !in Replace(s, pat, repl)
    decreases |s|
  {
    if |s| >= |pat| {
      if s[..|pat|] == pat {
        ReplaceAvoids(s[|pat|..], pat, repl, c);
      } else {
        ReplaceAvoids(s[1..], pat, repl, c);
      }
    }
  }

  // ---------------------------------------------------------------------------
  // strip

  function TrimStart(s: string): (r: string)
    ensures |r| <= |s| && r == s[|s| - |r|..]
    ensures forall k :: 0 <= k < |s| - |r| ==> IsSpace(s[k])
    ensures r == [] || !IsSpace(r[0])
  {
    if |s| > 0 && IsSpace(s[0]) then TrimStart(s[1..]) else s
  }

  function TrimEnd(s: string): (r: string)
    ensures |r| <= |s| && r == s[..|r|]
    ensures forall k :: |r| <= k < |s| ==> IsSpace(s[k])
    ensures r == [] || !IsSpace(r[|r| - 1])
  {
    if |s| > 0 && IsSpace(s[|s| - 1]) then TrimEnd(s[..|s| - 1]) else s
  }

  /** `s.strip()`: the result neither starts nor ends with whitespace, is empty exactly
      when `s` is all whitespace, and is `s` itself when `s` has no outer whitespace. */
  function Strip(s: string): (r: string)
    ensures r == [] || (!IsSpace(r[0]) && !IsSpace(r[|r| - 1]))
    ensures r == [] <==> forall k :: 0 <= k < |s| ==> IsSpace(s[k])
    ensures s == [] || (!IsSpace(s[0]) && !IsSpace(s[|s| - 1])) ==> r == s
  {
    var t := TrimStart(s);
    var r := TrimEnd(t);
    assert t != [] ==> r != [] by {
      if t != [] {
        assert !IsSpace(t[0]);
      }
    }
    assert r == [] ==> forall k :: 0 <= k < |s| ==> IsSpace(s[k]);
    r
  }

  // ---------------------------------------------------------------------------
  // List filtering

  /** `[y for y in xs if y != x]`, which is also `list(set(xs) - {x})` on a list without
      repeats. */
  function Without<T(==,!new)>(xs: seq<T>, x: T): (r: seq<T>)
    ensures forall y :: y in r <==> y in xs && y != x
    ensures |r| <= |xs|
    decreases |xs|
  {
    if xs == [] then [] else (if xs[0] == x then [] else [xs[0]]) + Without(xs[1..], x)
  }

  /** Filtering a concatenation filters each part: the kept items keep their order. */
  lemma {:induction false} WithoutAppend<T(!new)>(a: seq<T>, b: seq<T>, x: T)
    ensures Without(a + b, x) == Without(a, x) + Without(b, x)
    decreases |a|
  {
    if a == [] {
      assert a + b == b;
    } else {
      assert (a + b)[0] == a[0] && (a + b)[1..] == a[1..] + b;
      WithoutAppend(a[1..], b, x);
    }
  }

  /** One item is kept exactly when it is not the removed one. */
  lemma WithoutSingle<T(!new)>(y: T, x: T)
    ensures Without([y], x) == if y == x then [] else [y]
  {
    assert [y][1..] == [];
  }

  // ---------------------------------------------------------------------------
  // Character filtering and runs

  /** The subsequence relation: `a` is `b` with some characters deleted. */
  ghost predicate IsSubsequence(a: string, b: string)
    decreases |b|
  {
    && |a| <= |b|
    && (|a| == 0 || (a[0] == b[0] && IsSubsequence(a[1..], b[1..])) || IsSubsequence(a, b[1..]))
  }

  /** `re.sub(r"[^...]", "", s)` for the character class `keep`: deletes every character
      outside the class. */
  function Keep(s: string, keep: char -> bool): (r: string)
    ensures |r| <= |s|
    ensures forall i :: 0 <= i < |r| ==> keep(r[i])
    decreases |s|
  {
    if s == [] then []
    else (if keep(s[0]) then [s[0]] else []) + Keep(s[1..], keep)
  }

  /** `Keep` deletes characters without reordering: its result is a subsequence. */
  lemma {:induction false} KeepIsSubsequence(s: string, keep: char -> bool)
    ensures IsSubsequence(Keep(s, keep), s)
    decreases |s|
  {
    if s != [] {
      var rest := Keep(s[1..], keep);
      KeepIsSubsequence(s[1..], keep);
      if keep(s[0]) {
        assert ([s[0]] + rest)[1..] == rest;
      } else {
        assert [] + rest == rest;
      }
    }
  }

  /** `Keep` keeps every class character as often as it occurs, and nothing else. */
  lemma {:induction false} KeepCounts(s: string, keep: char -> bool, c: char)
    ensures multiset(Keep(s, keep))[c] == if keep(c) then multiset(s)[c] else 0
    decreases |s|
  {
    if s != [] {
      KeepCounts(s[1..], keep, c);
      assert s == [s[0]] + s[1..];
      assert multiset(s) == multiset([s[0]]) + multiset(s[1..]);
      var head: string := if keep(s[0]) then [s[0]] else [];
      assert multiset(head + Keep(s[1..], keep)) == multiset(head) + multiset(Keep(s[1..], keep));
    }
  }

  /** The longest prefix of `s` made of characters in `keep`. */
  function LeadingRun(s: string, keep: char -> bool): (r: string)
    ensures |r| <= |s|
    ensures |s| > 0 && keep(s[0]) ==> |r| > 0
  {
    if |s| > 0 && keep(s[0]) then [s[0]] + LeadingRun(s[1..], keep) else ""
  }

  /** The leading run is a prefix of `s`, holds only class characters, and stops at the
      end of `s` or at a character outside the class. */
  lemma {:induction false} LeadingRunIsMaximal(s: string, keep: char -> bool)
    ensures var r := LeadingRun(s, keep);
      && r == s[..|r|]
      && (forall i :: 0 <= i < |r| ==> keep(r[i]))
      && (|r| == |s| || !keep(s[|r|]))
    decreases |s|
  {
    if |s| > 0 && keep(s[0]) {
      var rest := LeadingRun(s[1..], keep);
      LeadingRunIsMaximal(s[1..], keep);
      assert s[..1 + |rest|] == [s[0]] + rest;
      var r := [s[0]] + rest;
      assert forall i :: 1 <= i < |r| ==> r[i] == rest[i - 1];
      assert |r| == |s| || s[|r|] == s[1..][|rest|];
    }
  }

  /** The maximal runs of `keep` characters in `s`, left to right: `re.findall(r"\d+", s)`
      for digits, `s.split()` for non-whitespace. */
  function Runs(s: string, keep: char -> bool): seq<string>
    decreases |s|
  {
    if |s| == 0 then []
    else if !keep(s[0]) then Runs(s[1..], keep)
    else
      var w := LeadingRun(s, keep);
      [w] + Runs(s[|w|..], keep)
  }

  /** `re.findall(r"\d+", s)`. */
  function DigitRuns(s: string): seq<string> {
    Runs(s, IsAsciiDigit)
  }

  /** `s.split()`. */
  function Words(s: string): seq<string> {
    Runs(s, IsNotSpace)
  }

  function Concat(ws: seq<string>): string
    decreases |ws|
  {
    if ws == [] then "" else ws[0] + Concat(ws[1..])
  }

  lemma {:induction false} KeepAppend(a: string, b: string, keep: char -> bool)
    ensures Keep(a + b, keep) == Keep(a, keep) + Keep(b, keep)
    decreases |a|
  {
    if a != [] {
      assert (a + b)[1..] == a[1..] + b;
      KeepAppend(a[1..], b, keep);
    } else {
      assert a + b == b;
    }
  }

  lemma {:induction false} KeepAll(s: string, keep: char -> bool)
    requires forall i :: 0 <= i < |s| ==> keep(s[i])
    ensures Keep(s, keep) == s
    decreases |s|
  {
    if s != [] {
      KeepAll(s[1..], keep);
    }
  }

  lemma {:induction false} KeepNone(s: string, keep: char -> bool)
    requires forall i :: 0 <= i < |s| ==> !keep(s[i])
    ensures Keep(s, keep) == ""
    decreases |s|
  {
    if s != [] {
      KeepNone(s[1..], keep);
    }
  }

  /** The runs of a class, laid end to end, are the characters of that class:
      `"".join(re.findall(r"\d+", s)) == re.sub(r"\D", "", s)`. */
  lemma {:induction false} RunsConcatIsKeep(s: string, keep: char -> bool)
    ensures Concat(Runs(s, keep)) == Keep(s, keep)
    decreases |s|
  {
    if |s| > 0 {
      if !keep(s[0]) {
        RunsConcatIsKeep(s[1..], keep);
      } else {
        var w := LeadingRun(s, keep);
        var rest := s[|w|..];
        LeadingRunIsMaximal(s, keep);
        RunsConcatIsKeep(rest, keep);
        assert s == w + rest;
        KeepAppend(w, rest, keep);
        KeepAll(w, keep);
        assert ([w] + Runs(rest, keep))[1..] == Runs(rest, keep);
      }
    }
  }

  lemma {:induction false} LeadingRunAppend(x: string, y: string, keep: char -> bool)
    requires |x| > 0
    requires y == [] || !keep(x[|x| - 1]) || !keep(y[0])
    ensures LeadingRun(x + y, keep) == LeadingRun(x, keep)
    decreases |x|
  {
    if keep(x[0]) {
      assert (x + y)[1..] == x[1..] + y;
      if |x| > 1 {
        LeadingRunAppend(x[1..], y, keep);
      } else {
        assert x[1..] + y == y;
      }
    }
  }

  /** Runs do not cross a boundary that has a non-class character on one side. */
  lemma {:induction false} RunsAppend(x: string, y: string, keep: char -> bool)
    requires x == [] || y == [] || !keep(x[|x| - 1]) || !keep(y[0])
    ensures Runs(x + y, keep) == Runs(x, keep) + Runs(y, keep)
    decreases |x|
  {
    if x == [] {
      assert x + y == y;
    } else {
      var n := if keep(x[0]) then |LeadingRun(x, keep)| else 1;
      var rest := x[n..];
      assert rest == [] || rest[|rest| - 1] == x[|x| - 1];
      RunsAppend(rest, y, keep);
      if keep(x[0]) {
        RunsAppendAfterRun(x, y, keep);
      } else {
        assert (x + y)[1..] == rest + y;
      }
    }
  }

  /** The step of `RunsAppend` where `x` starts with a run. */
  lemma RunsAppendAfterRun(x: string, y: string, keep: char -> bool)
    requires x != [] && keep(x[0]) && (y == [] || !keep(x[|x| - 1]) || !keep(y[0]))
    requires var w := LeadingRun(x, keep); Runs(x[|w|..] + y, keep) == Runs(x[|w|..], keep) + Runs(y, keep)
    ensures Runs(x + y, keep) == Runs(x, keep) + Runs(y, keep)
  {
    LeadingRunAppend(x, y, keep);
    var w := LeadingRun(x, keep);
    var rest := x[|w|..];
    DropAppend(x, y, |w|);
    assert Runs(x + y, keep) == [w] + Runs(rest + y, keep);
    assert Runs(x, keep) == [w] + Runs(rest, keep);
    AppendAssoc([w], Runs(rest, keep), Runs(y, keep));
  }

  lemma AppendAssoc<T>(a: seq<T>, b: seq<T>, c: seq<T>)
    ensures a + (b + c) == (a + b) + c
  {
  }

  lemma DropAppend<T>(x: seq<T>, y: seq<T>, n: nat)
    requires n <= |x|
    ensures (x + y)[n..] == x[n..] + y
  {
  }

  /** Every run is non-empty and made of class characters only. */
  lemma {:induction false} RunsAreRuns(s: string, keep: char -> bool)
    ensures forall i :: 0 <= i < |Runs(s, keep)| ==>
              |Runs(s, keep)[i]| > 0 && forall j :: 0 <= j < |Runs(s, keep)[i]| ==> keep(Runs(s, keep)[i][j])
    decreases |s|
  {
    if |s| > 0 {
      if !keep(s[0]) {
        RunsAreRuns(s[1..], keep);
      } else {
        var w := LeadingRun(s, keep);
        LeadingRunIsMaximal(s, keep);
        RunsAreRuns(s[|w|..], keep);
        var r := Runs(s, keep);
        assert r == [w] + Runs(s[|w|..], keep);
        assert forall i :: 1 <= i < |r| ==> r[i] == Runs(s[|w|..], keep)[i - 1];
      }
    }
  }

  lemma {:induction false} LeadingRunAll(s: string, keep: char -> bool)
    requires forall i :: 0 <= i < |s| ==> keep(s[i])
    ensures LeadingRun(s, keep) == s
    decreases |s|
  {
    if |s| > 0 {
      LeadingRunAll(s[1..], keep);
    }
  }

  /** A text made only of class characters is a single run. */
  lemma RunsOfRun(s: string, keep: char -> bool)
    requires |s| > 0 && forall i :: 0 <= i < |s| ==> keep(s[i])
    ensures Runs(s, keep) == [s]
  {
    LeadingRunAll(s, keep);
    assert s[|s|..] == [];
  }

  // ---------------------------------------------------------------------------
  // Integers

  function DigitValue(c: char): nat
    requires IsAsciiDigit(c)
  {
    (c as int) - ('0' as int)
  }

  function DigitChar(d: nat): (c: char)
    requires d < 10
    ensures IsAsciiDigit(c) && DigitValue(c) == d
  {
    (('0' as int) + d) as char
  }

  /** The number a string of decimal digits denotes. */
  function DecimalValue(ds: string): nat
    requires AllDigits(ds)
    decreases |ds|
  {
    if ds == [] then 0 else 10 * DecimalValue(ds[..|ds| - 1]) + DigitValue(ds[|ds| - 1])
  }

  /** `str(n)` for `n >= 0`: the decimal digits of `n`, denoting `n`. */
  function Show(n: nat): (r: string)
    ensures |r| > 0 && AllDigits(r) && DecimalValue(r) == n
  {
    if n < 10 then [DigitChar(n)]
    else
      var r := Show(n / 10) + [DigitChar(n % 10)];
      assert r[..|r| - 1] == Show(n / 10);
      r
  }

  /** `str(i)`. */
  function ShowInt(i: int): string {
    if i < 0 then "-" + Show(-i) else Show(i)
  }

  /** What `int()` accepts once the text is stripped: an optional sign, then one or more
      ASCII digits. */
  predicate IsIntLiteral(t: string) {
    |t| > 0 && (AllDigits(t) || ((t[0] == '+' || t[0] == '-') && |t| > 1 && AllDigits(t[1..])))
  }

  /** `int(s)`: surrounding whitespace, an optional sign, then one or more ASCII digits;
      `None` is the `ValueError`. */
  function ParseInt(s: string): (r: Option<int>)
    ensures r.Some? <==> IsIntLiteral(Strip(s))
    ensures r.Some? && AllDigits(Strip(s)) ==> r.value == DecimalValue(Strip(s))
    ensures r.Some? && Strip(s)[0] == '+' ==> r.value == DecimalValue(Strip(s)[1..])
    ensures r.Some? && Strip(s)[0] == '-' ==> r.value == -(DecimalValue(Strip(s)[1..]) as int)
    ensures AllDigits(s) ==> r == if |s| > 0 then Some(DecimalValue(s) as int) else None
  {
    var t := Strip(s);
    if !IsIntLiteral(t) then None
    else if AllDigits(t) then Some(DecimalValue(t))
    else if t[0] == '-' then Some(-(DecimalValue(t[1..]) as int))
    else Some(DecimalValue(t[1..]))
  }

  /** `int(str(i)) == i`. */
  lemma ParseShowInt(i: int)
    ensures ParseInt(ShowInt(i)) == Some(i)
  {
    if i < 0 {
      assert ShowInt(i) == "-" + Show(-i);
      ParseShowNegative(i);
    } else {
      assert ShowInt(i) == Show(i);
      ParseShowNat(i);
    }
  }

  lemma ParseShowNat(n: nat)
    ensures ParseInt(Show(n)) == Some(n as int)
  {
    var d := Show(n);
    DigitIsNotSpace(d[0]);
    DigitIsNotSpace(d[|d| - 1]);
    StripUnchanged(d);
  }

  lemma ParseShowNegative(i: int)
    requires i < 0
    ensures ParseInt("-" + Show(-i)) == Some(i)
  {
    var d := Show(-i);
    var s := "-" + d;
    DigitIsNotSpace(d[|d| - 1]);
    assert s[0] == '-' && s[|s| - 1] == d[|d| - 1];
    StripUnchanged(s);
    assert s[1..] == d;
    assert IsIntLiteral(s);
  }

  lemma DigitIsNotSpace(c: char)
    requires IsAsciiDigit(c)
    ensures !IsSpace(c)
  {
  }

  /** Stripping keeps a character out: the result is a slice of the text. */
  lemma StripAvoids(s: string, c: char)
    requires c !in s
    ensures c !in Strip(s)
  {
    var t := TrimStart(s);
    assert c !in t by {
      forall k | 0 <= k < |t|
        ensures t[k] != c
      {
        assert t[k] == s[|s| - |t| + k];
      }
    }
    var r := TrimEnd(t);
    assert Strip(s) == r;
    forall k | 0 <= k < |r|
      ensures r[k] != c
    {
      assert r[k] == t[k];
    }
  }

  lemma StripUnchanged(s: string)
    requires s != [] && !IsSpace(s[0]) && !IsSpace(s[|s| - 1])
    ensures Strip(s) == s
  {
  }

  // ---------------------------------------------------------------------------
  // os.path (POSIX)

  function LastIndexOf(s: string, c: char): (r: Option<nat>)
    ensures r.Some? ==> r.value < |s| && s[r.value] == c && forall k :: r.value < k < |s| ==> s[k] != c
    ensures r.None? ==> c !in s
  {
    if s == [] then None
    else if s[|s| - 1] == c then Some(|s| - 1)
    else
      assert s == s[..|s| - 1] + [s[|s| - 1]];
      LastIndexOf(s[..|s| - 1], c)
  }

  /** `os.path.basename(p)`: the part after the last `/`. */
  function Basename(p: string): (r: string)
    ensures '/' !in r
    ensures |r| <= |p| && r == p[|p| - |r|..]
    ensures |r| < |p| ==> p[|p| - |r| - 1] == '/'
  {
    match LastIndexOf(p, '/')
    case None => p
    case Some(i) => p[i + 1..]
  }

  /** `os.path.join(a, b)`. When `b` has no `/`, it is the base name of the result. */
  function JoinPath(a: string, b: string): (r: string)
    ensures |b| > 0 && b[0] == '/' ==> r == b
    ensures (|b| == 0 || b[0] != '/') && (a == "" || a[|a| - 1] == '/') ==> r == a + b
    ensures (|b| == 0 || b[0] != '/') && a != "" && a[|a| - 1] != '/' ==> r == a + "/" + b
    ensures |b| <= |r| && r[|r| - |b|..] == b
    ensures '/' !in b ==> Basename(r) == b
  {
    var r := if |b| > 0 && b[0] == '/' then b
      else if a == "" || a[|a| - 1] == '/' then a + b
      else a + "/" + b;
    assert r[|r| - |b|..] == b;
    if '/' !in b then
      if |b| > 0 && b[0] == '/' then r
      else if a == "" then BasenameAfterSlash("", b); r
      else if a[|a| - 1] == '/' then BasenameAfterSlash(a, b); r
      else BasenameAfterSlash(a + "/", b); assert r == (a + "/") + b; r
    else r
  }

  /** A slash-free name placed after a directory part ending in `/` is the base name. */
  lemma BasenameAfterSlash(x: string, b: string)
    requires '/' !in b
    requires x == [] || x[|x| - 1] == '/'
    ensures Basename(x + b) == b
  {
    var r := x + b;
    forall k | |x| <= k < |r|
      ensures r[k] != '/'
    {
      assert r[k] == b[k - |x|];
    }
    if x != [] {
      assert r[|x| - 1] == '/';
      assert LastIndexOf(r, '/') == Some(|x| - 1);
      assert r[|x|..] == b;
    } else {
      assert r == b;
    }
  }

  /** Where the last path component of `p` starts. */
  function BaseStart(p: string): (start: nat)
    ensures start == |p| - |Basename(p)|
  {
    match LastIndexOf(p, '/') case None => 0 case Some(i) => i + 1
  }

  predicate OnlyDots(s: string) {
    forall i :: 0 <= i < |s| ==> s[i] == '.'
  }

  /** `os.path.splitext(p)`: `(root, ext)` with `root + ext == p`; `ext` is empty or runs
      from the last dot of the last path component, when something other than dots
      precedes that dot in the component. */
  function SplitExt(p: string): (r: (string, string))
    ensures r.0 + r.1 == p
  {
    var start := BaseStart(p);
    match LastIndexOf(p, '.')
    case None => (p, "")
    case Some(dot) =>
      if start <= dot && !OnlyDots(p[start..dot]) then
        assert p[..dot] + p[dot..] == p;
        (p[..dot], p[dot..])
      else (p, "")
  }

  /** A non-empty extension is a dot followed by no dot and no slash. */
  lemma SplitExtExtension(p: string)
    ensures var ext := SplitExt(p).1;
      ext != "" ==> ext[0] == '.' && '.' !in ext[1..] && '/' !in ext
  {
    var start := BaseStart(p);
    match LastIndexOf(p, '.')
    case None =>
    case Some(dot) =>
      if start <= dot && !OnlyDots(p[start..dot]) {
        var ext := p[dot..];
        var b := Basename(p);
        assert b == p[start..];
        assert ext == b[dot - start..];
        assert ext[1..] == p[dot + 1..];
      }
  }

  /** A non-empty extension is preceded, within the base name, by a character other
      than a dot: a leading dot never starts an extension. */
  lemma SplitExtStem(p: string)
    ensures var r := SplitExt(p);
      r.1 != "" ==> exists k :: BaseStart(p) <= k < |r.0| && p[k] != '.'
  {
    var start := BaseStart(p);
    match LastIndexOf(p, '.')
    case None =>
    case Some(dot) =>
      if start <= dot && !OnlyDots(p[start..dot]) {
        var i :| 0 <= i < dot - start && p[start..dot][i] != '.';
        assert p[start + i] != '.';
      }
  }

  /** A base name without a dot has no extension. */
  lemma SplitExtNoDot(p: string)
    ensures '.' !in Basename(p) ==> SplitExt(p) == (p, "")
  {
    var start := BaseStart(p);
    match LastIndexOf(p, '.')
    case None =>
    case Some(dot) =>
      assert start <= dot ==> p[dot] == Basename(p)[dot - start];
  }

  /** `os.path.splitext` of a name followed by an extension gives the two back, when the
      name has no `/` and is not all dots (`"a.b" + ".png"`, `".hidden" + ".png"`). */
  lemma SplitExtOfName(name: string, ext: string)
    requires '/' !in name && !OnlyDots(name)
    requires |ext| > 0 && ext[0] == '.' && '.' !in ext[1..] && '/' !in ext
    ensures SplitExt(name + ext) == (name, ext)
  {
    var p := name + ext;
    assert '/' !in p by {
      forall k | 0 <= k < |p|
        ensures p[k] != '/'
      {
        if k < |name| { assert p[k] == name[k]; } else { assert p[k] == ext[k - |name|]; }
      }
    }
    assert p[|name|] == '.';
    forall k | |name| < k < |p|
      ensures p[k] != '.'
    {
      assert p[k] == ext[1..][k - |name| - 1];
    }
    assert LastIndexOf(p, '.') == Some(|name|);
    assert p[..|name|] == name && p[|name|..] == ext;
  }
}
