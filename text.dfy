/**
 * The handful of Python `str` operations the monitor relies on: `in`,
 * `split(sep)`, `sep.join(parts)`, `replace(target, replacement)`, `strip()` and `lower()`,
 * defined on `seq<char>` with the semantics CPython gives them.
 */
module Text {

  import opened Base

  /** `pat` occurs in `s` starting at position `k`. */
  predicate OccursAt(s: string, pat: string, k: int)
  {
    0 <= k && k + |pat| <= |s| && s[k..k + |pat|] == pat
  }

  lemma OccursAtChar(s: string, pat: string, k: int, i: int)
    requires OccursAt(s, pat, k) && 0 <= i < |pat|
    ensures s[k + i] == pat[i]
  {
    assert s[k..k + |pat|][i] == s[k + i];
  }

  /** The first occurrence of `pat` in `s` at or after position `i`. */
  function IndexFrom(s: string, pat: string, i: nat): (r: Option<nat>)
    requires i <= |s|
    ensures r.Some? ==> i <= r.value && OccursAt(s, pat, r.value)
    ensures r.Some? ==> forall j :: i <= j < r.value ==> !OccursAt(s, pat, j)
    ensures r.None? ==> forall j :: i <= j ==> !OccursAt(s, pat, j)
    decreases |s| - i
  {
    if OccursAt(s, pat, i) then Some(i)
    else if i == |s| then None
    else IndexFrom(s, pat, i + 1)
  }

  /** The first occurrence of `pat` in `s`, if any: the search behind `pat in s` and `s.split(pat)`. */
  function IndexOf(s: string, pat: string): (r: Option<nat>)
    ensures r.Some? ==> OccursAt(s, pat, r.value)
    ensures r.Some? ==> forall j :: 0 <= j < r.value ==> !OccursAt(s, pat, j)
    ensures r.None? ==> forall j :: !OccursAt(s, pat, j)
  {
    IndexFrom(s, pat, 0)
  }

  /** A position holding an occurrence, with none before it, is the first occurrence. */
  lemma IndexOfIs(s: string, pat: string, k: nat)
    requires OccursAt(s, pat, k)
    requires forall j :: 0 <= j < k ==> !OccursAt(s, pat, j)
    ensures IndexOf(s, pat) == Some(k)
  {
  }

  /** With no occurrence at all, the search reports none. */
  lemma IndexOfNone(s: string, pat: string)
    requires forall j :: !OccursAt(s, pat, j)
    ensures IndexOf(s, pat) == None
  {
  }

  /** Python's `pat in s`. */
  predicate Contains(s: string, pat: string)
  {
    IndexOf(s, pat).Some?
  }

  lemma ContainsIff(s: string, pat: string)
    ensures Contains(s, pat) <==> exists k :: OccursAt(s, pat, k)
  {
  }

  /** An occurrence inside a prefix is an occurrence in the whole string. */
  lemma OccursInPrefix(s: string, n: nat, pat: string, k: int)
    requires n <= |s| && OccursAt(s[..n], pat, k)
    ensures OccursAt(s, pat, k)
  {
    assert s[..n][k..k + |pat|] == s[k..k + |pat|];
  }

  /** Python's `s.split(sep)` for a non-empty separator. */
  function Split(s: string, sep: string): (parts: seq<string>)
    requires |sep| > 0
    ensures |parts| >= 1
    ensures |parts| == 1 <==> !Contains(s, sep)
    ensures !Contains(s, sep) ==> parts == [s]
    decreases |s|
  {
    match IndexOf(s, sep)
    case None => [s]
    case Some(k) => [s[..k]] + Split(s[k + |sep|..], sep)
  }

  /** The first two pieces of a split: the text before the first separator and the text after it, up to the next one. */
  lemma SplitFirstPieces(s: string, sep: string)
    requires |sep| > 0 && Contains(s, sep)
    ensures |Split(s, sep)| >= 2
    ensures Split(s, sep)[0] == s[..IndexOf(s, sep).value]
    ensures Split(s, sep)[1] == Split(s[IndexOf(s, sep).value + |sep|..], sep)[0]
  {
  }

  /** An occurrence that ends within the first `n` characters is an occurrence in that prefix. */
  lemma OccursInsidePrefix(s: string, n: nat, pat: string, k: int)
    requires OccursAt(s, pat, k) && k + |pat| <= n <= |s|
    ensures OccursAt(s[..n], pat, k)
  {
    assert s[..n][k..k + |pat|] == s[k..k + |pat|];
  }

  /** A pattern with a character that `s` lacks does not occur in `s`. */
  lemma AbsentChar(s: string, pat: string, i: nat)
    requires i < |pat| && pat[i] !in s
    ensures !Contains(s, pat)
  {
    if Contains(s, pat) {
      OccursAtChar(s, pat, IndexOf(s, pat).value, i);
    }
  }

  /** An occurrence inside a suffix is an occurrence in the whole string. */
  lemma OccursInSuffix(s: string, n: nat, pat: string, k: int)
    requires n <= |s| && OccursAt(s[n..], pat, k)
    ensures OccursAt(s, pat, n + k)
  {
    assert s[n..][k..k + |pat|] == s[n + k..n + k + |pat|];
  }

  /** Python's `sep.join(parts)`. */
  function Join(parts: seq<string>, sep: string): string
  {
    if |parts| == 0 then ""
    else if |parts| == 1 then parts[0]
    else parts[0] + sep + Join(parts[1..], sep)
  }

  /** Python's `s.replace(target, replacement)` for a non-empty `target`: every occurrence, left to right. */
  function Replace(s: string, target: string, replacement: string): string
    requires |target| > 0
    decreases |s|
  {
    match IndexOf(s, target)
    case None => s
    case Some(k) => s[..k] + replacement + Replace(s[k + |target|..], target, replacement)
  }

  /** A string is its prefix, a middle slice and the rest. */
  lemma ThreeSlices(s: string, k: nat, n: nat)
    requires k + n <= |s|
    ensures s == s[..k] + s[k..k + n] + s[k + n..]
  {
    assert s[..k + n] == s[..k] + s[k..k + n];
  }

  /** Joining a head piece onto at least one more piece puts the separator between them. */
  lemma JoinCons(head: string, tail: seq<string>, sep: string)
    requires |tail| >= 1
    ensures Join([head] + tail, sep) == head + sep + Join(tail, sep)
  {
    assert ([head] + tail)[1..] == tail;
  }

  /** Joining the pieces of a split with the same separator gives the string back. */
  lemma {:induction false} JoinSplit(s: string, sep: string)
    requires |sep| > 0
    ensures Join(Split(s, sep), sep) == s
    decreases |s|
  {
    if IndexOf(s, sep).Some? {
      var k := IndexOf(s, sep).value;
      var rest := s[k + |sep|..];
      var parts := Split(rest, sep);
      assert Split(s, sep) == [s[..k]] + parts;
      JoinSplit(rest, sep);
      JoinCons(s[..k], parts, sep);
      assert s[k..k + |sep|] == sep;
      ThreeSlices(s, k, |sep|);
      assert Join(Split(s, sep), sep) == s[..k] + sep + rest;
    }
  }

  /** No piece of a split contains the separator. */
  lemma {:induction false} SplitPiecesFree(s: string, sep: string)
    requires |sep| > 0
    ensures forall i :: 0 <= i < |Split(s, sep)| ==> !Contains(Split(s, sep)[i], sep)
    decreases |s|
  {
    match IndexOf(s, sep)
    case None =>
    case Some(k) =>
      SplitPiecesFree(s[k + |sep|..], sep);
      if Contains(s[..k], sep) {
        var j := IndexOf(s[..k], sep).value;
        OccursInPrefix(s, k, sep, j);
        assert false;
      }
  }

  /** `s.replace(target, replacement) == replacement.join(s.split(target))`, the identity CPython documents. */
  lemma {:induction false} ReplaceIsJoinOfSplit(s: string, target: string, replacement: string)
    requires |target| > 0
    ensures Replace(s, target, replacement) == Join(Split(s, target), replacement)
    decreases |s|
  {
    match IndexOf(s, target)
    case None =>
    case Some(k) =>
      ReplaceIsJoinOfSplit(s[k + |target|..], target, replacement);
  }

  /** Every character of a replacement's result comes from the original or from the replacement text. */
  lemma {:induction false} ReplaceChars(s: string, target: string, replacement: string)
    requires |target| > 0
    ensures forall c :: c in Replace(s, target, replacement) ==> c in s || c in replacement
    decreases |s|
  {
    match IndexOf(s, target)
    case None =>
    case Some(k) =>
      var rest := s[k + |target|..];
      ReplaceChars(rest, target, replacement);
      forall c | c in Replace(s, target, replacement) ensures c in s || c in replacement {
        if c in s[..k] {
        } else if c in replacement {
        } else {
          assert c in Replace(rest, target, replacement);
          var i :| 0 <= i < |rest| && rest[i] == c;
          assert s[k + |target| + i] == c;
        }
      }
  }

  /** Replacing a single character by a text without it leaves no such character. */
  lemma {:induction false} ReplaceRemovesChar(s: string, c: char, replacement: string)
    requires c !in replacement
    ensures c !in Replace(s, [c], replacement)
    decreases |s|
  {
    match IndexOf(s, [c])
    case None =>
      if c in s {
        var j :| 0 <= j < |s| && s[j] == c;
        assert OccursAt(s, [c], j);
        assert false;
      }
    case Some(k) =>
      ReplaceRemovesChar(s[k + 1..], c, replacement);
      if c in s[..k] {
        var j :| 0 <= j < k && s[..k][j] == c;
        assert OccursAt(s, [c], j);
        assert false;
      }
  }

  /**
   * Splitting on a one-character separator distributes over a join at that
   * separator: `(a + sep + b).split(sep) == a.split(sep) + b.split(sep)`.
   */
  lemma {:induction false} SplitAtSeparator(a: string, b: string, sep: string)
    requires |sep| == 1
    ensures Split(a + sep + b, sep) == Split(a, sep) + Split(b, sep)
    decreases |a|
  {
    var s := a + sep + b;
    match IndexOf(a, sep)
    case None =>
      assert OccursAt(s, sep, |a|) by { assert s[|a|..|a| + 1] == sep; }
      forall j | 0 <= j < |a| ensures !OccursAt(s, sep, j) {
        if OccursAt(s, sep, j) {
          assert a[j..j + 1] == s[j..j + 1];
          assert OccursAt(a, sep, j);
        }
      }
      IndexOfIs(s, sep, |a|);
      assert s[..|a|] == a;
      assert s[|a| + 1..] == b;
      assert Split(a, sep) == [a];
    case Some(k) =>
      forall j | 0 <= j <= k ensures OccursAt(s, sep, j) <==> OccursAt(a, sep, j) {
        assert a[j..j + 1] == s[j..j + 1];
      }
      IndexOfIs(s, sep, k);
      assert s[..k] == a[..k];
      assert s[k + 1..] == a[k + 1..] + sep + b;
      SplitAtSeparator(a[k + 1..], b, sep);
  }

  /**
   * The characters Python's argument-less `strip()` removes, those for which
   * `str.isspace()` holds: the ASCII controls 9-13 and 28-31, the space, and
   * the Unicode spaces and separators.
   */
  predicate IsSpace(c: char)
  {
    '\U{0009}' <= c <= '\U{000D}' || '\U{001C}' <= c <= '\U{0020}' ||
    c == '\U{0085}' || c == '\U{00A0}' || c == '\U{1680}' || '\U{2000}' <= c <= '\U{200A}' ||
    c == '\U{2028}' || c == '\U{2029}' || c == '\U{202F}' || c == '\U{205F}' || c == '\U{3000}'
  }

  /** `s.lstrip()`: the longest suffix of `s` that does not start with whitespace. */
  function TrimStart(s: string): (r: string)
    ensures |r| <= |s| && r == s[|s| - |r|..]
    ensures forall i :: 0 <= i < |s| - |r| ==> IsSpace(s[i])
    ensures r == [] || !IsSpace(r[0])
  {
    if |s| > 0 && IsSpace(s[0]) then TrimStart(s[1..]) else s
  }

  /** `s.rstrip()`: the longest prefix of `s` that does not end with whitespace. */
  function TrimEnd(s: string): (r: string)
    ensures |r| <= |s| && r == s[..|r|]
    ensures forall i :: |r| <= i < |s| ==> IsSpace(s[i])
    ensures r == [] || !IsSpace(r[|r| - 1])
  {
    if |s| > 0 && IsSpace(s[|s| - 1]) then TrimEnd(s[..|s| - 1]) else s
  }

  /** `s.strip()`. */
  function Strip(s: string): string
  {
    TrimEnd(TrimStart(s))
  }

  /** `c.lower()` for the ASCII letters. */
  function LowerChar(c: char): char
  {
    if 'A' <= c <= 'Z' then (c as int + 32) as char else c
  }

  /** `s.lower()` for ASCII text. */
  function Lower(s: string): (r: string)
    ensures |r| == |s|
    ensures forall i :: 0 <= i < |s| ==> r[i] == LowerChar(s[i])
  {
    if s == [] then [] else [LowerChar(s[0])] + Lower(s[1..])
  }

  predicate StartsWith(s: string, prefix: string)
  {
    |prefix| <= |s| && s[..|prefix|] == prefix
  }

  predicate EndsWith(s: string, suffix: string)
  {
    |suffix| <= |s| && s[|s| - |suffix|..] == suffix
  }
}
