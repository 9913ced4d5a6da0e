/** The string operations of Python's `str` that the crawlers use:
    `startswith`, `in`, `split`, `join`, `replace`, `lstrip`/`rstrip`/`strip`
    and slicing, each with the semantics of CPython for a non-empty
    separator. */
module Strings {
  import opened Wrappers

  /** `s.startswith(p)` */
  predicate StartsWith(s: string, p: string) {
    |p| <= |s| && s[..|p|] == p
  }

  /** `s.endswith(p)` */
  predicate EndsWith(s: string, p: string) {
    |p| <= |s| && s[|s| - |p|..] == p
  }

  /** `pat` occurs in `s` starting at index `i`. */
  predicate OccursAt(s: string, pat: string, i: int) {
    0 <= i && i + |pat| <= |s| && s[i..i + |pat|] == pat
  }

  lemma OccursShift(s: string, pat: string)
    requires |s| > 0
    ensures forall j :: 1 <= j ==> (OccursAt(s, pat, j) <==> OccursAt(s[1..], pat, j - 1))
  {
    forall j | 1 <= j
      ensures OccursAt(s, pat, j) <==> OccursAt(s[1..], pat, j - 1)
    {
      if j + |pat| <= |s| {
        assert s[1..][j - 1..j - 1 + |pat|] == s[j..j + |pat|];
      }
    }
  }

  /** `s.find(pat)`: the leftmost occurrence of `pat` in `s`. */
  function IndexOf(s: string, pat: string): (r: Option<nat>)
    ensures r.Some? ==> OccursAt(s, pat, r.value)
    ensures r.Some? ==> forall j :: 0 <= j < r.value ==> !OccursAt(s, pat, j)
    ensures r.None? ==> forall j :: !OccursAt(s, pat, j)
    decreases |s|
  {
    if |s| < |pat| then None
    else if s[..|pat|] == pat then Some(0)
    else
      OccursShift(s, pat);
      match IndexOf(s[1..], pat)
      case None => None
      case Some(i) => Some(i + 1)
  }

  /** `pat in s` */
  predicate Contains(s: string, pat: string) {
    IndexOf(s, pat).Some?
  }

  /** `sep.join(parts)` */
  function Join(parts: seq<string>, sep: string): string {
    if |parts| == 0 then ""
    else if |parts| == 1 then parts[0]
    else parts[0] + sep + Join(parts[1..], sep)
  }

  /** `s.split(sep)` for a non-empty separator: the pieces between the
      non-overlapping occurrences of `sep`, scanned left to right. */
  function Split(s: string, sep: string): (parts: seq<string>)
    requires |sep| > 0
    ensures |parts| >= 1
    ensures Join(parts, sep) == s
    decreases |s|
  {
    match IndexOf(s, sep)
    case None => [s]
    case Some(i) =>
      var rest := Split(s[i + |sep|..], sep);
      assert s == s[..i] + sep + s[i + |sep|..];
      [s[..i]] + rest
  }

  /** `s.replace(pat, rep)` for a non-empty pattern. */
  function Replace(s: string, pat: string, rep: string): string
    requires |pat| > 0
  {
    Join(Split(s, pat), rep)
  }

  /** `s[:n]` */
  function Take(s: string, n: nat): (r: string)
    ensures StartsWith(s, r)
    ensures |r| == if |s| <= n then |s| else n
  {
    if |s| <= n then s else s[..n]
  }

  /** `s.lstrip(chars)` */
  function LStrip(s: string, chars: set<char>): (r: string)
    ensures |r| <= |s| && r == s[|s| - |r|..]
    ensures |r| > 0 ==> r[0] !in chars
    ensures forall i :: 0 <= i < |s| - |r| ==> s[i] in chars
  {
    if |s| > 0 && s[0] in chars then LStrip(s[1..], chars) else s
  }

  /** `s.rstrip(chars)` */
  function RStrip(s: string, chars: set<char>): (r: string)
    ensures |r| <= |s| && r == s[..|r|]
    ensures |r| > 0 ==> r[|r| - 1] !in chars
    ensures forall i :: |r| <= i < |s| ==> s[i] in chars
  {
    if |s| > 0 && s[|s| - 1] in chars then RStrip(s[..|s| - 1], chars) else s
  }

  /** `s.strip(chars)` */
  function Strip(s: string, chars: set<char>): string {
    RStrip(LStrip(s, chars), chars)
  }

  /** `set(xs)` */
  function SetOf<T>(xs: seq<T>): set<T> {
    set x | x in xs
  }

  // ---------------------------------------------------------------------
  // Properties of Split and Join

  /** A character pattern occurs exactly where the character is. */
  lemma OccursChar(s: string, c: char, j: int)
    ensures OccursAt(s, [c], j) <==> 0 <= j < |s| && s[j] == c
  {
    if 0 <= j < |s| {
      assert s[j..j + 1] == [s[j]];
    }
  }

  lemma ContainsChar(s: string, c: char)
    ensures Contains(s, [c]) <==> c in s
  {
    if c in s {
      var j :| 0 <= j < |s| && s[j] == c;
      OccursChar(s, c, j);
    }
    if Contains(s, [c]) {
      OccursChar(s, c, IndexOf(s, [c]).value);
    }
  }

  /** The leftmost occurrence of a character is its first index. */
  lemma IndexOfChar(s: string, c: char, i: nat)
    requires i < |s| && s[i] == c
    requires forall j :: 0 <= j < i ==> s[j] != c
    ensures IndexOf(s, [c]) == Some(i)
  {
    OccursChar(s, c, i);
    OccursChar(s, c, IndexOf(s, [c]).value);
  }

  /** What `IndexOf` of a single character says, in terms of indices. */
  lemma IndexOfCharFacts(s: string, c: char)
    ensures IndexOf(s, [c]).None? <==> c !in s
    ensures IndexOf(s, [c]).Some? ==>
      var i := IndexOf(s, [c]).value;
      i < |s| && s[i] == c && forall j :: 0 <= j < i ==> s[j] != c
  {
    ContainsChar(s, c);
    if IndexOf(s, [c]).Some? {
      var i := IndexOf(s, [c]).value;
      OccursChar(s, c, i);
      forall j | 0 <= j < i ensures s[j] != c {
        OccursChar(s, c, j);
      }
    }
  }

  /** An occurrence inside a prefix is an occurrence in the whole string. */
  lemma OccursInPrefix(s: string, n: nat, pat: string, j: int)
    requires n <= |s|
    requires OccursAt(s[..n], pat, j)
    ensures OccursAt(s, pat, j) && j + |pat| <= n
  {
    assert s[..n][j..j + |pat|] == s[j..j + |pat|];
  }

  /** No piece that `split` produces contains the separator. */
  lemma {:induction false} SplitPartsFree(s: string, sep: string)
    requires |sep| > 0
    ensures forall k :: 0 <= k < |Split(s, sep)| ==> !Contains(Split(s, sep)[k], sep)
    decreases |s|
  {
    match IndexOf(s, sep)
    case None =>
    case Some(i) =>
      var head := s[..i];
      if Contains(head, sep) {
        var j := IndexOf(head, sep).value;
        OccursInPrefix(s, i, sep, j);
        assert false;
      }
      SplitPartsFree(s[i + |sep|..], sep);
  }

  /** Every character of a joined text comes from a piece or the separator. */
  lemma {:induction false} JoinChars(parts: seq<string>, sep: string, c: char)
    requires c in Join(parts, sep)
    ensures c in sep || exists k :: 0 <= k < |parts| && c in parts[k]
  {
    if |parts| > 1 {
      if c !in parts[0] && c !in sep {
        JoinChars(parts[1..], sep, c);
        var k :| 0 <= k < |parts[1..]| && c in parts[1..][k];
        assert c in parts[k + 1];
      }
    }
  }

  /** Every character of a piece occurs in the joined text. */
  lemma {:induction false} JoinKeepsChars(parts: seq<string>, sep: string, k: nat, c: char)
    requires k < |parts| && c in parts[k]
    ensures c in Join(parts, sep)
  {
    if |parts| > 1 && k > 0 {
      JoinKeepsChars(parts[1..], sep, k - 1, c);
    }
  }

  /** A joined text ends with the last piece. */
  lemma {:induction false} JoinEndsWithLast(parts: seq<string>, sep: string)
    requires |parts| >= 1
    ensures EndsWith(Join(parts, sep), parts[|parts| - 1])
  {
    if |parts| > 1 {
      JoinEndsWithLast(parts[1..], sep);
      var j := Join(parts[1..], sep);
      var whole := parts[0] + sep + j;
      assert whole[|whole| - |j|..] == j;
    }
  }

  /** In a join of two or more pieces, a separator comes right before the
      last piece. */
  lemma {:induction false} JoinSeparatorBeforeLast(parts: seq<string>, sep: string)
    requires |parts| >= 1
    ensures var j := Join(parts, sep);
      |parts| >= 2 ==> |parts[|parts| - 1]| <= |j| && EndsWith(j[..|j| - |parts[|parts| - 1]|], sep)
  {
    var last := parts[|parts| - 1];
    var whole := Join(parts, sep);
    if |parts| == 2 {
      assert Join(parts[1..], sep) == parts[1..][0] == last;
      assert whole[..|whole| - |last|] == parts[0] + sep;
    } else if |parts| > 2 {
      JoinSeparatorBeforeLast(parts[1..], sep);
      var j := Join(parts[1..], sep);
      assert whole == parts[0] + sep + j;
      assert whole[..|whole| - |last|] == parts[0] + sep + j[..|j| - |last|];
    }
  }

  /** Every character of a `split` piece occurs in the split text. */
  lemma SplitPartChars(s: string, sep: string, k: nat, c: char)
    requires |sep| > 0 && k < |Split(s, sep)| && c in Split(s, sep)[k]
    ensures c in s
  {
    JoinKeepsChars(Split(s, sep), sep, k, c);
  }

  /** A split on a character cuts at its first occurrence. */
  lemma SplitAtFirst(s: string, c: char, i: nat)
    requires IndexOf(s, [c]) == Some(i)
    ensures i < |s| && Split(s, [c]) == [s[..i]] + Split(s[i + 1..], [c])
  {
  }

  /** Splitting on one character distributes over a joint at that character. */
  lemma {:induction false} SplitConcatChar(a: string, b: string, c: char)
    ensures Split(a + [c] + b, [c]) == Split(a, [c]) + Split(b, [c])
    decreases |a|
  {
    IndexOfCharFacts(a, c);
    if c in a {
      var i := IndexOf(a, [c]).value;
      SplitConcatChar(a[i + 1..], b, c);
      SplitConcatAtHit(a, b, c, i);
    } else {
      SplitConcatAtMiss(a, b, c);
    }
  }

  /** The step of `SplitConcatChar` when `a` holds the character, first at `i`. */
  lemma SplitConcatAtHit(a: string, b: string, c: char, i: nat)
    requires IndexOf(a, [c]) == Some(i)
    requires Split(a[i + 1..] + [c] + b, [c]) == Split(a[i + 1..], [c]) + Split(b, [c])
    ensures Split(a + [c] + b, [c]) == Split(a, [c]) + Split(b, [c])
  {
    SplitJointAtFirst(a, b, c, i);
    SplitAtFirst(a, c, i);
    ConsAssoc(a[..i], Split(a[i + 1..], [c]), Split(b, [c]),
              Split(a + [c] + b, [c]), Split(a, [c]));
  }

  lemma ConsAssoc(h: string, xs: seq<string>, ys: seq<string>, whole: seq<string>, left: seq<string>)
    requires whole == [h] + (xs + ys) && left == [h] + xs
    ensures whole == left + ys
  {
  }

  /** The first piece of `a + [c] + b` is that of `a` when `a` holds `c`. */
  lemma SplitJointAtFirst(a: string, b: string, c: char, i: nat)
    requires IndexOf(a, [c]) == Some(i)
    ensures i < |a| && Split(a + [c] + b, [c]) == [a[..i]] + Split(a[i + 1..] + [c] + b, [c])
  {
    FirstCharInJoint(a, b, c, i);
    JointSlices(a, b, c, i);
    SplitCut(a + [c] + b, c, i, a[..i], a[i + 1..] + [c] + b);
  }

  /** The two sides of position `i < |a|` in `a + [c] + b`. */
  lemma JointSlices(a: string, b: string, c: char, i: nat)
    requires i < |a|
    ensures (a + [c] + b)[..i] == a[..i] && (a + [c] + b)[i + 1..] == a[i + 1..] + [c] + b
  {
  }

  /** The first `c` of `a + [c] + b` is the first one of `a`. */
  lemma FirstCharInJoint(a: string, b: string, c: char, i: nat)
    requires IndexOf(a, [c]) == Some(i)
    ensures i < |a| && IndexOf(a + [c] + b, [c]) == Some(i)
  {
    var s := a + [c] + b;
    IndexOfCharFacts(a, c);
    assert forall j :: 0 <= j < i ==> s[j] == a[j];
    IndexOfChar(s, c, i);
  }

  /** A split on a character, with the two sides of its first occurrence named. */
  lemma SplitCut(s: string, c: char, i: nat, pre: string, post: string)
    requires IndexOf(s, [c]) == Some(i)
    requires i < |s| && s[..i] == pre && s[i + 1..] == post
    ensures Split(s, [c]) == [pre] + Split(post, [c])
  {
    SplitAtFirst(s, c, i);
  }

  /** The step of `SplitConcatChar` when `a` lacks the character. */
  lemma SplitConcatAtMiss(a: string, b: string, c: char)
    requires c !in a
    ensures Split(a + [c] + b, [c]) == Split(a, [c]) + Split(b, [c])
  {
    var s := a + [c] + b;
    IndexOfCharFacts(a, c);
    IndexOfChar(s, c, |a|);
    SplitAtFirst(s, c, |a|);
    assert s[..|a|] == a;
    assert s[|a| + 1..] == b;
  }

  /** `split` undoes `join` when no piece holds the separator character. */
  lemma {:induction false} SplitJoinChar(parts: seq<string>, c: char)
    requires |parts| >= 1
    requires forall k :: 0 <= k < |parts| ==> c !in parts[k]
    ensures Split(Join(parts, [c]), [c]) == parts
  {
    if |parts| == 1 {
      ContainsChar(parts[0], c);
    } else {
      SplitJoinChar(parts[1..], c);
      SplitConcatChar(parts[0], Join(parts[1..], [c]), c);
      ContainsChar(parts[0], c);
    }
  }

  /** The first piece of a split keeps a leading text in which the
      separator cannot start. */
  lemma FirstPartStartsWith(s: string, sep: string, p: string)
    requires |sep| > 0 && StartsWith(s, p) && sep[0] !in p
    ensures StartsWith(Split(s, sep)[0], p)
  {
    forall j | 0 <= j < |p| ensures !OccursAt(s, sep, j) {
      assert s[j] == p[j];
    }
    FirstPartKeepsPrefix(s, sep, p);
  }

  /** The first piece of a split keeps a leading text inside which no
      separator starts. */
  lemma FirstPartKeepsPrefix(s: string, sep: string, p: string)
    requires |sep| > 0 && StartsWith(s, p)
    requires forall j :: 0 <= j < |p| ==> !OccursAt(s, sep, j)
    ensures StartsWith(Split(s, sep)[0], p)
  {
    SplitFirstPart(s, sep);
    if IndexOf(s, sep).Some? {
      var i := IndexOf(s, sep).value;
      assert i >= |p|;
      assert s[..i][..|p|] == s[..|p|];
    }
  }

  /** Joining with a separator adds one separator between each two pieces
      to the joined pieces. */
  lemma {:induction false} JoinLength(parts: seq<string>, sep: string)
    requires |parts| >= 1
    ensures |Join(parts, sep)| == |Join(parts, "")| + |sep| * (|parts| - 1)
  {
    if |parts| > 1 {
      JoinLength(parts[1..], sep);
    }
  }

  /** `s[:len(w)] == w` is `s.startswith(w)`. */
  lemma TakeIsPrefixTest(s: string, w: string)
    ensures Take(s, |w|) == w <==> StartsWith(s, w)
  {
  }

  /** When `s` starts with a segment closed by `/`, a `/`-free text is a
      prefix of `s` exactly when it is a prefix of the segment. */
  lemma PrefixWithinSegment(s: string, seg: string, w: string)
    requires StartsWith(s, seg + "/") && '/' !in w
    ensures StartsWith(s, w) <==> StartsWith(seg, w)
  {
    assert s[..|seg| + 1] == seg + "/";
    if |w| <= |seg| {
      assert s[..|w|] == s[..|seg| + 1][..|w|] == seg[..|w|];
    } else if |w| <= |s| {
      assert s[|seg|] == s[..|seg| + 1][|seg|] == '/';
      assert s[..|w|][|seg|] == '/' != w[|seg|];
    }
  }

  /** A split has a second piece exactly when the separator occurs. */
  lemma SplitHasSecondPiece(s: string, sep: string)
    requires |sep| > 0
    ensures |Split(s, sep)| >= 2 <==> Contains(s, sep)
  {
  }

  /** The first piece of a split: the text before the first separator. */
  lemma SplitFirstPart(s: string, sep: string)
    requires |sep| > 0
    ensures IndexOf(s, sep).None? ==> Split(s, sep)[0] == s
    ensures IndexOf(s, sep).Some? ==> IndexOf(s, sep).value <= |s| && Split(s, sep)[0] == s[..IndexOf(s, sep).value]
  {
  }

  /** The first piece of a split is exactly the text before a leading
      separator when that text cannot hold one. */
  lemma FirstPartExact(s: string, c: char, p: string)
    requires StartsWith(s, p + [c]) && c !in p
    ensures Split(s, [c])[0] == p
  {
    forall j | 0 <= j < |p| ensures s[j] != c {
      assert s[j] == (p + [c])[j];
    }
    assert s[|p|] == (p + [c])[|p|];
    IndexOfChar(s, c, |p|);
  }

  /** A character that is neither in `s` nor in `rep` is not in the result of
      a replacement. */
  lemma ReplaceKeepsAbsent(s: string, pat: string, rep: string, c: char)
    requires |pat| > 0 && c !in s && c !in rep
    ensures c !in Replace(s, pat, rep)
  {
    if c in Replace(s, pat, rep) {
      JoinChars(Split(s, pat), rep, c);
      var k :| 0 <= k < |Split(s, pat)| && c in Split(s, pat)[k];
      SplitPartChars(s, pat, k, c);
    }
  }

  /** Replacing a character by a text without it removes every copy. */
  lemma ReplaceRemovesChar(s: string, c: char, rep: string)
    requires c !in rep
    ensures c !in Replace(s, [c], rep)
  {
    SplitPartsFree(s, [c]);
    if c in Replace(s, [c], rep) {
      JoinChars(Split(s, [c]), rep, c);
      var k :| 0 <= k < |Split(s, [c])| && c in Split(s, [c])[k];
      ContainsChar(Split(s, [c])[k], c);
    }
  }
}
