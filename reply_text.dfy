/**
 * The text pipeline both variants of the endpoint apply to the language model's reply:
 * split the reply on line feeds, keep the lines whose whitespace-strip is non-empty,
 * strip hyphens, bullet dots and spaces from both ends of each kept line, and keep
 * the first `count` of the results (Python slice semantics, so a negative `count`
 * drops items from the end).
 */
module ReplyText {

  /** The characters Python's `str.isspace` accepts, which `str.strip()` with no argument removes. */
  predicate IsPySpace(c: char)
    ensures IsPySpace(c) && ' ' <= c <= '~' ==> c == ' '
    ensures c == ' ' || c == '\t' || c == '\n' || c == '\r' ==> IsPySpace(c)
    ensures c == '\U{85}' || c == '\U{A0}' || c == '\U{2028}' || c == '\U{3000}' ==> IsPySpace(c)
  {
    || ('\t' <= c <= '\r')
    || ('\U{1C}' <= c <= '\U{1F}')
    || c == ' ' || c == '\U{85}' || c == '\U{A0}' || c == '\U{1680}'
    || ('\U{2000}' <= c <= '\U{200A}')
    || c == '\U{2028}' || c == '\U{2029}' || c == '\U{202F}' || c == '\U{205F}' || c == '\U{3000}'
  }

  /** The two character sets the pipeline strips: `strip()` and `strip("-• ")`. */
  datatype StripSet = Whitespace | Bullets

  predicate InSet(c: char, cs: StripSet) {
    match cs
    case Whitespace => IsPySpace(c)
    case Bullets => c == '-' || c == '\U{2022}' || c == ' '
  }

  /** Scanning from position `i` rightwards, the first position whose character is not in `cs` (or `|s|`). */
  function SkipLeading(s: string, cs: StripSet, i: nat): (r: nat)
    requires i <= |s|
    ensures i <= r <= |s|
    ensures forall k :: i <= k < r ==> InSet(s[k], cs)
    ensures r < |s| ==> !InSet(s[r], cs)
    decreases |s| - i
  {
    if i < |s| && InSet(s[i], cs) then SkipLeading(s, cs, i + 1) else i
  }

  /** Scanning from position `j` leftwards but not past `lo`, the end of the last character not in `cs` (or `lo`). */
  function SkipTrailing(s: string, cs: StripSet, lo: nat, j: nat): (r: nat)
    requires lo <= j <= |s|
    ensures lo <= r <= j
    ensures forall k :: r <= k < j ==> InSet(s[k], cs)
    ensures lo < r ==> !InSet(s[r - 1], cs)
  {
    if lo < j && InSet(s[j - 1], cs) then SkipTrailing(s, cs, lo, j - 1) else j
  }

  /**
   * `s[i..j]` is what remains of `s` once the characters of `cs` are removed from both
   * ends: everything cut off is in `cs`, and the remainder, unless empty, neither starts
   * nor ends with one of them.
   */
  ghost predicate StrippedAt(s: string, cs: StripSet, i: int, j: int) {
    && 0 <= i <= j <= |s|
    && (forall k :: 0 <= k < i ==> InSet(s[k], cs))
    && (forall k :: j <= k < |s| ==> InSet(s[k], cs))
    && (i < j ==> !InSet(s[i], cs) && !InSet(s[j - 1], cs))
  }

  /** Python's `s.strip(chars)`: removes the characters of `cs` from both ends of `s`. */
  function Strip(s: string, cs: StripSet): (r: string)
    ensures exists i, j :: StrippedAt(s, cs, i, j) && r == s[i..j]
  {
    var i := SkipLeading(s, cs, 0);
    var j := SkipTrailing(s, cs, i, |s|);
    assert StrippedAt(s, cs, i, j);
    s[i..j]
  }

  /** At most one substring of `s` is `s` stripped of `cs`. */
  lemma StrippedAtUnique(s: string, cs: StripSet, i: int, j: int, i': int, j': int)
    requires StrippedAt(s, cs, i, j) && StrippedAt(s, cs, i', j')
    ensures s[i..j] == s[i'..j']
  {
    if i < j && i' < j' {
      assert i' <= i && i <= i' && j <= j' && j' <= j;
    } else if i < j {
      assert false;
    } else if i' < j' {
      assert false;
    }
  }

  /** `Strip` agrees with the declarative description: any substring cut as `StrippedAt` describes is its result. */
  lemma StripCharacterised(s: string, cs: StripSet, i: int, j: int)
    requires StrippedAt(s, cs, i, j)
    ensures Strip(s, cs) == s[i..j]
  {
    var r := Strip(s, cs);
    var i', j' :| StrippedAt(s, cs, i', j') && r == s[i'..j'];
    StrippedAtUnique(s, cs, i, j, i', j');
  }

  /** A string that neither starts nor ends with a character of `cs` is left unchanged. */
  lemma StripKeepsCleanString(s: string, cs: StripSet)
    requires s == [] || (!InSet(s[0], cs) && !InSet(s[|s| - 1], cs))
    ensures Strip(s, cs) == s
  {
    assert s[0..|s|] == s;
    assert StrippedAt(s, cs, 0, |s|);
    StripCharacterised(s, cs, 0, |s|);
  }

  /** Stripping twice is stripping once. */
  lemma StripIdempotent(s: string, cs: StripSet)
    ensures Strip(Strip(s, cs), cs) == Strip(s, cs)
  {
    var r := Strip(s, cs);
    var i, j :| StrippedAt(s, cs, i, j) && r == s[i..j];
    StripKeepsCleanString(r, cs);
  }

  /** Stripping leaves nothing exactly when every character is in the set. */
  lemma StripEmptyIff(s: string, cs: StripSet)
    ensures Strip(s, cs) == [] <==> forall k :: 0 <= k < |s| ==> InSet(s[k], cs)
  {
    var r := Strip(s, cs);
    var i, j :| StrippedAt(s, cs, i, j) && r == s[i..j];
    if forall k :: 0 <= k < |s| ==> InSet(s[k], cs) {
      assert !(i < j);
    }
  }

  /** A line made only of whitespace (or empty), so `line.strip()` is falsy. */
  predicate IsBlank(line: string) {
    forall k :: 0 <= k < |line| ==> IsPySpace(line[k])
  }

  /** The condition `if q.strip()` of the comprehension holds exactly for the lines that are not blank. */
  lemma StripTruthyIffNotBlank(q: string)
    ensures Strip(q, Whitespace) != [] <==> !IsBlank(q)
  {
    StripEmptyIff(q, Whitespace);
  }

  /** Python's `s.split("\n")`: at least one piece, each free of line feeds. */
  function SplitLines(s: string): (r: seq<string>)
    ensures |r| >= 1
    ensures forall k :: 0 <= k < |r| ==> '\n' !in r[k]
  {
    if s == [] then [[]]
    else
      var rest := SplitLines(s[1..]);
      if s[0] == '\n' then [[]] + rest else [[s[0]] + rest[0]] + rest[1..]
  }

  /** There is one more piece than there are line feeds. */
  lemma {:induction false} SplitLinesCount(s: string)
    ensures |SplitLines(s)| == multiset(s)['\n'] + 1
  {
    if s != [] {
      SplitLinesCount(s[1..]);
      assert s == [s[0]] + s[1..];
      assert multiset(s) == multiset([s[0]]) + multiset(s[1..]);
    }
  }

  /** Python's `"\n".join(pieces)`, the inverse of `SplitLines`. */
  function JoinLines(pieces: seq<string>): string
    requires |pieces| >= 1
  {
    if |pieces| == 1 then pieces[0] else pieces[0] + "\n" + JoinLines(pieces[1..])
  }

  /** Joining the pieces of a split gives back the original text. */
  lemma {:induction false} JoinSplitLines(s: string)
    ensures JoinLines(SplitLines(s)) == s
  {
    if s != [] {
      var rest := SplitLines(s[1..]);
      JoinSplitLines(s[1..]);
      if s[0] == '\n' {
        assert SplitLines(s) == [[]] + rest;
        assert ([[]] + rest)[1..] == rest;
        assert s == "\n" + s[1..];
      } else {
        var r := [[s[0]] + rest[0]] + rest[1..];
        assert SplitLines(s) == r;
        assert s == [s[0]] + s[1..];
        if |rest| > 1 {
          assert r[1..] == rest[1..];
        }
      }
    }
  }

  /** Splitting `p + t` when `p` has no line feed: `p` is glued to the first piece of `t`. */
  lemma {:induction false} SplitLinesPrepend(p: string, t: string)
    requires '\n' !in p
    ensures SplitLines(p + t) == [p + SplitLines(t)[0]] + SplitLines(t)[1..]
  {
    var pieces := SplitLines(t);
    if p != [] {
      var u := p + t;
      assert u[0] == p[0] && u[0] != '\n';
      assert u[1..] == p[1..] + t;
      SplitLinesPrepend(p[1..], t);
      var inner := SplitLines(u[1..]);
      assert inner == [p[1..] + pieces[0]] + pieces[1..];
      assert SplitLines(u) == [[p[0]] + inner[0]] + inner[1..];
      assert [p[0]] + inner[0] == p + pieces[0];
      assert inner[1..] == pieces[1..];
    } else {
      assert p + t == t;
      assert p + pieces[0] == pieces[0];
      assert pieces == [pieces[0]] + pieces[1..];
    }
  }

  /** Splitting a join of line-feed-free pieces gives back those pieces. */
  lemma {:induction false} SplitJoinLines(pieces: seq<string>)
    requires |pieces| >= 1
    requires forall k :: 0 <= k < |pieces| ==> '\n' !in pieces[k]
    ensures SplitLines(JoinLines(pieces)) == pieces
  {
    if |pieces| == 1 {
      SplitLinesPrepend(pieces[0], []);
      assert pieces[0] + [] == pieces[0];
    } else {
      var rest := pieces[1..];
      var t := "\n" + JoinLines(rest);
      SplitJoinLines(rest);
      assert t[0] == '\n' && t[1..] == JoinLines(rest);
      assert SplitLines(t) == [[]] + rest;
      SplitLinesPrepend(pieces[0], t);
      assert SplitLines(t)[0] == [] && SplitLines(t)[1..] == rest;
      assert pieces[0] + [] == pieces[0];
      assert pieces[0] + t == JoinLines(pieces);
      assert pieces == [pieces[0]] + rest;
    }
  }

  /** The lines `[q for q in lines if q.strip()]` keeps, in their original order. */
  function KeptLines(lines: seq<string>): (r: seq<string>)
    ensures |r| <= |lines|
    ensures forall k :: 0 <= k < |r| ==> !IsBlank(r[k])
  {
    if lines == [] then []
    else (if !IsBlank(lines[0]) then [lines[0]] else []) + KeptLines(lines[1..])
  }

  /** Filtering distributes over concatenation, so order is kept and nothing moves. */
  lemma {:induction false} KeptLinesAppend(a: seq<string>, b: seq<string>)
    ensures KeptLines(a + b) == KeptLines(a) + KeptLines(b)
  {
    if a == [] {
      assert a + b == b;
    } else {
      var head := if !IsBlank(a[0]) then [a[0]] else [];
      assert (a + b)[0] == a[0] && (a + b)[1..] == a[1..] + b;
      assert KeptLines(a + b) == head + KeptLines(a[1..] + b);
      KeptLinesAppend(a[1..], b);
      assert KeptLines(a) == head + KeptLines(a[1..]);
      assert head + (KeptLines(a[1..]) + KeptLines(b)) == (head + KeptLines(a[1..])) + KeptLines(b);
    }
  }

  /** A line is kept exactly when it occurs in the input and is not blank. */
  lemma {:induction false} KeptLinesMembers(lines: seq<string>)
    ensures forall q :: q in KeptLines(lines) <==> q in lines && !IsBlank(q)
  {
    if lines != [] {
      KeptLinesMembers(lines[1..]);
      assert lines == [lines[0]] + lines[1..];
    }
  }

  /** The positions of the lines whose whitespace-strip is non-empty. */
  ghost function NonBlankIndices(lines: seq<string>): set<int> {
    set i | 0 <= i < |lines| && !IsBlank(lines[i])
  }

  /** The filter keeps exactly as many lines as there are non-blank positions. */
  lemma {:induction false} KeptLinesCount(lines: seq<string>)
    ensures |KeptLines(lines)| == |NonBlankIndices(lines)|
  {
    if lines == [] {
      assert NonBlankIndices(lines) == {};
    } else {
      var init, last := lines[..|lines| - 1], lines[|lines| - 1];
      assert lines == init + [last];
      KeptLinesCount(init);
      KeptLinesAppend(init, [last]);
      assert ([last])[1..] == [];
      if IsBlank(last) {
        assert NonBlankIndices(lines) == NonBlankIndices(init);
      } else {
        assert NonBlankIndices(lines) == NonBlankIndices(init) + {|init|};
        assert |init| !in NonBlankIndices(init);
      }
    }
  }

  /** `[q.strip("-• ") for q in content.split("\n") if q.strip()]`. */
  function ParseReply(content: string): (r: seq<string>)
    ensures |r| <= |SplitLines(content)|
    ensures forall k :: 0 <= k < |r| ==> r[k] == [] || (!InSet(r[k][0], Bullets) && !InSet(r[k][|r[k]| - 1], Bullets))
  {
    var kept := KeptLines(SplitLines(content));
    seq(|kept|, k requires 0 <= k < |kept| => Strip(kept[k], Bullets))
  }

  /** The parsed reply has one question per line of the reply whose whitespace-strip is non-empty. */
  lemma ParseReplyCount(content: string)
    ensures |ParseReply(content)| == |NonBlankIndices(SplitLines(content))|
  {
    KeptLinesCount(SplitLines(content));
  }

  /** The parsed reply is determined by the kept lines and what stripping makes of each. */
  lemma ParseReplyFromKept(content: string, kept: seq<string>, questions: seq<string>)
    requires KeptLines(SplitLines(content)) == kept
    requires |questions| == |kept|
    requires forall k :: 0 <= k < |kept| ==> Strip(kept[k], Bullets) == questions[k]
    ensures ParseReply(content) == questions
  {
  }

  /** A reply of one line that is not blank and has no bullet character at either end is one question, itself. */
  lemma OneLineReplyParses(content: string)
    requires '\n' !in content && !IsBlank(content)
    requires !InSet(content[0], Bullets) && !InSet(content[|content| - 1], Bullets)
    ensures ParseReply(content) == [content]
  {
    SplitJoinLines([content]);
    assert KeptLines([content]) == [content] + KeptLines([]);
    StripKeepsCleanString(content, Bullets);
  }

  /** Python's `xs[:count]`: a prefix of `xs`; a negative `count` drops that many items from the end. */
  function SlicePrefix<T>(xs: seq<T>, count: int): (r: seq<T>)
    ensures |r| <= |xs| && r == xs[..|r|]
    ensures count >= 0 ==> |r| == Min(count, |xs|)
    ensures count < 0 ==> |r| == Max(|xs| + count, 0)
  {
    var n := if count >= 0 then count else |xs| + count;
    if n < 0 then [] else if n <= |xs| then xs[..n] else xs
  }

  function Min(a: int, b: int): int { if a <= b then a else b }

  function Max(a: int, b: int): int { if a >= b then a else b }
}
