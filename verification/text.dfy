/** The string operations the cleaning steps rely on: Python's `str.split`
    with a one-character separator, the `splitUrl` extraction of a link's
    anchor text, and the upper-case test on a name's first character. */
module Text {
  import opened Wrappers

  /** Python's `s.split(sep)` for a one-character separator: the pieces
      between consecutive separators, always at least one (`"".split(">")` is
      `[""]`). */
  function Split(s: string, sep: char): (parts: seq<string>)
    ensures |parts| >= 1
    ensures forall i :: 0 <= i < |parts| ==> sep !in parts[i]
    ensures sep !in s <==> |parts| == 1
    ensures JoinWith(parts, sep) == s
  {
    if |s| == 0 then [""]
    else
      var rest := Split(s[1..], sep);
      if s[0] == sep then [""] + rest
      else [[s[0]] + rest[0]] + rest[1..]
  }

  /** Python's `sep.join(parts)`. */
  function JoinWith(parts: seq<string>, sep: char): string
    requires |parts| >= 1
  {
    if |parts| == 1 then parts[0] else parts[0] + [sep] + JoinWith(parts[1..], sep)
  }

  /** Splitting a single piece that holds no separator gives that piece back. */
  lemma {:induction false} SplitWithoutSeparator(a: string, sep: char)
    requires sep !in a
    ensures Split(a, sep) == [a]
  {
    if |a| > 0 {
      SplitWithoutSeparator(a[1..], sep);
      assert [a[0]] + a[1..] == a;
    }
  }

  /** Splitting cuts at the first separator. */
  lemma {:induction false} SplitAtFirst(a: string, b: string, sep: char)
    requires sep !in a
    ensures Split(a + [sep] + b, sep) == [a] + Split(b, sep)
  {
    var s := a + [sep] + b;
    if |a| == 0 {
      assert s[0] == sep && s[1..] == b;
    } else {
      assert s[0] == a[0] && s[1..] == a[1..] + [sep] + b;
      SplitAtFirst(a[1..], b, sep);
      var rest := Split(s[1..], sep);
      assert rest == [a[1..]] + Split(b, sep);
      assert rest[0] == a[1..] && rest[1..] == Split(b, sep);
      assert [a[0]] + a[1..] == a;
    }
  }

  /** `Split` undoes `JoinWith` on pieces free of the separator, so the two
      are inverse to each other. */
  lemma {:induction false} SplitJoinWith(parts: seq<string>, sep: char)
    requires |parts| >= 1
    requires forall i :: 0 <= i < |parts| ==> sep !in parts[i]
    ensures Split(JoinWith(parts, sep), sep) == parts
  {
    if |parts| == 1 {
      SplitWithoutSeparator(parts[0], sep);
    } else {
      SplitJoinWith(parts[1..], sep);
      SplitAtFirst(parts[0], JoinWith(parts[1..], sep), sep);
      assert [parts[0]] + parts[1..] == parts;
    }
  }

  /** Position of the first `c` in `s`, or `|s|` when there is none. */
  function FirstOrEnd(s: string, c: char): (e: nat)
    ensures e <= |s|
    ensures c !in s[..e]
    ensures e < |s| <==> c in s
    ensures e < |s| ==> s[e] == c
  {
    if |s| == 0 then 0
    else if s[0] == c then 0
    else 1 + FirstOrEnd(s[1..], c)
  }

  /** Everything before the first `c`, or the whole text. */
  function Head(t: string, c: char): string
  {
    t[..FirstOrEnd(t, c)]
  }

  /** Everything after the first `c`. */
  function After(s: string, c: char): string
    requires c in s
  {
    s[FirstOrEnd(s, c) + 1..]
  }

  /** The first piece of a split is everything before the first separator. */
  lemma SplitHead(s: string, sep: char)
    ensures Split(s, sep)[0] == Head(s, sep)
  {
    var e := FirstOrEnd(s, sep);
    if e < |s| {
      assert s == s[..e] + [sep] + s[e + 1..];
      SplitAtFirst(s[..e], s[e + 1..], sep);
    } else {
      assert s[..e] == s;
      SplitWithoutSeparator(s, sep);
    }
  }

  predicate IsAngle(c: char)
  {
    c == '<' || c == '>'
  }

  /** Position of the first angle bracket at or after `from`, or `|s|`. */
  function AngleFrom(s: string, from: nat): (j: nat)
    requires from <= |s|
    ensures from <= j <= |s|
    ensures forall k :: from <= k < j ==> !IsAngle(s[k])
    ensures j < |s| ==> IsAngle(s[j])
    decreases |s| - from
  {
    if from == |s| then from
    else if IsAngle(s[from]) then from
    else AngleFrom(s, from + 1)
  }

  /** Reference description of a link's anchor text: the characters after the
      first `>` up to, not including, the next angle bracket or the end. */
  function AnchorText(s: string): string
    requires '>' in s
  {
    var i := FirstOrEnd(s, '>');
    s[i + 1..AngleFrom(s, i + 1)]
  }

  /** `splitUrl`: the second piece of splitting on `>`, cut at its first `<`.
      It raises an index error, here `None`, when the text holds no `>`. */
  function SplitUrl(s: string): (anchor: Option<string>)
    ensures anchor.None? <==> '>' !in s
    ensures anchor.Some? ==> '>' !in anchor.value && '<' !in anchor.value
  {
    var x := Split(s, '>');
    if |x| < 2 then None
    else Some(Split(x[1], '<')[0])
  }

  /** The second piece of splitting on `>`: the text between the first `>`
      and the next one (or the end). */
  lemma SecondPiece(s: string)
    requires '>' in s
    ensures Split(s, '>')[1] == Head(After(s, '>'), '>')
  {
    var i := FirstOrEnd(s, '>');
    CutAt(s, i);
    SecondPieceOf(s[..i], After(s, '>'));
  }

  /** A text is the part before position `i`, the character there, and the
      part after it. */
  lemma CutAt(s: string, i: nat)
    requires i < |s|
    ensures s == s[..i] + [s[i]] + s[i + 1..]
  {
  }

  lemma SecondPieceOf(a: string, t: string)
    requires '>' !in a
    ensures Split(a + ['>'] + t, '>')[1] == Head(t, '>')
  {
    SplitAtFirst(a, t, '>');
    SplitHead(t, '>');
  }

  /** Cut a text at its first `>`, then the remainder at its first `<`. */
  function TwoCuts(t: string): (r: string)
    ensures |r| <= |t| && r == t[..|r|]
  {
    Head(Head(t, '>'), '<')
  }

  /** Cutting at the next `>` and then at the next `<` stops at the next angle
      bracket. */
  lemma AngleFromByCuts(s: string, from: nat)
    requires from <= |s|
    ensures AngleFrom(s, from) == from + |TwoCuts(s[from..])|
  {
    var t := s[from..];
    var e1 := FirstOrEnd(t, '>');
    var u := t[..e1];
    var e2 := FirstOrEnd(u, '<');
    assert |TwoCuts(t)| == e2;
    forall k | from <= k < from + e2
      ensures !IsAngle(s[k])
    {
      assert s[k] == u[k - from];
      assert u[k - from] in u[..e2];
      assert u[k - from] in t[..e1];
    }
    if from + e2 < |s| {
      if e2 < |u| {
        assert s[from + e2] == u[e2];
      } else {
        assert s[from + e2] == t[e1];
      }
    }
  }

  /** `splitUrl` as two cuts of the text after the first `>`. */
  lemma SplitUrlByCuts(s: string)
    requires '>' in s
    ensures SplitUrl(s) == Some(TwoCuts(After(s, '>')))
  {
    SecondPiece(s);
    SplitHead(Head(After(s, '>'), '>'), '<');
  }

  /** The reference anchor text is the result of the same two cuts. */
  lemma AnchorTextByCuts(s: string)
    requires '>' in s
    ensures AnchorText(s) == TwoCuts(After(s, '>'))
  {
    var i := FirstOrEnd(s, '>');
    AngleFromByCuts(s, i + 1);
    PrefixOfSuffix(s, i + 1, |TwoCuts(After(s, '>'))|);
  }

  /** A prefix of a suffix is a slice of the whole. */
  lemma PrefixOfSuffix(s: string, from: nat, n: nat)
    requires from + n <= |s|
    ensures s[from..][..n] == s[from..from + n]
  {
  }

  /** `splitUrl` returns exactly the anchor text. */
  lemma SplitUrlIsAnchorText(s: string)
    requires '>' in s
    ensures SplitUrl(s) == Some(AnchorText(s))
  {
    SplitUrlByCuts(s);
    AnchorTextByCuts(s);
  }

  /** On a well-formed link `<a href="...">caption</a>` (an opening tag free of
      `>`, a caption free of angle brackets, then a closing tag), `splitUrl`
      yields the caption: `Twitter for iPhone` for the usual iPhone client. */
  lemma SplitUrlOfLink(opening: string, caption: string, rest: string)
    requires '>' !in opening
    requires '<' !in caption && '>' !in caption
    ensures SplitUrl(opening + ['>'] + caption + ['<'] + rest) == Some(caption)
  {
    var w := caption + ['<'] + rest;
    var s := opening + ['>'] + w;
    assert s == opening + ['>'] + caption + ['<'] + rest;
    SplitAtFirst(opening, w, '>');
    var e := FirstOrEnd(w, '>');
    SplitHead(w, '>');
    assert w[|caption|] == '<';
    var piece := w[..e];
    assert piece == caption + ['<'] + rest[..e - |caption| - 1];
    SplitAtFirst(caption, rest[..e - |caption| - 1], '<');
  }

  /** Python's `c.isupper()` for a single character, restricted to ASCII. */
  predicate IsUpper(c: char)
  {
    'A' <= c <= 'Z'
  }
}
