/** The rewrite applied to a text layer's content before export: every line
    feed becomes the HTML break tag, as `characters.replace(/\n/g, "<br>")`
    does in the plugin. `Split` and `Join` give an independent reference
    definition (the `split("\n").join("<br>")` idiom). */
module Newlines {

  const Break: string := "<br>"

  /** Replaces every '\n' of `s` by `Break`, scanning left to right. */
  function ReplaceNewlines(s: string): (r: string)
    ensures '\n' !in r
    ensures |r| == |s| + 3 * multiset(s)['\n']
  {
    if s == [] then []
    else
      assert s == [s[0]] + s[1..];
      if s[0] == '\n' then Break + ReplaceNewlines(s[1..])
      else [s[0]] + ReplaceNewlines(s[1..])
  }

  /** The line-feed-separated pieces of `s`; there is always one piece more
      than there are line feeds, and no piece holds a line feed. */
  function Split(s: string): (parts: seq<string>)
    ensures |parts| == multiset(s)['\n'] + 1
    ensures forall i :: 0 <= i < |parts| ==> '\n' !in parts[i]
  {
    if s == [] then [[]]
    else
      assert s == [s[0]] + s[1..];
      var rest := Split(s[1..]);
      if s[0] == '\n' then [[]] + rest
      else [[s[0]] + rest[0]] + rest[1..]
  }

  /** The pieces in order with `sep` between each two neighbours. */
  function Join(parts: seq<string>, sep: string): string
    requires |parts| > 0
  {
    if |parts| == 1 then parts[0] else parts[0] + sep + Join(parts[1..], sep)
  }

  /** A line feed in front of the text adds an empty first piece. */
  lemma JoinEmptyFirst(parts: seq<string>, sep: string)
    requires |parts| > 0
    ensures Join([[]] + parts, sep) == sep + Join(parts, sep)
  {
    assert ([[]] + parts)[1..] == parts;
  }

  /** Any other character in front of the text extends the first piece. */
  lemma JoinExtendFirst(c: char, parts: seq<string>, sep: string)
    requires |parts| > 0
    ensures Join([[c] + parts[0]] + parts[1..], sep) == [c] + Join(parts, sep)
  {
    var extended := [[c] + parts[0]] + parts[1..];
    assert extended[0] == [c] + parts[0] && extended[1..] == parts[1..];
  }

  /** Joining the pieces of `Split` with a line feed gives the text back, so
      `Split` loses nothing. */
  lemma {:induction false} JoinSplit(s: string)
    ensures Join(Split(s), "\n") == s
  {
    if s != [] {
      JoinSplit(s[1..]);
      var rest := Split(s[1..]);
      assert s == [s[0]] + s[1..];
      if s[0] == '\n' {
        assert Split(s) == [[]] + rest;
        JoinEmptyFirst(rest, "\n");
      } else {
        assert Split(s) == [[s[0]] + rest[0]] + rest[1..];
        JoinExtendFirst(s[0], rest, "\n");
      }
    }
  }

  /** The rewrite is exactly "split at every line feed, join with `<br>`". */
  lemma {:induction false} ReplaceIsSplitJoin(s: string)
    ensures ReplaceNewlines(s) == Join(Split(s), Break)
  {
    if s != [] {
      ReplaceIsSplitJoin(s[1..]);
      var rest := Split(s[1..]);
      assert s == [s[0]] + s[1..];
      if s[0] == '\n' {
        assert Split(s) == [[]] + rest;
        JoinEmptyFirst(rest, Break);
      } else {
        assert Split(s) == [[s[0]] + rest[0]] + rest[1..];
        JoinExtendFirst(s[0], rest, Break);
      }
    }
  }

  /** Text without a line feed is exported unchanged. */
  lemma {:induction false} ReplaceKeepsSingleLine(s: string)
    requires '\n' !in s
    ensures ReplaceNewlines(s) == s
  {
    if s != [] {
      assert s[0] != '\n';
      assert '\n' !in s[1..] by {
        assert forall i :: 0 <= i < |s[1..]| ==> s[1..][i] == s[i + 1];
      }
      ReplaceKeepsSingleLine(s[1..]);
    }
  }

  /** The rewrite works piecewise: the text can be cut anywhere. */
  lemma {:induction false} ReplaceDistributes(a: string, b: string)
    ensures ReplaceNewlines(a + b) == ReplaceNewlines(a) + ReplaceNewlines(b)
  {
    if a == [] {
      assert a + b == b;
    } else {
      assert (a + b)[0] == a[0] && (a + b)[1..] == a[1..] + b;
      ReplaceDistributes(a[1..], b);
    }
  }
}
