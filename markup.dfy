// The client store's markup transform (src/stores/sentences.js, formatText and
// stripLinks): three global regular-expression substitutions.
//
//   Link  /\[\[[^|\]]+\|([^\]]+)\]\]/g    ->  <b>$1</b>
//   Ruby  /\{([^|{}]+)\|([^{}]+)\}/g      ->  <ruby><rb>$1</rb><rt>$2</rt></ruby>
//   Bold  /\*\*([^*]+)\*\*/g              ->  <b>$1</b>
//
// Every quantifier in these patterns is a greedy run over a negated character
// class that is followed by a character the class excludes, so giving
// characters back never helps: a match at a position exists exactly when the
// maximal runs line up with the delimiters. A global replace therefore is a
// left-to-right scan that either rewrites a match and resumes after it, or
// copies one character and tries again at the next position. None of the
// patterns has an anchor or a lookbehind, so whether a match starts at a
// position depends only on the suffix from there; the model scans suffixes.
module Markup {
  import opened Wrappers

  datatype Rule = Link | Ruby | Bold

  /** A match at the start of a string: how many characters it spans and what replaces them. */
  datatype Match = Match(len: nat, out: string)

  /** True when no character of s is in stop. */
  predicate Avoids(s: string, stop: set<char>) {
    forall k | 0 <= k < |s| :: s[k] !in stop
  }

  /** The length of the longest prefix of s that avoids stop: a greedy `[^...]*` run. */
  function Span(s: string, stop: set<char>): (n: nat)
    ensures n <= |s|
    ensures Avoids(s[..n], stop)
    ensures n < |s| ==> s[n] in stop
  {
    if s != [] && s[0] !in stop then 1 + Span(s[1..], stop) else 0
  }

  /** The replacement template of each rule, given its two groups (Bold uses only the first). */
  function Render(rule: Rule, a: string, b: string): string {
    match rule
    case Link => "<b>" + b + "</b>"
    case Ruby => "<ruby><rb>" + a + "</rb><rt>" + b + "</rt></ruby>"
    case Bold => "<b>" + a + "</b>"
  }

  /** `\[\[[^|\]]+\|([^\]]+)\]\]` at the start of s; the target group is discarded. */
  function MatchLink(s: string): Option<Match> {
    if |s| >= 2 && s[0] == '[' && s[1] == '[' then
      var j := 2 + Span(s[2..], {'|', ']'});        // where the target run stops
      if j > 2 && j < |s| && s[j] == '|' then
        var k := j + 1 + Span(s[j + 1..], {']'});   // where the caption run stops
        if k > j + 1 && k + 2 <= |s| && s[k] == ']' && s[k + 1] == ']' then
          Some(Match(k + 2, Render(Link, s[2..j], s[j + 1..k])))
        else None
      else None
    else None
  }

  /** `\{([^|{}]+)\|([^{}]+)\}` at the start of s; the reading may contain `|`. */
  function MatchRuby(s: string): Option<Match> {
    if |s| >= 1 && s[0] == '{' then
      var j := 1 + Span(s[1..], {'|', '{', '}'});   // where the base run stops
      if j > 1 && j < |s| && s[j] == '|' then
        var k := j + 1 + Span(s[j + 1..], {'{', '}'});  // where the reading run stops
        if k > j + 1 && k < |s| && s[k] == '}' then
          Some(Match(k + 1, Render(Ruby, s[1..j], s[j + 1..k])))
        else None
      else None
    else None
  }

  /** `\*\*([^*]+)\*\*` at the start of s. */
  function MatchBold(s: string): Option<Match> {
    if |s| >= 2 && s[0] == '*' && s[1] == '*' then
      var j := 2 + Span(s[2..], {'*'});             // where the content run stops
      if j > 2 && j + 2 <= |s| && s[j] == '*' && s[j + 1] == '*' then
        Some(Match(j + 2, Render(Bold, s[2..j], [])))
      else None
    else None
  }

  /** The rule's pattern tried at the start of s; a match consumes at least one character. */
  function MatchAt(rule: Rule, s: string): (m: Option<Match>)
    ensures m.Some? ==> 0 < m.value.len <= |s|
  {
    match rule
    case Link => MatchLink(s)
    case Ruby => MatchRuby(s)
    case Bold => MatchBold(s)
  }

  /** `s.replace(pattern, template)` with the global flag. */
  function Replace(rule: Rule, s: string): string
    decreases |s|
  {
    if s == [] then []
    else match MatchAt(rule, s)
      case Some(m) => m.out + Replace(rule, s[m.len..])
      case None => [s[0]] + Replace(rule, s[1..])
  }

  /** stripLinks: the wiki-link substitution alone, giving the stored raw form. */
  function StripLinks(s: string): string {
    Replace(Link, s)
  }

  /**
   * formatText: the wiki-link, ruby and bold substitutions, in that order. Its
   * first substitution uses the same pattern and template as stripLinks, so it
   * is stripLinks.
   */
  function FormatText(s: string): string {
    Replace(Bold, Replace(Ruby, StripLinks(s)))
  }

  // ---------------------------------------------------------------------------
  // A declarative reading of the three patterns, independent of the scan.

  /** s starts with an occurrence of rule's pattern whose groups are a and b, followed by rest. */
  ghost predicate Shaped(rule: Rule, s: string, a: string, b: string, rest: string) {
    match rule
    case Link =>
      && a != [] && Avoids(a, {'|', ']'})
      && b != [] && Avoids(b, {']'})
      && s == "[[" + a + "|" + b + "]]" + rest
    case Ruby =>
      && a != [] && Avoids(a, {'|', '{', '}'})
      && b != [] && Avoids(b, {'{', '}'})
      && s == "{" + a + "|" + b + "}" + rest
    case Bold =>
      && a != [] && Avoids(a, {'*'}) && b == []
      && s == "**" + a + "**" + rest
  }

  /** The character every occurrence of the rule's pattern starts with. */
  function Opener(rule: Rule): char {
    match rule
    case Link => '['
    case Ruby => '{'
    case Bold => '*'
  }

  /** Characters every occurrence of the rule's pattern contains. */
  function Syntax(rule: Rule): set<char> {
    match rule
    case Link => {'[', '|', ']'}
    case Ruby => {'{', '|', '}'}
    case Bold => {'*'}
  }

  /** A run over a string that avoids stop ends exactly where a stop character follows. */
  lemma {:induction false} SpanOfConcat(x: string, y: string, stop: set<char>)
    requires Avoids(x, stop)
    requires y != [] && y[0] in stop
    ensures Span(x + y, stop) == |x|
  {
    if x == [] {
      assert x + y == y;
    } else {
      assert (x + y)[0] == x[0];
      assert (x + y)[1..] == x[1..] + y;
      SpanOfConcat(x[1..], y, stop);
    }
  }

  /** Where the pieces of a wiki link sit in the string. */
  lemma LinkLayout(s: string, a: string, b: string, rest: string)
    requires s == "[[" + a + "|" + b + "]]" + rest
    ensures |s| == 5 + |a| + |b| + |rest|
    ensures s[0] == '[' && s[1] == '['
    ensures s[2..] == a + ("|" + (b + ("]]" + rest)))
    ensures s[2 + |a|] == '|' && s[3 + |a|..] == b + ("]]" + rest)
    ensures s[3 + |a| + |b|] == ']' && s[4 + |a| + |b|] == ']'
    ensures s[2..2 + |a|] == a && s[3 + |a|..3 + |a| + |b|] == b
  {
    var t := "|" + (b + ("]]" + rest));
    assert s == "[[" + (a + t);
    assert s[2..] == a + t;
    assert s[2 + |a|..] == t;
  }

  lemma ShapedLinkMatches(s: string, a: string, b: string, rest: string)
    requires Shaped(Link, s, a, b, rest)
    ensures MatchLink(s) == Some(Match(|s| - |rest|, Render(Link, a, b)))
  {
    LinkLayout(s, a, b, rest);
    SpanOfConcat(a, "|" + (b + ("]]" + rest)), {'|', ']'});
    SpanOfConcat(b, "]]" + rest, {']'});
  }

  /** Where the pieces of a ruby gloss sit in the string. */
  lemma RubyLayout(s: string, a: string, b: string, rest: string)
    requires s == "{" + a + "|" + b + "}" + rest
    ensures |s| == 3 + |a| + |b| + |rest|
    ensures s[0] == '{'
    ensures s[1..] == a + ("|" + (b + ("}" + rest)))
    ensures s[1 + |a|] == '|' && s[2 + |a|..] == b + ("}" + rest)
    ensures s[2 + |a| + |b|] == '}'
    ensures s[1..1 + |a|] == a && s[2 + |a|..2 + |a| + |b|] == b
  {
    var t := "|" + (b + ("}" + rest));
    assert s == "{" + (a + t);
    assert s[1..] == a + t;
    assert s[1 + |a|..] == t;
  }

  lemma ShapedRubyMatches(s: string, a: string, b: string, rest: string)
    requires Shaped(Ruby, s, a, b, rest)
    ensures MatchRuby(s) == Some(Match(|s| - |rest|, Render(Ruby, a, b)))
  {
    RubyLayout(s, a, b, rest);
    SpanOfConcat(a, "|" + (b + ("}" + rest)), {'|', '{', '}'});
    SpanOfConcat(b, "}" + rest, {'{', '}'});
  }

  lemma ShapedBoldMatches(s: string, a: string, rest: string)
    requires Shaped(Bold, s, a, [], rest)
    ensures MatchBold(s) == Some(Match(|s| - |rest|, Render(Bold, a, [])))
  {
    var t := "**" + rest;
    assert s == "**" + (a + t);
    assert s[2..] == a + t;
    SpanOfConcat(a, t, {'*'});
    assert s[2..2 + |a|] == a;
  }

  /** A shaped prefix is matched, with exactly its groups in the replacement. */
  lemma ShapedMatches(rule: Rule, s: string, a: string, b: string, rest: string)
    requires Shaped(rule, s, a, b, rest)
    ensures MatchAt(rule, s) == Some(Match(|s| - |rest|, Render(rule, a, b)))
  {
    match rule
    case Link => ShapedLinkMatches(s, a, b, rest);
    case Ruby => ShapedRubyMatches(s, a, b, rest);
    case Bold => ShapedBoldMatches(s, a, rest);
  }

  lemma LinkMatchShaped(s: string)
    requires MatchLink(s).Some?
    ensures var m := MatchLink(s).value;
      exists a, b :: Shaped(Link, s, a, b, s[m.len..]) && m.out == Render(Link, a, b)
  {
    var m := MatchLink(s).value;
    var j := 2 + Span(s[2..], {'|', ']'});
    var k := j + 1 + Span(s[j + 1..], {']'});
    var a, b := s[2..j], s[j + 1..k];
    assert a == s[2..][..j - 2];
    assert b == s[j + 1..][..k - j - 1];
    LinkSplit(s, j, k);
    assert Shaped(Link, s, a, b, s[m.len..]);
  }

  /** Cutting a string at its wiki-link delimiters and joining the pieces gives it back. */
  lemma LinkSplit(s: string, j: int, k: int)
    requires 2 <= j < k && k + 2 <= |s|
    requires s[0] == '[' && s[1] == '[' && s[j] == '|' && s[k] == ']' && s[k + 1] == ']'
    ensures s == "[[" + s[2..j] + "|" + s[j + 1..k] + "]]" + s[k + 2..]
  {
    assert s[..2] == "[[" && s[j..j + 1] == "|" && s[k..k + 2] == "]]";
    assert s == s[..2] + s[2..j] + s[j..j + 1] + s[j + 1..k] + s[k..k + 2] + s[k + 2..];
  }

  lemma RubyMatchShaped(s: string)
    requires MatchRuby(s).Some?
    ensures var m := MatchRuby(s).value;
      exists a, b :: Shaped(Ruby, s, a, b, s[m.len..]) && m.out == Render(Ruby, a, b)
  {
    var m := MatchRuby(s).value;
    var j := 1 + Span(s[1..], {'|', '{', '}'});
    var k := j + 1 + Span(s[j + 1..], {'{', '}'});
    var a, b := s[1..j], s[j + 1..k];
    assert a == s[1..][..j - 1];
    assert b == s[j + 1..][..k - j - 1];
    RubySplit(s, j, k);
    assert Shaped(Ruby, s, a, b, s[m.len..]);
  }

  /** Cutting a string at its ruby delimiters and joining the pieces gives it back. */
  lemma RubySplit(s: string, j: int, k: int)
    requires 1 <= j < k < |s| && s[0] == '{' && s[j] == '|' && s[k] == '}'
    ensures s == "{" + s[1..j] + "|" + s[j + 1..k] + "}" + s[k + 1..]
  {
    assert s[..1] == "{" && s[j..j + 1] == "|" && s[k..k + 1] == "}";
    assert s == s[..1] + s[1..j] + s[j..j + 1] + s[j + 1..k] + s[k..k + 1] + s[k + 1..];
  }

  lemma BoldMatchShaped(s: string)
    requires MatchBold(s).Some?
    ensures var m := MatchBold(s).value;
      exists a, b :: Shaped(Bold, s, a, b, s[m.len..]) && m.out == Render(Bold, a, b)
  {
    var m := MatchBold(s).value;
    var j := 2 + Span(s[2..], {'*'});
    var a: string, b: string := s[2..j], [];
    assert a == s[2..][..j - 2];
    assert s == s[..2] + a + s[j..j + 2] + s[j + 2..];
    assert Shaped(Bold, s, a, b, s[m.len..]);
  }

  /** Conversely, every match is an occurrence of the pattern, and its replacement renders its groups. */
  lemma MatchShaped(rule: Rule, s: string)
    requires MatchAt(rule, s).Some?
    ensures var m := MatchAt(rule, s).value;
      exists a, b :: Shaped(rule, s, a, b, s[m.len..]) && m.out == Render(rule, a, b)
  {
    match rule
    case Link => LinkMatchShaped(s);
    case Ruby => RubyMatchShaped(s);
    case Bold => BoldMatchShaped(s);
  }

  /** An occurrence of the pattern at the front is rewritten, and the scan resumes after it. */
  lemma ReplaceShaped(rule: Rule, s: string, a: string, b: string, rest: string)
    requires Shaped(rule, s, a, b, rest)
    ensures Replace(rule, s) == Render(rule, a, b) + Replace(rule, rest)
  {
    ShapedMatches(rule, s, a, b, rest);
    assert s[|s| - |rest|..] == rest;
  }

  /** Without an occurrence of the pattern at the front, the first character is copied verbatim. */
  lemma ReplaceUnshaped(rule: Rule, s: string)
    requires s != []
    requires forall a, b, rest :: !Shaped(rule, s, a, b, rest)
    ensures Replace(rule, s) == [s[0]] + Replace(rule, s[1..])
  {
    if MatchAt(rule, s).Some? {
      MatchShaped(rule, s);
      assert false;
    }
  }

  /** A string in which no occurrence of the pattern starts anywhere is returned unchanged. */
  lemma {:induction false} ReplaceNoOccurrence(rule: Rule, s: string)
    requires forall i, a, b, rest | 0 <= i <= |s| :: !Shaped(rule, s[i..], a, b, rest)
    ensures Replace(rule, s) == s
    decreases |s|
  {
    if s != [] {
      assert s[0..] == s;
      ReplaceUnshaped(rule, s);
      forall i, a, b, rest | 0 <= i <= |s[1..]| ensures !Shaped(rule, s[1..][i..], a, b, rest) {
        assert s[1..][i..] == s[i + 1..];
      }
      ReplaceNoOccurrence(rule, s[1..]);
      assert [s[0]] + s[1..] == s;
    }
  }

  /** Every match starts with the rule's opening character. */
  lemma MatchOpens(rule: Rule, s: string)
    requires MatchAt(rule, s).Some?
    ensures s[0] == Opener(rule)
  {
  }

  /** A character other than the rule's opening character is copied, and the scan moves on. */
  lemma ReplaceCons(rule: Rule, c: char, q: string)
    requires c != Opener(rule)
    ensures Replace(rule, [c] + q) == [c] + Replace(rule, q)
  {
    if MatchAt(rule, [c] + q).Some? {
      MatchOpens(rule, [c] + q);
      assert false;
    }
    assert ([c] + q)[1..] == q;
  }

  /** A prefix without the rule's opening character is copied verbatim. */
  lemma {:induction false} ReplacePlainPrefix(rule: Rule, p: string, s: string)
    requires Opener(rule) !in p
    ensures Replace(rule, p + s) == p + Replace(rule, s)
  {
    if p == [] {
      assert p + s == s;
    } else {
      ReplacePlainPrefix(rule, p[1..], s);
      ConsPrefix(rule, p[0], p[1..], s);
      assert [p[0]] + p[1..] == p;
    }
  }

  /** One more copied character in front of a copied prefix. */
  lemma ConsPrefix(rule: Rule, c: char, p: string, s: string)
    requires c != Opener(rule)
    requires Replace(rule, p + s) == p + Replace(rule, s)
    ensures Replace(rule, [c] + p + s) == [c] + p + Replace(rule, s)
  {
    ReplaceCons(rule, c, p + s);
    assert [c] + p + s == [c] + (p + s);
    assert [c] + p + Replace(rule, s) == [c] + (p + Replace(rule, s));
  }

  /** A string lacking any character that every occurrence needs is left unchanged. */
  lemma {:induction false} ReplaceFixed(rule: Rule, s: string, c: char)
    requires c in Syntax(rule) && c !in s
    ensures Replace(rule, s) == s
  {
    if s != [] {
      if MatchAt(rule, s).Some? {
        assert false;
      }
      ReplaceFixed(rule, s[1..], c);
      assert [s[0]] + s[1..] == s;
    }
  }

  // ---------------------------------------------------------------------------
  // Properties of stripLinks and formatText.

  /**
   * Rendering the raw form instead of the input makes no difference when no
   * `[[` survives stripLinks; DisplayFromRawDiffers shows a case where one does.
   */
  lemma DisplayFromRawAgrees(s: string)
    requires forall i | 0 <= i < |StripLinks(s)| - 1 :: !(StripLinks(s)[i] == '[' && StripLinks(s)[i + 1] == '[')
    ensures FormatText(StripLinks(s)) == FormatText(s)
  {
    StripLinksNoOpener(StripLinks(s));
  }

  /** A wiki link at the front becomes its bold caption; its target is dropped. */
  lemma StripLinksRewrites(target: string, caption: string, rest: string)
    requires target != [] && Avoids(target, {'|', ']'})
    requires caption != [] && Avoids(caption, {']'})
    ensures StripLinks("[[" + target + "|" + caption + "]]" + rest) == "<b>" + caption + "</b>" + StripLinks(rest)
  {
    ReplaceShaped(Link, "[[" + target + "|" + caption + "]]" + rest, target, caption, rest);
  }

  /** A string without `[[` is returned unchanged by stripLinks. */
  lemma {:induction false} StripLinksNoOpener(s: string)
    requires forall i | 0 <= i < |s| - 1 :: !(s[i] == '[' && s[i + 1] == '[')
    ensures StripLinks(s) == s
  {
    if s != [] {
      if MatchAt(Link, s).Some? {
        assert false;
      }
      StripLinksNoOpener(s[1..]);
      assert [s[0]] + s[1..] == s;
    }
  }

  /** A ruby gloss becomes a ruby construct; the reading keeps any `|` it contains. */
  lemma RubyRewrites(base: string, reading: string, rest: string)
    requires base != [] && Avoids(base, {'|', '{', '}'})
    requires reading != [] && Avoids(reading, {'{', '}'})
    ensures Replace(Ruby, "{" + base + "|" + reading + "}" + rest)
         == "<ruby><rb>" + base + "</rb><rt>" + reading + "</rt></ruby>" + Replace(Ruby, rest)
  {
    ReplaceShaped(Ruby, "{" + base + "|" + reading + "}" + rest, base, reading, rest);
  }

  /** A string that is one ruby gloss and nothing else becomes one ruby construct. */
  lemma RubyAlone(base: string, reading: string)
    requires base != [] && Avoids(base, {'|', '{', '}'})
    requires reading != [] && Avoids(reading, {'{', '}'})
    ensures Replace(Ruby, "{" + base + "|" + reading + "}") == "<ruby><rb>" + base + "</rb><rt>" + reading + "</rt></ruby>"
  {
    RubyRewrites(base, reading, "");
    assert "{" + base + "|" + reading + "}" + "" == "{" + base + "|" + reading + "}";
    assert Replace(Ruby, "") == "";
    assert "<ruby><rb>" + base + "</rb><rt>" + reading + "</rt></ruby>" + ""
        == "<ruby><rb>" + base + "</rb><rt>" + reading + "</rt></ruby>";
  }

  /** Bold markers become a bold element around their content. */
  lemma BoldRewrites(content: string, rest: string)
    requires content != [] && Avoids(content, {'*'})
    ensures Replace(Bold, "**" + content + "**" + rest) == "<b>" + content + "</b>" + Replace(Bold, rest)
  {
    ReplaceShaped(Bold, "**" + content + "**" + rest, content, [], rest);
  }

  /** formatText returns a string containing none of `[`, `{`, `*` unchanged. */
  lemma FormatTextPlain(s: string)
    requires '[' !in s && '{' !in s && '*' !in s
    ensures FormatText(s) == s
  {
    ReplaceFixed(Link, s, '[');
    ReplaceFixed(Ruby, s, '{');
    ReplaceFixed(Bold, s, '*');
  }

  /** Partial markup passes through: with no `|` and no `*`, nothing can match. */
  lemma FormatTextUnmatched(s: string)
    requires '|' !in s && '*' !in s
    ensures StripLinks(s) == s && FormatText(s) == s
  {
    ReplaceFixed(Link, s, '|');
    ReplaceFixed(Ruby, s, '|');
    ReplaceFixed(Bold, s, '*');
  }

  /** Text with no markup character at all. */
  predicate Plain(s: string) {
    Avoids(s, {'[', ']', '|', '{', '}', '*'})
  }

  lemma AvoidsAppend(x: string, y: string, stop: set<char>)
    ensures Avoids(x + y, stop) <==> Avoids(x, stop) && Avoids(y, stop)
  {
    if Avoids(x, stop) && Avoids(y, stop) {
      forall k | 0 <= k < |x + y| ensures (x + y)[k] !in stop {
        if k >= |x| { assert (x + y)[k] == y[k - |x|]; }
      }
    }
    if Avoids(x + y, stop) {
      forall k | 0 <= k < |x| ensures x[k] !in stop {
        assert (x + y)[k] == x[k];
      }
      forall k | 0 <= k < |y| ensures y[k] !in stop {
        assert (x + y)[|x| + k] == y[k];
      }
    }
  }

  /** formatText as its three passes, for proofs that take them one at a time. */
  lemma FormatTextVia(s: string, raw: string, glossed: string, out: string)
    requires Replace(Link, s) == raw && Replace(Ruby, raw) == glossed && Replace(Bold, glossed) == out
    ensures FormatText(s) == out
  {
  }

  lemma PlainLacks(s: string)
    requires Plain(s)
    ensures '[' !in s && ']' !in s && '|' !in s && '{' !in s && '}' !in s && '*' !in s
  {
  }

  lemma GlossLinkPass(base: string, r1: string, r2: string)
    requires Plain(base) && Plain(r1) && Plain(r2)
    ensures var s := "{" + base + "|" + (r1 + "|" + r2) + "}"; Replace(Link, s) == s
  {
    PlainLacks(base);
    PlainLacks(r1);
    PlainLacks(r2);
    ReplaceFixed(Link, "{" + base + "|" + (r1 + "|" + r2) + "}", '[');
  }

  lemma GlossRubyPass(base: string, r1: string, r2: string)
    requires base != [] && Plain(base) && r1 != [] && Plain(r1) && Plain(r2)
    ensures Replace(Ruby, "{" + base + "|" + (r1 + "|" + r2) + "}")
         == "<ruby><rb>" + base + "</rb><rt>" + (r1 + "|" + r2) + "</rt></ruby>"
  {
    var reading := r1 + "|" + r2;
    assert Avoids(reading, {'{', '}'}) by {
      AvoidsAppend(r1 + "|", r2, {'{', '}'});
      AvoidsAppend(r1, "|", {'{', '}'});
    }
    RubyAlone(base, reading);
  }

  lemma GlossBoldPass(base: string, r1: string, r2: string)
    requires Plain(base) && Plain(r1) && Plain(r2)
    ensures var out := "<ruby><rb>" + base + "</rb><rt>" + (r1 + "|" + r2) + "</rt></ruby>";
      Replace(Bold, out) == out
  {
    PlainLacks(base);
    PlainLacks(r1);
    PlainLacks(r2);
    ReplaceFixed(Bold, "<ruby><rb>" + base + "</rb><rt>" + (r1 + "|" + r2) + "</rt></ruby>", '*');
  }

  /** A ruby reading may hold `|`: `{a|b|c}` gives base `a` and reading `b|c`. */
  lemma RubyReadingKeepsBar(base: string, r1: string, r2: string)
    requires base != [] && Plain(base) && r1 != [] && Plain(r1) && Plain(r2)
    ensures FormatText("{" + base + "|" + (r1 + "|" + r2) + "}")
         == "<ruby><rb>" + base + "</rb><rt>" + (r1 + "|" + r2) + "</rt></ruby>"
  {
    GlossLinkPass(base, r1, r2);
    GlossRubyPass(base, r1, r2);
    GlossBoldPass(base, r1, r2);
  }

  /** A lone `[[` and a brace without a reading pass through verbatim. */
  lemma LoneMarkupVerbatim()
    ensures StripLinks("[[") == "[["
    ensures FormatText("{a}") == "{a}"
  {
    FormatTextUnmatched("[[");
    FormatTextUnmatched("{a}");
  }

  lemma NestedRaw(a: string, b: string, c: string)
    requires a != [] && Plain(a) && b != [] && Plain(b) && c != [] && Plain(c)
    ensures StripLinks("[[" + a + "|[[" + b + "|" + c + "]]]]") == "<b>[[" + b + "|" + c + "</b>]]"
  {
    var caption := "[[" + b + "|" + c;
    assert Avoids(caption, {']'}) by {
      AvoidsAppend("[[" + b + "|", c, {']'});
      AvoidsAppend("[[" + b, "|", {']'});
      AvoidsAppend("[[", b, {']'});
    }
    assert "[[" + a + "|[[" + b + "|" + c + "]]]]" == "[[" + a + "|" + caption + "]]" + "]]";
    StripLinksRewrites(a, caption, "]]");
    ReplaceFixed(Link, "]]", '[');
    assert "<b>" + caption + "</b>" + "]]" == "<b>[[" + b + "|" + c + "</b>]]";
  }

  lemma NestedRawAgain(b: string, c: string)
    requires b != [] && Plain(b) && c != [] && Plain(c)
    ensures StripLinks("<b>[[" + b + "|" + c + "</b>]]") == "<b><b>" + c + "</b></b>"
  {
    var caption := c + "</b>";
    AvoidsAppend(c, "</b>", {']'});
    assert "<b>[[" + b + "|" + c + "</b>]]" == "<b>" + ("[[" + b + "|" + caption + "]]" + "");
    assert "<b>" + ("<b>" + caption + "</b>" + []) == "<b><b>" + c + "</b></b>";
    ReplacePlainPrefix(Link, "<b>", "[[" + b + "|" + caption + "]]" + "");
    StripLinksRewrites(b, caption, "");
  }

  lemma NestedRawNoGlossOrBold(b: string, c: string)
    requires Plain(b) && Plain(c)
    ensures var raw := "<b>[[" + b + "|" + c + "</b>]]";
      Replace(Ruby, raw) == raw && Replace(Bold, raw) == raw
    ensures var shown := "<b><b>" + c + "</b></b>";
      Replace(Ruby, shown) == shown && Replace(Bold, shown) == shown
  {
    PlainLacks(b);
    PlainLacks(c);
    ReplaceFixed(Ruby, "<b>[[" + b + "|" + c + "</b>]]", '{');
    ReplaceFixed(Bold, "<b>[[" + b + "|" + c + "</b>]]", '*');
    ReplaceFixed(Ruby, "<b><b>" + c + "</b></b>", '{');
    ReplaceFixed(Bold, "<b><b>" + c + "</b></b>", '*');
  }

  /**
   * The display form is computed from the raw form, so the wiki-link pass
   * runs twice on it: a link nested in a link's caption survives stripLinks
   * and is rewritten by formatText, which rendering the input once would not do.
   */
  lemma DisplayFromRawDiffers(a: string, b: string, c: string)
    requires a != [] && Plain(a) && b != [] && Plain(b) && c != [] && Plain(c)
    ensures var input := "[[" + a + "|[[" + b + "|" + c + "]]]]";
      && StripLinks(input) == "<b>[[" + b + "|" + c + "</b>]]"
      && FormatText(StripLinks(input)) == "<b><b>" + c + "</b></b>"
      && FormatText(input) == "<b>[[" + b + "|" + c + "</b>]]"
  {
    var input := "[[" + a + "|[[" + b + "|" + c + "]]]]";
    var raw := "<b>[[" + b + "|" + c + "</b>]]";
    var shown := "<b><b>" + c + "</b></b>";
    NestedRaw(a, b, c);
    NestedRawAgain(b, c);
    NestedRawNoGlossOrBold(b, c);
    FormatTextVia(raw, shown, shown, shown);
    FormatTextVia(input, raw, raw, raw);
  }
}
