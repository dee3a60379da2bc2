/**
 * The markup flattener used on page text before it is indexed: a single
 * left-to-right `replace_all` pass of the verbose regular expression
 *
 *     (?P<newline>\n+) | (?P<space>\s\s+) | (?P<open_tag><[^>]+>) | (?P<close_tag></[^>]+>)
 *
 * whose replacement closure turns a newline run or a whitespace run into as
 * many spaces as it is long and a tag into a single space.
 *
 * `Textify` is the pass itself: at each position the alternatives are tried
 * in order and the first that matches wins (leftmost-first), the matched text
 * is replaced and scanning resumes after it; a position where nothing
 * matches is copied. `Flattened` is an independent reading of the same pass
 * by maximal whitespace runs, and `TextifyIsFlattened` proves the two agree.
 */
module Textify {
  import opened Wrappers
  import opened Chars

  /** The four named groups of the pattern, in the order the engine tries them. */
  datatype Alternative = Newline | Space | OpenTag | CloseTag

  /** A match at the start of the remaining text: the group and how many characters it spans. */
  datatype Match = Match(alt: Alternative, len: nat)

  function Spaces(n: nat): (r: string)
    ensures |r| == n
    ensures forall i :: 0 <= i < n ==> r[i] == ' '
  {
    seq(n, _ => ' ')
  }

  /** The length of the run of newlines that starts `s`. */
  function NewlineRun(s: string): (n: nat)
    ensures n <= |s|
    ensures forall i :: 0 <= i < n ==> s[i] == '\n'
    ensures n < |s| ==> s[n] != '\n'
  {
    if s == [] || s[0] != '\n' then 0 else 1 + NewlineRun(s[1..])
  }

  /** The length of the run of whitespace that starts `s`. */
  function WhitespaceRun(s: string): (n: nat)
    ensures n <= |s|
    ensures forall i :: 0 <= i < n ==> IsWhitespace(s[i])
    ensures n < |s| ==> !IsWhitespace(s[n])
  {
    if s == [] || !IsWhitespace(s[0]) then 0 else 1 + WhitespaceRun(s[1..])
  }

  /** The position of the first occurrence of `c` in `s`. */
  function FirstIndexOf(c: char, s: string): (r: Option<nat>)
    ensures r.Some? ==> r.value < |s| && s[r.value] == c && c !in s[..r.value]
    ensures r.None? ==> c !in s
  {
    if s == [] then None
    else if s[0] == c then Some(0)
    else
      match FirstIndexOf(c, s[1..])
      case None => None
      case Some(j) =>
        assert s[..j + 1] == [s[0]] + s[1..][..j];
        Some(j + 1)
  }

  /** `\n+`, greedy: the whole run of newlines, if there is one. */
  function MatchNewline(s: string): Option<nat> {
    var n := NewlineRun(s);
    if n >= 1 then Some(n) else None
  }

  /** `\s\s+`, greedy: the whole run of whitespace, if it is at least two long. */
  function MatchSpace(s: string): Option<nat> {
    var n := WhitespaceRun(s);
    if n >= 2 then Some(n) else None
  }

  /**
   * `<[^>]+>`: a `<`, then everything up to the first `>`, with at least one
   * character in between (newlines included).
   */
  function MatchOpenTag(s: string): (r: Option<nat>)
    ensures r.Some? ==> 3 <= r.value <= |s|
  {
    if |s| >= 1 && s[0] == '<' then
      match FirstIndexOf('>', s[1..])
      case Some(j) => if j >= 1 then Some(j + 2) else None
      case None => None
    else None
  }

  /** `</[^>]+>`: the same after a `</`. */
  function MatchCloseTag(s: string): (r: Option<nat>)
    ensures r.Some? ==> 4 <= r.value <= |s|
  {
    if |s| >= 2 && s[0] == '<' && s[1] == '/' then
      match FirstIndexOf('>', s[2..])
      case Some(j) => if j >= 1 then Some(j + 3) else None
      case None => None
    else None
  }

  /** Leftmost-first alternation: the first group that matches at the start of `s` wins. */
  function MatchAt(s: string): (r: Option<Match>)
    ensures r.Some? ==> 1 <= r.value.len <= |s|
  {
    if MatchNewline(s).Some? then Some(Match(Newline, MatchNewline(s).value))
    else if MatchSpace(s).Some? then Some(Match(Space, MatchSpace(s).value))
    else if MatchOpenTag(s).Some? then Some(Match(OpenTag, MatchOpenTag(s).value))
    else if MatchCloseTag(s).Some? then Some(Match(CloseTag, MatchCloseTag(s).value))
    else None
  }

  /** The replacement closure: as many spaces as the run for `newline` and `space`, one space for a tag. */
  function Replacement(m: Match): (r: string)
    requires 1 <= m.len
    ensures 1 <= |r| <= m.len
    ensures forall i :: 0 <= i < |r| ==> r[i] == ' '
    ensures m.alt in {Newline, Space} ==> |r| == m.len
  {
    match m.alt
    case Newline => Spaces(m.len)
    case Space => Spaces(m.len)
    case OpenTag => " "
    case CloseTag => " "
  }

  /**
   * One step of the scan: the replacement of the match at the start of `s`
   * and its length, or the first character copied when nothing matches there.
   */
  function Step(s: string): (r: (string, nat))
    requires s != []
    ensures 1 <= r.1 <= |s| && |r.0| <= r.1
    ensures '\n' !in r.0
  {
    match MatchAt(s)
    case Some(m) => (Replacement(m), m.len)
    case None => ([s[0]], 1)
  }

  /** `textify`: the whole `replace_all` pass. No newline survives and the text never grows. */
  function Textify(s: string): (r: string)
    ensures '\n' !in r
    ensures |r| <= |s|
    decreases |s|
  {
    if s == [] then []
    else
      var (out, len) := Step(s);
      out + Textify(s[len..])
  }

  // ---------------------------------------------------------------------
  // The close-tag group never fires.

  /** Whatever `</[^>]+>` matches, `<[^>]+>` matches too, with the same length. */
  lemma CloseTagIsOpenTag(s: string)
    requires MatchCloseTag(s).Some?
    ensures MatchOpenTag(s) == MatchCloseTag(s)
  {
    var j := FirstIndexOf('>', s[2..]).value;
    assert s[2..] == s[1..][1..];
    assert FirstIndexOf('>', s[1..]) == Some(j + 1);
  }

  /** Because the open-tag group is tried first, no match is ever a close tag. */
  lemma CloseTagUnreachable(s: string)
    ensures MatchAt(s).Some? ==> MatchAt(s).value.alt != CloseTag
  {
    if MatchCloseTag(s).Some? {
      CloseTagIsOpenTag(s);
    }
  }

  // ---------------------------------------------------------------------
  // The run-by-run reading of the pass.

  /**
   * How a maximal whitespace run comes out: all spaces, except that a single
   * non-newline whitespace character after a (possibly empty) block of
   * newlines is kept as it is.
   */
  function RunImage(run: string): (r: string)
    ensures |r| == |run|
  {
    var k := NewlineRun(run);
    if |run| - k == 1 then Spaces(k) + run[k..] else Spaces(|run|)
  }

  /** The pass read run by run: whitespace runs, tags, and every other character copied. */
  function Flattened(s: string): string
    decreases |s|
  {
    if s == [] then []
    else if IsWhitespace(s[0]) then
      var n := WhitespaceRun(s);
      RunImage(s[..n]) + Flattened(s[n..])
    else if MatchOpenTag(s).Some? then " " + Flattened(s[MatchOpenTag(s).value..])
    else [s[0]] + Flattened(s[1..])
  }

  lemma WhitespaceRunSuffix(s: string, k: nat)
    requires k <= WhitespaceRun(s)
    ensures WhitespaceRun(s[k..]) == WhitespaceRun(s) - k
  {
  }

  lemma {:induction false} NewlineRunPrefix(s: string, n: nat)
    requires NewlineRun(s) <= n <= |s|
    ensures NewlineRun(s[..n]) == NewlineRun(s)
  {
    if n > 0 && s[0] == '\n' {
      NewlineRunPrefix(s[1..], n - 1);
      assert s[..n][1..] == s[1..][..n - 1];
    }
  }

  /**
   * A run that starts with a non-newline whitespace character: two or more
   * become that many spaces, a lone one is copied.
   */
  lemma SpaceRunStep(s: string)
    requires s != [] && IsWhitespace(s[0]) && s[0] != '\n'
    ensures Step(s) == (if WhitespaceRun(s) == 1 then [s[0]] else Spaces(WhitespaceRun(s)), WhitespaceRun(s))
  {
    var n := WhitespaceRun(s);
    assert MatchNewline(s).None?;
    if n == 1 {
      assert MatchAt(s).None?;
    } else {
      assert MatchAt(s) == Some(Match(Space, n));
    }
  }

  /** A run of newlines becomes as many spaces. */
  lemma NewlineRunStep(s: string)
    requires s != [] && s[0] == '\n'
    ensures Step(s) == (Spaces(NewlineRun(s)), NewlineRun(s))
  {
    assert MatchAt(s) == Some(Match(Newline, NewlineRun(s)));
  }

  /** At a character that is not whitespace, only a tag can match. */
  lemma OtherStep(s: string)
    requires s != [] && !IsWhitespace(s[0])
    ensures MatchOpenTag(s).Some? ==> Step(s) == (" ", MatchOpenTag(s).value)
    ensures MatchOpenTag(s).None? ==> Step(s) == ([s[0]], 1)
  {
    assert MatchNewline(s).None? && MatchSpace(s).None?;
    if MatchCloseTag(s).Some? {
      CloseTagIsOpenTag(s);
    }
  }

  /** One unfolding of the scan, with the rest of the input named. */
  lemma TextifyStep(t: string, rest: string)
    requires t != [] && t[Step(t).1..] == rest
    ensures Textify(t) == Step(t).0 + Textify(rest)
  {
  }

  /** The step taken right after the newlines of a whitespace run that goes on past them. */
  lemma StepAfterNewlines(s: string, k: nat)
    requires NewlineRun(s) == k < WhitespaceRun(s)
    ensures Step(s[k..])
            == (if WhitespaceRun(s) - k == 1 then [s[k]] else Spaces(WhitespaceRun(s) - k), WhitespaceRun(s) - k)
  {
    WhitespaceRunSuffix(s, k);
    SpaceRunStep(s[k..]);
  }

  lemma SuffixOfSuffix(s: string, k: nat, n: nat)
    requires k <= n <= |s|
    ensures s[k..][n - k..] == s[n..]
  {
  }

  /** What follows the newlines of a whitespace run that goes on past them. */
  lemma RunTailStep(s: string, k: nat, n: nat)
    requires NewlineRun(s) == k < WhitespaceRun(s) == n
    ensures Textify(s[k..]) == (if n - k == 1 then [s[k]] else Spaces(n - k)) + Textify(s[n..])
  {
    var t := s[k..];
    assert Step(t).1 == n - k && Step(t).0 == if n - k == 1 then [s[k]] else Spaces(n - k) by {
      StepAfterNewlines(s, k);
    }
    assert t[n - k..] == s[n..] by {
      SuffixOfSuffix(s, k, n);
    }
    TextifyStep(t, s[n..]);
  }

  /** The image of the maximal whitespace run at the start of `s`, by its newline prefix. */
  lemma RunImageCases(s: string)
    requires s != [] && IsWhitespace(s[0])
    ensures NewlineRun(s) <= WhitespaceRun(s)
    ensures RunImage(s[..WhitespaceRun(s)])
            == if WhitespaceRun(s) - NewlineRun(s) == 1 then Spaces(NewlineRun(s)) + [s[NewlineRun(s)]]
               else Spaces(WhitespaceRun(s))
  {
    var n, k := WhitespaceRun(s), NewlineRun(s);
    NewlineRunPrefix(s, n);
    if n - k == 1 {
      assert s[..n][k..] == [s[k]];
    }
  }

  /** A run of two or more whitespace characters that does not start with a newline. */
  lemma SpaceLedRun(s: string)
    requires s != [] && IsWhitespace(s[0]) && s[0] != '\n'
    ensures Textify(s) == RunImage(s[..WhitespaceRun(s)]) + Textify(s[WhitespaceRun(s)..])
  {
    var n := WhitespaceRun(s);
    assert NewlineRun(s) == 0;
    assert RunImage(s[..n]) == if n == 1 then [s[0]] else Spaces(n) by {
      RunImageCases(s);
      assert Spaces(0) + [s[0]] == [s[0]];
    }
    SpaceRunStep(s);
    TextifyStep(s, s[n..]);
  }

  /** A run made of newlines only. */
  lemma NewlinesOnlyRun(s: string)
    requires s != [] && s[0] == '\n' && NewlineRun(s) == WhitespaceRun(s)
    ensures Textify(s) == RunImage(s[..WhitespaceRun(s)]) + Textify(s[WhitespaceRun(s)..])
  {
    var n := WhitespaceRun(s);
    RunImageCases(s);
    NewlineRunStep(s);
    TextifyStep(s, s[n..]);
  }

  /** Gluing the newline spaces to what follows them. */
  lemma GlueRun(whole: string, tail: string, rest: string, k: nat, n: nat, c: char)
    requires k < n
    requires whole == Spaces(k) + tail
    requires tail == (if n - k == 1 then [c] else Spaces(n - k)) + rest
    ensures whole == (if n - k == 1 then Spaces(k) + [c] else Spaces(n)) + rest
  {
    if n - k != 1 {
      assert Spaces(k) + Spaces(n - k) == Spaces(n);
    }
  }

  /** The newlines at the start of `s` come out as spaces, and the scan goes on after them. */
  lemma NewlinesThenRest(s: string)
    requires s != [] && s[0] == '\n'
    ensures Textify(s) == Spaces(NewlineRun(s)) + Textify(s[NewlineRun(s)..])
  {
    NewlineRunStep(s);
    TextifyStep(s, s[NewlineRun(s)..]);
  }

  /** Newlines followed by other whitespace. */
  lemma MixedRun(s: string)
    requires s != [] && s[0] == '\n' && NewlineRun(s) < WhitespaceRun(s)
    ensures Textify(s) == RunImage(s[..WhitespaceRun(s)]) + Textify(s[WhitespaceRun(s)..])
  {
    var n, k := WhitespaceRun(s), NewlineRun(s);
    NewlinesThenRest(s);
    RunTailStep(s, k, n);
    RunImageCases(s);
    GlueRun(Textify(s), Textify(s[k..]), Textify(s[n..]), k, n, s[k]);
  }

  /** A maximal whitespace run at the start of `s` comes out as `RunImage` says. */
  lemma RunStep(s: string)
    requires s != [] && IsWhitespace(s[0])
    ensures Textify(s) == RunImage(s[..WhitespaceRun(s)]) + Textify(s[WhitespaceRun(s)..])
  {
    if s[0] != '\n' {
      SpaceLedRun(s);
    } else if NewlineRun(s) == WhitespaceRun(s) {
      NewlinesOnlyRun(s);
    } else {
      MixedRun(s);
    }
  }

  /** The regex pass and the run-by-run reading agree on every input. */
  lemma {:induction false} TextifyIsFlattened(s: string)
    ensures Textify(s) == Flattened(s)
    decreases |s|
  {
    if s == [] {
    } else if IsWhitespace(s[0]) {
      RunStep(s);
      TextifyIsFlattened(s[WhitespaceRun(s)..]);
    } else {
      OtherStep(s);
      if MatchOpenTag(s).Some? {
        TextifyIsFlattened(s[MatchOpenTag(s).value..]);
      } else {
        TextifyIsFlattened(s[1..]);
      }
    }
  }

  // ---------------------------------------------------------------------
  // What the pass does to text without tags.

  /** `r` is `s` with some whitespace characters turned into spaces and nothing else changed. */
  predicate Blanked(s: string, r: string) {
    |r| == |s| && forall i :: 0 <= i < |s| ==> r[i] == s[i] || (IsWhitespace(s[i]) && r[i] == ' ')
  }

  lemma BlankedConcat(a: string, ra: string, b: string, rb: string)
    requires Blanked(a, ra) && Blanked(b, rb)
    ensures Blanked(a + b, ra + rb)
  {
    forall i | 0 <= i < |a + b|
      ensures (ra + rb)[i] == (a + b)[i] || (IsWhitespace((a + b)[i]) && (ra + rb)[i] == ' ')
    {
      if i >= |a| {
        assert (ra + rb)[i] == rb[i - |a|] && (a + b)[i] == b[i - |a|];
      }
    }
  }

  lemma RunImageBlanks(run: string)
    requires forall i :: 0 <= i < |run| ==> IsWhitespace(run[i])
    ensures Blanked(run, RunImage(run))
  {
    var k := NewlineRun(run);
    if |run| - k == 1 {
      assert RunImage(run)[k] == run[k];
    }
  }

  lemma {:induction false} FlattenedBlanks(s: string)
    requires '<' !in s
    ensures Blanked(s, Flattened(s))
    decreases |s|
  {
    if s == [] {
    } else if IsWhitespace(s[0]) {
      var n := WhitespaceRun(s);
      RunImageBlanks(s[..n]);
      FlattenedBlanks(s[n..]);
      BlankedConcat(s[..n], RunImage(s[..n]), s[n..], Flattened(s[n..]));
      assert s[..n] + s[n..] == s;
    } else {
      FlattenedBlanks(s[1..]);
      BlankedConcat([s[0]], [s[0]], s[1..], Flattened(s[1..]));
      assert [s[0]] + s[1..] == s;
    }
  }

  /**
   * Without tags the pass keeps the length, copies every character that is
   * not whitespace, and turns some whitespace (every newline among it) into spaces.
   */
  lemma TagFreeBlanksWhitespaceOnly(s: string)
    requires '<' !in s
    ensures |Textify(s)| == |s|
    ensures forall i :: 0 <= i < |s| && !IsWhitespace(s[i]) ==> Textify(s)[i] == s[i]
    ensures forall i :: 0 <= i < |s| && IsWhitespace(s[i]) ==> Textify(s)[i] in {s[i], ' '}
    ensures forall i :: 0 <= i < |s| && s[i] == '\n' ==> Textify(s)[i] == ' '
  {
    TextifyIsFlattened(s);
    FlattenedBlanks(s);
    forall i | 0 <= i < |s| && s[i] == '\n'
      ensures Textify(s)[i] == ' '
    {
      assert Textify(s)[i] in Textify(s);
    }
  }

  /** Text with no tag, no newline and no two whitespace characters in a row. */
  predicate Plain(x: string) {
    '<' !in x && '\n' !in x && forall i :: 0 <= i < |x| - 1 ==> !(IsWhitespace(x[i]) && IsWhitespace(x[i + 1]))
  }

  /** The first character of plain text in front of `rest` is copied on its own. */
  lemma PlainStep(x: string, rest: string)
    requires Plain(x) && x != []
    requires rest == [] || !IsWhitespace(x[|x| - 1]) || !IsWhitespace(rest[0])
    ensures Step(x + rest) == ([x[0]], 1)
  {
    var s := x + rest;
    assert s[0] == x[0];
    if IsWhitespace(x[0]) {
      assert WhitespaceRun(s) == 1 by {
        assert s[1..] == x[1..] + rest;
        if |x| > 1 { assert s[1] == x[1]; }
      }
      SpaceRunStep(s);
    } else {
      assert MatchOpenTag(s).None? by {
        assert x[0] in x;
      }
      OtherStep(s);
    }
  }

  lemma PlainTail(x: string)
    requires Plain(x) && x != []
    ensures Plain(x[1..])
  {
    forall i | 0 <= i < |x[1..]| - 1
      ensures !(IsWhitespace(x[1..][i]) && IsWhitespace(x[1..][i + 1]))
    {
      assert x[1..][i] == x[i + 1] && x[1..][i + 1] == x[i + 2];
    }
  }

  lemma GlueCopied(whole: string, tail: string, x: string, rest: string)
    requires x != [] && whole == [x[0]] + tail && tail == x[1..] + rest
    ensures whole == x + rest
  {
    assert [x[0]] + x[1..] == x;
  }

  /** Plain text in front of `rest` is copied as it is, provided no whitespace run straddles the join. */
  lemma {:induction false} PlainPrefix(x: string, rest: string)
    requires Plain(x)
    requires x == [] || rest == [] || !IsWhitespace(x[|x| - 1]) || !IsWhitespace(rest[0])
    ensures Textify(x + rest) == x + Textify(rest)
    decreases |x|
  {
    if x != [] {
      var s := x + rest;
      PlainStep(x, rest);
      assert s[1..] == x[1..] + rest;
      TextifyStep(s, x[1..] + rest);
      PlainTail(x);
      PlainPrefix(x[1..], rest);
      GlueCopied(Textify(s), Textify(x[1..] + rest), x, Textify(rest));
    } else {
      assert x + rest == rest;
    }
  }

  /** Plain text passes through unchanged (templates, bold and italic quotes, links). */
  lemma PassThrough(x: string)
    requires Plain(x)
    ensures Textify(x) == x
  {
    PlainPrefix(x, []);
    assert x + [] == x;
  }

  // ---------------------------------------------------------------------
  // One alternative at a time.

  function Newlines(k: nat): (r: string)
    ensures |r| == k && forall i :: 0 <= i < k ==> r[i] == '\n'
  {
    seq(k, _ => '\n')
  }

  /** A run of `k` newlines becomes `k` spaces. */
  lemma NewlinesBecomeSpaces(k: nat, rest: string)
    requires k >= 1
    requires rest == [] || rest[0] != '\n'
    ensures Textify(Newlines(k) + rest) == Spaces(k) + Textify(rest)
  {
    var s := Newlines(k) + rest;
    assert NewlineRun(s) == k;
    NewlineRunStep(s);
    assert s[k..] == rest;
    TextifyStep(s, rest);
  }

  /** A run of two or more whitespace characters, not led by a newline, becomes as many spaces. */
  lemma WhitespaceRunBecomesSpaces(run: string, rest: string)
    requires |run| >= 2 && run[0] != '\n'
    requires forall i :: 0 <= i < |run| ==> IsWhitespace(run[i])
    requires rest == [] || !IsWhitespace(rest[0])
    ensures Textify(run + rest) == Spaces(|run|) + Textify(rest)
  {
    var s := run + rest;
    assert WhitespaceRun(s) == |run|;
    assert s[0] == run[0];
    SpaceRunStep(s);
    assert s[|run|..] == rest;
    TextifyStep(s, rest);
  }

  /** A lone whitespace character other than a newline is kept. */
  lemma LoneWhitespaceKept(c: char, rest: string)
    requires IsWhitespace(c) && c != '\n'
    requires rest == [] || !IsWhitespace(rest[0])
    ensures Textify([c] + rest) == [c] + Textify(rest)
  {
    var s := [c] + rest;
    assert WhitespaceRun(s) == 1 by {
      assert s[1..] == rest;
    }
    SpaceRunStep(s);
    assert s[1..] == rest;
    TextifyStep(s, rest);
  }

  lemma FirstIndexAfter(c: char, body: string, tail: string)
    requires c !in body && tail != [] && tail[0] == c
    ensures FirstIndexOf(c, body + tail) == Some(|body|)
  {
    assert (body + tail)[|body|] == c;
  }

  /** A tag, newlines inside it included, becomes exactly one space and the text after it is kept. */
  lemma TagBecomesOneSpace(body: string, rest: string)
    requires |body| >= 1 && '>' !in body
    ensures Textify("<" + body + ">" + rest) == " " + Textify(rest)
  {
    var s := "<" + body + ">" + rest;
    assert s[1..] == body + (">" + rest);
    FirstIndexAfter('>', body, ">" + rest);
    assert MatchOpenTag(s) == Some(|body| + 2);
    OtherStep(s);
    assert s[|body| + 2..] == rest;
    TextifyStep(s, rest);
  }

  // ---------------------------------------------------------------------
  // The unit-test vectors of the flattener.

  /** Template markup is left alone. */
  lemma TemplateVector()
    ensures Textify("{{a|b=c|d=e}}") == "{{a|b=c|d=e}}"
  {
    PassThrough("{{a|b=c|d=e}}");
  }

  /** Bold and italic quotes are left alone. */
  lemma QuoteVector()
    ensures Textify("'\'\'\'\'hello'\'\'\'\'") == "'\'\'\'\'hello'\'\'\'\'"
  {
    PassThrough("'\'\'\'\'hello'\'\'\'\'");
  }

  /** More template and quote markup that is left alone. */
  lemma PipeTemplateVector()
    ensures Textify("{{a|b|c}}") == "{{a|b|c}}"
  {
    PassThrough("{{a|b|c}}");
  }

  lemma ItalicVector()
    ensures Textify("''hello''") == "''hello''"
  {
    PassThrough("''hello''");
  }

  lemma BoldVector()
    ensures Textify("'\'\'hello'\'\'") == "'\'\'hello'\'\'"
  {
    PassThrough("'\'\'hello'\'\'");
  }

  /** Plain text that starts and ends with something other than whitespace. */
  predicate Word(x: string) {
    Plain(x) && x != [] && !IsWhitespace(x[0]) && !IsWhitespace(x[|x| - 1])
  }

  /**
   * Lines of plain text separated by one, two and one newlines come out
   * separated by one, two and one spaces.
   */
  lemma HeadingShape(a: string, b: string, c: string, d: string)
    requires Word(a) && Word(b) && Word(c) && Word(d)
    ensures Textify(a + (Newlines(1) + (b + (Newlines(2) + (c + (Newlines(1) + d))))))
         == a + (Spaces(1) + (b + (Spaces(2) + (c + (Spaces(1) + d)))))
  {
    PassThrough(d);
    NewlinesBecomeSpaces(1, d);
    PlainPrefix(c, Newlines(1) + d);
    NewlinesBecomeSpaces(2, c + (Newlines(1) + d));
    PlainPrefix(b, Newlines(2) + (c + (Newlines(1) + d)));
    NewlinesBecomeSpaces(1, b + (Newlines(2) + (c + (Newlines(1) + d))));
    PlainPrefix(a, Newlines(1) + (b + (Newlines(2) + (c + (Newlines(1) + d)))));
  }

  lemma HeadingWords()
    ensures Word("= a =") && Word("b") && Word("= c =") && Word("d")
  {
  }

  lemma HeadingPieces()
    ensures Newlines(1) == "\n" && Newlines(2) == "\n\n" && Spaces(1) == " " && Spaces(2) == "  "
    ensures "= a =" + ("\n" + ("b" + ("\n\n" + ("= c =" + ("\n" + "d"))))) == "= a =\nb\n\n= c =\nd"
    ensures "= a =" + (" " + ("b" + ("  " + ("= c =" + (" " + "d"))))) == "= a = b  = c = d"
  {
  }

  /** Newlines are not merged: each becomes its own space. */
  lemma HeadingVector()
    ensures Textify("= a =\nb\n\n= c =\nd") == "= a = b  = c = d"
  {
    HeadingWords();
    HeadingPieces();
    HeadingShape("= a =", "b", "= c =", "d");
  }

  /** A lone tab after a newline is kept; a tab followed by a newline is a two-character run. */
  lemma LoneWhitespaceVectors()
    ensures Textify("\n\t") == " \t"
    ensures Textify("\t\n") == "  "
  {
    LoneWhitespaceKept('\t', []);
    NewlinesBecomeSpaces(1, "\t");
    assert Newlines(1) == "\n";
    WhitespaceRunBecomesSpaces("\t\n", []);
    assert "\t\n" + [] == "\t\n";
  }
}
