/**
 * The two regular-expression substitutions of the /convert handler, as
 * string-rewriting functions over characters:
 *
 *   heading pass  `^# (.*)$` with flags g and m  replaced by  <h1>$1</h1>
 *   bold pass     `\*\*(.*?)\*\*` with flag g       replaced by  <strong>$1</strong>
 *
 * Only the line feed '\n' is treated as a line terminator: it is where `^`
 * and `$` of the multiline heading pattern match and what `.` refuses.
 */
module Markdown {

  datatype Option<T> = None | Some(value: T)

  // ---------------------------------------------------------------------
  // Lines
  // ---------------------------------------------------------------------

  /** The position of the first line feed in s, or |s| when there is none. */
  function LineEnd(s: string): (n: nat)
    ensures n <= |s|
    ensures forall k :: 0 <= k < n ==> s[k] != '\n'
    ensures n < |s| ==> s[n] == '\n'
  {
    if s == [] || s[0] == '\n' then 0 else 1 + LineEnd(s[1..])
  }

  /** s cut at every line feed; the line feeds themselves are dropped. */
  function Lines(s: string): (ls: seq<string>)
    ensures |ls| >= 1
    ensures forall i :: 0 <= i < |ls| ==> '\n' !in ls[i]
    decreases |s|
  {
    var n := LineEnd(s);
    if n == |s| then [s] else [s[..n]] + Lines(s[n + 1..])
  }

  /** Lines put back together with one line feed between each two. */
  function Unlines(ls: seq<string>): string
    requires |ls| >= 1
  {
    if |ls| == 1 then ls[0] else ls[0] + "\n" + Unlines(ls[1..])
  }

  /** Cutting at line feeds loses nothing: the lines rebuild the text. */
  lemma {:induction false} UnlinesLines(s: string)
    ensures Unlines(Lines(s)) == s
    decreases |s|
  {
    var n := LineEnd(s);
    if n < |s| {
      UnlinesLines(s[n + 1..]);
      assert Lines(s)[1..] == Lines(s[n + 1..]);
      assert s == s[..n] + "\n" + s[n + 1..];
    }
  }

  /** A text without a line feed is one line. */
  lemma LinesSingle(a: string)
    requires '\n' !in a
    ensures Lines(a) == [a]
  {
  }

  /** A line feed after a line-feed-free prefix ends the first line. */
  lemma LinesCons(a: string, b: string)
    requires '\n' !in a
    ensures Lines(a + "\n" + b) == [a] + Lines(b)
  {
    var s := a + "\n" + b;
    var n := LineEnd(s);
    assert s[|a|] == '\n';
    assert forall k :: 0 <= k < |a| ==> s[k] == a[k] && a[k] != '\n';
    assert n == |a|;
    assert s[..n] == a;
    assert s[n + 1..] == b;
  }

  /**
   * Lines and Unlines are inverse on line-feed-free lines: the round-trip
   * partner of UnlinesLines, so the line view and the text determine each
   * other.
   */
  lemma {:induction false} LinesUnlines(ls: seq<string>)
    requires |ls| >= 1
    requires forall i :: 0 <= i < |ls| ==> '\n' !in ls[i]
    ensures Lines(Unlines(ls)) == ls
    decreases |ls|
  {
    if |ls| == 1 {
      LinesSingle(ls[0]);
    } else {
      LinesUnlines(ls[1..]);
      LinesCons(ls[0], Unlines(ls[1..]));
      assert ls == [ls[0]] + ls[1..];
    }
  }

  /** Every line of s but the last ends with a line feed. */
  lemma {:induction false} LineFeedCount(s: string)
    ensures |Lines(s)| == multiset(s)['\n'] + 1
    decreases |s|
  {
    var n := LineEnd(s);
    if n == |s| {
      assert '\n' !in multiset(s);
    } else {
      LineFeedCount(s[n + 1..]);
      assert s == s[..n] + "\n" + s[n + 1..];
      assert '\n' !in multiset(s[..n]);
      assert multiset(s) == multiset(s[..n]) + multiset{'\n'} + multiset(s[n + 1..]);
    }
  }

  // ---------------------------------------------------------------------
  // Heading pass: /^# (.*)$/gm
  // ---------------------------------------------------------------------

  /** `^# ` matches at the start of this line. */
  predicate IsHeading(line: string)
  {
    |line| >= 2 && line[0] == '#' && line[1] == ' '
  }

  /** No line starts with `# `. */
  predicate NoHeading(ls: seq<string>)
  {
    forall i :: 0 <= i < |ls| ==> !IsHeading(ls[i])
  }

  lemma NoHeadingCons(a: string, ls: seq<string>)
    ensures NoHeading([a] + ls) <==> !IsHeading(a) && NoHeading(ls)
  {
    var al := [a] + ls;
    assert al[0] == a;
    if !IsHeading(a) && NoHeading(ls) {
      forall i | 0 <= i < |al| ensures !IsHeading(al[i]) {
        if i > 0 {
          assert al[i] == ls[i - 1];
        }
      }
    }
    if NoHeading(al) {
      forall i | 0 <= i < |ls| ensures !IsHeading(ls[i]) {
        assert al[i + 1] == ls[i];
      }
    }
  }

  /**
   * One line under the heading pattern. `.*` is greedy and stops only at a
   * line terminator, so on a heading line it captures the whole rest of
   * the line and `$` then matches; the match replaces the line.
   */
  function HeadingLine(line: string): (r: string)
    ensures '\n' !in line ==> '\n' !in r
    ensures !IsHeading(r)
  {
    if IsHeading(line) then "<h1>" + line[2..] + "</h1>" else line
  }

  /**
   * The heading pass over the whole text, one line at a time. Each heading
   * line grows by the seven characters of `<h1>` and `</h1>` less the two
   * of `# `, so the text keeps its length exactly when it has no heading.
   * HeadingPassLines states the pass line by line.
   */
  function HeadingPass(s: string): (r: string)
    ensures |r| >= |s|
    ensures |r| == |s| <==> NoHeading(Lines(s))
    decreases |s|
  {
    var n := LineEnd(s);
    if n == |s| then
      assert Lines(s) == [s];
      NoHeadingCons(s, []);
      HeadingLine(s)
    else
      var a, b := s[..n], s[n + 1..];
      assert Lines(s) == [a] + Lines(b);
      NoHeadingCons(a, Lines(b));
      HeadingLine(a) + "\n" + HeadingPass(b)
  }

  /**
   * The heading pass keeps the line structure: as many lines as before,
   * and line i of the result is line i of the input under HeadingLine.
   */
  lemma {:induction false} HeadingPassLines(s: string)
    ensures |Lines(HeadingPass(s))| == |Lines(s)|
    ensures forall i :: 0 <= i < |Lines(s)| ==> Lines(HeadingPass(s))[i] == HeadingLine(Lines(s)[i])
    decreases |s|
  {
    var n := LineEnd(s);
    if n == |s| {
      assert '\n' !in s;
      LinesSingle(s);
      LinesSingle(HeadingLine(s));
    } else {
      var a, b := s[..n], s[n + 1..];
      assert '\n' !in a;
      assert Lines(s) == [a] + Lines(b);
      assert HeadingPass(s) == HeadingLine(a) + "\n" + HeadingPass(b);
      HeadingPassLines(b);
      LinesCons(HeadingLine(a), HeadingPass(b));
    }
  }

  /** The heading pass keeps every line feed: the line count is unchanged. */
  lemma HeadingPassLineFeeds(s: string)
    ensures multiset(HeadingPass(s))['\n'] == multiset(s)['\n']
  {
    HeadingPassLines(s);
    LineFeedCount(s);
    LineFeedCount(HeadingPass(s));
  }

  /** A text none of whose lines starts with `# ` comes through unchanged. */
  lemma HeadingPassNoHeading(s: string)
    requires NoHeading(Lines(s))
    ensures HeadingPass(s) == s
  {
    HeadingPassLines(s);
    assert Lines(HeadingPass(s)) == Lines(s);
    UnlinesLines(s);
    UnlinesLines(HeadingPass(s));
  }

  /** Running the heading pass twice is the same as running it once. */
  lemma HeadingPassIdempotent(s: string)
    ensures HeadingPass(HeadingPass(s)) == HeadingPass(s)
  {
    HeadingPassLines(s);
    HeadingPassNoHeading(HeadingPass(s));
  }

  // ---------------------------------------------------------------------
  // Bold pass: /\*\*(.*?)\*\*/g
  // ---------------------------------------------------------------------

  /** Two asterisks start at position k. */
  predicate DoubleStarAt(s: string, k: int)
  {
    0 <= k && k + 1 < |s| && s[k] == '*' && s[k + 1] == '*'
  }

  predicate HasDoubleStar(s: string)
  {
    exists k :: 0 <= k < |s| && DoubleStarAt(s, k)
  }

  /**
   * A group `(.*?)` opened at i can be closed by the `**` at j: the text
   * s[i..j] it would capture stays on one line.
   */
  predicate Closes(s: string, i: nat, j: int)
  {
    i <= j && DoubleStarAt(s, j) && '\n' !in s[i..j]
  }

  /**
   * Where the lazy group opened at i ends: the FIRST position that can
   * close it, or None when the line runs out first.
   */
  function FindClose(s: string, i: nat): (r: Option<nat>)
    requires i <= |s|
    ensures r.Some? ==> Closes(s, i, r.value)
    ensures r.Some? ==> forall k :: i <= k < r.value ==> !Closes(s, i, k)
    ensures r.None? ==> forall k :: !Closes(s, i, k)
    decreases |s| - i
  {
    if i + 2 > |s| then None
    else if s[i] == '*' && s[i + 1] == '*' then Some(i)
    else if s[i] == '\n' then None
    else
      ClosesStep(s, i);
      FindClose(s, i + 1)
  }

  /** Past a character that is neither a line feed nor the start of `**`. */
  lemma ClosesStep(s: string, i: nat)
    requires i < |s| && s[i] != '\n' && !DoubleStarAt(s, i)
    ensures forall k :: Closes(s, i, k) <==> Closes(s, i + 1, k)
  {
    forall k ensures Closes(s, i, k) <==> Closes(s, i + 1, k) {
      if i < k <= |s| {
        assert s[i..k] == [s[i]] + s[i + 1..k];
      }
    }
  }

  /**
   * The bold pass. A match is tried at each position from left to right;
   * after a match the scan resumes right after its closing `**`, and where
   * no match starts one character is copied. Its properties are the
   * lemmas below: BoldPassLines, BoldPassNoDoubleStar, BoldPassNoLineFeed
   * and BoldPassLineFeeds, with FindClose for where a match ends.
   */
  function BoldPass(s: string): string
    decreases |s|
  {
    if DoubleStarAt(s, 0) then
      match FindClose(s, 2)
      case Some(j) => "<strong>" + s[2..j] + "</strong>" + BoldPass(s[j + 2..])
      case None => [s[0]] + BoldPass(s[1..])
    else if s == [] then []
    else [s[0]] + BoldPass(s[1..])
  }

  /**
   * What a bold match captures: text on one line that holds no `**` and
   * does not end in `*` (that `*` and the next would have closed it).
   */
  lemma LazyCapture(s: string)
    requires DoubleStarAt(s, 0) && FindClose(s, 2).Some?
    ensures var x := s[2..FindClose(s, 2).value];
      && '\n' !in x
      && !HasDoubleStar(x)
      && (x == [] || x[|x| - 1] != '*')
  {
    var j := FindClose(s, 2).value;
    var x := s[2..j];
    if HasDoubleStar(x) {
      var k :| 0 <= k < |x| && DoubleStarAt(x, k);
      assert j <= |s|;
      assert s[2..k + 2] == x[..k];
      assert Closes(s, 2, k + 2);
    }
    if x != [] && x[|x| - 1] == '*' {
      assert s[2..j - 1] == x[..|x| - 1];
      assert Closes(s, 2, j - 1);
    }
  }

  /** Text without `**` is left alone by the bold pass. */
  lemma {:induction false} BoldPassNoDoubleStar(s: string)
    requires !HasDoubleStar(s)
    ensures BoldPass(s) == s
    decreases |s|
  {
    if s != [] {
      assert !DoubleStarAt(s, 0);
      forall k | DoubleStarAt(s[1..], k) ensures DoubleStarAt(s, k + 1) { }
      BoldPassNoDoubleStar(s[1..]);
    }
  }

  /** BoldPassNoDoubleStar and BoldPassNoLineFeed with their hypotheses as conditions. */
  lemma BoldPassFacts(s: string)
    ensures !HasDoubleStar(s) ==> BoldPass(s) == s
    ensures '\n' !in s ==> '\n' !in BoldPass(s)
  {
    if !HasDoubleStar(s) {
      BoldPassNoDoubleStar(s);
    }
    if '\n' !in s {
      BoldPassNoLineFeed(s);
    }
  }

  /** A prefix without asterisks is copied and the pass goes on after it. */
  lemma {:induction false} BoldPassPlainPrefix(p: string, t: string)
    requires '*' !in p
    ensures BoldPass(p + t) == p + BoldPass(t)
    decreases |p|
  {
    if p == [] {
      assert p + t == t;
    } else {
      var s := p + t;
      assert p[0] in p;
      assert s[0] == p[0];
      assert BoldPass(s) == [s[0]] + BoldPass(s[1..]);
      assert s[1..] == p[1..] + t;
      assert '*' !in p[1..] by {
        forall q | 0 <= q < |p| - 1 ensures p[1..][q] != '*' {
          assert p[1..][q] == p[q + 1];
        }
      }
      BoldPassPlainPrefix(p[1..], t);
      assert p == [p[0]] + p[1..];
    }
  }

  /**
   * Appending c whose first line holds no asterisk does not change where
   * a lazy group opened inside a closes.
   */
  lemma FindCloseAppend(a: string, c: string, i: nat)
    requires i <= |a|
    requires '*' !in c[..LineEnd(c)]
    ensures FindClose(a + c, i) == FindClose(a, i)
  {
    var s := a + c;
    forall k | Closes(s, i, k) ensures Closes(a, i, k) {
      if k + 1 >= |a| {
        var m := k + 1 - |a|;
        assert s[k + 1] == c[m];
        forall q | 0 <= q < m ensures c[q] != '\n' {
          assert c[q] == s[|a| + q];
          if |a| + q < k {
            assert s[|a| + q] == s[i..k][|a| + q - i];
          }
        }
        assert false;
      }
      assert s[i..k] == a[i..k];
    }
    forall k | Closes(a, i, k) ensures Closes(s, i, k) {
      assert s[i..k] == a[i..k];
    }
  }

  /**
   * The bold pass splits over a boundary after which the line holds no
   * asterisk: no match can reach across it.
   */
  lemma {:induction false} BoldPassAppend(a: string, c: string)
    requires '*' !in c[..LineEnd(c)]
    ensures BoldPass(a + c) == BoldPass(a) + BoldPass(c)
    decreases |a|
  {
    var s := a + c;
    if a == [] {
      assert s == c;
    } else {
      OpeningInside(a, c);
      if DoubleStarAt(a, 0) {
        FindCloseAppend(a, c, 2);
        match FindClose(a, 2)
        case Some(j) =>
          assert s[2..j] == a[2..j];
          assert s[j + 2..] == a[j + 2..] + c;
          BoldPassAppend(a[j + 2..], c);
        case None =>
          assert s[1..] == a[1..] + c;
          BoldPassAppend(a[1..], c);
      } else {
        assert s[1..] == a[1..] + c;
        BoldPassAppend(a[1..], c);
      }
    }
  }

  /**
   * When the line after the boundary holds no asterisk, a `**` opens at
   * the start of a + c exactly when it opens at the start of a.
   */
  lemma OpeningInside(a: string, c: string)
    requires a != []
    requires '*' !in c[..LineEnd(c)]
    ensures DoubleStarAt(a + c, 0) <==> DoubleStarAt(a, 0)
    ensures (a + c)[0] == a[0]
  {
    if |a| == 1 && |c| > 0 && c[0] == '*' {
      assert false;
    }
  }

  /** The bold pass never creates a line feed. */
  lemma {:induction false} BoldPassNoLineFeed(s: string)
    requires '\n' !in s
    ensures '\n' !in BoldPass(s)
    decreases |s|
  {
    if DoubleStarAt(s, 0) {
      match FindClose(s, 2)
      case Some(j) =>
        assert '\n' !in s[2..j];
        assert forall q :: j + 2 <= q < |s| ==> s[q] == s[j + 2..][q - j - 2];
        assert '\n' !in s[j + 2..];
        BoldPassNoLineFeed(s[j + 2..]);
      case None =>
        assert '\n' !in s[1..];
        BoldPassNoLineFeed(s[1..]);
    } else if s != [] {
      assert '\n' !in s[1..];
      BoldPassNoLineFeed(s[1..]);
    }
  }

  /**
   * The bold pass works line by line: as many lines as before, and line i
   * of the result is line i of the input under the bold pass.
   */
  lemma {:induction false} BoldPassLines(s: string)
    ensures |Lines(BoldPass(s))| == |Lines(s)|
    ensures forall i :: 0 <= i < |Lines(s)| ==> Lines(BoldPass(s))[i] == BoldPass(Lines(s)[i])
    decreases |s|
  {
    var n := LineEnd(s);
    if n == |s| {
      assert '\n' !in s;
      LinesSingle(s);
      BoldPassNoLineFeed(s);
      LinesSingle(BoldPass(s));
    } else {
      var a, b := s[..n], s[n + 1..];
      assert '\n' !in a;
      assert s == a + "\n" + b;
      BoldPassLineFeedSplit(a, b);
      BoldPassLines(b);
      LinesCons(a, b);
      BoldPassNoLineFeed(a);
      LinesCons(BoldPass(a), BoldPass(b));
      ConsPointwise(a, Lines(b), BoldPass(a), Lines(BoldPass(b)));
    }
  }

  /** A line feed splits the bold pass into the line before and the rest. */
  lemma BoldPassLineFeedSplit(a: string, b: string)
    ensures BoldPass(a + "\n" + b) == BoldPass(a) + "\n" + BoldPass(b)
  {
    assert a + "\n" + b == a + ("\n" + b);
    assert LineEnd("\n" + b) == 0;
    BoldPassAppend(a, "\n" + b);
    BoldPassPlainPrefix("\n", b);
  }

  /** Line i of [a] + ls against line i of [ra] + rs, for BoldPassLines. */
  lemma ConsPointwise(a: string, ls: seq<string>, ra: string, rs: seq<string>)
    requires ra == BoldPass(a) && |rs| == |ls|
    requires forall i :: 0 <= i < |ls| ==> rs[i] == BoldPass(ls[i])
    ensures forall i :: 0 <= i < 1 + |ls| ==> ([ra] + rs)[i] == BoldPass(([a] + ls)[i])
  {
    forall i | 0 <= i < 1 + |ls| ensures ([ra] + rs)[i] == BoldPass(([a] + ls)[i]) {
      if i > 0 {
        assert ([ra] + rs)[i] == rs[i - 1] && ([a] + ls)[i] == ls[i - 1];
      }
    }
  }

  /** The bold pass keeps every line feed. */
  lemma BoldPassLineFeeds(s: string)
    ensures multiset(BoldPass(s))['\n'] == multiset(s)['\n']
  {
    BoldPassLines(s);
    LineFeedCount(s);
    LineFeedCount(BoldPass(s));
  }

  // ---------------------------------------------------------------------
  // Both passes
  // ---------------------------------------------------------------------

  /** The conversion of the handler: the heading pass, then the bold pass. */
  function Render(markdown: string): (r: string)
    ensures multiset(r)['\n'] == multiset(markdown)['\n']
  {
    HeadingPassLineFeeds(markdown);
    BoldPassLineFeeds(HeadingPass(markdown));
    BoldPass(HeadingPass(markdown))
  }

  /**
   * What one line becomes: a heading line is wrapped in h1 with its bold
   * text converted inside; any other line only has its bold text converted.
   */
  function RenderLine(line: string): (r: string)
    ensures '\n' !in line ==> '\n' !in r
    ensures !HasDoubleStar(line) ==> r == HeadingLine(line)
  {
    BoldPassFacts(line);
    if IsHeading(line) then
      BoldPassFacts(line[2..]);
      assert HasDoubleStar(line[2..]) ==> HasDoubleStar(line) by {
        if HasDoubleStar(line[2..]) {
          var k :| 0 <= k < |line[2..]| && DoubleStarAt(line[2..], k);
          assert DoubleStarAt(line, k + 2);
        }
      }
      "<h1>" + BoldPass(line[2..]) + "</h1>"
    else
      BoldPass(line)
  }

  /** Bold inside a heading ends up nested inside the h1 element. */
  lemma BoldInsideHeading(line: string)
    ensures BoldPass(HeadingLine(line)) == RenderLine(line)
  {
    if IsHeading(line) {
      var t := line[2..];
      assert HeadingLine(line) == "<h1>" + (t + "</h1>");
      BoldPassPlainPrefix("<h1>", t + "</h1>");
      assert LineEnd("</h1>") == 5;
      BoldPassAppend(t, "</h1>");
      BoldPassPlainPrefix("</h1>", []);
      assert "</h1>" + [] == "</h1>";
    }
  }

  /**
   * The whole conversion, line by line: the line feeds stay where they
   * were and line i of the result is RenderLine of line i of the input.
   */
  lemma RenderLines(s: string)
    ensures |Lines(Render(s))| == |Lines(s)|
    ensures forall i :: 0 <= i < |Lines(s)| ==> Lines(Render(s))[i] == RenderLine(Lines(s)[i])
  {
    HeadingPassLines(s);
    BoldPassLines(HeadingPass(s));
    forall i | 0 <= i < |Lines(s)| ensures Lines(Render(s))[i] == RenderLine(Lines(s)[i]) {
      BoldInsideHeading(Lines(s)[i]);
    }
  }

  /** Text with no line starting with `# ` and no `**` is returned as it is. */
  lemma RenderPlainText(s: string)
    requires NoHeading(Lines(s))
    requires !HasDoubleStar(s)
    ensures Render(s) == s
  {
    HeadingPassNoHeading(s);
    BoldPassNoDoubleStar(s);
  }

  /** Overlapping delimiters: `*****` is one empty match and a leftover `*`. */
  lemma FiveStars()
    ensures BoldPass("*****") == "<strong></strong>*"
  {
    var s := "*****";
    assert FindClose(s, 2) == Some(2);
    assert s[4..] == "*";
    assert BoldPass("*") == "*";
  }

  /** The lazy group takes the shortest text: `**a**b**` closes after `a`. */
  lemma ShortestMatch()
    ensures BoldPass("**a**b**") == "<strong>a</strong>b**"
  {
    var s := "**a**b**";
    assert FindClose(s, 3) == Some(3);
    assert FindClose(s, 2) == Some(3);
    assert s[2..3] == "a";
    assert s[5..] == "b**";
    var t := "b**";
    assert !HasDoubleStar(t[..1]);
    BoldPassNoDoubleStar("b");
    assert BoldPass("**") == [s[0]] + BoldPass("*") by {
      assert FindClose("**", 2) == None;
    }
    BoldPassPlainPrefix("b", "**");
  }

  /** A line feed ends an open bold group: nothing matches across lines. */
  lemma NoMatchAcrossLines()
    ensures BoldPass("**a\nb**") == "**a\nb**"
  {
    var a, c := "**a", "\nb**";
    assert LineEnd(c) == 0;
    BoldPassAppend(a, c);
    assert a + c == "**a\nb**";
    assert FindClose(a, 2) == None;
    assert !HasDoubleStar("*a");
    BoldPassNoDoubleStar("*a");
    assert BoldPass(a) == a;
    assert FindClose("**", 2) == None;
    assert BoldPass("*") == "*";
    assert BoldPass("**") == "**";
    BoldPassPlainPrefix("\nb", "**");
    assert c == "\nb" + "**";
  }
}
