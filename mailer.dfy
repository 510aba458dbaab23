/** The e-mail body: the digest's light Markdown (headings, bullet lists,
    bold lines, italic notes, rules, `**bold**` runs) turned into HTML line
    by line, then embedded in a fixed page. Sending it is not modelled. */
module Mailer {
  import opened Wrappers
  import opened Text

  // ---------------------------------------------------------------------
  // Bold runs (`while "**" in processed`)
  // ---------------------------------------------------------------------

  /** No complete `**…**` pair is left: there is no "**", or none after the
      first one. */
  predicate NoPair(s: string) {
    Find(s, "**", 0) == -1 || Find(s, "**", Find(s, "**", 0) + 2) == -1
  }

  /** One pass: the `**` at `start` and the one at `end` become tags. */
  function Embolden(s: string, start: nat, end: nat): string
    requires start + 2 <= end && end + 2 <= |s|
  {
    s[..start] + "<strong>" + s[start + 2..end] + "</strong>" + s[end + 2..]
  }

  /** A pass removes exactly four stars and adds thirteen characters. */
  lemma EmboldenCounts(s: string, start: nat, end: nat)
    requires start + 2 <= end && end + 2 <= |s|
    requires OccursAt(s, "**", start) && OccursAt(s, "**", end)
    ensures |Embolden(s, start, end)| == |s| + 13
    ensures Count(Embolden(s, start, end), '*') + 4 == Count(s, '*')
  {
    var a, b, c := s[..start], s[start + 2..end], s[end + 2..];
    var m, n := s[start..start + 2], s[end..end + 2];
    assert m == "**" && n == "**";
    assert s == a + m + b + n + c;
    CountConcat5(a, m, b, n, c, '*');
    CountConcat5(a, "<strong>", b, "</strong>", c, '*');
    assert Count("<strong>", '*') == 0 && Count("</strong>", '*') == 0;
  }

  /** The `**` pairs of a paragraph rewritten into `<strong>` tags, left to
      right; a final unmatched `**` stays as it is. */
  function BoldRewrite(s: string): string
    decreases Count(s, '*')
  {
    var start := Find(s, "**", 0);
    if start == -1 then s
    else
      var end := Find(s, "**", start + 2);
      if end == -1 then s
      else
        EmboldenCounts(s, start, end);
        BoldRewrite(Embolden(s, start, end))
  }

  /** The rewrite never shortens the text, adds thirteen characters for
      every four stars it removes, leaves no pair behind, and changes
      nothing in a text without "**". */
  lemma {:induction false} BoldRewriteShape(s: string)
    ensures var r := BoldRewrite(s);
      && |r| >= |s|
      && (|r| - |s|) * 4 == (Count(s, '*') - Count(r, '*')) * 13
      && NoPair(r)
      && (Find(s, "**", 0) == -1 ==> r == s)
    decreases Count(s, '*')
  {
    var start := Find(s, "**", 0);
    if start != -1 {
      var end := Find(s, "**", start + 2);
      if end != -1 {
        EmboldenCounts(s, start, end);
        var t := Embolden(s, start, end);
        BoldRewriteStep(s, start, end);
        BoldRewriteShape(t);
        var r := BoldRewrite(t);
        assert |r| - |s| == |r| - |t| + 13;
        assert Count(s, '*') - Count(r, '*') == Count(t, '*') - Count(r, '*') + 4;
      }
    }
  }

  /** One pass of the loop: the first pair found is rewritten, then the
      rest of the rewrite goes on from the new text. */
  lemma BoldRewriteStep(s: string, start: nat, end: nat)
    requires Find(s, "**", 0) == start && Find(s, "**", start + 2) == end
    requires start + 2 <= end && end + 2 <= |s|
    ensures BoldRewrite(s) == BoldRewrite(Embolden(s, start, end))
  {
  }

  /** A text with no pair left is its own rewrite. */
  lemma BoldRewriteKeeps(s: string)
    requires NoPair(s)
    ensures BoldRewrite(s) == s
  {
  }

  /** Rewriting twice is rewriting once. */
  lemma BoldRewriteIdempotent(s: string)
    ensures BoldRewrite(BoldRewrite(s)) == BoldRewrite(s)
  {
    BoldRewriteShape(s);
    BoldRewriteKeeps(BoldRewrite(s));
  }

  /** No pair starts inside a text without stars. */
  lemma StarlessFront(p: string, c: string)
    requires '*' !in p
    ensures forall i | 0 <= i < |p| :: !OccursAt(p + c, "**", i)
  {
    forall i | 0 <= i < |p| ensures !OccursAt(p + c, "**", i) {
      if i + 2 <= |p + c| {
        assert (p + c)[i..i + 2][0] == p[i];
      }
    }
  }

  /** A pass behind a prefix is a pass on what follows it: the pair at
      `x` and `y` of `c` sits at `start` and `end` of `p + c`. */
  lemma EmboldenShift(p: string, c: string, x: nat, y: nat, start: nat, end: nat)
    requires x + 2 <= y && y + 2 <= |c|
    requires start == |p| + x && end == |p| + y
    ensures Embolden(p + c, start, end) == p + Embolden(c, x, y)
  {
    var s := p + c;
    assert s[..start] == p + c[..x];
    assert s[start + 2..end] == c[x + 2..y];
    assert s[end + 2..] == c[y + 2..];
  }

  /** A pass behind a prefix, seen from the whole text. */
  lemma ShiftedStep(p: string, c: string, x: nat, y: nat)
    requires x + 2 <= y && y + 2 <= |c|
    requires Find(p + c, "**", 0) == |p| + x && Find(p + c, "**", |p| + x + 2) == |p| + y
    ensures BoldRewrite(p + c) == BoldRewrite(p + Embolden(c, x, y))
  {
    var s, start, end := p + c, |p| + x, |p| + y;
    EmboldenShift(p, c, x, y, start, end);
    BoldRewriteStep(s, start, end);
  }

  /** A prefix that cannot take part in a pair: it holds no "**" and does
      not end with a star, so no "**" starts inside it whatever follows. */
  predicate PairFree(p: string) {
    Find(p, "**", 0) == -1 && (|p| > 0 ==> p[|p| - 1] != '*')
  }

  /** "**" occurs at `i` exactly when the characters at `i` and `i + 1` are stars. */
  lemma StarsAt(t: string, i: int)
    requires 0 <= i
    ensures OccursAt(t, "**", i) <==> i + 2 <= |t| && t[i] == '*' && t[i + 1] == '*'
  {
    if i + 2 <= |t| {
      assert t[i..i + 2][0] == t[i] && t[i..i + 2][1] == t[i + 1];
      if t[i] == '*' && t[i + 1] == '*' {
        assert t[i..i + 2] == "**";
      }
    }
  }

  /** No pair starts inside a pair-free prefix. */
  lemma PairFreeFront(p: string, c: string)
    requires PairFree(p)
    ensures forall i | 0 <= i < |p| :: !OccursAt(p + c, "**", i)
  {
    forall i | 0 <= i < |p| ensures !OccursAt(p + c, "**", i) {
      StarsAt(p + c, i);
      if i + 1 < |p| {
        StarsAt(p, i);
        assert (p + c)[i] == p[i] && (p + c)[i + 1] == p[i + 1];
      } else {
        assert (p + c)[i] == p[|p| - 1];
      }
    }
  }

  /** A pair-free prefix is kept as it is, and the rest of the text is
      rewritten on its own. */
  lemma {:induction false} PairFreeShift(p: string, c: string)
    requires PairFree(p)
    ensures BoldRewrite(p + c) == p + BoldRewrite(c)
    decreases Count(c, '*')
  {
    var s := p + c;
    PairFreeFront(p, c);
    FindSkip(s, "**", 0, |p|);
    FindShift(p, c, "**", 0);
    var x := Find(c, "**", 0);
    if x == -1 {
      BoldRewriteKeeps(s);
      BoldRewriteKeeps(c);
    } else {
      FindShift(p, c, "**", x + 2);
      var y := Find(c, "**", x + 2);
      if y == -1 {
        BoldRewriteKeeps(s);
        BoldRewriteKeeps(c);
      } else {
        EmboldenCounts(c, x, y);
        ShiftedStep(p, c, x, y);
        PairFreeShift(p, Embolden(c, x, y));
        BoldRewriteStep(c, x, y);
      }
    }
  }

  /** A text without stars is pair-free. */
  lemma StarlessPairFree(t: string)
    requires '*' !in t
    ensures PairFree(t)
  {
    forall i | 0 <= i ensures !OccursAt(t, "**", i) {
      StarsAt(t, i);
    }
    FindIs(t, "**", 0, -1);
  }

  /** Text without a star in front of a string does not change how that
      string's pairs are rewritten. */
  lemma BoldShift(p: string, c: string)
    requires '*' !in p
    ensures BoldRewrite(p + c) == p + BoldRewrite(c)
  {
    StarlessPairFree(p);
    PairFreeShift(p, c);
  }

  /** Text with no "**" followed by a pair-free text is pair-free, unless a
      star ends the first and opens the second. */
  lemma PairFreeJoin(x: string, y: string)
    requires Find(x, "**", 0) == -1 && |y| > 0 && PairFree(y)
    requires |x| > 0 && x[|x| - 1] == '*' ==> y[0] != '*'
    ensures PairFree(x + y)
  {
    var t := x + y;
    forall i | 0 <= i ensures !OccursAt(t, "**", i) {
      StarsAt(t, i);
      if i + 1 < |x| {
        StarsAt(x, i);
        assert t[i] == x[i] && t[i + 1] == x[i + 1];
      } else if i + 1 == |x| {
        assert t[i] == x[|x| - 1];
        if i + 2 <= |t| {
          assert t[i + 1] == y[0];
        }
      } else if i + 2 <= |t| {
        StarsAt(y, i - |x|);
        assert t[i] == y[i - |x|] && t[i + 1] == y[i + 1 - |x|];
      }
    }
    FindIs(t, "**", 0, -1);
    assert t[|t| - 1] == y[|y| - 1];
  }

  /** Before the first "**" there is none. */
  lemma BeforeFirstPair(s: string, start: nat)
    requires Find(s, "**", 0) == start
    ensures Find(s[..start], "**", 0) == -1
  {
    var a := s[..start];
    forall i | 0 <= i ensures !OccursAt(a, "**", i) {
      StarsAt(a, i);
      if i + 2 <= |a| {
        StarsAt(s, i);
        assert a[i] == s[i] && a[i + 1] == s[i + 1];
      }
    }
    FindIs(a, "**", 0, -1);
  }

  /** Between the two markers of a pair there is no "**". */
  lemma InsidePair(s: string, start: nat, end: nat)
    requires Find(s, "**", start + 2) == end && start + 2 <= end <= |s|
    ensures Find(s[start + 2..end], "**", 0) == -1
  {
    var b := s[start + 2..end];
    forall j | 0 <= j ensures !OccursAt(b, "**", j) {
      StarsAt(b, j);
      if j + 2 <= |b| {
        var k := start + 2 + j;
        StarsAt(s, k);
        assert b[j] == s[k] && b[j + 1] == s[k + 1];
      }
    }
    FindIs(b, "**", 0, -1);
  }

  /** The tags hold no star, so they are pair-free, and neither opens with one. */
  lemma TagsPairFree()
    ensures PairFree("<strong>") && PairFree("</strong>")
    ensures "<strong>"[0] == '<' && "</strong>"[0] == '<'
  {
    assert '*' !in "<strong>" && '*' !in "</strong>";
    StarlessPairFree("<strong>");
    StarlessPairFree("</strong>");
  }

  /** Text before a pair, an opening tag, the inner text and a closing tag
      make a pair-free whole when both tags are pair-free and open with no
      star. */
  lemma WrappedPairFree(a: string, open: string, b: string, close: string)
    requires Find(a, "**", 0) == -1 && Find(b, "**", 0) == -1
    requires PairFree(open) && PairFree(close) && |open| > 0 && |close| > 0
    requires open[0] != '*' && close[0] != '*'
    ensures PairFree(a + (open + (b + close)))
  {
    PairFreeJoin(b, close);
    PairFreeJoin(open, b + close);
    assert (open + (b + close))[0] == open[0];
    PairFreeJoin(a, open + (b + close));
  }

  /** The front of a rewritten pair, grouped from the right, is pair-free. */
  lemma NestedPairFree(a: string, b: string)
    requires Find(a, "**", 0) == -1 && Find(b, "**", 0) == -1
    ensures PairFree(a + ("<strong>" + (b + "</strong>")))
  {
    TagsPairFree();
    WrappedPairFree(a, "<strong>", b, "</strong>");
  }

  /** The front of a rewritten pair is pair-free. */
  lemma TaggedPairFree(a: string, b: string)
    requires Find(a, "**", 0) == -1 && Find(b, "**", 0) == -1
    ensures PairFree(a + "<strong>" + b + "</strong>")
  {
    NestedPairFree(a, b);
    Nest(a, "<strong>", b, "</strong>");
  }

  /** The rewrite at the level of `find`: the first "**" and the next one
      after it become `<strong>` and `</strong>` around the text between
      them, the text before them is kept, and the rewrite goes on with what
      follows, whatever single stars lie around. */
  lemma BoldFirstPair(s: string, start: nat, end: nat)
    requires Find(s, "**", 0) == start && Find(s, "**", start + 2) == end
    requires start + 2 <= end && end + 2 <= |s|
    ensures BoldRewrite(s)
      == s[..start] + "<strong>" + s[start + 2..end] + "</strong>" + BoldRewrite(s[end + 2..])
  {
    var front := s[..start] + "<strong>" + s[start + 2..end] + "</strong>";
    var rest := s[end + 2..];
    BoldRewriteStep(s, start, end);
    assert Embolden(s, start, end) == front + rest;
    BeforeFirstPair(s, start);
    InsidePair(s, start, end);
    TaggedPairFree(s[..start], s[start + 2..end]);
    PairFreeShift(front, rest);
  }

  /** Where the first pass finds the pair of a text that opens with one,
      and what the pass makes of it. */
  lemma FrontPairAt(b: string, c: string, end: nat)
    requires '*' !in b && end == |b| + 2
    ensures var s := "**" + b + "**" + c;
      && Find(s, "**", 0) == 0 && Find(s, "**", 2) == end && end + 2 <= |s|
      && Embolden(s, 0, end) == "<strong>" + b + "</strong>" + c
  {
    FrontPairFinds(b, c, end);
    FrontPairTags(b, c, end);
  }

  /** The markers of a front pair are the first two found. */
  lemma FrontPairFinds(b: string, c: string, end: nat)
    requires '*' !in b && end == |b| + 2
    ensures var s := "**" + b + "**" + c;
      Find(s, "**", 0) == 0 && Find(s, "**", 2) == end
  {
    var s := "**" + b + "**" + c;
    var rest := "**" + c;
    var tail := b + rest;
    assert s == "**" + tail;
    assert OccursAt(s, "**", 0);
    FindIs(s, "**", 0, 0);
    StarlessFront(b, rest);
    FindSkip(tail, "**", 0, |b|);
    OccursShift(b, rest, "**", 0);
    assert OccursAt(rest, "**", 0);
    FindIs(tail, "**", |b|, |b|);
    FindShift("**", tail, "**", 0);
  }

  /** The pass on a front pair puts the tags around its inner text. */
  lemma FrontPairTags(b: string, c: string, end: nat)
    requires end == |b| + 2
    ensures var s := "**" + b + "**" + c;
      end + 2 <= |s| && Embolden(s, 0, end) == "<strong>" + b + "</strong>" + c
  {
    var s := "**" + b + "**" + c;
    assert s[..0] == "" && s[2..end] == b && s[end + 2..] == c;
  }

  /** The tags hold no star. */
  lemma TagsStarless(b: string)
    requires '*' !in b
    ensures '*' !in "<strong>" + b + "</strong>"
  {
    assert "<strong>" + b + "</strong>" == "<strong>" + (b + "</strong>");
  }

  /** A text that opens with a pair: the pair becomes `<strong>` and
      `</strong>` around the text between its markers. */
  lemma BoldFront(b: string, c: string)
    requires '*' !in b
    ensures BoldRewrite("**" + b + "**" + c) == "<strong>" + b + "</strong>" + BoldRewrite(c)
  {
    var s, start, end := "**" + b + "**" + c, 0, |b| + 2;
    FrontPairAt(b, c, end);
    BoldRewriteStep(s, start, end);
    TagsStarless(b);
    BoldShift("<strong>" + b + "</strong>", c);
  }

  /** A pair is rewritten from left to right: the first `**` with no star
      before it and the next `**` become `<strong>` and `</strong>` around
      the text between them, and the rest is rewritten on its own. */
  lemma BoldPair(a: string, b: string, c: string)
    requires '*' !in a && '*' !in b
    ensures BoldRewrite(a + "**" + b + "**" + c) == a + "<strong>" + b + "</strong>" + BoldRewrite(c)
  {
    Regroup(a, "**", b, "**", c);
    Regroup(a, "<strong>", b, "</strong>", BoldRewrite(c));
    BoldShift(a, "**" + b + "**" + c);
    BoldFront(b, c);
  }

  /** The rewrite loop: find the first `**` and the next one after it, stop
      when there is none, otherwise replace the pair and start again. */
  method RewriteBold(text: string) returns (processed: string)
    ensures processed == BoldRewrite(text)
  {
    processed := text;
    while Contains(processed, "**")
      invariant BoldRewrite(processed) == BoldRewrite(text)
      decreases Count(processed, '*')
    {
      FindContains(processed, "**");
      var start := Find(processed, "**", 0);
      var end := Find(processed, "**", start + 2);
      if end == -1 {
        break;
      }
      EmboldenCounts(processed, start, end);
      processed := Embolden(processed, start, end);
    }
    FindContains(processed, "**");
  }

  // ---------------------------------------------------------------------
  // Line kinds
  // ---------------------------------------------------------------------

  /** What a Markdown line is, with the text it carries. */
  datatype LineKind =
    | Heading2(content: string)   // "## …"
    | Heading1(content: string)   // "# …"
    | Item(content: string)       // "- …" or "* …"
    | Strong(content: string)     // "**…**", longer than four characters
    | Note(content: string)       // "*…*" once stripped, longer than two
    | Rule                        // "---" once stripped
    | Blank                       // nothing but spaces
    | Paragraph(text: string)     // anything else, stripped

  /** The kind of a line, the tests taken in the order of the source. */
  function Classify(line: string): LineKind {
    var t := Strip(line);
    if StartsWith(line, "## ") then Heading2(Strip(line[3..]))
    else if StartsWith(line, "# ") then Heading1(Strip(line[2..]))
    else if StartsWith(line, "- ") || StartsWith(line, "* ") then Item(Strip(line[2..]))
    else if StartsWith(line, "**") && EndsWith(line, "**") && |line| > 4 then Strong(line[2..|line| - 2])
    else if StartsWith(t, "*") && EndsWith(t, "*") && |t| > 2 then Note(t[1..|t| - 1])
    else if t == "---" then Rule
    else if t == "" then Blank
    else Paragraph(t)
  }

  /** The order of the tests: "## " wins over "# ", which wins over an item
      marker; a paragraph is what is left, stripped and never empty. */
  lemma ClassifyOrder(line: string)
    ensures StartsWith(line, "## ") ==> Classify(line) == Heading2(Strip(line[3..]))
    ensures Classify(line).Heading1? ==> StartsWith(line, "# ") && !StartsWith(line, "## ")
    ensures (!StartsWith(line, "## ") && !StartsWith(line, "# ")
             && (StartsWith(line, "- ") || StartsWith(line, "* ")))
            ==> Classify(line) == Item(Strip(line[2..]))
    ensures Classify(line).Paragraph? ==> Classify(line).text == Strip(line) && Classify(line).text != ""
  {
  }

  /** A line is blank exactly when it is nothing but spaces. */
  lemma ClassifyBlank(line: string)
    ensures Classify(line) == Blank <==> Strip(line) == ""
  {
    if Strip(line) == "" && line != [] {
      assert IsSpace(line[0]);
    }
  }

  /** A line is a rule exactly when it reads "---" once stripped. */
  lemma ClassifyRule(line: string)
    ensures Classify(line) == Rule <==> Strip(line) == "---"
  {
    var t := Strip(line);
    if t == "---" {
      var k := LeadingSpaces(line);
      assert line[k] == '-' && line[k + 1] == '-';
      assert line[0] == '-' || IsSpace(line[0]);
      assert line[0] == '-' ==> line[1] == '-';
      NoMarkup(line);
      assert !(StartsWith(t, "*") && EndsWith(t, "*")) by { assert t[0] == '-'; }
    }
  }

  /** A line that opens with a space, or with two dashes, is no heading,
      item or bold line. */
  lemma NoMarkup(line: string)
    requires |line| >= 2 && (IsSpace(line[0]) || (line[0] == '-' && line[1] == '-'))
    ensures !StartsWith(line, "## ") && !StartsWith(line, "# ")
    ensures !StartsWith(line, "- ") && !StartsWith(line, "* ") && !StartsWith(line, "**")
  {
    assert line[..2][0] == line[0] && line[..2][1] == line[1];
    if |line| >= 3 {
      assert line[..3][0] == line[0];
    }
  }

  // ---------------------------------------------------------------------
  // The line-by-line state machine (`markdown_to_html`)
  // ---------------------------------------------------------------------

  // Each opening tag keeps its name as a separate literal so that the
  // verifier reads its first characters directly.
  const H2Open := "<h2 " + "style=\"color:#1a3a5c;border-bottom:2px solid #c8102e;padding-bottom:6px;margin-top:30px;\">"
  const H1Open := "<h1 " + "style=\"color:#1a3a5c;\">"
  const NoteOpen := "<p " + "style=\"color:#888;font-style:italic;font-size:13px;\">"
  const ListOpen := "<ul>"
  const ListClose := "</ul>"

  /** The HTML lines a step appends, and whether a list is open after it. */
  datatype Emitted = Emitted(lines: seq<string>, inList: bool)

  /** "</ul>" when a list is open, nothing otherwise. */
  function Close(inList: bool): seq<string> {
    if inList then [ListClose] else []
  }

  /** One line of Markdown, rendered with the list state before it. Every
      kind but a level-one heading and an item closes an open list; an item
      opens one when none is open. */
  function Step(k: LineKind, inList: bool): Emitted {
    match k
    case Heading2(c) => Emitted(Close(inList) + [H2Open + c + "</h2>"], false)
    case Heading1(c) => Emitted([H1Open + c + "</h1>"], inList)
    case Item(c) => Emitted((if inList then [] else [ListOpen]) + ["<li>" + c + "</li>"], true)
    case Strong(c) => Emitted(Close(inList) + ["<p><strong>" + c + "</strong></p>"], false)
    case Note(c) => Emitted(Close(inList) + [NoteOpen + c + "</p>"], false)
    case Rule => Emitted(Close(inList) + ["<hr>"], false)
    case Blank => Emitted(Close(inList) + [""], false)
    case Paragraph(t) =>
      var processed := BoldRewrite(t);
      if processed != "" then Emitted(Close(inList) + ["<p>" + processed + "</p>"], false)
      else Emitted([], inList)
  }

  /** An item leaves a list open, a level-one heading leaves the list state
      as it was, and every other kind closes an open list. */
  lemma StepListState(k: LineKind, inList: bool)
    ensures k.Item? ==> Step(k, inList).inList
    ensures k.Heading1? ==> Step(k, inList).inList == inList
    ensures !k.Item? && !k.Heading1? && k != Paragraph("") ==> !Step(k, inList).inList
  {
    if k.Paragraph? && k.text != "" {
      BoldRewriteShape(k.text);
    }
  }

  /** The lines emitted for `lines`, in order, and the list state after them. */
  function Run(lines: seq<string>): Emitted {
    if lines == [] then Emitted([], false)
    else
      var before := Run(lines[..|lines| - 1]);
      var e := Step(Classify(lines[|lines| - 1]), before.inList);
      Emitted(before.lines + e.lines, e.inList)
  }

  /** The lines of the HTML body: those of every line, then a final "</ul>"
      when a list is still open. */
  function HtmlLines(lines: seq<string>): seq<string> {
    Run(lines).lines + Close(Run(lines).inList)
  }

  /** `markdown_to_html`. */
  function MarkdownHtml(text: string): string {
    Join("\n", HtmlLines(Split(text, '\n')))
  }

  /** A paragraph line always yields a `<p>`: the source's `if processed`
      never fails, because a blank line was caught before. */
  lemma ParagraphNeverEmpty(line: string, inList: bool)
    requires Classify(line).Paragraph?
    ensures Step(Classify(line), inList) == Emitted(Close(inList) + ["<p>" + BoldRewrite(Strip(line)) + "</p>"], false)
  {
    ClassifyOrder(line);
    BoldRewriteShape(Strip(line));
  }

  /** Appending one line's rendering: the tail of the lines gives what
      they gave, and the last line adds its step. */
  lemma RunPrefix(lines: seq<string>, i: nat)
    requires i < |lines|
    ensures Run(lines[..i + 1])
         == Emitted(Run(lines[..i]).lines + Step(Classify(lines[i]), Run(lines[..i]).inList).lines,
                    Step(Classify(lines[i]), Run(lines[..i]).inList).inList)
  {
    assert lines[..i + 1][..i] == lines[..i];
  }

  /** The body of the loop of `markdown_to_html` for one line: close an open
      list where the kind asks for it, then append the line's HTML. */
  method EmitLine(kind: LineKind, inList: bool) returns (lines: seq<string>, stillInList: bool)
    ensures Emitted(lines, stillInList) == Step(kind, inList)
  {
    lines, stillInList := [], inList;
    match kind {
      case Heading2(c) =>
        if stillInList {
          lines, stillInList := [ListClose], false;
        }
        assert lines == Close(inList);
        lines := lines + [H2Open + c + "</h2>"];
      case Heading1(c) =>
        lines := [H1Open + c + "</h1>"];
      case Item(c) =>
        if !stillInList {
          lines, stillInList := [ListOpen], true;
        }
        assert lines == if inList then [] else [ListOpen];
        lines := lines + ["<li>" + c + "</li>"];
      case Strong(c) =>
        if stillInList {
          lines, stillInList := [ListClose], false;
        }
        assert lines == Close(inList);
        lines := lines + ["<p><strong>" + c + "</strong></p>"];
      case Note(c) =>
        if stillInList {
          lines, stillInList := [ListClose], false;
        }
        assert lines == Close(inList);
        lines := lines + [NoteOpen + c + "</p>"];
      case Rule =>
        if stillInList {
          lines, stillInList := [ListClose], false;
        }
        assert lines == Close(inList);
        lines := lines + ["<hr>"];
      case Blank =>
        if stillInList {
          lines, stillInList := [ListClose], false;
        }
        assert lines == Close(inList);
        lines := lines + [""];
      case Paragraph(t) =>
        var processed := RewriteBold(t);
        if processed != "" {
          if stillInList {
            lines, stillInList := [ListClose], false;
          }
          assert lines == Close(inList);
          lines := lines + ["<p>" + processed + "</p>"];
        }
    }
  }

  /** The loop of `markdown_to_html`: each line is classified and appended,
      opening and closing the list as it goes; a list still open at the end
      is closed. */
  method MarkdownToHtml(texte: string) returns (html: string)
    ensures html == MarkdownHtml(texte)
  {
    var lignes := Split(texte, '\n');
    var out: seq<string> := [];
    var inList := false;
    for i := 0 to |lignes|
      invariant Run(lignes[..i]) == Emitted(out, inList)
    {
      RunPrefix(lignes, i);
      var added, after := EmitLine(Classify(lignes[i]), inList);
      out, inList := out + added, after;
    }
    assert lignes[..|lignes|] == lignes;
    assert Run(lignes) == Emitted(out, inList);
    if inList {
      out := out + [ListClose];
    }
    assert out == HtmlLines(lignes);
    html := Join("\n", out);
  }

  // ---------------------------------------------------------------------
  // Lists never nest
  // ---------------------------------------------------------------------

  /** Reading HTML lines with a list open or not: "<ul>" only when none is
      open, "</ul>" and "<li>…" lines only inside one. The list state at the
      end, or `None` at the first line out of place. */
  function Walk(out: seq<string>, open: bool): Option<bool> {
    if out == [] then Some(open)
    else if out[0] == ListOpen then (if open then None else Walk(out[1..], true))
    else if out[0] == ListClose then (if open then Walk(out[1..], false) else None)
    else if StartsWith(out[0], "<li>") && !open then None
    else Walk(out[1..], open)
  }

  lemma {:induction false} WalkConcat(a: seq<string>, b: seq<string>, open: bool)
    requires Walk(a, open).Some?
    ensures Walk(a + b, open) == Walk(b, Walk(a, open).value)
  {
    if a != [] {
      assert (a + b)[0] == a[0];
      assert (a + b)[1..] == a[1..] + b;
      var next := if a[0] == ListOpen then true else if a[0] == ListClose then false else open;
      assert Walk(a, open) == Walk(a[1..], next);
      assert Walk(a + b, open) == Walk(a[1..] + b, next);
      WalkConcat(a[1..], b, next);
    } else {
      assert a + b == b;
    }
  }

  /** A line longer than `</ul>` whose second character is not 'l' is no
      list tag. */
  lemma NotListTag(l: string)
    requires |l| > 5 && l[1] != 'l'
    ensures l != ListOpen && l != ListClose && !StartsWith(l, "<li>")
  {
    assert "<li>"[1] == 'l';
  }

  /** A line that is neither a list marker nor an item leaves the state as
      it is. */
  lemma PlainLineWalk(l: string, open: bool)
    requires l != ListOpen && l != ListClose && !StartsWith(l, "<li>")
    ensures Walk([l], open) == Some(open)
  {
  }

  /** Closing an open list and then a plain line. */
  lemma ClosedLineWalk(l: string, inList: bool)
    requires l != ListOpen && l != ListClose && !StartsWith(l, "<li>")
    ensures Walk(Close(inList) + [l], inList) == Some(false)
  {
    PlainLineWalk(l, false);
    WalkConcat(Close(inList), [l], inList);
  }

  lemma HeadingWalk(c: string, inList: bool)
    ensures Walk(Step(Heading2(c), inList).lines, inList) == Some(false)
    ensures Walk(Step(Heading1(c), inList).lines, inList) == Some(inList)
  {
    assert (H2Open + c + "</h2>")[1] == 'h';
    NotListTag(H2Open + c + "</h2>");
    ClosedLineWalk(H2Open + c + "</h2>", inList);
    assert (H1Open + c + "</h1>")[1] == 'h';
    NotListTag(H1Open + c + "</h1>");
    PlainLineWalk(H1Open + c + "</h1>", inList);
  }

  lemma ItemWalk(c: string, inList: bool)
    ensures Walk(Step(Item(c), inList).lines, inList) == Some(true)
  {
    var l := "<li>" + c + "</li>";
    assert l[..4] == "<li>";
    assert l != ListOpen && l != ListClose;
    WalkConcat(if inList then [] else [ListOpen], [l], inList);
  }

  lemma EmphasisWalk(c: string, inList: bool)
    ensures Walk(Step(Strong(c), inList).lines, inList) == Some(false)
    ensures Walk(Step(Note(c), inList).lines, inList) == Some(false)
  {
    assert ("<p><strong>" + c + "</strong></p>")[1] == 'p';
    NotListTag("<p><strong>" + c + "</strong></p>");
    ClosedLineWalk("<p><strong>" + c + "</strong></p>", inList);
    assert (NoteOpen + c + "</p>")[1] == 'p';
    NotListTag(NoteOpen + c + "</p>");
    ClosedLineWalk(NoteOpen + c + "</p>", inList);
  }

  lemma SeparatorWalk(inList: bool)
    ensures Walk(Step(Rule, inList).lines, inList) == Some(false)
    ensures Walk(Step(Blank, inList).lines, inList) == Some(false)
  {
    assert "<hr>"[1] == 'h';
    assert !StartsWith("", "<li>");
    WalkConcat(Close(inList), ["<hr>"], inList);
    WalkConcat(Close(inList), [""], inList);
  }

  lemma ParagraphWalk(t: string, inList: bool)
    ensures Walk(Step(Paragraph(t), inList).lines, inList) == Some(Step(Paragraph(t), inList).inList)
  {
    var processed := BoldRewrite(t);
    if processed != "" {
      assert ("<p>" + processed + "</p>")[1] == 'p';
      NotListTag("<p>" + processed + "</p>");
      ClosedLineWalk("<p>" + processed + "</p>", inList);
    }
  }

  /** Every step leaves the HTML well nested, with the list state it reports. */
  lemma StepWalk(k: LineKind, inList: bool)
    ensures Walk(Step(k, inList).lines, inList) == Some(Step(k, inList).inList)
  {
    match k
    case Heading2(c) => HeadingWalk(c, inList);
    case Heading1(c) => HeadingWalk(c, inList);
    case Item(c) => ItemWalk(c, inList);
    case Strong(c) => EmphasisWalk(c, inList);
    case Note(c) => EmphasisWalk(c, inList);
    case Rule => SeparatorWalk(inList);
    case Blank => SeparatorWalk(inList);
    case Paragraph(t) => ParagraphWalk(t, inList);
  }

  /** Rendering any lines leaves the HTML well nested, ending in the state
      `Run` reports. */
  lemma {:induction false} RunWalk(lines: seq<string>)
    ensures Walk(Run(lines).lines, false) == Some(Run(lines).inList)
  {
    if lines != [] {
      var init := lines[..|lines| - 1];
      RunWalk(init);
      var before := Run(init);
      StepWalk(Classify(lines[|lines| - 1]), before.inList);
      WalkConcat(before.lines, Step(Classify(lines[|lines| - 1]), before.inList).lines, false);
    }
  }

  /** The number of lines equal to `line`. */
  function Occurrences(out: seq<string>, line: string): nat {
    if out == [] then 0 else (if out[0] == line then 1 else 0) + Occurrences(out[1..], line)
  }

  /** Along a well-nested walk, opened minus closed lists is the change of
      state. */
  lemma {:induction false} WalkBalance(out: seq<string>, open: bool)
    requires Walk(out, open).Some?
    ensures Occurrences(out, ListOpen) + (if open then 1 else 0)
         == Occurrences(out, ListClose) + (if Walk(out, open).value then 1 else 0)
  {
    if out != [] {
      var next := if out[0] == ListOpen then true else if out[0] == ListClose then false else open;
      WalkBalance(out[1..], next);
    }
  }

  /** The body's lists never nest, no item stands outside a list, every
      list is closed, and there are as many "<ul>" lines as "</ul>" lines. */
  lemma HtmlListsBalanced(text: string)
    ensures var out := HtmlLines(Split(text, '\n'));
      && Walk(out, false) == Some(false)
      && Occurrences(out, ListOpen) == Occurrences(out, ListClose)
  {
    var lines := Split(text, '\n');
    RunWalk(lines);
    var run := Run(lines);
    WalkConcat(run.lines, Close(run.inList), false);
    WalkBalance(HtmlLines(lines), false);
  }

  // ---------------------------------------------------------------------
  // The page (`construire_html`)
  // ---------------------------------------------------------------------

  /** The page title, which carries the date. */
  function Title(date: string): string {
    "<title>Digest politique ontarien — " + date + "</title>"
  }

  const HeadTop: string :=
    "<!DOCTYPE html>\n<html lang=\"fr\">\n<head>\n  <meta charset=\"UTF-8\">\n"
    + "  <meta name=\"viewport\" content=\"width=device-width, initial-scale=1.0\">\n  "

  /** Everything between the title and the date in the banner. */
  const HeadBanner: string :=
    "\n</head>\n<body style=\"font-family: Georgia, 'Times New Roman', serif; max-width: 680px; margin: 0 auto;\n"
    + "             padding: 24px; color: #2c2c2c; background: #ffffff; line-height: 1.7;\">\n\n"
    + "  <div style=\"background: #1a3a5c; color: white; padding: 20px 24px; border-radius: 6px 6px 0 0;\">\n"
    + "    <h1 style=\"margin: 0; font-size: 22px;\">🏛️ Digest politique ontarien</h1>\n"
    + "    <p style=\"margin: 6px 0 0 0; opacity: 0.85; font-size: 14px;\">"

  /** Everything between the date in the banner and the body. */
  const HeadBodyOpen: string :=
    "</p>\n"
    + "  </div>\n\n"
    + "  <div style=\"border: 1px solid #ddd; border-top: none; padding: 24px; border-radius: 0 0 6px 6px;\">\n    "

  /** The banner closing the head, with the date under the heading. */
  function Banner(date: string): string {
    HeadBanner + date + HeadBodyOpen
  }

  /** Everything before the body. */
  function PageHead(date: string): string {
    HeadTop + Title(date) + Banner(date)
  }

  /** Everything after the body. */
  const PageFoot: string :=
    "\n  </div>\n\n"
    + "  <div style=\"margin-top: 24px; font-size: 12px; color: #999; border-top: 1px solid #eee; padding-top: 12px;\">\n"
    + "    <p>\n"
    + "      Ce digest a été généré automatiquement à partir de sources officielles :<br>\n"
    + "      Hansard OLA · news.ontario.ca · Gazette de l'Ontario ·\n"
    + "      Registre des lobbyistes · Registre de la réglementation · Décrets du Conseil\n"
    + "    </p>\n"
    + "    <p>Pipeline propulsé par l'API Claude (Anthropic) · <a href=\"https://www.anthropic.com\" style=\"color:#1a3a5c;\">anthropic.com</a></p>\n"
    + "  </div>\n</body>\n</html>"

  /** The page around a rendered body. */
  function HtmlPage(corps: string, date: string): string {
    PageHead(date) + corps + PageFoot
  }

  /** `construire_html`: the digest rendered, then embedded in the page. */
  function BuildHtml(digest: string, date: string): string {
    HtmlPage(MarkdownHtml(digest), date)
  }

  /** The page holds the rendered body unchanged, between the fixed head and
      the fixed foot. */
  lemma BuildHtmlEmbeds(digest: string, date: string)
    ensures var page := BuildHtml(digest, date);
      && StartsWith(page, PageHead(date))
      && OccursAt(page, MarkdownHtml(digest), |PageHead(date)|)
      && EndsWith(page, PageFoot)
  {
    Embedded(PageHead(date), MarkdownHtml(digest), PageFoot);
  }

  /** The title and the banner both carry the date. */
  lemma PageHeadDated(date: string)
    ensures Contains(PageHead(date), Title(date))
    ensures Contains(PageHead(date), Banner(date)) && Contains(Banner(date), date)
  {
    ContainsMiddle(HeadTop, Title(date), Banner(date));
    ContainsEnd(HeadTop + Title(date), Banner(date));
    ContainsMiddle(HeadBanner, date, HeadBodyOpen);
  }

  /** Two bodies give the same page for a date only if they are the same:
      nothing of the body is lost in the page. */
  lemma HtmlPageInjective(c1: string, c2: string, date: string)
    requires HtmlPage(c1, date) == HtmlPage(c2, date)
    ensures c1 == c2
  {
    ConcatCancel(PageHead(date), c1, c2, PageFoot);
  }
}
