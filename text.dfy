/** String handling of the scraper: Python's whitespace strip, the
    newline-to-paragraph rewrite of a chapter body, and the names given to
    the e-book file and to each chapter document. */
module Text {

  /** The characters for which Python's `str.isspace()` holds; `str.strip()`
      with no argument removes exactly these from both ends. */
  predicate IsSpace(c: char)
  {
    c == '\t' || c == '\n' || c == '\U{000B}' || c == '\U{000C}' || c == '\r' ||
    ('\U{001C}' <= c <= '\U{001F}') || c == ' ' || c == '\U{0085}' || c == '\U{00A0}' ||
    c == '\U{1680}' || ('\U{2000}' <= c <= '\U{200A}') || c == '\U{2028}' || c == '\U{2029}' ||
    c == '\U{202F}' || c == '\U{205F}' || c == '\U{3000}'
  }

  predicate AllSpace(s: string)
  {
    forall i :: 0 <= i < |s| ==> IsSpace(s[i])
  }

  /** `s.lstrip()`. */
  function TrimLeft(s: string): (r: string)
  {
    if s != [] && IsSpace(s[0]) then TrimLeft(s[1..]) else s
  }

  /** `s.rstrip()`. */
  function TrimRight(s: string): (r: string)
  {
    if s != [] && IsSpace(s[|s| - 1]) then TrimRight(s[..|s| - 1]) else s
  }

  /** `lstrip` keeps the longest suffix that does not start with whitespace. */
  lemma {:induction false} TrimLeftSpec(s: string)
    ensures var r := TrimLeft(s);
      |r| <= |s| && r == s[|s| - |r|..] && AllSpace(s[..|s| - |r|]) &&
      (r != [] ==> !IsSpace(r[0]))
  {
    if s != [] && IsSpace(s[0]) {
      TrimLeftSpec(s[1..]);
      var r := TrimLeft(s);
      assert s[1..][..|s| - 1 - |r|] == s[1..|s| - |r|];
      assert forall i :: 1 <= i < |s| - |r| ==> s[i] == s[1..|s| - |r|][i - 1];
    }
  }

  /** `rstrip` keeps the longest prefix that does not end with whitespace. */
  lemma {:induction false} TrimRightSpec(s: string)
    ensures var r := TrimRight(s);
      |r| <= |s| && r == s[..|r|] && AllSpace(s[|r|..]) &&
      (r != [] ==> !IsSpace(r[|r| - 1]))
  {
    if s != [] && IsSpace(s[|s| - 1]) {
      TrimRightSpec(s[..|s| - 1]);
      var r := TrimRight(s);
      assert s[..|s| - 1][|r|..] == s[|r|..|s| - 1];
      assert forall i :: |r| <= i < |s| - 1 ==> s[i] == s[|r|..|s| - 1][i - |r|];
    }
  }

  /** `s.strip()`. */
  function Strip(s: string): (r: string)
  {
    TrimRight(TrimLeft(s))
  }

  /** Blank text strips to "", anything else to a piece of itself that
      keeps its first and last non-whitespace characters. */
  lemma StripSpec(s: string)
    ensures Strip(s) == [] <==> AllSpace(s)
    ensures Strip(s) != [] ==> !IsSpace(Strip(s)[0]) && !IsSpace(Strip(s)[|Strip(s)| - 1])
    ensures Occurs(s, Strip(s))
  {
    var l := TrimLeft(s);
    var r := TrimRight(l);
    TrimLeftSpec(s);
    TrimRightSpec(l);
    PieceOfSuffix(s, l, r);
    if r == [] && l == [] {
      assert s[..|s|] == s;
    } else if r != [] {
      assert s[|s| - |l|] == r[0];
    }
  }

  lemma PieceOfSuffix(s: string, l: string, r: string)
    requires |l| <= |s| && l == s[|s| - |l|..]
    requires |r| <= |l| && r == l[..|r|]
    ensures OccursAt(s, r, |s| - |l|)
  {
  }

  /** The indentation-carrying line break that the body rewrite replaces
      first: a newline, a CR LF pair and two EM SPACE characters. */
  const IndentedBreak: string := "\n\r\n\U{2003}\U{2003}"

  /** What both rewrites put in place of a line break: it closes the current
      paragraph and opens the next one. */
  const ParagraphBreak: string := "</p><p>"

  predicate IsBreak(c: char) { c == '\n' }

  predicate NoBreaks(s: string)
  {
    forall i :: 0 <= i < |s| ==> !IsBreak(s[i])
  }

  predicate OccursAt(s: string, pat: string, i: int)
  {
    0 <= i <= |s| - |pat| && s[i..i + |pat|] == pat
  }

  /** `pat` is a contiguous piece of `s`. */
  ghost predicate Occurs(s: string, pat: string)
  {
    exists i :: OccursAt(s, pat, i)
  }

  /** `s.replace(IndentedBreak, ParagraphBreak)`: a left-to-right scan that
      replaces non-overlapping occurrences. */
  function ReplaceIndentedBreaks(s: string): (r: string)
    decreases |s|
  {
    if |s| >= |IndentedBreak| && s[..|IndentedBreak|] == IndentedBreak then
      ParagraphBreak + ReplaceIndentedBreaks(s[|IndentedBreak|..])
    else if s == [] then []
    else [s[0]] + ReplaceIndentedBreaks(s[1..])
  }

  /** The leading line breaks of `s` removed. */
  function DropBreaks(s: string): (r: string)
    ensures |r| <= |s|
    ensures s != [] && IsBreak(s[0]) ==> |r| < |s|
  {
    if s != [] && IsBreak(s[0]) then DropBreaks(s[1..]) else s
  }

  /** DropBreaks removes a prefix made of newlines only, and the rest does
      not start with one. */
  lemma {:induction false} DropBreaksSpec(s: string)
    ensures var r := DropBreaks(s);
      r == s[|s| - |r|..] &&
      (forall i :: 0 <= i < |s| - |r| ==> IsBreak(s[i])) &&
      (r != [] ==> !IsBreak(r[0]))
    decreases |s|
  {
    if s != [] && IsBreak(s[0]) {
      DropBreaksSpec(s[1..]);
    }
  }

  /** `re.sub(r'(\n)+', ParagraphBreak, s)`: every maximal run of newlines
      becomes one paragraph break, and no newline survives. */
  function CollapseBreaks(s: string): (r: string)
    decreases |s|
  {
    if s == [] then []
    else if IsBreak(s[0]) then ParagraphBreak + CollapseBreaks(DropBreaks(s))
    else [s[0]] + CollapseBreaks(s[1..])
  }

  /** The formatted chapter body of WebToEpubNovel.py:127-130: first the
      indented breaks, then every remaining run of newlines. */
  function FormatBody(content: string): (r: string)
  {
    CollapseBreaks(ReplaceIndentedBreaks(content))
  }

  /** The XHTML body of a chapter document, WebToEpubNovel.py:134. */
  function ChapterDocument(title: string, content: string): (r: string)
  {
    "<h1>" + title + "</h1><p>" + FormatBody(content) + "</p>"
  }

  /** The document name of a chapter inside the container, WebToEpubNovel.py:133. */
  function ChapterFileName(title: string): (r: string)
  {
    title + ".xhtml"
  }

  /** The name of the e-book file, WebToEpubNovel.py:156. */
  function EpubFileName(author: string, title: string): (r: string)
  {
    author + " - " + title + ".epub"
  }

  // ---------------------------------------------------------------------
  // Lemmas about the indented-break replacement

  /** Text without newlines holds no indented break and is left as it is. */
  lemma {:induction false} ReplaceWithoutBreaks(s: string)
    requires NoBreaks(s)
    ensures ReplaceIndentedBreaks(s) == s
    decreases |s|
  {
    if s != [] {
      assert !IsBreak(s[0]);
      assert !(|s| >= |IndentedBreak| && s[..|IndentedBreak|] == IndentedBreak) by {
        if |s| >= |IndentedBreak| {
          assert s[..|IndentedBreak|][0] == s[0];
        }
      }
      ReplaceWithoutBreaks(s[1..]);
    }
  }

  /** An indented break after text without newlines is the first one the
      scan meets: it becomes one paragraph break and the scan goes on after it. */
  lemma ReplaceAfterPlain(a: string, b: string)
    requires NoBreaks(a)
    ensures ReplaceIndentedBreaks(a + IndentedBreak + b) == a + (ParagraphBreak + ReplaceIndentedBreaks(b))
  {
    assert a + IndentedBreak + b == a + (IndentedBreak + b);
    ReplacePlainPrefix(a, IndentedBreak + b);
    ReplaceAtFront(b);
  }

  /** Text without newlines cannot hold the start of an indented break, so
      the scan copies it whatever follows. */
  lemma {:induction false} ReplacePlainPrefix(a: string, x: string)
    requires NoBreaks(a)
    ensures ReplaceIndentedBreaks(a + x) == a + ReplaceIndentedBreaks(x)
    decreases |a|
  {
    if a == [] {
      assert a + x == x;
    } else {
      var s := a + x;
      assert s[0] == a[0] && s[1..] == a[1..] + x;
      ReplacePlainFirst(s);
      ReplacePlainPrefix(a[1..], x);
      assert [a[0]] + (a[1..] + ReplaceIndentedBreaks(x)) == a + ReplaceIndentedBreaks(x);
    }
  }

  /** An indented break at the front becomes a paragraph break. */
  lemma ReplaceAtFront(b: string)
    ensures ReplaceIndentedBreaks(IndentedBreak + b) == ParagraphBreak + ReplaceIndentedBreaks(b)
  {
    var s := IndentedBreak + b;
    assert s[..|IndentedBreak|] == IndentedBreak;
    assert s[|IndentedBreak|..] == b;
  }

  /** A first character that is not a newline cannot start an indented
      break, so the scan keeps it and moves on. */
  lemma ReplacePlainFirst(s: string)
    requires s != [] && !IsBreak(s[0])
    ensures ReplaceIndentedBreaks(s) == [s[0]] + ReplaceIndentedBreaks(s[1..])
  {
    if |s| >= |IndentedBreak| {
      assert s[..|IndentedBreak|][0] == s[0];
    }
  }

  /** `OccursAt` one position further into `s` is `OccursAt` in its tail. */
  lemma OccursShift(s: string, pat: string, j: nat)
    requires s != []
    ensures OccursAt(s[1..], pat, j) <==> OccursAt(s, pat, j + 1)
  {
    if 0 <= j + 1 <= |s| - |pat| {
      assert s[1..][j..j + |pat|] == s[j + 1..j + 1 + |pat|];
    }
  }

  /** The scan finds no match at the front: it copies one character. */
  lemma ReplaceNoMatchFirst(s: string)
    requires s != [] && !OccursAt(s, IndentedBreak, 0)
    ensures ReplaceIndentedBreaks(s) == [s[0]] + ReplaceIndentedBreaks(s[1..])
  {
    if |s| >= |IndentedBreak| {
      assert s[..|IndentedBreak|] == s[0..|IndentedBreak|];
    }
  }

  /** The scan finds a match at the front: it writes one paragraph break and
      resumes after the match. */
  lemma ReplaceMatchFirst(s: string)
    requires OccursAt(s, IndentedBreak, 0)
    ensures ReplaceIndentedBreaks(s) == ParagraphBreak + ReplaceIndentedBreaks(s[|IndentedBreak|..])
  {
    assert s[..|IndentedBreak|] == s[0..|IndentedBreak|];
  }

  /** The first occurrence of the indented break becomes one paragraph break;
      everything before it is copied and everything after it is replaced on
      its own. */
  lemma {:induction false} ReplaceFirstOccurrence(s: string, i: nat)
    requires OccursAt(s, IndentedBreak, i)
    requires forall j :: 0 <= j < i ==> !OccursAt(s, IndentedBreak, j)
    ensures ReplaceIndentedBreaks(s)
         == s[..i] + (ParagraphBreak + ReplaceIndentedBreaks(s[i + |IndentedBreak|..]))
    decreases i
  {
    if i == 0 {
      ReplaceMatchFirst(s);
      assert s[..0] == [];
    } else {
      assert !OccursAt(s, IndentedBreak, 0);
      ReplaceNoMatchFirst(s);
      var t := s[1..];
      OccursShift(s, IndentedBreak, i - 1);
      forall j | 0 <= j < i - 1
        ensures !OccursAt(t, IndentedBreak, j)
      {
        OccursShift(s, IndentedBreak, j);
      }
      ReplaceFirstOccurrence(t, i - 1);
      ReplaceFirstOccurrenceJoin(s, i);
    }
  }

  /** Re-assembles the pieces of ReplaceFirstOccurrence around its first
      character. */
  lemma ReplaceFirstOccurrenceJoin(s: string, i: nat)
    requires 1 <= i && i + |IndentedBreak| <= |s|
    ensures [s[0]] + (s[1..][..i - 1] + (ParagraphBreak + ReplaceIndentedBreaks(s[1..][i - 1 + |IndentedBreak|..])))
         == s[..i] + (ParagraphBreak + ReplaceIndentedBreaks(s[i + |IndentedBreak|..]))
  {
    assert s[1..][i - 1 + |IndentedBreak|..] == s[i + |IndentedBreak|..];
    assert [s[0]] + s[1..][..i - 1] == s[..i];
  }

  /** A newline followed by something other than a carriage return cannot
      start an indented break, so the scan copies it. */
  lemma ReplaceLoneNewline(t: string)
    requires t == [] || t[0] != '\r'
    ensures ReplaceIndentedBreaks("\n" + t) == "\n" + ReplaceIndentedBreaks(t)
  {
    var s := "\n" + t;
    if |s| >= |IndentedBreak| {
      assert s[..|IndentedBreak|][1] == t[0];
    }
    assert s[1..] == t;
  }

  /** Text in which the indented break does not occur passes the replace
      unchanged. */
  lemma {:induction false} ReplaceWithoutIndentedBreak(s: string)
    requires forall i :: !OccursAt(s, IndentedBreak, i)
    ensures ReplaceIndentedBreaks(s) == s
    decreases |s|
  {
    if s != [] {
      assert !OccursAt(s, IndentedBreak, 0);
      forall i
        ensures OccursAt(s[1..], IndentedBreak, i) ==> OccursAt(s, IndentedBreak, i + 1)
      {
        if OccursAt(s[1..], IndentedBreak, i) {
          assert s[i + 1..i + 1 + |IndentedBreak|] == s[1..][i..i + |IndentedBreak|];
        }
      }
      ReplaceWithoutIndentedBreak(s[1..]);
      assert [s[0]] + s[1..] == s;
    }
  }

  // ---------------------------------------------------------------------
  // Lemmas about the newline collapse

  /** No newline survives the collapse. */
  lemma {:induction false} CollapseHasNoBreaks(s: string)
    ensures NoBreaks(CollapseBreaks(s))
    decreases |s|
  {
    if s == [] {
    } else if IsBreak(s[0]) {
      CollapseHasNoBreaks(DropBreaks(s));
    } else {
      CollapseHasNoBreaks(s[1..]);
    }
  }

  /** Text without newlines passes the collapse unchanged. */
  lemma {:induction false} CollapseWithoutBreaks(s: string)
    requires NoBreaks(s)
    ensures CollapseBreaks(s) == s
    decreases |s|
  {
    if s != [] {
      assert !IsBreak(s[0]);
      CollapseWithoutBreaks(s[1..]);
    }
  }

  /** The collapse is idempotent. */
  lemma CollapseIdempotent(s: string)
    ensures CollapseBreaks(CollapseBreaks(s)) == CollapseBreaks(s)
  {
    CollapseHasNoBreaks(s);
    CollapseWithoutBreaks(CollapseBreaks(s));
  }

  /** A run of `k >= 1` newlines followed by text that does not start with a
      newline collapses to one paragraph break. */
  lemma CollapseRun(k: nat, t: string)
    requires k >= 1
    requires t != [] ==> !IsBreak(t[0])
    ensures CollapseBreaks(seq(k, _ => '\n') + t) == ParagraphBreak + CollapseBreaks(t)
  {
    DropRun(k, t);
  }

  lemma {:induction false} DropRun(k: nat, t: string)
    requires t != [] ==> !IsBreak(t[0])
    ensures DropBreaks(seq(k, _ => '\n') + t) == t
    decreases k
  {
    var s := seq(k, _ => '\n') + t;
    if k > 0 {
      assert s[1..] == seq(k - 1, _ => '\n') + t;
      DropRun(k - 1, t);
    }
  }

  /** The collapse works piece by piece when the cut does not split a run
      of newlines. */
  lemma {:induction false} CollapseConcat(a: string, b: string)
    requires a == [] || b == [] || !IsBreak(a[|a| - 1]) || !IsBreak(b[0])
    ensures CollapseBreaks(a + b) == CollapseBreaks(a) + CollapseBreaks(b)
    decreases |a|
  {
    if a == [] {
      assert a + b == b;
    } else if !IsBreak(a[0]) {
      assert a[1..] == [] || a[1..][|a[1..]| - 1] == a[|a| - 1];
      CollapseConcat(a[1..], b);
      CollapseConcatChar(a, b);
    } else if DropBreaks(a) == [] {
      DropBreaksSpec(a);
      AllBreaksThen(a, b);
    } else {
      var d := DropBreaks(a);
      DropBreaksSpec(a);
      assert d[|d| - 1] == a[|a| - 1];
      CollapseConcat(d, b);
      CollapseConcatRun(a, b);
    }
  }

  lemma CollapseConcatChar(a: string, b: string)
    requires a != [] && !IsBreak(a[0])
    requires CollapseBreaks(a[1..] + b) == CollapseBreaks(a[1..]) + CollapseBreaks(b)
    ensures CollapseBreaks(a + b) == CollapseBreaks(a) + CollapseBreaks(b)
  {
    assert (a + b)[1..] == a[1..] + b;
    assert (a + b)[0] == a[0];
  }

  lemma CollapseConcatRun(a: string, b: string)
    requires a != [] && IsBreak(a[0]) && DropBreaks(a) != []
    requires CollapseBreaks(DropBreaks(a) + b) == CollapseBreaks(DropBreaks(a)) + CollapseBreaks(b)
    ensures CollapseBreaks(a + b) == CollapseBreaks(a) + CollapseBreaks(b)
  {
    DropPrefix(a, b);
    assert (a + b)[0] == a[0];
  }

  /** A non-empty run of newlines followed by text that does not continue
      the run. */
  lemma AllBreaksThen(a: string, b: string)
    requires a != [] && DropBreaks(a) == []
    requires b == [] || !IsBreak(b[0])
    ensures CollapseBreaks(a + b) == ParagraphBreak + CollapseBreaks(b)
    ensures CollapseBreaks(a) == ParagraphBreak
  {
    DropBreaksSpec(a);
    assert forall i :: 0 <= i < |a| ==> IsBreak(a[i]);
    assert a == seq(|a|, _ => '\n');
    DropRun(|a|, b);
    assert a + [] == a;
    DropRun(|a|, []);
  }

  lemma {:induction false} DropPrefix(a: string, b: string)
    requires DropBreaks(a) != []
    ensures DropBreaks(a + b) == DropBreaks(a) + b
    decreases |a|
  {
    if a != [] && IsBreak(a[0]) {
      assert (a + b)[1..] == a[1..] + b;
      DropPrefix(a[1..], b);
    }
  }

  /** No newline is left in a formatted body, and an empty body stays empty. */
  lemma FormatBodySpec(content: string)
    ensures NoBreaks(FormatBody(content))
    ensures content == [] ==> FormatBody(content) == []
  {
    CollapseHasNoBreaks(ReplaceIndentedBreaks(content));
  }

  /** The document of a chapter whose fetch returned nothing: the heading
      and one empty paragraph. */
  lemma EmptyChapterDocument(title: string)
    ensures ChapterDocument(title, "") == "<h1>" + title + "</h1><p></p>"
  {
    FormatBodySpec("");
    assert "</h1><p>" + "" + "</p>" == "</h1><p></p>";
  }

  /** An indented break after text without newlines becomes exactly one
      paragraph break in the formatted body. */
  lemma FormatAfterPlain(a: string, b: string)
    requires NoBreaks(a)
    ensures FormatBody(a + IndentedBreak + b) == a + (ParagraphBreak + FormatBody(b))
  {
    ReplaceAfterPlain(a, b);
    FormatOfReplaced(a + IndentedBreak + b, a, ReplaceIndentedBreaks(b));
  }

  /** A body whose replace stage gives plain text, a paragraph break and a
      rest formats to the same plain text, the break and the collapsed rest. */
  lemma FormatOfReplaced(s: string, a: string, rb: string)
    requires NoBreaks(a)
    requires ReplaceIndentedBreaks(s) == a + (ParagraphBreak + rb)
    ensures FormatBody(s) == a + (ParagraphBreak + CollapseBreaks(rb))
  {
    CollapseAfterPlain(a, ParagraphBreak + rb);
    CollapseAfterParagraphBreak(rb);
  }

  /** Text without newlines in front passes the collapse unchanged. */
  lemma CollapseAfterPlain(a: string, t: string)
    requires NoBreaks(a)
    ensures CollapseBreaks(a + t) == a + CollapseBreaks(t)
  {
    CollapseConcat(a, t);
    CollapseWithoutBreaks(a);
  }

  /** A paragraph break in front passes the collapse unchanged. */
  lemma CollapseAfterParagraphBreak(t: string)
    ensures CollapseBreaks(ParagraphBreak + t) == ParagraphBreak + CollapseBreaks(t)
  {
    assert NoBreaks(ParagraphBreak);
    CollapseAfterPlain(ParagraphBreak, t);
  }

  /** A plain newline directly before an indented break is not merged with it:
      the two line breaks give two paragraph breaks, with an empty paragraph
      between them. */
  lemma FormatNewlineThenIndentedBreak(a: string, b: string)
    requires NoBreaks(a)
    ensures FormatBody(a + ("\n" + (IndentedBreak + b)))
         == a + (ParagraphBreak + (ParagraphBreak + FormatBody(b)))
  {
    var rb := ReplaceIndentedBreaks(b);
    ReplacePlainPrefix(a, "\n" + (IndentedBreak + b));
    ReplaceLoneNewline(IndentedBreak + b);
    ReplaceAtFront(b);
    FormatOfNewlineReplaced(a + ("\n" + (IndentedBreak + b)), a, rb);
  }

  /** The collapse stage of FormatNewlineThenIndentedBreak. */
  lemma FormatOfNewlineReplaced(s: string, a: string, rb: string)
    requires NoBreaks(a)
    requires ReplaceIndentedBreaks(s) == a + ("\n" + (ParagraphBreak + rb))
    ensures FormatBody(s) == a + (ParagraphBreak + (ParagraphBreak + CollapseBreaks(rb)))
  {
    var t := ParagraphBreak + rb;
    CollapseAfterPlain(a, "\n" + t);
    assert seq(1, _ => '\n') == "\n";
    CollapseRun(1, t);
    CollapseAfterParagraphBreak(rb);
  }

  /** The body "a", newline, indented break, "b" has an empty paragraph in
      the middle. */
  lemma EmptyParagraphExample()
    ensures FormatBody("a\n" + IndentedBreak + "b") == "a</p><p></p><p>b"
  {
    assert "a\n" + IndentedBreak + "b" == "a" + ("\n" + (IndentedBreak + "b"));
    FormatNewlineThenIndentedBreak("a", "b");
    FormatWithoutBreaks("b");
  }

  /** Without an indented break, formatting is the newline collapse alone. */
  lemma FormatWithoutIndentedBreak(content: string)
    requires forall i :: !OccursAt(content, IndentedBreak, i)
    ensures FormatBody(content) == CollapseBreaks(content)
  {
    ReplaceWithoutIndentedBreak(content);
  }

  /** A chapter body written without newlines is kept as it is. */
  lemma FormatWithoutBreaks(content: string)
    requires NoBreaks(content)
    ensures FormatBody(content) == content
  {
    ReplaceWithoutBreaks(content);
    CollapseWithoutBreaks(content);
  }

  // ---------------------------------------------------------------------
  // Lemmas about the names

  /** Given the author, the title can be read back from the e-book file name. */
  lemma EpubFileNameTitle(author: string, title: string)
    ensures var n := EpubFileName(author, title);
      |n| == |author| + |title| + 8 &&
      n[..|author|] == author && n[|author|..|author| + 3] == " - " &&
      n[|author| + 3..|n| - 5] == title && n[|n| - 5..] == ".epub"
  {
  }

  /** So two books by the same author with different titles get different
      files... */
  lemma EpubFileNameInjectiveInTitle(author: string, t1: string, t2: string)
    requires EpubFileName(author, t1) == EpubFileName(author, t2)
    ensures t1 == t2
  {
    EpubFileNameTitle(author, t1);
    EpubFileNameTitle(author, t2);
  }

  /** ...but the separator may occur in an author or title, so different
      pairs can share one file name. */
  lemma EpubFileNameCollision()
    ensures EpubFileName("A - B", "C") == EpubFileName("A", "B - C")
  {
  }

  /** Chapter documents are named by their title alone: two chapters with
      the same title get the same document name. */
  lemma ChapterFileNameDeterminedByTitle(t1: string, t2: string)
    ensures ChapterFileName(t1) == ChapterFileName(t2) <==> t1 == t2
  {
    if ChapterFileName(t1) == ChapterFileName(t2) {
      assert t1 == ChapterFileName(t1)[..|t1|];
    }
  }
}
