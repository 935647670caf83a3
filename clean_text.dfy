/** `FileProcessor._clean_text`: the whitespace normaliser applied to every uploaded file.
    `Clean` is the specification of the whole routine; `CleanText` is the routine itself,
    with its `for` loop over the lines and its `while` loop over `replace`. */
module TextCleaning {
  import opened PyStr

  /** `' '.join(line.split())`: the words of a line, separated by single spaces. */
  function Collapse(line: string): string {
    Join(" ", Words(line))
  }

  /** The list `_clean_text` builds: each line collapsed, the empty ones dropped, in order. */
  function KeptLines(lines: seq<string>): seq<string> {
    if lines == [] then []
    else
      var line := Collapse(lines[|lines| - 1]);
      KeptLines(lines[..|lines| - 1]) + (if line != [] then [line] else [])
  }

  /** The `while '\n\n\n' in text` loop, which replaces runs of three newlines by two until
      none is left. */
  function Squeeze(s: string): string
    decreases |s|
  {
    if Contains(s, "\n\n\n") then Squeeze(Replace(s, "\n\n\n", "\n\n")) else s
  }

  /** What `_clean_text(text)` returns. */
  function Clean(text: string): string {
    if text == [] then []
    else Strip(Squeeze(Join("\n", KeptLines(Split(text, '\n')))))
  }

  /** A line as `_clean_text` emits it: not empty, no whitespace at either end, no
      whitespace other than `' '`, and never two spaces in a row. */
  predicate TidyLine(s: string) {
    && s != []
    && !IsSpace(s[0]) && !IsSpace(s[|s| - 1])
    && (forall i | 0 <= i < |s| :: IsSpace(s[i]) ==> s[i] == ' ')
    && (forall i | 0 <= i < |s| - 1 :: s[i] == ' ' ==> s[i + 1] != ' ')
  }

  /** No two newlines in a row, so no blank line. */
  predicate NoBlankLine(s: string) {
    forall i | 0 <= i < |s| - 1 :: s[i] == '\n' ==> s[i + 1] != '\n'
  }

  /** The sequence of words of every string in `texts`, in order. */
  function ConcatWords(texts: seq<string>): seq<string> {
    if texts == [] then [] else Words(texts[0]) + ConcatWords(texts[1..])
  }

  // ---------------------------------------------------------------------------
  // The routine itself

  method CleanText(text: string) returns (cleaned: string)
    ensures cleaned == Clean(text)
  {
    if text == [] {
      return [];
    }
    var raw := Split(text, '\n');
    var lines: seq<string> := [];
    for i := 0 to |raw|
      invariant lines == KeptLines(raw[..i])
    {
      var line := Collapse(raw[i]);
      if line != [] {
        lines := lines + [line];
      }
      assert raw[..i + 1][..i] == raw[..i];
    }
    assert raw[..|raw|] == raw;
    cleaned := Join("\n", lines);
    ghost var joined := cleaned;
    while Contains(cleaned, "\n\n\n")
      invariant Squeeze(cleaned) == Squeeze(joined)
      decreases |cleaned|
    {
      cleaned := Replace(cleaned, "\n\n\n", "\n\n");
    }
    cleaned := Strip(cleaned);
  }

  // ---------------------------------------------------------------------------
  // Lines

  /** The words of a line joined by single spaces make a tidy line. */
  lemma {:induction false} JoinWordsTidy(ws: seq<string>)
    requires ws != []
    requires forall i | 0 <= i < |ws| :: IsWord(ws[i])
    ensures TidyLine(Join(" ", ws))
  {
    if |ws| > 1 {
      JoinWordsTidy(ws[1..]);
      var w, t := ws[0], Join(" ", ws[1..]);
      var s := Join(" ", ws);
      assert s == w + " " + t;
      assert s[0] == w[0];
      assert s[|s| - 1] == t[|t| - 1];
      forall i | 0 <= i < |s| ensures IsSpace(s[i]) ==> s[i] == ' ' {
        if i < |w| {
          assert s[i] == w[i];
        } else if i > |w| {
          assert s[i] == t[i - |w| - 1];
        }
      }
      forall i | 0 <= i < |s| - 1 ensures s[i] == ' ' ==> s[i + 1] != ' ' {
        if i < |w| {
          assert s[i] == w[i];
        } else if i == |w| {
          assert s[i + 1] == t[0];
        } else {
          assert s[i] == t[i - |w| - 1] && s[i + 1] == t[i - |w|];
        }
      }
    }
  }

  lemma {:induction false} LeadingWordOfWord(w: string)
    requires NoSpace(w)
    ensures LeadingWord(w) == w
  {
    if w != [] {
      assert !IsSpace(w[0]);
      LeadingWordOfWord(w[1..]);
      assert [w[0]] + w[1..] == w;
    }
  }

  /** A single word splits into itself. */
  lemma WordsOfWord(w: string)
    requires IsWord(w)
    ensures Words(w) == [w]
  {
    assert !IsSpace(w[0]);
    LeadingWordOfWord(w);
    assert w[|w|..] == [];
    assert Words([]) == [];
  }

  /** Splitting the space-join of words on whitespace gives the words back. */
  lemma {:induction false} WordsOfJoin(ws: seq<string>)
    requires forall i | 0 <= i < |ws| :: IsWord(ws[i])
    ensures Words(Join(" ", ws)) == ws
  {
    if ws == [] {
      assert Words([]) == [];
    } else if |ws| == 1 {
      WordsOfWord(ws[0]);
    } else {
      var w, t := ws[0], Join(" ", ws[1..]);
      assert Join(" ", ws) == w + [' '] + t;
      WordsOfWord(w);
      WordsAroundSpace(w, ' ', t);
      assert forall i | 0 <= i < |ws| - 1 :: ws[1..][i] == ws[i + 1];
      WordsOfJoin(ws[1..]);
      assert Words(Join(" ", ws)) == [w] + ws[1..];
      assert [w] + ws[1..] == ws;
    }
  }

  lemma {:induction false} WordsEmptyIffBlank(s: string)
    ensures Words(s) == [] <==> AllSpace(s)
    decreases |s|
  {
    if s != [] && IsSpace(s[0]) {
      WordsEmptyIffBlank(s[1..]);
      assert AllSpace(s) <==> AllSpace(s[1..]) by {
        if AllSpace(s[1..]) {
          forall i | 0 <= i < |s| ensures IsSpace(s[i]) {
            if i > 0 { assert s[i] == s[1..][i - 1]; }
          }
        }
      }
    }
  }

  lemma JoinEmptyIffNoParts(sep: string, parts: seq<string>)
    requires forall i | 0 <= i < |parts| :: parts[i] != []
    ensures Join(sep, parts) == [] <==> parts == []
  {
    if |parts| > 1 {
      assert Join(sep, parts) == parts[0] + sep + Join(sep, parts[1..]);
    }
  }

  /** What `' '.join(line.split())` leaves of a line: nothing exactly when the line is blank,
      otherwise a tidy line with the same words. */
  lemma CollapseSpec(line: string)
    ensures Collapse(line) == [] <==> AllSpace(line)
    ensures Collapse(line) != [] ==> TidyLine(Collapse(line))
    ensures Words(Collapse(line)) == Words(line)
    ensures Collapse(Collapse(line)) == Collapse(line)
  {
    var ws := Words(line);
    WordsAreWords(line);
    WordsEmptyIffBlank(line);
    JoinEmptyIffNoParts(" ", ws);
    if ws != [] {
      JoinWordsTidy(ws);
    }
    WordsOfJoin(ws);
  }

  /** Every kept line is tidy and is its own collapse. */
  lemma {:induction false} KeptLinesTidy(lines: seq<string>)
    ensures forall i | 0 <= i < |KeptLines(lines)| ::
      TidyLine(KeptLines(lines)[i]) && Collapse(KeptLines(lines)[i]) == KeptLines(lines)[i]
  {
    if lines != [] {
      var init := lines[..|lines| - 1];
      KeptLinesTidy(init);
      CollapseSpec(lines[|lines| - 1]);
    }
  }

  /** Lines that are already collapsed and not empty all survive. */
  lemma {:induction false} KeptLinesFixed(lines: seq<string>)
    requires forall i | 0 <= i < |lines| :: lines[i] != [] && Collapse(lines[i]) == lines[i]
    ensures KeptLines(lines) == lines
  {
    if lines != [] {
      var init, last := lines[..|lines| - 1], lines[|lines| - 1];
      forall i | 0 <= i < |init| ensures init[i] != [] && Collapse(init[i]) == init[i] {
        assert init[i] == lines[i];
      }
      KeptLinesFixed(init);
      KeptLinesFixedStep(init, last);
      assert init + [last] == lines;
    }
  }

  lemma KeptLinesFixedStep(init: seq<string>, last: string)
    requires KeptLines(init) == init
    requires last != [] && Collapse(last) == last
    ensures KeptLines(init + [last]) == init + [last]
  {
    assert (init + [last])[..|init|] == init;
  }

  lemma TidyLineHasNoNewline(s: string)
    requires TidyLine(s)
    ensures '\n' !in s
  {
    if '\n' in s {
      var i :| 0 <= i < |s| && s[i] == '\n';
      assert IsSpace(s[i]);
    }
  }

  // ---------------------------------------------------------------------------
  // Joining the lines

  /** Non-empty lines without newlines, joined by single newlines, leave no blank line. */
  lemma {:induction false} JoinLinesNoBlank(lines: seq<string>)
    requires forall i | 0 <= i < |lines| :: lines[i] != [] && '\n' !in lines[i]
    ensures NoBlankLine(Join("\n", lines))
  {
    if |lines| == 1 {
      var s := lines[0];
      forall i | 0 <= i < |s| - 1 ensures s[i] != '\n' {
        assert s[i] in lines[0];
      }
    } else if |lines| > 1 {
      JoinLinesNoBlank(lines[1..]);
      var w, t := lines[0], Join("\n", lines[1..]);
      var s := Join("\n", lines);
      assert s == w + "\n" + t;
      JoinEmptyIffNoParts("\n", lines[1..]);
      assert t[0] == lines[1][0] by { JoinFirst("\n", lines[1..]); }
      assert lines[1][0] in lines[1];
      forall i | 0 <= i < |s| - 1 ensures s[i] == '\n' ==> s[i + 1] != '\n' {
        if i < |w| {
          assert s[i] == w[i] && w[i] in lines[0];
        } else if i == |w| {
          assert s[i + 1] == t[0];
        } else {
          assert s[i] == t[i - |w| - 1] && s[i + 1] == t[i - |w|];
        }
      }
    }
  }

  lemma {:induction false} JoinFirst(sep: string, parts: seq<string>)
    requires parts != [] && parts[0] != []
    ensures Join(sep, parts) != [] && Join(sep, parts)[0] == parts[0][0]
  {
  }

  lemma {:induction false} JoinLast(sep: string, parts: seq<string>)
    requires parts != [] && parts[|parts| - 1] != []
    ensures var s := Join(sep, parts); var l := parts[|parts| - 1];
      s != [] && s[|s| - 1] == l[|l| - 1]
  {
    if |parts| > 1 {
      JoinLast(sep, parts[1..]);
    }
  }

  lemma NoBlankLineNoTriple(s: string)
    requires NoBlankLine(s)
    ensures !Contains(s, "\n\n")
    ensures !Contains(s, "\n\n\n")
  {
    forall i | 0 <= i <= |s| - 2 ensures !OccursAt(s, "\n\n", i) {
      assert s[i..i + 2][0] == s[i] && s[i..i + 2][1] == s[i + 1];
    }
    forall i | 0 <= i <= |s| - 3 ensures !OccursAt(s, "\n\n\n", i) {
      assert s[i..i + 3][0] == s[i] && s[i..i + 3][1] == s[i + 1];
    }
  }

  /** The `while` loop ends with no run of three newlines left, never lengthens the text,
      and does nothing to a text without such a run. */
  lemma {:induction false} SqueezeSpec(s: string)
    ensures !Contains(Squeeze(s), "\n\n\n")
    ensures |Squeeze(s)| <= |s|
    ensures !Contains(s, "\n\n\n") ==> Squeeze(s) == s
    decreases |s|
  {
    if Contains(s, "\n\n\n") {
      SqueezeSpec(Replace(s, "\n\n\n", "\n\n"));
    }
  }

  /** Tidy lines joined by single newlines leave the `while` loop and the final `strip`
      nothing to do. */
  lemma JoinedTidyLinesAreClean(lines: seq<string>)
    requires forall i | 0 <= i < |lines| :: TidyLine(lines[i])
    ensures NoBlankLine(Join("\n", lines))
    ensures Squeeze(Join("\n", lines)) == Join("\n", lines)
    ensures Strip(Join("\n", lines)) == Join("\n", lines)
  {
    var s := Join("\n", lines);
    forall i | 0 <= i < |lines| ensures lines[i] != [] && '\n' !in lines[i] {
      TidyLineHasNoNewline(lines[i]);
    }
    JoinLinesNoBlank(lines);
    NoBlankLineNoTriple(s);
    if lines != [] {
      JoinFirst("\n", lines);
      JoinLast("\n", lines);
    }
    StripFixed(s);
  }

  /** The `while` loop never fires on the joined lines, and the final `strip` changes
      nothing: the cleaned text is just the kept lines joined by single newlines. */
  lemma CleanIsJoinedLines(text: string)
    ensures Clean(text) == Join("\n", KeptLines(Split(text, '\n')))
  {
    if text == [] {
      assert Split(text, '\n') == [[]];
      var empty: seq<string> := [[]];
      assert KeptLines(empty) == [] by {
        assert Collapse([]) == [];
        assert empty[..0] == [];
      }
    } else {
      KeptLinesTidy(Split(text, '\n'));
      JoinedTidyLinesAreClean(KeptLines(Split(text, '\n')));
    }
  }

  // ---------------------------------------------------------------------------
  // What the cleaned text looks like

  /** Every line of the cleaned text is a tidy line. */
  lemma CleanLinesAreTidy(text: string)
    ensures var out := Clean(text);
      out != [] ==> forall line | line in Split(out, '\n') :: TidyLine(line)
  {
    var lines := KeptLines(Split(text, '\n'));
    CleanIsJoinedLines(text);
    KeptLinesTidy(Split(text, '\n'));
    if lines != [] {
      forall i | 0 <= i < |lines| ensures '\n' !in lines[i] {
        TidyLineHasNoNewline(lines[i]);
      }
      SplitJoin(lines, '\n');
    }
  }

  /** The cleaned text never holds two newlines in a row, so it has no blank line and the
      `while '\n\n\n'` loop has nothing to do. */
  lemma CleanHasNoBlankLine(text: string)
    ensures NoBlankLine(Clean(text))
    ensures !Contains(Clean(text), "\n\n")
    ensures Squeeze(Clean(text)) == Clean(text)
  {
    var lines := KeptLines(Split(text, '\n'));
    CleanIsJoinedLines(text);
    KeptLinesTidy(Split(text, '\n'));
    forall i | 0 <= i < |lines| ensures lines[i] != [] && '\n' !in lines[i] {
      TidyLineHasNoNewline(lines[i]);
    }
    JoinLinesNoBlank(lines);
    NoBlankLineNoTriple(Clean(text));
  }

  /** Cleaning a cleaned text changes nothing. */
  lemma CleanIdempotent(text: string)
    ensures Clean(Clean(text)) == Clean(text)
  {
    var lines := KeptLines(Split(text, '\n'));
    var out := Join("\n", lines);
    CleanIsJoinedLines(text);
    if out != [] {
      KeptLinesTidy(Split(text, '\n'));
      forall i | 0 <= i < |lines| ensures '\n' !in lines[i] {
        TidyLineHasNoNewline(lines[i]);
      }
      assert lines != [];
      SplitJoin(lines, '\n');
      KeptLinesFixed(lines);
      CleanIsJoinedLines(out);
    }
  }

  // ---------------------------------------------------------------------------
  // Cleaning keeps the words

  lemma {:induction false} LeadingWordBeforeSpace(t: string, c: char, b: string)
    requires IsSpace(c)
    ensures LeadingWord(t + [c] + b) == LeadingWord(t)
  {
    if t != [] && !IsSpace(t[0]) {
      assert (t + [c] + b)[1..] == t[1..] + [c] + b;
      LeadingWordBeforeSpace(t[1..], c, b);
    }
  }

  /** A whitespace character separates words: the words on either side are kept apart. */
  lemma {:induction false} WordsAroundSpace(a: string, c: char, b: string)
    requires IsSpace(c)
    ensures Words(a + [c] + b) == Words(a) + Words(b)
    decreases |a|
  {
    var s := a + [c] + b;
    if a == [] {
      assert s[0] == c && s[1..] == b;
    } else if IsSpace(a[0]) {
      assert s[0] == a[0] && s[1..] == a[1..] + [c] + b;
      WordsAroundSpace(a[1..], c, b);
    } else {
      var w := LeadingWord(a);
      assert s[0] == a[0];
      LeadingWordBeforeSpace(a, c, b);
      assert s[|w|..] == a[|w|..] + [c] + b;
      WordsAroundSpace(a[|w|..], c, b);
    }
  }

  lemma {:induction false} WordsOfJoinedLines(lines: seq<string>, c: char)
    requires IsSpace(c)
    ensures Words(Join([c], lines)) == ConcatWords(lines)
  {
    if |lines| == 1 {
      assert ConcatWords(lines) == Words(lines[0]) + ConcatWords([]);
    } else if |lines| > 1 {
      WordsOfJoinedLines(lines[1..], c);
      WordsAroundSpace(lines[0], c, Join([c], lines[1..]));
    }
  }

  lemma {:induction false} ConcatWordsAppend(a: seq<string>, b: seq<string>)
    ensures ConcatWords(a + b) == ConcatWords(a) + ConcatWords(b)
  {
    if a == [] {
      assert a + b == b;
    } else {
      assert (a + b)[0] == a[0] && (a + b)[1..] == a[1..] + b;
      ConcatWordsAppend(a[1..], b);
      calc {
        ConcatWords(a + b);
        Words(a[0]) + ConcatWords(a[1..] + b);
        Words(a[0]) + (ConcatWords(a[1..]) + ConcatWords(b));
      }
    }
  }

  lemma {:induction false} KeptLinesWords(lines: seq<string>)
    ensures ConcatWords(KeptLines(lines)) == ConcatWords(lines)
  {
    if lines != [] {
      var init, last := lines[..|lines| - 1], lines[|lines| - 1];
      var line := Collapse(last);
      var kept := if line != [] then [line] else [];
      assert KeptLines(lines) == KeptLines(init) + kept;
      KeptLinesWords(init);
      ConcatWordsAppend(KeptLines(init), kept);
      assert init + [last] == lines;
      ConcatWordsAppend(init, [last]);
      assert ConcatWords([last]) == Words(last) + ConcatWords([]);
      assert ConcatWords(kept) == Words(last) by {
        CollapseSpec(last);
        if line != [] {
          assert ConcatWords(kept) == Words(line) + ConcatWords([]);
        } else {
          WordsEmptyIffBlank(last);
        }
      }
    }
  }

  /** Cleaning changes only whitespace: the words of the text survive, in order. */
  lemma CleanKeepsWords(text: string)
    ensures Words(Clean(text)) == Words(text)
  {
    var raw := Split(text, '\n');
    CleanIsJoinedLines(text);
    WordsOfJoinedLines(KeptLines(raw), '\n');
    KeptLinesWords(raw);
    WordsOfJoinedLines(raw, '\n');
    JoinSplit(text, '\n');
  }

  /** The cleaned text is empty exactly when the input is blank; otherwise it is already
      stripped. */
  lemma CleanEmptyIffBlank(text: string)
    ensures Clean(text) == [] <==> AllSpace(text)
    ensures Strip(Clean(text)) == Clean(text)
  {
    var out := Clean(text);
    CleanKeepsWords(text);
    WordsEmptyIffBlank(text);
    WordsEmptyIffBlank(out);
    if text != [] {
      StripSpec(Squeeze(Join("\n", KeptLines(Split(text, '\n')))));
      assert out == [] || !IsSpace(out[0]);
    }
    StripIdempotent(Squeeze(Join("\n", KeptLines(Split(text, '\n')))));
  }
}
