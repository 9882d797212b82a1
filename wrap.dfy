/**
 * `format_response` of app.py (lines 45-78): the reply is cut into paragraphs
 * at "\n\n"; a paragraph holding "```" is kept as it is, any other one is
 * re-flowed greedily into lines of at most 40 characters; the paragraphs are
 * joined again with "\n\n".
 */
module ResponseFormatter {
  import opened Text

  /** The maximum line length that the wrapper aims for. */
  const Width: nat := 40

  /** The marker whose presence keeps a paragraph as it is. */
  const CodeMarker: string := "```"

  /** Characters for which Python's `str.isspace` holds: the separators of `str.split()`. */
  predicate IsPySpace(c: char) {
    || '\t' <= c <= '\r'
    || '\U{1C}' <= c <= '\U{1F}'
    || c == ' ' || c == '\U{85}' || c == '\U{A0}' || c == '\U{1680}'
    || '\U{2000}' <= c <= '\U{200A}'
    || c == '\U{2028}' || c == '\U{2029}' || c == '\U{202F}' || c == '\U{205F}' || c == '\U{3000}'
  }

  /** A word of `str.split()`: a non-empty run of non-space characters. */
  predicate IsWord(w: string) {
    w != [] && forall k :: 0 <= k < |w| ==> !IsPySpace(w[k])
  }

  /** The length of the run of non-space characters that starts `s`. */
  function WordLength(s: string): (n: nat)
    ensures n <= |s|
    ensures forall k :: 0 <= k < n ==> !IsPySpace(s[k])
    ensures n < |s| ==> IsPySpace(s[n])
  {
    if s == [] || IsPySpace(s[0]) then 0 else 1 + WordLength(s[1..])
  }

  /** Python's `s.split()`: the maximal runs of non-space characters, in order. */
  function Words(s: string): (ws: seq<string>)
    ensures forall i :: 0 <= i < |ws| ==> IsWord(ws[i])
    decreases |s|
  {
    if s == [] then []
    else if IsPySpace(s[0]) then Words(s[1..])
    else
      var n := WordLength(s);
      [s[..n]] + Words(s[n..])
  }

  /** A space character separates the words of the two sides. */
  lemma {:induction false} WordsAround(a: string, c: char, b: string)
    requires IsPySpace(c)
    ensures Words(a + [c] + b) == Words(a) + Words(b)
    decreases |a|
  {
    var s := a + [c] + b;
    if a == [] {
      assert s[1..] == b;
    } else if IsPySpace(a[0]) {
      assert s[1..] == a[1..] + [c] + b;
      WordsAround(a[1..], c, b);
    } else {
      var n := WordLength(a);
      WordLengthBefore(a, c, b);
      assert s[..n] == a[..n];
      assert s[n..] == a[n..] + [c] + b;
      WordsAround(a[n..], c, b);
    }
  }

  /** A word at the start of `a` ends where it ends in `a` followed by a space. */
  lemma WordLengthBefore(a: string, c: char, b: string)
    requires IsPySpace(c)
    ensures WordLength(a + [c] + b) == WordLength(a)
  {
    var s, n := a + [c] + b, WordLength(a);
    assert forall k :: 0 <= k < n ==> s[k] == a[k];
    assert n < |a| ==> s[n] == a[n];
    assert n == |a| ==> s[n] == c;
    WordLengthIs(s, n);
  }

  /** `WordLength` is the first space position. */
  lemma WordLengthIs(s: string, n: nat)
    requires n <= |s|
    requires forall k :: 0 <= k < n ==> !IsPySpace(s[k])
    requires n < |s| ==> IsPySpace(s[n])
    ensures WordLength(s) == n
  {
  }

  /** A word is its own only word. */
  lemma WordsOfWord(w: string)
    requires IsWord(w)
    ensures Words(w) == [w]
  {
    WordLengthIs(w, |w|);
    assert w[..|w|] == w;
    assert w[|w|..] == [];
  }

  /** Joining words with single spaces and splitting again gives the words back. */
  lemma {:induction false} WordsOfJoin(ws: seq<string>)
    requires forall i :: 0 <= i < |ws| ==> IsWord(ws[i])
    ensures Words(Join(ws, " ")) == ws
  {
    if |ws| == 1 {
      WordsOfWord(ws[0]);
    } else if |ws| > 1 {
      WordsOfJoin(ws[1..]);
      WordsOfWord(ws[0]);
      assert Join(ws, " ") == ws[0] + [' '] + Join(ws[1..], " ");
      WordsAround(ws[0], ' ', Join(ws[1..], " "));
      assert [ws[0]] + ws[1..] == ws;
    }
  }

  /** The words of the lines, one line after the other. */
  function LineWords(lines: seq<string>): seq<string> {
    if lines == [] then [] else Words(lines[0]) + LineWords(lines[1..])
  }

  /** Breaking between lines keeps the words: the words of the joined lines are those of the lines. */
  lemma {:induction false} WordsOfLines(lines: seq<string>)
    ensures Words(Join(lines, "\n")) == LineWords(lines)
  {
    if |lines| == 1 {
      assert LineWords(lines[1..]) == [];
    } else if |lines| > 1 {
      WordsOfLines(lines[1..]);
      assert Join(lines, "\n") == lines[0] + ['\n'] + Join(lines[1..], "\n");
      WordsAround(lines[0], '\n', Join(lines[1..], "\n"));
    }
  }

  /*
   * Greedy wrapping of one paragraph (app.py lines 58-76)
   */

  /**
   * The value of `line_length` once the words of `line`, the line with index
   * `i`, have been placed: every word counts its length plus one, except that
   * after a break the first word of the new line counts only its length. On
   * the first line, which starts at 0 and not after a break, a non-empty line
   * thus counts one more than its length.
   */
  function Load(i: nat, line: string): nat {
    if i == 0 && line != [] then |line| + 1 else |line|
  }

  /** The test of app.py line 65: `word` still goes on line `i` after `line`. */
  predicate Fits(i: nat, line: string, word: string) {
    Load(i, line) + |word| + 1 <= Width
  }

  /**
   * `lines`, numbered from `start`, are a greedy wrapping of `ws`: each line
   * is its words joined by single spaces, the words of the lines are `ws` in
   * order, only the first line may be empty, no line that holds a space
   * (two words or more) and not the first line goes past the width, and the
   * first word of every line after the first would not have fit on the line
   * before it.
   */
  predicate WrappedFrom(lines: seq<string>, ws: seq<string>, start: nat) {
    && (forall i :: 0 <= i < |lines| ==> lines[i] == Join(Words(lines[i]), " "))
    && LineWords(lines) == ws
    && (forall i :: 0 <= i < |lines| && start + i > 0 ==> lines[i] != [])
    && (|lines| > 0 ==> lines[|lines| - 1] != [])
    && (forall i :: 0 <= i < |lines| && (start + i == 0 || ' ' in lines[i]) ==> Load(start + i, lines[i]) <= Width)
    && (forall i :: 0 <= i < |lines| - 1 && Words(lines[i + 1]) != [] ==>
          !Fits(start + i, lines[i], Words(lines[i + 1])[0]))
  }

  /** The lines of a paragraph wrapped on its own. */
  predicate Wrapped(lines: seq<string>, ws: seq<string>) {
    WrappedFrom(lines, ws, 0)
  }

  /*
   * What a wrapping looks like
   */

  /** Joining two non-empty lists puts one separator between their joins. */
  lemma {:induction false} JoinAppend(p: seq<string>, q: seq<string>, sep: string)
    requires p != [] && q != []
    ensures Join(p + q, sep) == Join(p, sep) + sep + Join(q, sep)
  {
    if |p| == 1 {
      JoinCons(p[0], q, sep);
      assert [p[0]] + q == p + q;
    } else {
      JoinAppend(p[1..], q, sep);
      JoinCons(p[0], p[1..] + q, sep);
      JoinCons(p[0], p[1..], sep);
      HeadAndTail(p);
      HeadAndTail(p + q);
      TailOfConcat(p, q);
    }
  }

  /** A line with one more word than another and the same words before it is longer by that word and a space. */
  lemma LongerLine(p: seq<string>, w: string, q: seq<string>)
    requires p != []
    ensures |Join(p + [w] + q, " ")| >= |Join(p, " ")| + 1 + |w|
  {
    JoinSnoc(p, w, " ");
    if q != [] {
      JoinAppend(p + [w], q, " ");
    } else {
      assert p + [w] + q == p + [w];
    }
  }

  /** A line starting with a word is at least as long as the word. */
  lemma FirstWordFits(w: string, q: seq<string>)
    ensures |Join([w] + q, " ")| >= |w|
  {
    if q != [] {
      JoinCons(w, q, " ");
    } else {
      assert [w] + q == [w];
    }
  }

  /** A canonical line without words is empty. */
  lemma NoWordsEmpty(line: string)
    requires line == Join(Words(line), " ") && Words(line) == []
    ensures line == []
  {
  }

  /** Lines that hold no words together hold none each. */
  lemma {:induction false} LinesWithoutWords(lines: seq<string>)
    requires LineWords(lines) == []
    ensures forall i :: 0 <= i < |lines| ==> Words(lines[i]) == []
  {
    if lines != [] {
      LinesWithoutWords(lines[1..]);
      assert forall i :: 1 <= i < |lines| ==> lines[i] == lines[1..][i - 1];
    }
  }

  /** A wrapping of no words has no lines. */
  lemma NoWordsNoLines(lines: seq<string>, start: nat)
    requires WrappedFrom(lines, [], start)
    ensures lines == []
  {
    LinesWithoutWords(lines);
  }

  /** Without its first line, a wrapping is one of the remaining words, numbered from the next line. */
  lemma WrappedTail(lines: seq<string>, ws: seq<string>, start: nat)
    requires WrappedFrom(lines, ws, start) && lines != []
    ensures |Words(lines[0])| <= |ws| && ws[..|Words(lines[0])|] == Words(lines[0])
    ensures WrappedFrom(lines[1..], ws[|Words(lines[0])|..], start + 1)
  {
    var tail := lines[1..];
    var n := |Words(lines[0])|;
    assert ws == Words(lines[0]) + LineWords(tail);
    assert ws[n..] == LineWords(tail);
    forall i | 0 <= i < |tail|
      ensures tail[i] == Join(Words(tail[i]), " ")
      ensures tail[i] != []
      ensures (start + 1 + i == 0 || ' ' in tail[i]) ==> Load(start + 1 + i, tail[i]) <= Width
    {
      assert tail[i] == lines[i + 1];
    }
    forall i | 0 <= i < |tail| - 1 && Words(tail[i + 1]) != []
      ensures !Fits(start + 1 + i, tail[i], Words(tail[i + 1])[0])
    {
      assert tail[i] == lines[i + 1] && tail[i + 1] == lines[i + 2];
    }
  }

  /** When words remain after the first line, the next line starts with the first of them, which did not fit. */
  lemma NextLineStarts(a: seq<string>, ws: seq<string>, start: nat)
    requires WrappedFrom(a, ws, start) && a != [] && |Words(a[0])| < |ws|
    ensures |a| > 1 && Words(a[1]) != [] && ws[|Words(a[0])|] == Words(a[1])[0]
    ensures !Fits(start, a[0], ws[|Words(a[0])|])
  {
    var n := |Words(a[0])|;
    assert ws == Words(a[0]) + LineWords(a[1..]);
    assert |a| > 1;
    assert a[1] != [];
    assert LineWords(a[1..]) == Words(a[1]) + LineWords(a[2..]);
    assert ws[n] == LineWords(a[1..])[0];
  }

  /** Putting a word and more after the words of a line raises its load by the word and a space. */
  lemma LoadGrows(start: nat, ga: seq<string>, w: string, rest: seq<string>)
    requires w != [] && (ga == [] ==> start == 0) && (ga != [] ==> ga[0] != [])
    ensures Load(start, Join(ga + [w] + rest, " ")) >= Load(start, Join(ga, " ")) + |w| + 1
    ensures ga != [] ==> ' ' in Join(ga + [w] + rest, " ")
  {
    if ga == [] {
      assert ga + [w] + rest == [w] + rest;
      FirstWordFits(w, rest);
    } else {
      var a, b := Join(ga, " "), Join(ga + [w] + rest, " ");
      LongerLine(ga, w, rest);
      JoinSnoc(ga, w, " ");
      if rest != [] {
        JoinAppend(ga + [w], rest, " ");
      } else {
        assert ga + [w] + rest == ga + [w];
      }
      assert b[|a|] == ' ';
      assert a != [] by {
        if |ga| > 1 {
          JoinCons(ga[0], ga[1..], " ");
          assert [ga[0]] + ga[1..] == ga;
        }
      }
    }
  }

  /**
   * What a wrapping tells about its first line `x`: it is in canonical form,
   * its words start `ws`, it is empty only as line 0, it keeps to the width
   * when that applies, and the next word, if any, did not fit after it.
   */
  predicate FirstLineOk(x: string, ws: seq<string>, start: nat) {
    && x == Join(Words(x), " ")
    && |Words(x)| <= |ws| && ws[..|Words(x)|] == Words(x)
    && (Words(x) == [] ==> start == 0)
    && ((start == 0 || ' ' in x) ==> Load(start, x) <= Width)
    && (|Words(x)| < |ws| ==> !Fits(start, x, ws[|Words(x)|]))
  }

  /** The first line of a wrapping meets `FirstLineOk`. */
  lemma FirstLineFacts(lines: seq<string>, ws: seq<string>, start: nat)
    requires WrappedFrom(lines, ws, start) && lines != []
    ensures FirstLineOk(lines[0], ws, start)
  {
    FirstLineWords(lines, ws, start);
    if |Words(lines[0])| < |ws| {
      NextLineStarts(lines, ws, start);
    }
    if Words(lines[0]) == [] && start > 0 {
      NoWordsEmpty(lines[0]);
    }
  }

  /** A list that starts with a shorter one continues it with its next element. */
  lemma LongerPrefix(ga: seq<string>, gb: seq<string>)
    requires |ga| < |gb| && gb[..|ga|] == ga
    ensures gb == ga + [gb[|ga|]] + gb[|ga| + 1..]
  {
    assert gb == gb[..|ga|] + [gb[|ga|]] + gb[|ga| + 1..];
  }

  /**
   * Of two first lines for the same words, the one of `x` holds at least as
   * many words as that of `y`: a word more on `y` would have had to fit
   * where it did not.
   */
  lemma FirstLineNotShorter(x: string, y: string, ws: seq<string>, start: nat)
    requires FirstLineOk(x, ws, start) && FirstLineOk(y, ws, start)
    ensures |Words(x)| >= |Words(y)|
  {
    var ga, gb := Words(x), Words(y);
    if |ga| < |gb| {
      var w := gb[|ga|];
      LongerPrefix(ga, gb);
      Overflows(start, x, y, w, gb[|ga| + 1..]);
    }
  }

  /** The words of the first line start the words of a wrapping. */
  lemma FirstLineWords(lines: seq<string>, ws: seq<string>, start: nat)
    requires WrappedFrom(lines, ws, start) && lines != []
    ensures |Words(lines[0])| <= |ws| && ws[..|Words(lines[0])|] == Words(lines[0])
  {
    assert ws == Words(lines[0]) + LineWords(lines[1..]);
  }

  /**
   * A line holding the words of a first line plus a word that did not fit
   * after them is over the width, and is a line the width applies to.
   */
  lemma Overflows(start: nat, x: string, y: string, w: string, rest: seq<string>)
    requires x == Join(Words(x), " ") && y == Join(Words(x) + [w] + rest, " ")
    requires w != [] && (Words(x) == [] ==> start == 0)
    requires !Fits(start, x, w)
    ensures (start == 0 || ' ' in y) && Load(start, y) > Width
  {
    var ga := Words(x);
    assert ga != [] ==> ga[0] != [] by {
      if ga != [] {
        assert IsWord(ga[0]);
      }
    }
    LoadGrows(start, ga, w, rest);
  }

  /** Sequences with the same first element and the same rest are equal. */
  lemma SameHeadAndTail(a: seq<string>, b: seq<string>)
    requires a != [] && b != [] && a[0] == b[0] && a[1..] == b[1..]
    ensures a == b
  {
    assert a == [a[0]] + a[1..] && b == [b[0]] + b[1..];
  }

  /** Two wrappings of the same words start with the same line. */
  lemma SameFirstLine(a: seq<string>, b: seq<string>, ws: seq<string>, start: nat)
    requires WrappedFrom(a, ws, start) && WrappedFrom(b, ws, start) && a != [] && b != []
    ensures a[0] == b[0]
  {
    FirstLineFacts(a, ws, start);
    FirstLineFacts(b, ws, start);
    FirstLineNotShorter(a[0], b[0], ws, start);
    FirstLineNotShorter(b[0], a[0], ws, start);
    var n := |Words(a[0])|;
    assert Words(a[0]) == ws[..n] == Words(b[0]);
  }

  /**
   * A wrapping is determined by its words: the greedy rule leaves no choice
   * of where to break.
   */
  lemma {:induction false} WrappedUnique(a: seq<string>, b: seq<string>, ws: seq<string>, start: nat)
    requires WrappedFrom(a, ws, start) && WrappedFrom(b, ws, start)
    ensures a == b
    decreases |a|
  {
    if ws == [] {
      NoWordsNoLines(a, start);
      NoWordsNoLines(b, start);
    } else {
      if a != [] && b != [] {
        SameFirstLine(a, b, ws, start);
        WrappedTail(a, ws, start);
        WrappedTail(b, ws, start);
        var n := |Words(a[0])|;
        WrappedUnique(a[1..], b[1..], ws[n..], start + 1);
        SameHeadAndTail(a, b);
      }
    }
  }

  /** The words of one more line follow those of the lines before it. */
  lemma {:induction false} LineWordsSnoc(lines: seq<string>, y: string)
    ensures LineWords(lines + [y]) == LineWords(lines) + Words(y)
  {
    if lines == [] {
      assert [y][1..] == [];
    } else {
      assert (lines + [y])[1..] == lines[1..] + [y];
      LineWordsSnoc(lines[1..], y);
    }
  }

  /** One more word after a space on a line in canonical form. */
  lemma AppendWord(x: string, w: string)
    requires x != [] && x == Join(Words(x), " ") && IsWord(w)
    ensures Words(x + " " + w) == Words(x) + [w]
    ensures x + " " + w == Join(Words(x) + [w], " ")
    ensures Words(x) != [] && Words(x + " " + w)[0] == Words(x)[0]
    ensures Load(0, x + " " + w) == Load(0, x) + |w| + 1
  {
    WordsAround(x, ' ', w);
    assert x + " " + w == x + [' '] + w;
    WordsOfWord(w);
    JoinSnoc(Words(x), w, " ");
  }

  /** A line of one word is in canonical form. */
  lemma OneWordLine(w: string)
    requires IsWord(w)
    ensures w == Join(Words(w), " ") && ' ' !in w && Words(w) == [w]
  {
    WordsOfWord(w);
    assert IsPySpace(' ');
  }

  /** The first word of a paragraph starts its first line, or the second line after an empty one. */
  lemma StartWrap(w: string)
    requires IsWord(w)
    ensures Fits(0, "", w) ==> Wrapped([w], [w])
    ensures !Fits(0, "", w) ==> Wrapped(["", w], [w])
  {
    OneWordLine(w);
    assert LineWords([w]) == [w] by {
      assert [w][1..] == [];
    }
    assert LineWords(["", w]) == [w] by {
      assert ["", w][1..] == [w];
      assert Words("") == [];
    }
  }

  /**
   * A word that fits goes on the last line: the result is a wrapping of the
   * words with that word added.
   */
  lemma PlaceWord(closed: seq<string>, x: string, ws: seq<string>, w: string)
    requires Wrapped(closed + [x], ws) && IsWord(w)
    requires Fits(|closed|, x, w)
    ensures Wrapped(closed + [x + " " + w], ws + [w])
  {
    var before := closed + [x];
    assert before[|closed|] == x;
    AppendWord(x, w);
    LineWordsSnoc(closed, x);
    LineWordsSnoc(closed, x + " " + w);
    PlacedLines(closed, x, ws, w);
    PlacedBreaks(closed, x, ws, w);
  }

  /** `PlaceWord`, line by line: every line keeps its shape and its width bound. */
  lemma PlacedLines(closed: seq<string>, x: string, ws: seq<string>, w: string)
    requires Wrapped(closed + [x], ws) && IsWord(w)
    requires Fits(|closed|, x, w)
    ensures var after := closed + [x + " " + w];
      forall i | 0 <= i < |after| ::
        && after[i] == Join(Words(after[i]), " ")
        && (i > 0 ==> after[i] != [])
        && ((i == 0 || ' ' in after[i]) ==> Load(i, after[i]) <= Width)
  {
    var before, after := closed + [x], closed + [x + " " + w];
    var n := |closed|;
    assert before[n] == x;
    assert x != [];
    AppendWord(x, w);
    assert Load(n, x + " " + w) == Load(n, x) + |w| + 1;
    forall i | 0 <= i < |after|
      ensures after[i] == Join(Words(after[i]), " ")
      ensures i > 0 ==> after[i] != []
      ensures (i == 0 || ' ' in after[i]) ==> Load(i, after[i]) <= Width
    {
      if i < n {
        assert after[i] == before[i];
      }
    }
  }

  /** `PlaceWord`, between lines: the first word of each later line still did not fit before it. */
  lemma PlacedBreaks(closed: seq<string>, x: string, ws: seq<string>, w: string)
    requires Wrapped(closed + [x], ws) && IsWord(w)
    requires Fits(|closed|, x, w)
    ensures var after := closed + [x + " " + w];
      forall i | 0 <= i < |after| - 1 && Words(after[i + 1]) != [] ::
        !Fits(i, after[i], Words(after[i + 1])[0])
  {
    var before, after := closed + [x], closed + [x + " " + w];
    var n := |closed|;
    assert before[n] == x;
    assert x != [];
    AppendWord(x, w);
    forall i | 0 <= i < |after| - 1 && Words(after[i + 1]) != []
      ensures !Fits(i, after[i], Words(after[i + 1])[0])
    {
      assert after[i] == before[i];
      if i + 1 < n {
        assert after[i + 1] == before[i + 1];
      }
    }
  }

  /**
   * A word that does not fit starts a new line: the result is a wrapping of
   * the words with that word added.
   */
  lemma BreakLine(closed: seq<string>, x: string, ws: seq<string>, w: string)
    requires Wrapped(closed + [x], ws) && IsWord(w)
    requires !Fits(|closed|, x, w)
    ensures Wrapped(closed + [x] + [w], ws + [w])
  {
    var before, after := closed + [x], closed + [x] + [w];
    var n := |closed|;
    assert after[n] == x && after[n + 1] == w;
    OneWordLine(w);
    LineWordsSnoc(before, w);
    forall i | 0 <= i < |after|
      ensures after[i] == Join(Words(after[i]), " ")
      ensures i > 0 ==> after[i] != []
      ensures (i == 0 || ' ' in after[i]) ==> Load(i, after[i]) <= Width
    {
      if i <= n {
        assert after[i] == before[i];
      }
    }
    forall i | 0 <= i < |after| - 1 && Words(after[i + 1]) != []
      ensures !Fits(i, after[i], Words(after[i + 1])[0])
    {
      assert after[i] == before[i];
      if i + 1 <= n {
        assert after[i + 1] == before[i + 1];
      }
    }
  }

  /**
   * The state of the loop of app.py lines 63-71 after the first `k` words:
   * the closed `lines` followed by the current line are a wrapping of those
   * words, and `lineLength` is the load of the current line.
   */
  predicate WrapState(words: seq<string>, k: nat, lines: seq<string>, current: seq<string>, lineLength: nat) {
    && k <= |words|
    && (k == 0 ==> lines == [] && current == [] && lineLength == 0)
    && (k > 0 ==> current != [] && current[0] != [])
    && (k > 0 ==> Wrapped(lines + [Join(current, " ")], words[..k]))
    && (k > 0 ==> lineLength == Load(|lines|, Join(current, " ")))
  }

  /** A round of the loop where the word fits keeps its state. */
  lemma StepPlace(words: seq<string>, k: nat, lines: seq<string>, current: seq<string>, lineLength: nat)
    requires forall j :: 0 <= j < |words| ==> IsWord(words[j])
    requires WrapState(words, k, lines, current, lineLength) && k < |words|
    requires lineLength + |words[k]| + 1 <= Width
    ensures WrapState(words, k + 1, lines, current + [words[k]], lineLength + |words[k]| + 1)
  {
    var word := words[k];
    assert words[..k + 1] == words[..k] + [word];
    if k == 0 {
      StartWrap(word);
      assert Join([word], " ") == word;
    } else {
      JoinSnoc(current, word, " ");
      PlaceWord(lines, Join(current, " "), words[..k], word);
    }
  }

  /** A round of the loop where the word does not fit keeps its state. */
  lemma StepBreak(words: seq<string>, k: nat, lines: seq<string>, current: seq<string>, lineLength: nat)
    requires forall j :: 0 <= j < |words| ==> IsWord(words[j])
    requires WrapState(words, k, lines, current, lineLength) && k < |words|
    requires lineLength + |words[k]| + 1 > Width
    ensures WrapState(words, k + 1, lines + [Join(current, " ")], [words[k]], |words[k]|)
  {
    if k == 0 {
      BreakFirst(words, current);
    } else {
      BreakLater(words, k, lines, current);
    }
  }

  /** The first `k + 1` words are the first `k` and word `k`. */
  lemma TakeOneMore(words: seq<string>, k: nat)
    requires k < |words|
    ensures words[..k + 1] == words[..k] + [words[k]]
  {
  }

  /** `StepBreak` for the first word, which then opens line two after an empty line one. */
  lemma BreakFirst(words: seq<string>, current: seq<string>)
    requires |words| > 0 && IsWord(words[0]) && current == []
    requires |words[0]| + 1 > Width
    ensures WrapState(words, 1, [Join(current, " ")], [words[0]], |words[0]|)
  {
    var word := words[0];
    assert words[..1] == [word];
    assert Join([word], " ") == word;
    StartWrap(word);
    assert Join([], " ") == "";
  }

  /** `StepBreak` for a later word, which closes the current line. */
  lemma BreakLater(words: seq<string>, k: nat, lines: seq<string>, current: seq<string>)
    requires 0 < k < |words| && IsWord(words[k])
    requires Wrapped(lines + [Join(current, " ")], words[..k])
    requires !Fits(|lines|, Join(current, " "), words[k])
    ensures Wrapped(lines + [Join(current, " ")] + [Join([words[k]], " ")], words[..k + 1])
    ensures Load(|lines| + 1, Join([words[k]], " ")) == |words[k]|
  {
    TakeOneMore(words, k);
    assert Join([words[k]], " ") == words[k];
    BreakLine(lines, Join(current, " "), words[..k], words[k]);
  }

  /**
   * The loop of app.py lines 58-76 on the words of `paragraph`: a word goes
   * on the current line while `line_length + len(word) + 1 <= 40`, otherwise
   * the current line is closed and the word starts a new one; the last line
   * is closed when it holds a word.
   */
  method WrapParagraph(paragraph: string) returns (lines: seq<string>)
    ensures Wrapped(lines, Words(paragraph))
    ensures |lines| > 0 ==> |lines[0]| < Width
    ensures forall i :: 0 < i < |lines| && ' ' in lines[i] ==> |lines[i]| <= Width
  {
    var words := Words(paragraph);
    lines := [];
    var current: seq<string> := [];
    var lineLength: nat := 0;
    var k := 0;
    while k < |words|
      invariant WrapState(words, k, lines, current, lineLength)
    {
      var word := words[k];
      if lineLength + |word| + 1 <= Width {
        StepPlace(words, k, lines, current, lineLength);
        current := current + [word];
        lineLength := lineLength + |word| + 1;
      } else {
        StepBreak(words, k, lines, current, lineLength);
        lines := lines + [Join(current, " ")];
        current := [word];
        lineLength := |word|;
      }
      k := k + 1;
    }
    WrapDone(words, lines, current, lineLength);
    if current != [] {
      lines := lines + [Join(current, " ")];
    }
  }

  /** After the last word, closing the current line (when it holds a word) completes the wrapping. */
  lemma WrapDone(words: seq<string>, lines: seq<string>, current: seq<string>, lineLength: nat)
    requires WrapState(words, |words|, lines, current, lineLength)
    ensures var done := if current != [] then lines + [Join(current, " ")] else lines;
      && Wrapped(done, words)
      && (|done| > 0 ==> |done[0]| < Width)
      && (forall i :: 0 < i < |done| && ' ' in done[i] ==> |done[i]| <= Width)
  {
    assert words[..|words|] == words;
  }

  /*
   * Properties of a wrapping
   */

  /** A joined line is at least as long as any of its words. */
  lemma {:induction false} JoinHoldsWord(g: seq<string>, j: nat)
    requires j < |g|
    ensures |Join(g, " ")| >= |g[j]|
  {
    if |g| > 1 {
      JoinCons(g[0], g[1..], " ");
      assert [g[0]] + g[1..] == g;
      if j > 0 {
        JoinHoldsWord(g[1..], j - 1);
      }
    }
  }

  /** A line of two words or more holds a space and is longer than any of its words by two at least. */
  lemma JoinOfTwo(g: seq<string>, j: nat)
    requires |g| >= 2 && j < |g| && forall k :: 0 <= k < |g| ==> g[k] != []
    ensures |Join(g, " ")| >= |g[j]| + 2 && ' ' in Join(g, " ")
  {
    JoinCons(g[0], g[1..], " ");
    assert [g[0]] + g[1..] == g;
    var rest := Join(g[1..], " ");
    JoinHoldsWord(g[1..], 0);
    assert Join(g, " ")[|g[0]|] == ' ';
    if j > 0 {
      JoinHoldsWord(g[1..], j - 1);
    }
  }

  /**
   * The first line is empty exactly when the first word has 40 characters
   * or more: such a word does not fit even on an empty first line, which is
   * then closed with nothing on it.
   */
  lemma EmptyFirstLine(lines: seq<string>, ws: seq<string>)
    requires Wrapped(lines, ws) && ws != []
    ensures lines != [] && (lines[0] == [] <==> |ws[0]| >= Width)
  {
    if lines != [] {
      WrappedTail(lines, ws, 0);
      var g := Words(lines[0]);
      if g == [] {
        NextLineStarts(lines, ws, 0);
        assert Join(g, " ") == [];
      } else {
        assert ws[0] == g[0];
        JoinHoldsWord(g, 0);
        assert Load(0, lines[0]) <= Width;
      }
    }
  }

  /**
   * A word of 39 characters or more is alone on its line: with another word
   * and a space the line would pass 40, which no line of two words may.
   */
  lemma LongWordAlone(lines: seq<string>, ws: seq<string>, i: nat, j: nat)
    requires Wrapped(lines, ws) && i < |lines| && j < |Words(lines[i])|
    requires |Words(lines[i])[j]| >= Width - 1
    ensures Words(lines[i]) == [Words(lines[i])[j]]
  {
    var g := Words(lines[i]);
    if |g| >= 2 {
      JoinOfTwo(g, j);
    }
  }

  /*
   * The whole reply (app.py lines 45-78)
   */

  /** The lines of an output paragraph: Python's `'\n'.join` of no lines is the empty text. */
  function LinesOf(q: string): seq<string> {
    if q == [] then [] else Split(q, "\n")
  }

  /** Text without a given character holds no occurrence of it. */
  lemma WithoutChar(s: string, c: char)
    requires c !in s
    ensures !Contains(s, [c])
  {
    forall j: nat | j <= |s|
      ensures !OccursAt(s, [c], j)
    {
      OccursAtChar(s, [c], j, 0);
    }
  }

  /** No two line breaks in a row, as a condition on characters. */
  predicate NoBlankLine(s: string) {
    forall k :: 0 <= k < |s| - 1 ==> !(s[k] == '\n' && s[k + 1] == '\n')
  }

  /** Without two line breaks in a row there is no "\n\n". */
  lemma NoBlankLineNoBreak(s: string)
    requires NoBlankLine(s)
    ensures !Contains(s, "\n\n")
  {
    forall j: nat | j <= |s|
      ensures !OccursAt(s, "\n\n", j)
    {
      OccursAtChar(s, "\n\n", j, 0);
      OccursAtChar(s, "\n\n", j, 1);
    }
  }

  /**
   * Lines without line breaks, all of them but the first non-empty, joined
   * with "\n" and followed by one more "\n", have no two breaks in a row.
   */
  lemma {:induction false} JoinedLinesNoBlank(lines: seq<string>)
    requires forall i :: 0 <= i < |lines| ==> '\n' !in lines[i]
    requires forall i :: 0 < i < |lines| ==> lines[i] != []
    ensures NoBlankLine(Join(lines, "\n") + "\n")
  {
    if |lines| == 1 {
      var s := lines[0] + "\n";
      forall k | 0 <= k < |s| - 1
        ensures s[k] != '\n'
      {
        assert s[k] == lines[0][k];
      }
    } else if |lines| > 1 {
      var t := Join(lines[1..], "\n") + "\n";
      JoinedLinesNoBlank(lines[1..]);
      JoinCons(lines[0], lines[1..], "\n");
      assert [lines[0]] + lines[1..] == lines;
      var s := lines[0] + "\n" + t;
      assert Join(lines, "\n") + "\n" == s;
      assert lines[1..][0] == lines[1] && lines[1] != [];
      assert t[0] != '\n' by {
        if |lines| > 2 {
          JoinCons(lines[1], lines[2..], "\n");
          assert [lines[1]] + lines[2..] == lines[1..];
        }
        assert t[0] == lines[1][0];
      }
      var n := |lines[0]|;
      forall k | 0 <= k < |s| - 1
        ensures !(s[k] == '\n' && s[k + 1] == '\n')
      {
        if k < n {
          assert s[k] == lines[0][k];
        } else if k == n {
          assert s[k + 1] == t[0];
        } else {
          assert s[k] == t[k - n - 1] && s[k + 1] == t[k - n];
        }
      }
    }
  }

  /** A line of words joined by spaces holds no line break. */
  lemma {:induction false} WordsLineNoBreak(g: seq<string>)
    requires forall j :: 0 <= j < |g| ==> IsWord(g[j])
    ensures '\n' !in Join(g, " ")
  {
    assert IsPySpace('\n');
    if |g| > 1 {
      WordsLineNoBreak(g[1..]);
      JoinCons(g[0], g[1..], " ");
      assert [g[0]] + g[1..] == g;
    }
  }

  /**
   * The text of a wrapped paragraph gives its lines back, and neither it nor
   * it followed by "\n" holds "\n\n": it stays one paragraph.
   */
  lemma WrappedText(lines: seq<string>, ws: seq<string>)
    requires Wrapped(lines, ws)
    ensures LinesOf(Join(lines, "\n")) == lines
    ensures !Contains(Join(lines, "\n") + "\n", "\n\n") && !Contains(Join(lines, "\n"), "\n\n")
  {
    WrappedLinesNoBreak(lines, ws);
    JoinedLinesNoBlank(lines);
    var q := Join(lines, "\n");
    NoBlankLineNoBreak(q + "\n");
    NoBlankLineBefore(q);
    NoBlankLineNoBreak(q);
    if lines != [] {
      LinesOfJoin(lines);
    }
  }

  /** No line of a wrapping holds a line break. */
  lemma WrappedLinesNoBreak(lines: seq<string>, ws: seq<string>)
    requires Wrapped(lines, ws)
    ensures forall i :: 0 <= i < |lines| ==> '\n' !in lines[i]
  {
    forall i | 0 <= i < |lines|
      ensures '\n' !in lines[i]
    {
      WordsLineNoBreak(Words(lines[i]));
    }
  }

  /** Dropping a final line break keeps a text free of blank lines. */
  lemma NoBlankLineBefore(q: string)
    requires NoBlankLine(q + "\n")
    ensures NoBlankLine(q)
  {
    forall k | 0 <= k < |q| - 1
      ensures !(q[k] == '\n' && q[k + 1] == '\n')
    {
      assert (q + "\n")[k] == q[k] && (q + "\n")[k + 1] == q[k + 1];
    }
  }

  /** Lines without breaks, the last one not empty, come back from their join. */
  lemma LinesOfJoin(lines: seq<string>)
    requires lines != [] && lines[|lines| - 1] != []
    requires forall i :: 0 <= i < |lines| ==> '\n' !in lines[i]
    ensures LinesOf(Join(lines, "\n")) == lines
  {
    forall i | 0 <= i < |lines|
      ensures !Contains(lines[i], "\n") && !Contains(lines[i] + "\n"[..0], "\n")
    {
      assert lines[i] + "\n"[..0] == lines[i];
      WithoutChar(lines[i], '\n');
    }
    SplitJoin(lines, "\n");
    JoinEndsWithLast(lines, "\n");
  }

  /** A join ends with its last piece, so it is not empty when that piece is not. */
  lemma {:induction false} JoinEndsWithLast(xs: seq<string>, sep: string)
    requires xs != []
    ensures |Join(xs, sep)| >= |xs[|xs| - 1]|
  {
    if |xs| > 1 {
      JoinCons(xs[0], xs[1..], sep);
      HeadAndTail(xs);
      JoinEndsWithLast(xs[1..], sep);
    }
  }

  /**
   * What becomes of one paragraph: one holding "```" is kept as it is, any
   * other becomes the greedy wrapping of its words.
   */
  predicate Reformatted(p: string, q: string) {
    if Contains(p, CodeMarker) then q == p else Wrapped(LinesOf(q), Words(p))
  }

  /** A paragraph of the result that can be found again when cut at "\n\n", after any other. */
  predicate Separable(q: string) {
    !Contains(q + "\n", "\n\n") && !Contains(q, "\n\n")
  }

  /** A paragraph of the result that stays one paragraph when it is not the paragraph `p` of the reply. */
  predicate KeepsApart(p: string, q: string) {
    q == p || Separable(q)
  }

  /** The body of the loop of app.py lines 51-76, for one paragraph. */
  method FormatParagraph(paragraph: string) returns (q: string)
    ensures Reformatted(paragraph, q)
    ensures !Contains(paragraph, CodeMarker) ==> Separable(q)
    ensures KeepsApart(paragraph, q)
    ensures !Contains(paragraph, CodeMarker) ==> Words(q) == Words(paragraph)
  {
    if Contains(paragraph, CodeMarker) {
      q := paragraph;
    } else {
      var lines := WrapParagraph(paragraph);
      WrappedText(lines, Words(paragraph));
      q := Join(lines, "\n");
      ReformattedWords(paragraph, q);
    }
  }

  /** A re-flowed paragraph has the words of the paragraph it came from, in order. */
  lemma ReformattedWords(p: string, q: string)
    requires Reformatted(p, q) && !Contains(p, CodeMarker)
    ensures Words(q) == Words(p)
  {
    if q != [] {
      assert Join(Split(q, "\n"), "\n") == q;
    }
    WordsOfLines(LinesOf(q));
  }

  /** The first `|qs|` paragraphs of the reply have been reformatted into `qs`. */
  predicate AllReformatted(text: string, qs: seq<string>) {
    var ps := Split(text, "\n\n");
    |qs| <= |ps| && forall j :: 0 <= j < |qs| ==> Reformatted(ps[j], qs[j])
  }

  /** Each of `qs` is the paragraph of the reply at its place or stays one paragraph. */
  predicate AllApart(text: string, qs: seq<string>) {
    var ps := Split(text, "\n\n");
    |qs| <= |ps| && forall j :: 0 <= j < |qs| ==> KeepsApart(ps[j], qs[j])
  }

  /** One more reformatted paragraph. */
  lemma ReformattedStep(text: string, qs: seq<string>, q: string)
    requires AllReformatted(text, qs) && |qs| < |Split(text, "\n\n")|
    requires Reformatted(Split(text, "\n\n")[|qs|], q)
    ensures AllReformatted(text, qs + [q])
  {
    var ps := Split(text, "\n\n");
    forall j | 0 <= j < |qs| + 1
      ensures Reformatted(ps[j], (qs + [q])[j])
    {
      if j < |qs| {
        assert (qs + [q])[j] == qs[j];
      }
    }
  }

  /** One more paragraph that stays apart. */
  lemma ApartStep(text: string, qs: seq<string>, q: string)
    requires AllApart(text, qs) && |qs| < |Split(text, "\n\n")|
    requires KeepsApart(Split(text, "\n\n")[|qs|], q)
    ensures AllApart(text, qs + [q])
  {
    var ps := Split(text, "\n\n");
    forall j | 0 <= j < |qs| + 1
      ensures KeepsApart(ps[j], (qs + [q])[j])
    {
      if j < |qs| {
        assert (qs + [q])[j] == qs[j];
      }
    }
  }

  /** Paragraphs that each stay one paragraph are found again when the joined result is cut. */
  lemma ParagraphsSeparate(text: string, qs: seq<string>)
    requires AllApart(text, qs) && |qs| == |Split(text, "\n\n")|
    ensures Split(Join(qs, "\n\n"), "\n\n") == qs
  {
    var ps := Split(text, "\n\n");
    assert "\n\n"[..1] == "\n";
    forall i | 0 <= i < |qs| - 1
      ensures !Contains(qs[i] + "\n\n"[..1], "\n\n")
    {
      assert KeepsApart(ps[i], qs[i]);
    }
    assert KeepsApart(ps[|qs| - 1], qs[|qs| - 1]);
    SplitJoin(qs, "\n\n");
  }

  /**
   * `format_response`: the reply cut at "\n\n" and the result cut at "\n\n"
   * have as many paragraphs, and each paragraph of the result is the
   * reformatted paragraph of the reply at the same place.
   */
  method FormatResponse(text: string) returns (formatted: string)
    ensures var ps, qs := Split(text, "\n\n"), Split(formatted, "\n\n");
      |qs| == |ps| && forall i :: 0 <= i < |ps| ==> Reformatted(ps[i], qs[i])
  {
    var paragraphs := Split(text, "\n\n");
    var formattedParagraphs: seq<string> := [];
    for i := 0 to |paragraphs|
      invariant |formattedParagraphs| == i
      invariant AllReformatted(text, formattedParagraphs)
      invariant AllApart(text, formattedParagraphs)
    {
      var q := FormatParagraph(paragraphs[i]);
      ReformattedStep(text, formattedParagraphs, q);
      ApartStep(text, formattedParagraphs, q);
      formattedParagraphs := formattedParagraphs + [q];
    }
    formatted := Join(formattedParagraphs, "\n\n");
    ParagraphsSeparate(text, formattedParagraphs);
  }
}
