/**
 * The client-side message formatter of static/script.js (`formatMessageContent`):
 * a message is cut at triple-backtick fences; plain text passes through as it is,
 * and every fenced block becomes a `<pre data-language=…><code>…</code></pre>`
 * element whose code is HTML-escaped.
 *
 * Strings are sequences of Unicode code points.
 */
module MessageFormatter {
  import opened Wrappers
  import opened Text

  /** The marker that opens and closes a code block. */
  const Fence: string := "```"

  /*
   * Whitespace as `String.prototype.trim` sees it
   */

  /**
   * ECMAScript WhiteSpace (tab, vertical tab, form feed, zero-width no-break
   * space and every space separator of Unicode) and LineTerminator (line feed,
   * carriage return, line and paragraph separator).
   */
  predicate IsJsSpace(c: char) {
    || c == '\t' || c == '\n' || c == '\U{000B}' || c == '\U{000C}' || c == '\r'
    || c == ' ' || c == '\U{00A0}' || c == '\U{1680}' || ('\U{2000}' <= c <= '\U{200A}')
    || c == '\U{2028}' || c == '\U{2029}' || c == '\U{202F}' || c == '\U{205F}'
    || c == '\U{3000}' || c == '\U{FEFF}'
  }

  /** How many whitespace code points `s` starts with. */
  function LeadingSpace(s: string): (k: nat)
    ensures k <= |s|
    ensures forall j :: 0 <= j < k ==> IsJsSpace(s[j])
    ensures k < |s| ==> !IsJsSpace(s[k])
  {
    if s == [] || !IsJsSpace(s[0]) then 0 else 1 + LeadingSpace(s[1..])
  }

  /** Where the whitespace that `s` ends with begins. */
  function TrailingSpaceStart(s: string): (k: nat)
    ensures k <= |s|
    ensures forall j :: k <= j < |s| ==> IsJsSpace(s[j])
    ensures 0 < k ==> !IsJsSpace(s[k - 1])
  {
    if s == [] || !IsJsSpace(s[|s| - 1]) then |s| else TrailingSpaceStart(s[..|s| - 1])
  }

  /** JavaScript `s.trim()`. */
  function Trim(s: string): (r: string)
    ensures r == [] || (!IsJsSpace(r[0]) && !IsJsSpace(r[|r| - 1]))
  {
    var t := s[LeadingSpace(s)..];
    t[..TrailingSpaceStart(t)]
  }

  /** `Trim` removes whitespace only, and only from the two ends. */
  lemma TrimIsInfix(s: string)
    ensures exists i, j ::
              && 0 <= i <= j <= |s| && Trim(s) == s[i..j]
              && (forall k :: 0 <= k < i ==> IsJsSpace(s[k]))
              && (forall k :: j <= k < |s| ==> IsJsSpace(s[k]))
  {
    var i := LeadingSpace(s);
    var t := s[i..];
    var j := i + TrailingSpaceStart(t);
    assert Trim(s) == s[i..j];
    assert forall k :: j <= k < |s| ==> s[k] == t[k - i];
  }

  /** A string that already starts with a non-space keeps its start: its trim is a non-empty prefix. */
  lemma TrimKeepsStart(s: string)
    requires s != [] && !IsJsSpace(s[0])
    ensures Trim(s) != [] && Trim(s) <= s
  {
    assert LeadingSpace(s) == 0;
    assert s[0..] == s;
  }

  /** A string without whitespace is its own trim. */
  lemma TrimWithoutSpace(s: string)
    requires forall k :: 0 <= k < |s| ==> !IsJsSpace(s[k])
    ensures Trim(s) == s
  {
    assert s[LeadingSpace(s)..] == s;
  }

  /** `Trim` removes exactly the whitespace around a text that neither starts nor ends with whitespace. */
  lemma TrimAround(pre: string, core: string, post: string)
    requires forall k :: 0 <= k < |pre| ==> IsJsSpace(pre[k])
    requires forall k :: 0 <= k < |post| ==> IsJsSpace(post[k])
    requires core == [] || (!IsJsSpace(core[0]) && !IsJsSpace(core[|core| - 1]))
    ensures Trim(pre + core + post) == core
  {
    var s := pre + core + post;
    var i := LeadingSpace(s);
    if core != [] {
      assert s[|pre|] == core[0];
      assert i == |pre|;
    } else {
      assert forall k :: 0 <= k < |s| ==> IsJsSpace(s[k]);
      assert i == |s|;
    }
    var t := s[i..];
    assert core != [] ==> t == core + post;
    var k := TrailingSpaceStart(t);
    if core != [] {
      assert t[|core| - 1] == core[|core| - 1];
      assert k == |core|;
    }
  }

  /** JavaScript `s.split('\n')[0]`: the text before the first line feed. */
  function FirstLine(s: string): (r: string)
    ensures r <= s && '\n' !in r
    ensures |r| < |s| ==> s[|r|] == '\n'
  {
    if s == [] || s[0] == '\n' then [] else [s[0]] + FirstLine(s[1..])
  }

  /*
   * HTML escaping of the code body
   */

  /** The replacement `formatMessageContent` uses for one character. */
  function EscapeChar(c: char): string {
    if c == '<' then "&lt;"
    else if c == '>' then "&gt;"
    else if c == '&' then "&amp;"
    else if c == '"' then "&quot;"
    else if c == '\'' then "&#39;"
    else [c]
  }

  /** `code.replace(/[<>&"']/g, …)`: every one of the five characters replaced by its entity. */
  function EscapeHtml(s: string): string {
    if s == [] then [] else EscapeChar(s[0]) + EscapeHtml(s[1..])
  }

  /** One of the five entities starts at index `i` of `t`. */
  predicate EntityAt(t: string, i: nat) {
    || OccursAt(t, "&lt;", i) || OccursAt(t, "&gt;", i) || OccursAt(t, "&amp;", i)
    || OccursAt(t, "&quot;", i) || OccursAt(t, "&#39;", i)
  }

  /** Text with no raw `<`, `>`, `"` or `'`, in which every `&` starts an entity. */
  predicate IsEscaped(t: string) {
    forall i :: 0 <= i < |t| ==> t[i] !in "<>\"'" && (t[i] == '&' ==> EntityAt(t, i))
  }

  /** Escaped texts stay escaped when put side by side. */
  lemma EscapedAppend(a: string, b: string)
    requires IsEscaped(a) && IsEscaped(b)
    ensures IsEscaped(a + b)
  {
    forall i | 0 <= i < |a + b|
      ensures (a + b)[i] !in "<>\"'" && ((a + b)[i] == '&' ==> EntityAt(a + b, i))
    {
      if i < |a| {
        if a[i] == '&' {
          EntityInLeft(a, b, i);
        }
      } else {
        var j := i - |a|;
        assert (a + b)[i] == b[j];
        if b[j] == '&' {
          EntityInRight(a, b, j);
        }
      }
    }
  }

  /** An entity in the left operand is one in the concatenation. */
  lemma EntityInLeft(a: string, b: string, i: nat)
    requires EntityAt(a, i)
    ensures EntityAt(a + b, i)
  {
    OccursInLeft(a, b, "&lt;", i);
    OccursInLeft(a, b, "&gt;", i);
    OccursInLeft(a, b, "&amp;", i);
    OccursInLeft(a, b, "&quot;", i);
    OccursInLeft(a, b, "&#39;", i);
  }

  /** An entity in the right operand is one in the concatenation, shifted. */
  lemma EntityInRight(a: string, b: string, j: nat)
    requires EntityAt(b, j)
    ensures EntityAt(a + b, |a| + j)
  {
    OccursInRight(a, b, "&lt;", j);
    OccursInRight(a, b, "&gt;", j);
    OccursInRight(a, b, "&amp;", j);
    OccursInRight(a, b, "&quot;", j);
    OccursInRight(a, b, "&#39;", j);
  }
  /** The escaped code holds no raw `<`, `>`, `"` or `'`, and every `&` in it starts an entity. */
  lemma {:induction false} EscapeHtmlIsEscaped(s: string)
    ensures IsEscaped(EscapeHtml(s))
  {
    if s != [] {
      var e := EscapeChar(s[0]);
      assert IsEscaped(e) by {
        if s[0] == '&' { assert OccursAt(e, "&amp;", 0); }
        else if s[0] == '<' { assert OccursAt(e, "&lt;", 0); }
        else if s[0] == '>' { assert OccursAt(e, "&gt;", 0); }
        else if s[0] == '"' { assert OccursAt(e, "&quot;", 0); }
        else if s[0] == '\'' { assert OccursAt(e, "&#39;", 0); }
      }
      EscapeHtmlIsEscaped(s[1..]);
      EscapedAppend(e, EscapeHtml(s[1..]));
    }
  }

  /** Put `c` in front of a decoded text, if there is one. */
  function Prepend(c: char, r: Option<string>): Option<string> {
    match r
    case None => None
    case Some(s) => Some([c] + s)
  }

  /** The inverse of `EscapeHtml`: decodes the five entities, refuses raw markup characters. */
  function UnescapeHtml(t: string): Option<string>
    decreases |t|
  {
    if t == [] then Some([])
    else if StartsWith(t, "&lt;") then Prepend('<', UnescapeHtml(t[4..]))
    else if StartsWith(t, "&gt;") then Prepend('>', UnescapeHtml(t[4..]))
    else if StartsWith(t, "&amp;") then Prepend('&', UnescapeHtml(t[5..]))
    else if StartsWith(t, "&quot;") then Prepend('"', UnescapeHtml(t[6..]))
    else if StartsWith(t, "&#39;") then Prepend('\'', UnescapeHtml(t[5..]))
    else if t[0] in "<>&\"'" then None
    else Prepend(t[0], UnescapeHtml(t[1..]))
  }

  /** Escaping loses nothing: the code can be decoded back from the markup. */
  lemma {:induction false} UnescapeEscape(s: string)
    ensures UnescapeHtml(EscapeHtml(s)) == Some(s)
  {
    if s != [] {
      UnescapeEscape(s[1..]);
      UnescapeEscapedChar(s[0], EscapeHtml(s[1..]));
      assert [s[0]] + s[1..] == s;
    }
  }

  /** Decoding one escaped character in front of the rest. */
  lemma UnescapeEscapedChar(c: char, t: string)
    ensures UnescapeHtml(EscapeChar(c) + t) == Prepend(c, UnescapeHtml(t))
  {
    if c == '<' {
      UnescapeLt(t);
    } else if c == '>' {
      UnescapeGt(t);
    } else if c == '&' {
      UnescapeAmp(t);
    } else if c == '"' {
      UnescapeQuot(t);
    } else if c == '\'' {
      UnescapeApos(t);
    } else {
      UnescapePlain(c, t);
    }
  }

  /** Decoding `&lt;` in front of the rest. */
  lemma UnescapeLt(t: string)
    ensures UnescapeHtml("&lt;" + t) == Prepend('<', UnescapeHtml(t))
  {
    var x := "&lt;" + t;
    assert x[..4] == "&lt;" && x[4..] == t;
  }

  /** Decoding `&gt;` in front of the rest. */
  lemma UnescapeGt(t: string)
    ensures UnescapeHtml("&gt;" + t) == Prepend('>', UnescapeHtml(t))
  {
    var x := "&gt;" + t;
    assert x[..4] == "&gt;" && x[4..] == t;
    assert x[1] == 'g';
    SecondCharDiffers(x, "&lt;");
  }

  /** Decoding `&amp;` in front of the rest. */
  lemma UnescapeAmp(t: string)
    ensures UnescapeHtml("&amp;" + t) == Prepend('&', UnescapeHtml(t))
  {
    var x := "&amp;" + t;
    assert x[..5] == "&amp;" && x[5..] == t;
    assert x[1] == 'a';
    SecondCharDiffers(x, "&lt;");
    SecondCharDiffers(x, "&gt;");
  }

  /** Decoding `&quot;` in front of the rest. */
  lemma UnescapeQuot(t: string)
    ensures UnescapeHtml("&quot;" + t) == Prepend('"', UnescapeHtml(t))
  {
    var x := "&quot;" + t;
    assert x[..6] == "&quot;" && x[6..] == t;
    assert x[1] == 'q';
    SecondCharDiffers(x, "&lt;");
    SecondCharDiffers(x, "&gt;");
    SecondCharDiffers(x, "&amp;");
  }

  /** Decoding `&#39;` in front of the rest. */
  lemma UnescapeApos(t: string)
    ensures UnescapeHtml("&#39;" + t) == Prepend('\'', UnescapeHtml(t))
  {
    var x := "&#39;" + t;
    assert x[..5] == "&#39;" && x[5..] == t;
    assert x[1] == '#';
    SecondCharDiffers(x, "&lt;");
    SecondCharDiffers(x, "&gt;");
    SecondCharDiffers(x, "&amp;");
    SecondCharDiffers(x, "&quot;");
  }

  /** Decoding a character that is not escaped in front of the rest. */
  lemma UnescapePlain(c: char, t: string)
    requires c !in "<>&\"'"
    ensures UnescapeHtml([c] + t) == Prepend(c, UnescapeHtml(t))
  {
    var x := [c] + t;
    assert x[0] == c && x[1..] == t;
    FirstCharDiffers(x, "&lt;");
    FirstCharDiffers(x, "&gt;");
    FirstCharDiffers(x, "&amp;");
    FirstCharDiffers(x, "&quot;");
    FirstCharDiffers(x, "&#39;");
  }

  /** Text whose second character differs from that of `p` does not start with `p`. */
  lemma SecondCharDiffers(x: string, p: string)
    requires |x| >= 2 && |p| >= 2 && x[1] != p[1]
    ensures !StartsWith(x, p)
  {
    if |p| <= |x| {
      assert x[..|p|][1] == x[1];
    }
  }

  /** Text whose first character differs from that of `p` does not start with `p`. */
  lemma FirstCharDiffers(x: string, p: string)
    requires x != [] && p != [] && x[0] != p[0]
    ensures !StartsWith(x, p)
  {
  }

  /** Two codes that escape to the same markup are the same code. */
  lemma EscapeHtmlInjective(a: string, b: string)
    requires EscapeHtml(a) == EscapeHtml(b)
    ensures a == b
  {
    UnescapeEscape(a);
    UnescapeEscape(b);
  }

  /*
   * One fenced part: language tag and code
   */

  /** JavaScript `part.slice(3, -3)`: empty when the part is shorter than six characters. */
  function FenceBody(part: string): string {
    if |part| >= 6 then part[3..|part| - 3] else ""
  }

  /** A fenced block taken apart: its language tag ("" for none) and its code. */
  datatype CodeBlock = CodeBlock(language: string, code: string)

  /** The trimmed first line of a trimmed body is a prefix of it, and is empty only for an empty body. */
  lemma FirstLineTag(body: string)
    requires body == [] || !IsJsSpace(body[0])
    ensures Trim(FirstLine(body)) <= body
    ensures Trim(FirstLine(body)) == [] <==> body == []
  {
    if body != [] {
      var line := FirstLine(body);
      assert line != [] && line[0] == body[0];
      TrimKeepsStart(line);
    }
  }

  /**
   * Lines 67-69 of `formatMessageContent`, on the trimmed body: its trimmed
   * first line is the language when that line holds no ' ' (other whitespace,
   * a tab for one, is not looked at), and the code is then the rest of the
   * body, trimmed; otherwise there is no language and the code is the whole body.
   */
  function SplitTag(body: string): (b: CodeBlock)
    requires body == [] || !IsJsSpace(body[0])
    ensures ' ' !in b.language && '\n' !in b.language
    ensures b.language == [] ==> b.code == body
    ensures b.language != [] ==> b.language <= body && b.code == Trim(body[|b.language|..])
    ensures b.language != [] ==> b.language == Trim(FirstLine(body))
    ensures b.language != [] <==> body != [] && ' ' !in Trim(FirstLine(body))
  {
    var firstLine := Trim(FirstLine(body));
    FirstLineTag(body);
    assert Trim(FirstLine(body)) <= FirstLine(body) by {
      if body != [] {
        TrimKeepsStart(FirstLine(body));
      }
    }
    var language := if ' ' in firstLine then "" else firstLine;
    var code := if language != [] then Trim(body[|language|..]) else body;
    CodeBlock(language, code)
  }

  /** Lines 66-69: strip the fences, trim, then split off the language tag. */
  function ParseFence(part: string): CodeBlock {
    SplitTag(Trim(FenceBody(part)))
  }

  /** A block whose body is one token gets that token as language and an empty code ("```foo```"). */
  lemma OneTokenBlock(token: string)
    requires token != [] && forall k :: 0 <= k < |token| ==> !IsJsSpace(token[k])
    ensures ParseFence(Fence + token + Fence) == CodeBlock(token, "")
  {
    var part := Fence + token + Fence;
    assert FenceBody(part) == token;
    TrimWithoutSpace(token);
    assert '\n' !in token by {
      assert IsJsSpace('\n');
    }
    FirstLineWithoutBreak(token);
    assert token[|token|..] == [];
  }

  lemma FirstLineWithoutBreak(s: string)
    requires '\n' !in s
    ensures FirstLine(s) == s
  {
  }

  /** The first line is everything before the first line feed. */
  lemma {:induction false} FirstLineBeforeBreak(line: string, rest: string)
    requires '\n' !in line
    ensures FirstLine(line + "\n" + rest) == line
  {
    if line != [] {
      assert (line + "\n" + rest)[1..] == line[1..] + "\n" + rest;
      FirstLineBeforeBreak(line[1..], rest);
      assert [line[0]] + line[1..] == line;
    }
  }

  /** The trimmed body of a block written as fence, tag, line feed, code, line feed, fence. */
  lemma TaggedBody(language: string, code: string)
    requires language != [] && forall k :: 0 <= k < |language| ==> !IsJsSpace(language[k])
    requires code == [] || (!IsJsSpace(code[0]) && !IsJsSpace(code[|code| - 1]))
    ensures Trim(FenceBody(Fence + language + "\n" + code + "\n" + Fence))
      == if code == [] then language else language + "\n" + code
  {
    var inner := language + "\n" + code + "\n";
    assert FenceBody(Fence + language + "\n" + code + "\n" + Fence) == inner;
    assert IsJsSpace('\n');
    if code == [] {
      assert inner == [] + language + "\n\n";
      TrimAround([], language, "\n\n");
    } else {
      assert inner == [] + (language + "\n" + code) + "\n";
      TrimAround([], language + "\n" + code, "\n");
    }
  }

  /**
   * A block written as fence, language tag, line feed, code, line feed, fence
   * parses back into that tag and that code, when the tag holds no whitespace
   * and the code neither starts nor ends with whitespace.
   */
  lemma TaggedBlockRoundTrip(language: string, code: string)
    requires language != [] && forall k :: 0 <= k < |language| ==> !IsJsSpace(language[k])
    requires code == [] || (!IsJsSpace(code[0]) && !IsJsSpace(code[|code| - 1]))
    ensures ParseFence(Fence + language + "\n" + code + "\n" + Fence) == CodeBlock(language, code)
  {
    TaggedBody(language, code);
    TrimWithoutSpace(language);
    assert IsJsSpace(' ');
    if code == [] {
      SplitTagOfTag(language);
    } else {
      SplitTagOfTaggedCode(language, code);
    }
  }

  /** A body that is one tag gives that tag and no code. */
  lemma SplitTagOfTag(language: string)
    requires language != [] && forall k :: 0 <= k < |language| ==> !IsJsSpace(language[k])
    ensures SplitTag(language) == CodeBlock(language, "")
  {
    assert IsJsSpace('\n') && IsJsSpace(' ');
    FirstLineWithoutBreak(language);
    TrimWithoutSpace(language);
    assert language[|language|..] == [];
    assert Trim([]) == [];
  }

  /** A tag, a line feed and trimmed code give that tag and that code. */
  lemma SplitTagOfTaggedCode(language: string, code: string)
    requires language != [] && forall k :: 0 <= k < |language| ==> !IsJsSpace(language[k])
    requires code != [] && !IsJsSpace(code[0]) && !IsJsSpace(code[|code| - 1])
    ensures SplitTag(language + "\n" + code) == CodeBlock(language, code)
  {
    var body := language + "\n" + code;
    TaggedFirstLine(language, code);
    TrimAfterBreak(code);
    var b := SplitTag(body);
    assert b.language == language;
  }

  /** The first line of a tag, a line feed and code is the tag, which holds no ' '. */
  lemma TaggedFirstLine(language: string, code: string)
    requires language != [] && forall k :: 0 <= k < |language| ==> !IsJsSpace(language[k])
    ensures var body := language + "\n" + code;
      && body[0] == language[0] && Trim(FirstLine(body)) == language && ' ' !in language
      && body[|language|..] == "\n" + code
  {
    assert IsJsSpace(' ');
    FirstLineBeforeBreak(language, code);
    TrimWithoutSpace(language);
  }

  /** Trimming a line feed in front of trimmed code gives the code. */
  lemma TrimAfterBreak(code: string)
    requires code != [] && !IsJsSpace(code[0]) && !IsJsSpace(code[|code| - 1])
    ensures Trim("\n" + code) == code
  {
    assert IsJsSpace('\n');
    TrimAround("\n", code, []);
    assert "\n" + code + [] == "\n" + code;
  }

  /**
   * A part of at most six characters has an empty body: no language and no
   * code (for six characters `slice(3, -3)` is the empty middle).
   */
  lemma ShortPartIsEmpty(part: string)
    requires |part| <= 6
    ensures ParseFence(part) == CodeBlock("", "")
  {
    assert FenceBody(part) == "";
    assert Trim("") == "";
    assert SplitTag("").code == "";
  }

  /** Line 79: the element a code block renders to; the language goes in unescaped. */
  function RenderBlock(b: CodeBlock): string {
    "<pre data-language=\"" + b.language + "\"><code>" + EscapeHtml(b.code) + "</code></pre>"
  }

  /** The rendered block is the fixed opening, the language as it is, the escaped code and the fixed closing. */
  lemma RenderBlockShape(b: CodeBlock)
    ensures var r := RenderBlock(b);
      && var open := "<pre data-language=\"";
      && var mid := "\"><code>";
      && var close := "</code></pre>";
      && r[..|open|] == open
      && r[|open|..|open| + |b.language|] == b.language
      && r[|open| + |b.language|..|open| + |b.language| + |mid|] == mid
      && IsEscaped(r[|open| + |b.language| + |mid|..|r| - |close|])
      && UnescapeHtml(r[|open| + |b.language| + |mid|..|r| - |close|]) == Some(b.code)
      && r[|r| - |close|..] == close
  {
    var open, mid, close := "<pre data-language=\"", "\"><code>", "</code></pre>";
    var r := RenderBlock(b);
    var e := EscapeHtml(b.code);
    assert r == open + b.language + mid + e + close;
    assert r[|open| + |b.language| + |mid|..|r| - |close|] == e;
    EscapeHtmlIsEscaped(b.code);
    UnescapeEscape(b.code);
  }

  /*
   * Splitting a message at its fences
   */

  /**
   * A fenced part as the lazy pattern ```[\s\S]*?``` matches it: an opening
   * fence, then the shortest text up to the next fence that starts at least
   * three characters later.
   */
  predicate IsFenced(f: string) {
    && |f| >= 6 && StartsWith(f, Fence) && OccursAt(f, Fence, |f| - 3)
    && forall j: nat :: 3 <= j < |f| - 3 ==> !OccursAt(f, Fence, j)
  }

  /** No fence in `t` has another fence starting three or more places after it: the pattern cannot match in `t`. */
  ghost predicate Unclosed(t: string) {
    forall p: nat, q: nat :: OccursAt(t, Fence, p) && OccursAt(t, Fence, q) ==> q < p + 3
  }

  /**
   * What `split` with a capturing group returns: plain text and fenced parts
   * alternating, starting and ending with plain text. No fence begins inside a
   * plain part that is followed by a fenced one (so the match found is the
   * leftmost), and the last plain part holds no complete fenced block.
   */
  ghost predicate IsFenceSplit(parts: seq<string>) {
    && |parts| % 2 == 1
    && (forall i :: 0 <= i < |parts| - 1 && i % 2 == 0 ==> !Contains(parts[i] + "``", Fence))
    && (forall i :: 0 <= i < |parts| && i % 2 == 1 ==> IsFenced(parts[i]))
    && Unclosed(parts[|parts| - 1])
  }

  /** The fenced part found at `p`, closing at `q`, is one lazy match. */
  lemma FencedSlice(s: string, p: nat, q: nat)
    requires p + 3 <= q && q + 3 <= |s|
    requires OccursAt(s, Fence, p) && OccursAt(s, Fence, q)
    requires forall j: nat :: p + 3 <= j < q ==> !OccursAt(s, Fence, j)
    ensures IsFenced(s[p..q + 3])
  {
    var f := s[p..q + 3];
    OccursInSlice(s, Fence, p, q + 3, 0);
    OccursInSlice(s, Fence, p, q + 3, q - p);
    forall j: nat | 3 <= j < |f| - 3
      ensures !OccursAt(f, Fence, j)
    {
      OccursInSlice(s, Fence, p, q + 3, j);
    }
  }

  /** Concatenation of the first two parts in front of the rest. */
  lemma ConcatCons2(a: string, f: string, rest: seq<string>)
    requires |rest| >= 1
    ensures Concat([a, f] + rest) == a + f + Concat(rest)
  {
    assert [a, f] + rest == [a] + ([f] + rest);
    JoinCons(f, rest, "");
    JoinCons(a, [f] + rest, "");
  }

  /** Putting a plain part and a fenced part in front of a split gives a split, and only so. */
  lemma FenceSplitCons(a: string, f: string, rest: seq<string>)
    ensures IsFenceSplit([a, f] + rest) <==>
      !Contains(a + "``", Fence) && IsFenced(f) && IsFenceSplit(rest)
  {
    var parts := [a, f] + rest;
    assert forall i :: 2 <= i < |parts| ==> parts[i] == rest[i - 2];
    if IsFenceSplit(parts) {
      assert forall i :: 0 <= i < |rest| ==> rest[i] == parts[i + 2];
      assert !Contains(parts[0] + "``", Fence);
      assert IsFenced(parts[1]);
    }
  }

  /** When the leftmost fence, at `p`, has no fence three or more places later, nothing in `s` matches. */
  lemma UnclosedFromFind(s: string, p: nat)
    requires Find(s, Fence, 0) == Some(p) && Find(s, Fence, p + 3).None?
    ensures Unclosed(s)
  {
  }

  /** The two searches of `SplitFences` cut `s` into a plain part, one fenced part and the rest. */
  lemma SplitStep(s: string, p: nat, q: nat, rest: seq<string>)
    requires Find(s, Fence, 0) == Some(p) && Find(s, Fence, p + 3) == Some(q)
    requires Concat(rest) == s[q + 3..] && IsFenceSplit(rest)
    ensures Concat([s[..p], s[p..q + 3]] + rest) == s
    ensures IsFenceSplit([s[..p], s[p..q + 3]] + rest)
  {
    SplitStepConcat(s, p, q, rest);
    SplitStepParts(s, p, q);
    FenceSplitCons(s[..p], s[p..q + 3], rest);
  }

  /** The three pieces of one step concatenate to `s`. */
  lemma SplitStepConcat(s: string, p: nat, q: nat, rest: seq<string>)
    requires p <= q + 3 <= |s| && |rest| >= 1 && Concat(rest) == s[q + 3..]
    ensures Concat([s[..p], s[p..q + 3]] + rest) == s
  {
    ConcatCons2(s[..p], s[p..q + 3], rest);
    assert s[..p] + s[p..q + 3] + s[q + 3..] == s;
  }

  /** The plain part of one step holds no early fence, and the fenced part is one lazy match. */
  lemma SplitStepParts(s: string, p: nat, q: nat)
    requires Find(s, Fence, 0) == Some(p) && Find(s, Fence, p + 3) == Some(q)
    ensures q + 3 <= |s| && !Contains(s[..p] + "``", Fence) && IsFenced(s[p..q + 3])
  {
    LeftmostPrefix(s, Fence, p);
    assert Fence[..2] == "``";
    FencedSlice(s, p, q);
  }

  /**
   * JavaScript `content.split(/(```[\s\S]*?```)/g)`. The regex matches at the
   * leftmost fence that has a second fence at least three characters later,
   * and ends after the earliest such second fence; since a later fence sees
   * only fences that the leftmost one sees as well, it suffices to look at the
   * leftmost fence: when it has no closing fence, nothing in the rest matches.
   */
  function SplitFences(s: string): (parts: seq<string>)
    decreases |s|
    ensures Concat(parts) == s
    ensures IsFenceSplit(parts)
  {
    match Find(s, Fence, 0)
    case None => [s]
    case Some(p) =>
      match Find(s, Fence, p + 3)
      case None => UnclosedFromFind(s, p); [s]
      case Some(q) =>
        var rest := SplitFences(s[q + 3..]);
        SplitStep(s, p, q, rest);
        [s[..p], s[p..q + 3]] + rest
  }

  /** A one-part split: `s` holds no complete block, and the split returns it whole. */
  lemma SplitFencesOfUnclosed(s: string)
    requires Unclosed(s)
    ensures SplitFences(s) == [s]
  {
    match Find(s, Fence, 0)
    case None =>
    case Some(p) =>
      assert Find(s, Fence, p + 3).None?;
  }

  /** The first search of `SplitFences` on `a + f + …` finds the start of the fenced part `f`. */
  lemma FindsOpening(a: string, f: string, r: string)
    requires !Contains(a + "``", Fence) && IsFenced(f)
    ensures Find(a + f + r, Fence, 0) == Some(|a|)
  {
    var s := a + f + r;
    var tail := f + r;
    assert s == a + tail;
    assert StartsWith(tail, Fence) by {
      assert tail[..3] == f[..3];
    }
    assert Fence[..2] == "``";
    NoEarlyOccurrence(a, Fence, tail);
    OccursInRight(a, tail, Fence, 0);
    FindIs(s, Fence, 0, |a|);
  }

  /** The middle operand of a concatenation, sliced back out. */
  lemma MiddleSlice(a: string, f: string, r: string)
    ensures (a + f + r)[|a|..|a| + |f|] == f
  {
    assert (a + f + r)[|a|..|a| + |f|] == (a + f)[|a|..];
  }

  /** The second search of `SplitFences` on `a + f + …` finds the end of the fenced part `f`. */
  lemma FindsClosing(a: string, f: string, r: string)
    requires IsFenced(f)
    ensures Find(a + f + r, Fence, |a| + 3) == Some(|a| + |f| - 3)
  {
    ClosingOccurrence(a, f, r);
    NothingBeforeClosing(a, f, r);
    FindIs(a + f + r, Fence, |a| + 3, |a| + |f| - 3);
  }

  /** The closing fence of `f` is an occurrence in `a + f + r`. */
  lemma ClosingOccurrence(a: string, f: string, r: string)
    requires IsFenced(f)
    ensures OccursAt(a + f + r, Fence, |a| + |f| - 3)
  {
    MiddleSlice(a, f, r);
    OccursInSlice(a + f + r, Fence, |a|, |a| + |f|, |f| - 3);
  }

  /** Between the fences of `f`, `a + f + r` holds no occurrence. */
  lemma NothingBeforeClosing(a: string, f: string, r: string)
    requires IsFenced(f)
    ensures forall j: nat :: |a| + 3 <= j < |a| + |f| - 3 ==> !OccursAt(a + f + r, Fence, j)
  {
    var s := a + f + r;
    MiddleSlice(a, f, r);
    forall j: nat | |a| + 3 <= j < |a| + |f| - 3
      ensures !OccursAt(s, Fence, j)
    {
      OccursInSlice(s, Fence, |a|, |a| + |f|, j - |a|);
    }
  }

  /**
   * The split is the only decomposition with those properties: any list of
   * parts that alternates like `IsFenceSplit` says and concatenates to `s` is
   * what `SplitFences(s)` returns.
   */
  lemma {:induction false} SplitFencesUnique(s: string, parts: seq<string>)
    requires Concat(parts) == s && IsFenceSplit(parts)
    ensures SplitFences(s) == parts
    decreases |parts|
  {
    if |parts| == 1 {
      SplitFencesOfUnclosed(s);
    } else {
      var a, f, rest := parts[0], parts[1], parts[2..];
      assert parts == [a, f] + rest;
      ConcatCons2(a, f, rest);
      FenceSplitCons(a, f, rest);
      FindsOpening(a, f, Concat(rest));
      FindsClosing(a, f, Concat(rest));
      var q := |a| + |f| - 3;
      assert s[..|a|] == a;
      assert s[|a|..q + 3] == f;
      assert s[q + 3..] == Concat(rest);
      SplitFencesUnique(Concat(rest), rest);
    }
  }

  /*
   * The whole formatter
   */

  /** Line 62: a part that does not start with a fence is returned as it is; one that does is rendered as code. */
  function RenderPart(part: string): string {
    if StartsWith(part, Fence) then RenderBlock(ParseFence(part)) else part
  }

  /** `parts.map(…).join('')`. */
  function RenderAll(parts: seq<string>): string {
    if parts == [] then "" else RenderPart(parts[0]) + RenderAll(parts[1..])
  }

  /** `formatMessageContent(content)` of static/script.js. */
  function FormatMessageContent(content: string): string {
    if !Contains(content, Fence) then content else RenderAll(SplitFences(content))
  }

  /** Rendering parts none of which starts with a fence gives their concatenation. */
  lemma {:induction false} RenderAllPlain(parts: seq<string>)
    requires forall i :: 0 <= i < |parts| ==> !StartsWith(parts[i], Fence)
    ensures RenderAll(parts) == Concat(parts)
  {
    if |parts| == 1 {
      assert parts[1..] == [];
    } else if |parts| > 1 {
      RenderAllPlain(parts[1..]);
      JoinCons(parts[0], parts[1..], "");
      assert parts == [parts[0]] + parts[1..];
    }
  }

  /**
   * Without a fence the message comes back unchanged, and the general path
   * (split, render, join) agrees with the early return of lines 56-58.
   */
  lemma FormatWithoutFence(s: string)
    requires !Contains(s, Fence)
    ensures FormatMessageContent(s) == s
    ensures RenderAll(SplitFences(s)) == s
  {
    SplitFencesOfUnclosed(s);
    RenderAllPlain([s]);
  }

  /**
   * Plain parts are emitted verbatim: every part of the split at an even
   * position other than the last does not start with a fence, so it is not
   * touched, and every part at an odd position is rendered as a code block.
   */
  lemma PartsRendering(s: string, i: nat)
    requires i < |SplitFences(s)|
    ensures var parts := SplitFences(s);
      && (i % 2 == 0 && i < |parts| - 1 ==> RenderPart(parts[i]) == parts[i])
      && (i % 2 == 1 ==> RenderPart(parts[i]) == RenderBlock(ParseFence(parts[i])))
  {
    var parts := SplitFences(s);
    if i % 2 == 0 && i < |parts| - 1 {
      var x := parts[i];
      assert !Contains(x + "``", Fence);
      OccursInLeft(x, "``", Fence, 0);
    }
  }

  /** A fence, text that holds no fence, and a fence form one lazy match. */
  lemma FencedBlock(inner: string)
    requires !Contains(inner + "``", Fence)
    ensures IsFenced(Fence + inner + Fence)
  {
    var block := Fence + inner + Fence;
    var w := inner + "``";
    assert block == Fence + w + "`";
    assert block[|block| - 3..] == Fence;
    forall j: nat | 3 <= j < |block| - 3
      ensures !OccursAt(block, Fence, j)
    {
      OccursInSlice(block, Fence, 3, |block| - 1, j - 3);
      assert block[3..|block| - 1] == w;
    }
  }

  /** The split of one complete block between plain text. */
  lemma SplitOneBlock(pre: string, inner: string, post: string)
    requires !Contains(pre + "``", Fence)
    requires !Contains(inner + "``", Fence)
    requires Unclosed(post)
    ensures var block := Fence + inner + Fence;
      && SplitFences(pre + block + post) == [pre, block, post]
      && Contains(pre + block + post, Fence)
  {
    var block := Fence + inner + Fence;
    var s := pre + block + post;
    FencedBlock(inner);
    var parts := [pre, block, post];
    assert [pre, block] + [post] == parts;
    assert Concat(parts) == s by {
      ConcatCons2(pre, block, [post]);
    }
    assert IsFenceSplit(parts) by {
      assert IsFenceSplit([post]);
      FenceSplitCons(pre, block, [post]);
    }
    SplitFencesUnique(s, parts);
    FindsOpening(pre, block, post);
  }

  lemma RenderAllThree(a: string, b: string, c: string)
    ensures RenderAll([a, b, c]) == RenderPart(a) + RenderPart(b) + RenderPart(c)
  {
    assert [a, b, c][1..] == [b, c];
    assert [b, c][1..] == [c];
    assert [c][1..] == [];
    assert RenderAll([c]) == RenderPart(c) + "";
  }

  /**
   * One complete block between plain text: `pre` holds no fence (not even one
   * completed by the block's opening backticks), the block's inner text holds
   * none, and `post` neither starts with a fence nor holds a complete block.
   * The output is `pre`, the rendered block and `post`, in that order.
   */
  lemma FormatOneBlock(pre: string, inner: string, post: string)
    requires !Contains(pre + "``", Fence)
    requires !Contains(inner + "``", Fence)
    requires Unclosed(post) && !StartsWith(post, Fence)
    ensures var block := Fence + inner + Fence;
      FormatMessageContent(pre + block + post) == pre + RenderBlock(ParseFence(block)) + post
  {
    var block := Fence + inner + Fence;
    SplitOneBlock(pre, inner, post);
    RenderAllThree(pre, block, post);
    OccursInLeft(pre, "``", Fence, 0);
    assert StartsWith(block, Fence);
  }

  /*
   * Consequences for particular messages
   */

  /** Escaping leaves text without any of the five characters as it is. */
  lemma {:induction false} EscapeWithoutMarkup(s: string)
    requires forall k :: 0 <= k < |s| ==> s[k] !in "<>&\"'"
    ensures EscapeHtml(s) == s
  {
    if s != [] {
      EscapeWithoutMarkup(s[1..]);
      assert [s[0]] + s[1..] == s;
    }
  }

  /** Every occurrence of the fence covers three backticks. */
  lemma FenceChars(s: string, j: nat)
    ensures OccursAt(s, Fence, j) ==> s[j] == '`' && s[j + 1] == '`' && s[j + 2] == '`'
  {
    OccursAtChar(s, Fence, j, 0);
    OccursAtChar(s, Fence, j, 1);
    OccursAtChar(s, Fence, j, 2);
  }

  /** Text without backticks, followed by two backticks, holds no fence and no block. */
  lemma NoFenceBeforeTicks(x: string)
    requires '`' !in x
    ensures !Contains(x + "``", Fence) && Unclosed(x) && !StartsWith(x, Fence)
  {
    var w := x + "``";
    forall j: nat | j <= |w|
      ensures !OccursAt(w, Fence, j)
    {
      FenceChars(w, j);
      if j < |x| {
        assert w[j] == x[j];
      }
    }
    forall j: nat
      ensures !OccursAt(x, Fence, j)
    {
      FenceChars(x, j);
    }
  }

  /** In `x + Fence + y`, with no backtick in `x` or `y`, the backticks are exactly the fence's. */
  lemma BacktickPosition(x: string, y: string, k: nat)
    requires '`' !in x && '`' !in y && k < |x| + 3 + |y|
    ensures (x + Fence + y)[k] == '`' ==> |x| <= k < |x| + 3
  {
    var s := x + Fence + y;
    if k < |x| {
      assert s[k] == x[k];
    } else if k >= |x| + 3 {
      assert s[k] == y[k - |x| - 3];
    }
  }

  /** The only fence in `x + Fence + y`, when `x` and `y` hold no backtick, is the one between them. */
  lemma OnlyFence(x: string, y: string, j: nat)
    requires '`' !in x && '`' !in y
    ensures OccursAt(x + Fence + y, Fence, j) ==> j == |x|
  {
    var s := x + Fence + y;
    FenceChars(s, j);
    if OccursAt(s, Fence, j) {
      BacktickPosition(x, y, j);
      BacktickPosition(x, y, j + 2);
    }
  }

  /**
   * A lone fence with no closing one (as in "text ```abc"): the whole message
   * is one part. It comes back unchanged when text precedes the fence, and is
   * rendered as one code block when the message starts with the fence.
   */
  lemma DanglingFence(x: string, y: string)
    requires '`' !in x && '`' !in y
    ensures FormatMessageContent(x + Fence + y)
      == if x == [] then RenderBlock(ParseFence(Fence + y)) else x + Fence + y
  {
    var s := x + Fence + y;
    assert Unclosed(s) by {
      forall p: nat, q: nat | OccursAt(s, Fence, p) && OccursAt(s, Fence, q)
        ensures q < p + 3
      {
        OnlyFence(x, y, p);
        OnlyFence(x, y, q);
      }
    }
    SplitFencesOfUnclosed(s);
    assert s[|x|..|x| + 3] == Fence;
    assert OccursAt(s, Fence, |x|);
    assert RenderAll([s]) == RenderPart(s) + "";
    if x != [] {
      FenceChars(s, 0);
      BacktickPosition(x, y, 0);
    } else {
      assert s == Fence + y;
      assert s[..3] == Fence;
    }
  }

  /**
   * A message made of a fence and at most three characters after it (as in
   * "```abc") shows an empty block with no language.
   */
  lemma ShortDanglingFence(y: string)
    requires '`' !in y && |y| <= 3
    ensures FormatMessageContent(Fence + y) == "<pre data-language=\"\"><code></code></pre>"
  {
    var part := Fence + y;
    assert [] + Fence + y == part;
    DanglingFence([], y);
    ShortPartIsEmpty(part);
    EmptyBlockMarkup();
  }

  /** An empty block with no language renders as the bare element. */
  lemma EmptyBlockMarkup()
    ensures RenderBlock(CodeBlock("", "")) == "<pre data-language=\"\"><code></code></pre>"
  {
    assert EscapeHtml("") == "";
  }

  /** Texts without backticks around a tagged block meet the conditions of `FormatOneBlock`. */
  lemma TaggedPartsWithoutFence(pre: string, language: string, code: string, post: string)
    requires '`' !in pre && '`' !in language && '`' !in code && '`' !in post
    ensures var inner := language + "\n" + code + "\n";
      && !Contains(pre + "``", Fence) && !Contains(inner + "``", Fence)
      && Unclosed(post) && !StartsWith(post, Fence)
  {
    var inner := language + "\n" + code + "\n";
    assert '`' !in inner;
    NoFenceBeforeTicks(pre);
    NoFenceBeforeTicks(inner);
    NoFenceBeforeTicks(post);
  }

  /** `TaggedBlockRoundTrip`, with the block written as fence, inner text, fence. */
  lemma TaggedInner(language: string, code: string)
    requires language != [] && forall k :: 0 <= k < |language| ==> !IsJsSpace(language[k])
    requires code == [] || (!IsJsSpace(code[0]) && !IsJsSpace(code[|code| - 1]))
    ensures ParseFence(Fence + (language + "\n" + code + "\n") + Fence) == CodeBlock(language, code)
  {
    assert Fence + (language + "\n" + code + "\n") + Fence == Fence + language + "\n" + code + "\n" + Fence;
    TaggedBlockRoundTrip(language, code);
  }

  /**
   * One tagged block between two texts without backticks: the texts stay as
   * they are and the block becomes its markup with the code escaped.
   */
  lemma OneBlockMessage(pre: string, language: string, code: string, post: string)
    requires '`' !in pre && '`' !in language && '`' !in code && '`' !in post
    requires language != [] && forall k :: 0 <= k < |language| ==> !IsJsSpace(language[k])
    requires code == [] || (!IsJsSpace(code[0]) && !IsJsSpace(code[|code| - 1]))
    ensures FormatMessageContent(pre + (Fence + (language + "\n" + code + "\n") + Fence) + post)
      == pre + RenderBlock(CodeBlock(language, code)) + post
  {
    TaggedPartsWithoutFence(pre, language, code, post);
    FormatOneBlock(pre, language + "\n" + code + "\n", post);
    TaggedInner(language, code);
  }

  /** The example of a greeting around a one-line JavaScript block. */
  lemma HelloScenario()
    ensures FormatMessageContent("Hello " + (Fence + ("js" + "\n" + "console.log(1)" + "\n") + Fence) + " world")
      == "Hello " + RenderBlock(CodeBlock("js", "console.log(1)")) + " world"
  {
    OneBlockMessage("Hello ", "js", "console.log(1)", " world");
  }

  /** A text with empty texts on both sides. */
  lemma NothingAround(t: string)
    ensures [] + t + [] == t
  {
  }

  /** The language sits right after the 20 characters of `<pre data-language="`, as it is. */
  lemma LanguageInMarkup(b: CodeBlock)
    ensures |RenderBlock(b)| >= 20 + |b.language| && RenderBlock(b)[20..20 + |b.language|] == b.language
  {
    var open := "<pre data-language=\"";
    assert |open| == 20;
    assert RenderBlock(b) == open + b.language + ("\"><code>" + EscapeHtml(b.code) + "</code></pre>");
  }

  /**
   * The language goes into the attribute unescaped: whatever it holds (a
   * `"` that closes the attribute, a `<` that opens an element) appears
   * verbatim right after `<pre data-language="`.
   */
  lemma LanguageIsNotEscaped(language: string, code: string)
    requires '`' !in language && '`' !in code
    requires language != [] && forall k :: 0 <= k < |language| ==> !IsJsSpace(language[k])
    requires code == [] || (!IsJsSpace(code[0]) && !IsJsSpace(code[|code| - 1]))
    ensures var r := FormatMessageContent(Fence + (language + "\n" + code + "\n") + Fence);
      |r| >= 20 + |language| && r[20..20 + |language|] == language
  {
    var m, b := Fence + (language + "\n" + code + "\n") + Fence, CodeBlock(language, code);
    NothingAround(m);
    NothingAround(RenderBlock(b));
    OneBlockMessage([], language, code, []);
    LanguageInMarkup(CodeBlock(language, code));
  }
}
