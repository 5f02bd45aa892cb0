/** The page text that `fetch_ai_summary` sends to Gemini: the fetched HTML
    with tags and script/style bodies stripped, whitespace collapsed to
    single spaces, truncated to 10,000 characters, and substituted for every
    `{content}` in the prompt template. Fetching and the Gemini call are
    not part of this model. */
module HtmlText {
  import opened Chars

  // ─── The tag stripper ───────────────────────────────────────────────────

  /** The stripper's state: inside a tag, inside a script or style body,
      the name of the current (or last) tag, and the text emitted so far. */
  datatype Stripper = Stripper(inTag: bool, inScript: bool, tagBuf: string, text: string)

  const Start := Stripper(false, false, "", "")

  /** Whether script/style mode is on after a tag named `tag`: a tag starting
      with `script` or `style` (in any letter case) turns it on, one starting
      with `/script` or `/style` turns it off, any other tag leaves it. */
  function ScriptAfter(tag: string, inScript: bool): bool
  {
    var low := Lower(tag);
    if StartsWith(low, "script") || StartsWith(low, "style") then true
    else if StartsWith(low, "/script") || StartsWith(low, "/style") then false
    else inScript
  }

  /** One character of the stripper loop. A `>` closes a tag (emitting one
      space) even when no tag is open, judged by the last tag's name. */
  function Step(st: Stripper, ch: char): Stripper
  {
    if ch == '<' then st.(inTag := true, tagBuf := [])
    else if ch == '>' then st.(inScript := ScriptAfter(st.tagBuf, st.inScript), inTag := false, text := st.text + [' '])
    else if st.inTag then st.(tagBuf := st.tagBuf + [ch])
    else if !st.inScript then st.(text := st.text + [ch])
    else st
  }

  /** The stripper after reading all of `s`. */
  function Run(st: Stripper, s: string): Stripper
    decreases |s|
  {
    if s == [] then st else Step(Run(st, s[..|s| - 1]), s[|s| - 1])
  }

  /** The text the stripper leaves of a page. */
  function Strip(html: string): string
  {
    Run(Start, html).text
  }

  /** The stripping loop of `fetch_ai_summary`, over the page's characters. */
  method StripTags(html: string) returns (text: string)
    ensures text == Strip(html)
  {
    var inTag, inScript := false, false;
    var tagBuf: string := [];
    text := [];
    for i := 0 to |html|
      invariant Stripper(inTag, inScript, tagBuf, text) == Run(Start, html[..i])
    {
      var ch := html[i];
      assert html[..i + 1][..i] == html[..i];
      if ch == '<' {
        inTag := true;
        tagBuf := [];
      } else if ch == '>' {
        var tagLower := Lower(tagBuf);
        if StartsWith(tagLower, "script") || StartsWith(tagLower, "style") {
          inScript := true;
        } else if StartsWith(tagLower, "/script") || StartsWith(tagLower, "/style") {
          inScript := false;
        }
        inTag := false;
        text := text + [' '];
      } else if inTag {
        tagBuf := tagBuf + [ch];
      } else if !inScript {
        text := text + [ch];
      }
    }
    assert html[..|html|] == html;
  }

  // ─── Properties of the stripper ─────────────────────────────────────────

  /** Reading `a` then `b` is reading `a + b`. */
  lemma {:induction false} RunAppend(st: Stripper, a: string, b: string)
    ensures Run(st, a + b) == Run(Run(st, a), b)
    decreases |b|
  {
    if b == [] {
      assert a + b == a;
    } else {
      var b' := b[..|b| - 1];
      assert (a + b)[..|a + b| - 1] == a + b';
      assert (a + b)[|a + b| - 1] == b[|b| - 1];
      RunAppend(st, a, b');
    }
  }

  /** The stripper only ever appends to its text. */
  lemma {:induction false} RunExtends(st: Stripper, s: string)
    ensures |st.text| <= |Run(st, s).text| <= |st.text| + |s|
    ensures Run(st, s).text[..|st.text|] == st.text
    decreases |s|
  {
    if s != [] {
      RunExtends(st, s[..|s| - 1]);
    }
  }

  /** Neither `<` nor `>` is ever emitted. */
  lemma {:induction false} RunNoBrackets(st: Stripper, s: string)
    requires '<' !in st.text && '>' !in st.text
    ensures '<' !in Run(st, s).text && '>' !in Run(st, s).text
    decreases |s|
  {
    if s != [] {
      RunNoBrackets(st, s[..|s| - 1]);
    }
  }

  /** The stripped text holds no angle bracket and is no longer than the page. */
  lemma StripClean(html: string)
    ensures '<' !in Strip(html) && '>' !in Strip(html)
    ensures |Strip(html)| <= |html|
  {
    RunNoBrackets(Start, html);
    RunExtends(Start, html);
  }

  /** Inside a tag, characters other than brackets go to the tag name only. */
  lemma {:induction false} InTagCollects(st: Stripper, s: string)
    requires st.inTag && '<' !in s && '>' !in s
    ensures Run(st, s) == st.(tagBuf := st.tagBuf + s)
    decreases |s|
  {
    if s == [] {
      assert st.tagBuf + s == st.tagBuf;
    } else {
      assert s[|s| - 1] in s;
      InTagCollects(st, s[..|s| - 1]);
      assert st.tagBuf + s[..|s| - 1] + [s[|s| - 1]] == st.tagBuf + s;
    }
  }

  /** Outside tags and scripts, characters other than brackets are copied. */
  lemma {:induction false} OutsideKeeps(st: Stripper, s: string)
    requires !st.inTag && !st.inScript && '<' !in s && '>' !in s
    ensures Run(st, s) == st.(text := st.text + s)
    decreases |s|
  {
    if s == [] {
      assert st.text + s == st.text;
    } else {
      assert s[|s| - 1] in s;
      OutsideKeeps(st, s[..|s| - 1]);
      assert st.text + s[..|s| - 1] + [s[|s| - 1]] == st.text + s;
    }
  }

  /** Inside a script or style body, characters other than brackets are dropped. */
  lemma {:induction false} InScriptDrops(st: Stripper, s: string)
    requires !st.inTag && st.inScript && '<' !in s && '>' !in s
    ensures Run(st, s) == st
    decreases |s|
  {
    if s != [] {
      assert s[|s| - 1] in s;
      InScriptDrops(st, s[..|s| - 1]);
    }
  }

  /** A whole tag `<name>` emits exactly one space and records its name. */
  lemma TagEmitsOneSpace(st: Stripper, name: string)
    requires '<' !in name && '>' !in name
    ensures Run(st, "<" + name + ">") ==
      st.(inTag := false, tagBuf := name, inScript := ScriptAfter(name, st.inScript), text := st.text + " ")
  {
    var open := Run(st, "<");
    assert open == Step(Run(st, []), '<');
    RunAppend(st, "<", name);
    InTagCollects(open, name);
    RunAppend(st, "<" + name, ">");
    assert [] + name == name;
  }

  /** Text without brackets comes through unchanged. */
  lemma StripPlain(s: string)
    requires '<' !in s && '>' !in s
    ensures Strip(s) == s
  {
    OutsideKeeps(Start, s);
  }

  /** `script` and `style` tags, with attributes and in any letter case,
      turn script mode on; their closing tags turn it off; the order of the
      tests means a tag that is neither leaves it. */
  lemma ScriptTagsSwitch(tag: string, inScript: bool)
    ensures StartsWith(Lower(tag), "script") || StartsWith(Lower(tag), "style") ==> ScriptAfter(tag, inScript)
    ensures StartsWith(Lower(tag), "/script") || StartsWith(Lower(tag), "/style") ==> !ScriptAfter(tag, inScript)
    ensures ScriptAfter(tag, inScript) != inScript ==>
      StartsWith(Lower(tag), "script") || StartsWith(Lower(tag), "style") ||
      StartsWith(Lower(tag), "/script") || StartsWith(Lower(tag), "/style")
  {
    var low := Lower(tag);
    if StartsWith(low, "/script") || StartsWith(low, "/style") {
      assert low[0] == '/';
    }
  }

  /** An element whose opening tag turns script mode on and whose closing tag
      turns it off emits two spaces for its tags and nothing of its body. */
  lemma {:induction false} ElementDropped(st: Stripper, open: string, body: string, close: string)
    requires !st.inTag && !st.inScript
    requires '<' !in open && '>' !in open && '<' !in body && '>' !in body && '<' !in close && '>' !in close
    requires ScriptAfter(open, false) && !ScriptAfter(close, true)
    ensures Run(st, "<" + open + ">" + body + "<" + close + ">") == st.(tagBuf := close, text := st.text + "  ")
  {
    var openTag, closeTag := "<" + open + ">", "<" + close + ">";
    TagEmitsOneSpace(st, open);
    var st1 := Run(st, openTag);
    InScriptDrops(st1, body);
    RunAppend(st, openTag, body);
    TagEmitsOneSpace(st1, close);
    RunAppend(st, openTag + body, closeTag);
    assert openTag + body + closeTag == "<" + open + ">" + body + "<" + close + ">";
    assert st.text + " " + " " == st.text + "  ";
  }

  // ─── Whitespace collapse ────────────────────────────────────────────────

  /** A word: a non-empty run of non-whitespace characters. */
  predicate IsWord(w: string)
  {
    w != [] && forall i :: 0 <= i < |w| ==> !IsWhitespace(w[i])
  }

  predicate AllWords(ws: seq<string>)
  {
    forall k :: 0 <= k < |ws| ==> IsWord(ws[k])
  }

  /** Length of the leading run of non-whitespace characters. */
  function WordEnd(s: string): (k: nat)
    ensures k <= |s|
    ensures forall i :: 0 <= i < k ==> !IsWhitespace(s[i])
    ensures k < |s| ==> IsWhitespace(s[k])
  {
    if s == [] || IsWhitespace(s[0]) then 0 else 1 + WordEnd(s[1..])
  }

  /** Rust's `split_whitespace`: the maximal runs of non-whitespace, in order. */
  function Words(s: string): (ws: seq<string>)
    ensures AllWords(ws)
    decreases |s|
  {
    if s == [] then []
    else if IsWhitespace(s[0]) then Words(s[1..])
    else
      var k := WordEnd(s);
      [s[..k]] + Words(s[k..])
  }

  /** `join(" ")`. */
  function Join(ws: seq<string>): string
  {
    if ws == [] then []
    else if |ws| == 1 then ws[0]
    else ws[0] + " " + Join(ws[1..])
  }

  /** The whitespace collapse of `fetch_ai_summary`. */
  function Collapse(s: string): string
  {
    Join(Words(s))
  }

  /** No whitespace at either end, single spaces as the only whitespace,
      never two of them in a row. */
  predicate Collapsed(r: string)
  {
    && (r != [] ==> !IsWhitespace(r[0]) && !IsWhitespace(r[|r| - 1]))
    && (forall i :: 0 <= i < |r| && IsWhitespace(r[i]) ==> r[i] == ' ')
    && (forall i :: 0 <= i < |r| - 1 ==> !IsWhitespace(r[i]) || !IsWhitespace(r[i + 1]))
  }

  /** The characters of `s` that are not whitespace, in order. */
  function Visible(s: string): string
  {
    if s == [] then []
    else (if IsWhitespace(s[0]) then [] else [s[0]]) + Visible(s[1..])
  }

  function Concat(ws: seq<string>): string
  {
    if ws == [] then [] else ws[0] + Concat(ws[1..])
  }

  // ─── Properties of the collapse ─────────────────────────────────────────

  /** Joining words gives a collapsed string, empty only for no words. */
  lemma {:induction false} JoinCollapsed(ws: seq<string>)
    requires AllWords(ws)
    ensures Collapsed(Join(ws))
    ensures Join(ws) == [] <==> ws == []
  {
    if |ws| >= 2 {
      JoinCollapsed(ws[1..]);
      var w, t := ws[0], Join(ws[1..]);
      var r := w + " " + t;
      assert IsWord(w);
      forall i | 0 <= i < |r| && IsWhitespace(r[i]) ensures r[i] == ' ' {
        if i > |w| {
          assert r[i] == t[i - |w| - 1];
        }
      }
      forall i | 0 <= i < |r| - 1 ensures !IsWhitespace(r[i]) || !IsWhitespace(r[i + 1]) {
        if i == |w| - 1 || i == |w| {
          assert r[|w| + 1] == t[0];
        } else if i > |w| {
          assert r[i] == t[i - |w| - 1] && r[i + 1] == t[i - |w|];
        }
      }
      assert r[|r| - 1] == t[|t| - 1];
    }
  }

  /** A word followed by whitespace (or nothing) is the first word. */
  lemma WordsOfWord(w: string, t: string)
    requires IsWord(w) && (t == [] || IsWhitespace(t[0]))
    ensures Words(w + t) == [w] + Words(t)
  {
    var s := w + t;
    assert s[0] == w[0];
    assert WordEnd(s) == |w| by {
      assert forall i :: 0 <= i < |w| ==> s[i] == w[i];
      if t != [] {
        assert s[|w|] == t[0];
      }
    }
    assert s[..|w|] == w && s[|w|..] == t;
  }

  /** A run that stops before the end of `a` stops at the same place in
      anything that starts with `a`. */
  lemma {:induction false} WordEndPrefix(a: string, b: string)
    requires WordEnd(a) < |a|
    ensures WordEnd(a + b) == WordEnd(a)
    decreases |a|
  {
    if !IsWhitespace(a[0]) {
      assert (a + b)[1..] == a[1..] + b;
      WordEndPrefix(a[1..], b);
    }
  }

  /** Whitespace separates words: the words around a whitespace character are
      split apart, never glued together. */
  lemma {:induction false} WordsSplit(a: string, c: char, b: string)
    requires IsWhitespace(c)
    ensures Words(a + [c] + b) == Words(a) + Words(b)
    decreases |a|
  {
    var s := a + [c] + b;
    if a == [] {
      assert s == [c] + b && s[1..] == b;
    } else if IsWhitespace(a[0]) {
      assert s[1..] == a[1..] + [c] + b;
      WordsSplit(a[1..], c, b);
    } else {
      var k := WordEnd(a);
      if k < |a| {
        assert s == a + ([c] + b);
        WordEndPrefix(a, [c] + b);
        assert s[..k] == a[..k];
        assert s[k..] == a[k..] + [c] + b;
        WordsSplit(a[k..], c, b);
      } else {
        assert forall i :: 0 <= i < |a| ==> !IsWhitespace(a[i]);
        WordsOfWord(a, [c] + b);
        assert s == a + ([c] + b);
        assert ([c] + b)[0] == c && ([c] + b)[1..] == b;
        assert Words([c] + b) == Words(b);
        assert a[..k] == a && a[k..] == [];
        assert Words(a) == [a];
      }
    }
  }

  /** Two words with whitespace between them come out as those two words
      and one space. */
  lemma CollapseKeepsWordsApart(a: string, c: char, b: string)
    requires IsWord(a) && IsWord(b) && IsWhitespace(c)
    ensures Collapse(a + [c] + b) == a + " " + b
  {
    WordsSplit(a, c, b);
    WordsOfWord(a, []);
    WordsOfWord(b, []);
    assert a + [] == a && b + [] == b;
    assert Words([]) == [];
    var ws := [a] + [b];
    assert ws[0] == a && ws[1..] == [b];
    assert Join([b]) == b;
    assert Join(ws) == a + " " + b;
    assert Words(a) == [a];
    assert Words(b) == [b];
    assert Words(a + [c] + b) == ws;
  }

  /** Splitting joined words gives the words back. */
  lemma {:induction false} WordsJoin(ws: seq<string>)
    requires AllWords(ws)
    ensures Words(Join(ws)) == ws
  {
    if |ws| == 1 {
      WordsOfWord(ws[0], []);
      assert ws[0] + [] == ws[0];
    } else if |ws| >= 2 {
      WordsJoin(ws[1..]);
      var t := Join(ws[1..]);
      assert ws[0] + " " + t == ws[0] + (" " + t);
      WordsOfWord(ws[0], " " + t);
      assert (" " + t)[1..] == t;
      assert [ws[0]] + ws[1..] == ws;
    }
  }

  /** The collapsed text has no stray whitespace. */
  lemma CollapseShape(s: string)
    ensures Collapsed(Collapse(s))
  {
    JoinCollapsed(Words(s));
  }

  /** Collapsing twice is collapsing once. */
  lemma CollapseIdempotent(s: string)
    ensures Collapse(Collapse(s)) == Collapse(s)
  {
    WordsJoin(Words(s));
  }

  lemma {:induction false} VisibleAppend(a: string, b: string)
    ensures Visible(a + b) == Visible(a) + Visible(b)
    decreases |a|
  {
    if a == [] {
      assert a + b == b;
    } else {
      assert (a + b)[1..] == a[1..] + b;
      VisibleAppend(a[1..], b);
    }
  }

  lemma {:induction false} VisibleWord(w: string)
    requires forall i :: 0 <= i < |w| ==> !IsWhitespace(w[i])
    ensures Visible(w) == w
    decreases |w|
  {
    if w != [] {
      VisibleWord(w[1..]);
      assert [w[0]] + w[1..] == w;
    }
  }

  lemma {:induction false} VisibleJoin(ws: seq<string>)
    requires AllWords(ws)
    ensures Visible(Join(ws)) == Concat(ws)
  {
    if |ws| == 1 {
      VisibleWord(ws[0]);
      assert Concat(ws[1..]) == [];
      assert ws[0] + [] == ws[0];
    } else if |ws| >= 2 {
      VisibleJoin(ws[1..]);
      VisibleAppend(ws[0] + " ", Join(ws[1..]));
      VisibleAppend(ws[0], " ");
      VisibleWord(ws[0]);
      assert Visible(" ") == [];
      assert ws[0] + [] == ws[0];
    }
  }

  lemma {:induction false} VisibleWords(s: string)
    ensures Visible(s) == Concat(Words(s))
    decreases |s|
  {
    if s != [] {
      if IsWhitespace(s[0]) {
        VisibleWords(s[1..]);
      } else {
        var k := WordEnd(s);
        VisibleWords(s[k..]);
        assert s == s[..k] + s[k..];
        VisibleAppend(s[..k], s[k..]);
        VisibleWord(s[..k]);
        assert ([s[..k]] + Words(s[k..]))[1..] == Words(s[k..]);
      }
    }
  }

  /** Collapsing keeps every non-whitespace character, in order. */
  lemma CollapseKeepsVisible(s: string)
    ensures Visible(Collapse(s)) == Visible(s)
  {
    VisibleJoin(Words(s));
    VisibleWords(s);
  }

  /** A character that is not whitespace is in a string exactly when it is
      among its visible characters. */
  lemma {:induction false} InVisible(s: string, c: char)
    requires !IsWhitespace(c)
    ensures c in s <==> c in Visible(s)
    decreases |s|
  {
    if s != [] {
      InVisible(s[1..], c);
      assert s == [s[0]] + s[1..];
    }
  }

  // ─── Truncation and the prompt ──────────────────────────────────────────

  /** The most page text sent to Gemini. */
  const MaxContent := 10000

  /** `text[..10_000]` when the text is longer. */
  function Truncate(s: string): string
  {
    if |s| > MaxContent then s[..MaxContent] else s
  }

  /** The truncated text is the longest prefix of at most `MaxContent` characters. */
  lemma TruncateBound(s: string)
    ensures |Truncate(s)| == if |s| <= MaxContent then |s| else MaxContent
    ensures Truncate(s) == s[..|Truncate(s)|]
  {
  }

  /** `prompt_template.replace("{content}", text)`. */
  function Prompt(template: string, content: string): string
  {
    ReplaceAll(template, "{content}", content)
  }

  /** A template without the placeholder is sent as is. */
  lemma PromptWithoutPlaceholder(template: string, content: string)
    requires forall i :: !OccursAt("{content}", template, i)
    ensures Prompt(template, content) == template
  {
    ReplaceAllAbsent(template, "{content}", content);
  }

  /** A placeholder between text without `{` is replaced by the content. */
  lemma PromptFillsPlaceholder(a: string, b: string, content: string)
    requires '{' !in a && '{' !in b
    ensures Prompt(a + "{content}" + b, content) == a + content + b
  {
    assert a + "{content}" + b == a + ("{content}" + b);
    ReplaceAllAfterPlain(a, "{content}" + b, "{content}", content);
    assert ("{content}" + b)[..9] == "{content}";
    assert ("{content}" + b)[9..] == b;
    ReplaceAllWithoutLead(b, "{content}", content);
    assert a + (content + b) == a + content + b;
  }

  /** Every `{content}` is filled, however many there are. */
  lemma PromptFillsEach(a: string, b: string, content: string)
    requires '{' !in a
    ensures Prompt(a + "{content}" + b, content) == a + content + Prompt(b, content)
  {
    assert a + "{content}" + b == a + ("{content}" + b);
    ReplaceAllAfterPlain(a, "{content}" + b, "{content}", content);
    assert ("{content}" + b)[..9] == "{content}";
    assert ("{content}" + b)[9..] == b;
  }

  /** The page text of `fetch_ai_summary`. */
  function PageText(html: string): string
  {
    Truncate(Collapse(Strip(html)))
  }

  /** The page text holds no angle bracket, no whitespace but single spaces
      between visible characters (except a space cut off at the end), and at
      most `MaxContent` characters. */
  lemma PageTextClean(html: string)
    ensures '<' !in PageText(html) && '>' !in PageText(html)
    ensures |PageText(html)| <= MaxContent
    ensures PageText(html) == Collapse(Strip(html))[..|PageText(html)|]
  {
    var stripped := Strip(html);
    var c := Collapse(stripped);
    StripClean(html);
    CollapseKeepsVisible(stripped);
    InVisible(stripped, '<');
    InVisible(stripped, '>');
    InVisible(c, '<');
    InVisible(c, '>');
    TruncateBound(c);
    assert forall x :: x in Truncate(c) ==> x in c;
  }
}
