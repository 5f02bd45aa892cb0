/** The title of a fetched web page: the text of its first `<title>` element,
    entity-decoded and trimmed, falling back to the URL's host and then to
    the URL itself. Fetching the page and parsing the URL are inputs. */
module PageTitle {
  import opened Chars

  /** The entities `fetch_page_title` decodes, in the order it replaces them. */
  const Entities: seq<(string, string)> :=
    [("&amp;", "&"), ("&lt;", "<"), ("&gt;", ">"), ("&quot;", "\""), ("&#39;", "'"), ("&nbsp;", " ")]

  predicate EntityTable(table: seq<(string, string)>)
  {
    forall k :: 0 <= k < |table| ==> table[k].0 != [] && table[k].0[0] == '&'
  }

  /** Each replacement of `table` applied to the whole string, one after another. */
  function DecodeWith(s: string, table: seq<(string, string)>): string
    requires EntityTable(table)
    decreases |table|
  {
    if table == [] then s else DecodeWith(ReplaceAll(s, table[0].0, table[0].1), table[1..])
  }

  /** The entity decoding of a raw title: `&amp;` first, then the other five. */
  function DecodeEntities(raw: string): string
  {
    DecodeWith(raw, Entities)
  }

  /** The title extraction of `fetch_page_title`: the raw title, decoded
      and trimmed; `None` when a marker is missing or the title is blank. */
  function ExtractTitle(body: string): (r: Option<string>)
    ensures r.Some? ==> r.value != [] && !IsWhitespace(r.value[0]) && !IsWhitespace(r.value[|r.value| - 1])
    ensures RawTitle(body).None? ==> r.None?
    ensures RawTitle(body).Some? ==> r == CleanTitle(RawTitle(body).value)
  {
    match RawTitle(body)
    case None => None
    case Some(raw) => CleanTitle(raw)
  }

  /** `v` starts at `from` in `body`, is followed by the closing tag (in any
      letter case) and holds none itself. */
  predicate TitleAt(body: string, from: int, v: string)
  {
    && 0 <= from && from + |v| <= |body| && body[from..from + |v|] == v
    && OccursAt("</title>", Lower(body), from + |v|)
    && forall j :: from <= j < from + |v| ==> !OccursAt("</title>", Lower(body), j)
  }

  /** The text of the title element: the text after the end of the opening
      tag, up to the first `</title>` (found case-insensitively); `None` when
      either tag is missing. */
  function RawTitle(body: string): (r: Option<string>)
    ensures r.Some? ==> OpenTagEnd(body).Some? && TitleAt(body, OpenTagEnd(body).value, r.value)
    ensures r.None? ==>
      (OpenTagEnd(body).None? || forall j :: OpenTagEnd(body).value <= j ==> !OccursAt("</title>", Lower(body), j))
  {
    match OpenTagEnd(body)
    case None => None
    case Some(from) =>
      UpToCloseInBody(body, from);
      UpToClose(body[from..])
  }

  /** What `UpToClose` finds in a suffix, stated on the whole body. */
  lemma UpToCloseInBody(body: string, from: nat)
    requires from <= |body|
    ensures var r := UpToClose(body[from..]);
      && (r.Some? ==> TitleAt(body, from, r.value))
      && (r.None? ==> forall j :: from <= j ==> !OccursAt("</title>", Lower(body), j))
  {
    var r := UpToClose(body[from..]);
    LowerSuffix(body, from);
    if r.Some? {
      ShiftOccurs("</title>", Lower(body), from, |r.value|);
      forall j | from <= j < from + |r.value| ensures !OccursAt("</title>", Lower(body), j) {
        ShiftOccurs("</title>", Lower(body), from, j - from);
      }
      assert body[from..from + |r.value|] == body[from..][..|r.value|];
    } else {
      forall j | from <= j ensures !OccursAt("</title>", Lower(body), j) {
        ShiftOccurs("</title>", Lower(body), from, j - from);
      }
    }
  }

  /** Where the opening tag ends: one past the first `>` after the first
      `<title` of the lower-cased body. The positions found in the lower-cased
      copy are used on the body itself, which has the same length. */
  function OpenTagEnd(body: string): (r: Option<nat>)
    ensures r.Some? ==> r.value <= |body|
    ensures var start := IndexOf("<title", Lower(body));
      && (r.Some? ==> 0 <= start && start + 6 < r.value && body[r.value - 1] == '>'
                      && forall j :: start <= j < r.value - 1 ==> body[j] != '>')
      && (r.None? ==> start < 0 || forall j :: start <= j < |body| ==> body[j] != '>')
  {
    var lower := Lower(body);
    var start := IndexOf("<title", lower);
    if start < 0 then None
    else
      var gt := FindChar('>', lower[start..]);
      TagEndFound(body, start, gt);
      if gt < 0 then None else Some(start + gt + 1)
  }

  /** The first `>` after an opening tag at `start` comes after `<title`,
      and the lower-cased copy has its `>` where the body has them. */
  lemma TagEndFound(body: string, start: nat, gt: int)
    requires OccursAt("<title", Lower(body), start)
    requires FindChar('>', Lower(body)[start..]) == gt
    ensures gt >= 0 ==> gt >= 6 && body[start + gt] == '>' && forall j :: start <= j < start + gt ==> body[j] != '>'
    ensures gt < 0 ==> forall j :: start <= j < |body| ==> body[j] != '>'
  {
    var tail := Lower(body)[start..];
    assert forall j :: start <= j < |body| ==> tail[j - start] == LowerChar(body[j]);
    assert tail[..6] == "<title";
    assert forall j :: 0 <= j < 6 ==> tail[j] == tail[..6][j];
  }

  /** The text before the first `</title>`, found case-insensitively. */
  function UpToClose(text: string): (r: Option<string>)
    ensures r.Some? ==>
      && |r.value| <= |text| && r.value == text[..|r.value|]
      && OccursAt("</title>", Lower(text), |r.value|)
      && forall j :: 0 <= j < |r.value| ==> !OccursAt("</title>", Lower(text), j)
    ensures r.None? ==> forall j :: !OccursAt("</title>", Lower(text), j)
  {
    var end := IndexOf("</title>", Lower(text));
    if end < 0 then None else Some(text[..end])
  }

  /** The raw title decoded and trimmed; `None` exactly when the decoded text
      is all whitespace. */
  function CleanTitle(raw: string): (r: Option<string>)
    ensures r.Some? ==> r.value != [] && !IsWhitespace(r.value[0]) && !IsWhitespace(r.value[|r.value| - 1])
    ensures r.None? <==> forall i :: 0 <= i < |DecodeEntities(raw)| ==> IsWhitespace(DecodeEntities(raw)[i])
    ensures r.Some? ==> r.value == Trim(DecodeEntities(raw))
  {
    var title := Trim(DecodeEntities(raw));
    TrimEmpty(DecodeEntities(raw));
    if title == [] then None else Some(title)
  }

  lemma LowerSuffix(s: string, k: nat)
    requires k <= |s|
    ensures Lower(s[k..]) == Lower(s)[k..]
  {
  }

  /** An occurrence in a suffix is an occurrence in the whole, shifted. */
  lemma ShiftOccurs(pat: string, s: string, k: nat, j: nat)
    requires k <= |s|
    ensures OccursAt(pat, s[k..], j) <==> OccursAt(pat, s, k + j)
  {
    if 0 <= j && j + |pat| <= |s| - k {
      assert s[k..][j..j + |pat|] == s[k + j..k + j + |pat|];
    }
  }

  /** `fetch_page_title`, given what the request returned and what URL
      parsing gives as the host (`None` when the URL does not parse or has no
      host). A failed request is passed through as the error. */
  function PageTitle(fetched: Result<string>, url: string, host: Option<string>): (r: Result<string>)
    ensures fetched.Err? <==> r.Err?
    ensures fetched.Err? ==> r.reason == fetched.reason
    ensures fetched.Ok? && ExtractTitle(fetched.value).Some? ==> r == Ok(ExtractTitle(fetched.value).value)
    ensures fetched.Ok? && ExtractTitle(fetched.value).None? ==> r == Ok(if host.Some? then host.value else url)
  {
    match fetched
    case Err(e) => Err(e)
    case Ok(body) =>
      match ExtractTitle(body)
      case Some(t) => Ok(t)
      case None =>
        match host
        case Some(h) => Ok(h)
        case None => Ok(url)
  }

  // ─── Properties ─────────────────────────────────────────────────────────

  /** Text without `&` is not changed by any table of entities. */
  lemma {:induction false} DecodeWithPlain(s: string, table: seq<(string, string)>)
    requires EntityTable(table) && '&' !in s
    ensures DecodeWith(s, table) == s
    decreases |table|
  {
    if table != [] {
      ReplaceAllWithoutLead(s, table[0].0, table[0].1);
      DecodeWithPlain(s, table[1..]);
    }
  }

  /** Text without `&` is not changed by decoding. */
  lemma DecodePlain(s: string)
    requires '&' !in s
    ensures DecodeEntities(s) == s
  {
    DecodeWithPlain(s, Entities);
  }

  /** Because `&amp;` is replaced first, an escaped entity is decoded twice:
      `&amp;lt;` followed by any text without `&` becomes `<` and that text,
      not `&lt;` and that text. */
  lemma DoubleDecoding(s: string)
    requires '&' !in s
    ensures DecodeEntities("&amp;lt;" + s) == "<" + s
  {
    var once := "&lt;" + s;
    assert ReplaceAll("&amp;lt;" + s, "&amp;", "&") == once by {
      var t := "&amp;lt;" + s;
      assert t[..5] == "&amp;" && t[5..] == "lt;" + s;
      ReplaceAllWithoutLead("lt;" + s, "&amp;", "&");
      assert "&" + ("lt;" + s) == once;
    }
    assert ReplaceAll(once, "&lt;", "<") == "<" + s by {
      assert once[..4] == "&lt;" && once[4..] == s;
      ReplaceAllWithoutLead(s, "&lt;", "<");
    }
    assert DecodeWith("&amp;lt;" + s, Entities) == DecodeWith(once, Entities[1..]);
    assert DecodeWith(once, Entities[1..]) == DecodeWith("<" + s, Entities[2..]);
    DecodeWithPlain("<" + s, Entities[2..]);
  }

  /** Lower-casing cannot produce a character that is not a lower-case letter
      unless it was already there. */
  lemma LowerKeepsAbsent(s: string, c: char)
    requires !('a' <= c <= 'z') && c !in s
    ensures c !in Lower(s)
  {
    forall i | 0 <= i < |s| ensures Lower(s)[i] != c {
      assert s[i] in s;
    }
  }

  /** A pattern whose first character occurs in it only at its start, and
      which does not occur in `a`, is first found where `b` starts when `b`
      starts with it: no occurrence can straddle the seam. */
  lemma FindAfter(pat: string, a: string, b: string)
    requires pat != [] && pat[0] !in pat[1..]
    requires forall i :: !OccursAt(pat, a, i)
    requires StartsWith(b, pat)
    ensures IndexOf(pat, a + b) == |a|
  {
    var s := a + b;
    assert s[|a|..|a| + |pat|] == b[..|pat|];
    assert OccursAt(pat, s, |a|);
    forall j | 0 <= j < |a| ensures !OccursAt(pat, s, j) {
      if j + |pat| <= |a| {
        assert s[j..j + |pat|] == a[j..j + |pat|];
        assert !OccursAt(pat, a, j);
      } else if j + |pat| <= |s| {
        var m := |a| - j;
        assert s[j..j + |pat|][m] == b[0] == pat[0];
        assert pat[m] == pat[1..][m - 1] && pat[1..][m - 1] in pat[1..];
      }
    }
  }

  /** No opening tag in the lower-cased `s`. */
  ghost predicate NoOpenTag(s: string)
  {
    forall i :: !OccursAt("<title", Lower(s), i)
  }

  /** No closing tag in the lower-cased `s`. */
  ghost predicate NoCloseTag(s: string)
  {
    forall i :: !OccursAt("</title>", Lower(s), i)
  }

  /** With no opening tag before it, the opening tag is found where `pre` ends. */
  lemma OpenTagFound(pre: string, mid: string)
    requires NoOpenTag(pre) && StartsWith(Lower(mid), "<title")
    ensures IndexOf("<title", Lower(pre + mid)) == |pre|
  {
    LowerAppend(pre, mid);
    assert "<title"[1..] == "title";
    FindAfter("<title", Lower(pre), Lower(mid));
  }

  /** The opening tag ends at the first `>`, after its attributes. */
  lemma OpenTagEnds(attrs: string, tail: string)
    requires '>' !in attrs
    ensures StartsWith(Lower("<title" + attrs + ">" + tail), "<title")
    ensures FindChar('>', Lower("<title" + attrs + ">" + tail)) == 6 + |attrs|
  {
    var mid := "<title" + attrs + ">" + tail;
    assert mid == "<title" + (attrs + (">" + tail));
    LowerAppend("<title", attrs + (">" + tail));
    LowerAppend(attrs, ">" + tail);
    LowerAppend(">", tail);
    assert Lower("<title") == "<title";
    assert Lower(">") == ">";
    LowerKeepsAbsent(attrs, '>');
    var lm := Lower(mid);
    assert lm == ("<title" + Lower(attrs)) + (">" + Lower(tail));
    assert lm[6 + |attrs|] == '>';
    assert forall j :: 0 <= j < 6 + |attrs| ==> lm[j] != '>' by {
      forall j | 0 <= j < 6 + |attrs| ensures lm[j] != '>' {
        if j >= 6 {
          assert lm[j] == Lower(attrs)[j - 6];
          assert Lower(attrs)[j - 6] in Lower(attrs);
        }
      }
    }
  }

  /** The closing tag is found right after a title text that holds none. */
  lemma CloseTagFound(t: string, close: string, rest: string)
    requires NoCloseTag(t) && Lower(close) == "</title>"
    ensures IndexOf("</title>", Lower(t + close + rest)) == |t|
  {
    assert t + close + rest == t + (close + rest);
    LowerAppend(t, close + rest);
    LowerAppend(close, rest);
    assert "</title>"[1..] == "/title>";
    FindAfter("</title>", Lower(t), Lower(close + rest));
  }

  /** `OpenTagEnd` once the opening tag and its `>` are located. */
  lemma OpenTagEndAt(body: string, start: nat, gt: nat)
    requires IndexOf("<title", Lower(body)) == start
    requires FindChar('>', Lower(body)[start..]) == gt
    ensures OpenTagEnd(body) == Some(start + gt + 1)
  {
  }

  /** `UpToClose` once the closing tag is located. */
  lemma UpToCloseAt(text: string, end: nat)
    requires IndexOf("</title>", Lower(text)) == end
    ensures UpToClose(text) == Some(text[..end])
  {
  }

  /** A page whose first opening tag (in any letter case, possibly with
      attributes) follows `pre`, whatever other markup `pre` holds, has its
      opening tag end after the `>`. */
  lemma OpenTagOfPage(pre: string, attrs: string, tail: string)
    requires NoOpenTag(pre) && '>' !in attrs
    ensures OpenTagEnd(pre + "<title" + attrs + ">" + tail) == Some(|pre| + |attrs| + 7)
  {
    var mid := "<title" + attrs + ">" + tail;
    Regroup(pre, "<title", attrs, ">", tail);
    OpenTagEnds(attrs, tail);
    OpenTagAfter(pre, mid, 6 + |attrs|);
  }

  lemma Regroup(a: string, b: string, c: string, d: string, e: string)
    ensures a + b + c + d + e == a + (b + c + d + e)
  {
  }

  /** An opening tag right after `pre` ends at its first `>`. */
  lemma OpenTagAfter(pre: string, mid: string, gt: nat)
    requires NoOpenTag(pre) && StartsWith(Lower(mid), "<title")
    requires FindChar('>', Lower(mid)) == gt
    ensures OpenTagEnd(pre + mid) == Some(|pre| + gt + 1)
  {
    var body := pre + mid;
    OpenTagFound(pre, mid);
    LowerAfter(pre, mid);
    OpenTagEndAt(body, |pre|, gt);
  }

  lemma LowerAfter(pre: string, mid: string)
    ensures Lower(pre + mid)[|pre|..] == Lower(mid)
  {
    LowerAppend(pre, mid);
  }

  /** ... and has as raw title the text up to the first closing tag (in any
      letter case), whatever that text holds otherwise. */
  lemma RawTitleOfPage(pre: string, attrs: string, t: string, close: string, rest: string)
    requires NoOpenTag(pre) && '>' !in attrs && NoCloseTag(t)
    requires Lower(close) == "</title>"
    ensures RawTitle(pre + "<title" + attrs + ">" + t + close + rest) == Some(t)
  {
    var tail := t + close + rest;
    var head := pre + "<title" + attrs + ">";
    assert |head| == |pre| + |attrs| + 7;
    assert head + tail == pre + "<title" + attrs + ">" + t + close + rest;
    OpenTagOfPage(pre, attrs, tail);
    CloseTagFound(t, close, rest);
    UpToCloseAt(tail, |t|);
    assert tail[..|t|] == t;
    RawTitleAt(head, tail, t);
  }

  /** `RawTitle` once the opening tag is known to end where `tail` starts
      and the text up to the closing tag is known. */
  lemma RawTitleAt(head: string, tail: string, t: string)
    requires OpenTagEnd(head + tail) == Some(|head|)
    requires UpToClose(tail) == Some(t)
    ensures RawTitle(head + tail) == Some(t)
  {
    assert (head + tail)[|head|..] == tail;
  }

  /** ... so its title is that text decoded and trimmed, and is the text
      itself when it holds no `&` and neither starts nor ends with whitespace. */
  lemma TitleOfPage(pre: string, attrs: string, t: string, close: string, rest: string)
    requires NoOpenTag(pre) && '>' !in attrs && NoCloseTag(t)
    requires Lower(close) == "</title>"
    ensures ExtractTitle(pre + "<title" + attrs + ">" + t + close + rest) == CleanTitle(t)
    ensures '&' !in t && t != [] && !IsWhitespace(t[0]) && !IsWhitespace(t[|t| - 1]) ==>
      ExtractTitle(pre + "<title" + attrs + ">" + t + close + rest) == Some(t)
  {
    RawTitleOfPage(pre, attrs, t, close, rest);
    if '&' !in t && t != [] && !IsWhitespace(t[0]) && !IsWhitespace(t[|t| - 1]) {
      DecodePlain(t);
      TrimKeeps(t);
    }
  }

  lemma TrimKeeps(s: string)
    requires s != [] && !IsWhitespace(s[0]) && !IsWhitespace(s[|s| - 1])
    ensures Trim(s) == s
  {
  }
}
