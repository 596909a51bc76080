/** The three string helpers of the library: the Discord crawler detector and
    the two plain-text-to-HTML escapers. Each escaper is written exactly as the
    source chains its global substitutions; a per-character map serves as the
    reference definition and is proved equal to the chain. */
module Utils {
  import opened Wrappers
  import opened Strings

  /* ------------------------------------------------------------------ */
  /*  Detector: isDiscordBot                                            */
  /* ------------------------------------------------------------------ */

  /** The pattern of DISCORD_BOT_RE. */
  const DiscordBotPattern: string := "discordbot"

  /** Case folding as a `/i` regular expression without the `u` flag applies it
      to a pattern of ASCII letters: only ASCII letters are identified with
      their other case (a non-ASCII character never canonicalises to an ASCII
      one in that mode). */
  function AsciiLower(c: char): char
  {
    if 'A' <= c <= 'Z' then (c as int + 32) as char else c
  }

  /** `p` occurs in `s` at offset `i`, letters compared ASCII-case-insensitively. */
  predicate MatchesAt(s: string, i: nat, p: string)
  {
    i + |p| <= |s| && forall k :: 0 <= k < |p| ==> AsciiLower(s[i + k]) == AsciiLower(p[k])
  }

  /** A left-to-right search for `p` in `s`, as the regex test performs it. */
  function ContainsIgnoreCase(s: string, p: string): (r: bool)
    ensures r <==> exists i: nat :: MatchesAt(s, i, p)
    decreases |s|
  {
    if |s| < |p| then
      false
    else if MatchesAt(s, 0, p) then
      true
    else
      var rest := ContainsIgnoreCase(s[1..], p);
      assert forall i: nat :: 1 <= i && MatchesAt(s, i, p) ==> MatchesAt(s[1..], i - 1, p);
      assert forall j: nat :: MatchesAt(s[1..], j, p) ==> MatchesAt(s, j + 1, p);
      rest
  }

  /** The `userAgent || ''` of isDiscordBot: absent and empty are both "". */
  function OrEmpty(ua: Option<string>): string
  {
    if ua.Some? && ua.value != "" then ua.value else ""
  }

  /** isDiscordBot: the (possibly absent) User-Agent contains "discordbot"
      in any mix of ASCII letter case. */
  function IsDiscordBot(userAgent: Option<string>): (r: bool)
    ensures r <==> exists i: nat :: MatchesAt(OrEmpty(userAgent), i, DiscordBotPattern)
    ensures userAgent == None || userAgent == Some("") ==> !r
  {
    ContainsIgnoreCase(OrEmpty(userAgent), DiscordBotPattern)
  }

  /** Discord's documented crawler User-Agent is recognised. */
  lemma DiscordCrawlerIsDetected()
    ensures IsDiscordBot(Some("Mozilla/5.0 (compatible; Discordbot/2.0; +https://discordapp.com)"))
  {
    var ua := "Mozilla/5.0 (compatible; Discordbot/2.0; +https://discordapp.com)";
    assert MatchesAt(ua, 25, DiscordBotPattern);
  }

  /** Detection does not depend on letter case: changing the case of any ASCII
      letter of the User-Agent leaves the answer unchanged. */
  lemma IsDiscordBotIgnoresCase(s: string, t: string)
    requires |s| == |t|
    requires forall k :: 0 <= k < |s| ==> AsciiLower(s[k]) == AsciiLower(t[k])
    ensures IsDiscordBot(Some(s)) == IsDiscordBot(Some(t))
  {
    forall i: nat | MatchesAt(OrEmpty(Some(s)), i, DiscordBotPattern)
      ensures MatchesAt(OrEmpty(Some(t)), i, DiscordBotPattern)
    {
      forall k | 0 <= k < |DiscordBotPattern| ensures AsciiLower(t[i + k]) == AsciiLower(DiscordBotPattern[k]) {
        assert AsciiLower(s[i + k]) == AsciiLower(DiscordBotPattern[k]);
      }
    }
    forall i: nat | MatchesAt(OrEmpty(Some(t)), i, DiscordBotPattern)
      ensures MatchesAt(OrEmpty(Some(s)), i, DiscordBotPattern)
    {
      forall k | 0 <= k < |DiscordBotPattern| ensures AsciiLower(s[i + k]) == AsciiLower(DiscordBotPattern[k]) {
        assert AsciiLower(t[i + k]) == AsciiLower(DiscordBotPattern[k]);
      }
    }
  }

  /* ------------------------------------------------------------------ */
  /*  Global single-character substitution                              */
  /* ------------------------------------------------------------------ */

  /** `s.replace(/c/g, rep)` for a one-character pattern and a replacement
      without `$` patterns: every occurrence of `c`, left to right, becomes `rep`. */
  function ReplaceAll(s: string, c: char, rep: string): (r: string)
    ensures c !in s ==> r == s
    ensures c !in rep ==> c !in r
    ensures forall d :: d in r ==> (d in s && d != c) || d in rep
    ensures forall d :: d in s && d != c ==> d in r
  {
    if s == [] then []
    else
      var rest := ReplaceAll(s[1..], c, rep);
      assert forall d :: d in s ==> d == s[0] || d in s[1..];
      (if s[0] == c then rep else [s[0]]) + rest
  }

  lemma {:induction false} ReplaceAllConcat(a: string, b: string, c: char, rep: string)
    ensures ReplaceAll(a + b, c, rep) == ReplaceAll(a, c, rep) + ReplaceAll(b, c, rep)
  {
    if a == [] {
      assert a + b == b;
    } else {
      var ab := a + b;
      assert ab[0] == a[0] && ab[1..] == a[1..] + b;
      ReplaceAllConcat(a[1..], b, c, rep);
    }
  }

  /* ------------------------------------------------------------------ */
  /*  escapeHtml                                                        */
  /* ------------------------------------------------------------------ */

  /** escapeHtml: the four global substitutions, `&` first. */
  function EscapeHtml(text: string): (r: string)
    ensures '<' !in r && '>' !in r && '"' !in r
    ensures forall d :: d in r ==> d in text || d in "&amp;" || d in "&quot;" || d in "&lt;" || d in "&gt;"
    ensures '&' !in text && '"' !in text && '<' !in text && '>' !in text ==> r == text
  {
    var amp := ReplaceAll(text, '&', "&amp;");
    var quot := ReplaceAll(amp, '"', "&quot;");
    var lt := ReplaceAll(quot, '<', "&lt;");
    assert '"' !in "&lt;" && '"' !in "&gt;" && '<' !in "&gt;";
    assert '<' !in lt && '"' !in lt;
    ReplaceAll(lt, '>', "&gt;")
  }

  /** The entity each metacharacter is escaped to; other characters stay. */
  function EscapeChar(c: char): string
  {
    match c
    case '&' => "&amp;"
    case '"' => "&quot;"
    case '<' => "&lt;"
    case '>' => "&gt;"
    case _ => [c]
  }

  /** Reference definition: escape each character independently. */
  function EscapeEachChar(s: string): string
  {
    if s == [] then [] else EscapeChar(s[0]) + EscapeEachChar(s[1..])
  }

  lemma EscapeHtmlConcat(a: string, b: string)
    ensures EscapeHtml(a + b) == EscapeHtml(a) + EscapeHtml(b)
  {
    var a1, b1 := ReplaceAll(a, '&', "&amp;"), ReplaceAll(b, '&', "&amp;");
    ReplaceAllConcat(a, b, '&', "&amp;");
    var a2, b2 := ReplaceAll(a1, '"', "&quot;"), ReplaceAll(b1, '"', "&quot;");
    ReplaceAllConcat(a1, b1, '"', "&quot;");
    var a3, b3 := ReplaceAll(a2, '<', "&lt;"), ReplaceAll(b2, '<', "&lt;");
    ReplaceAllConcat(a2, b2, '<', "&lt;");
    ReplaceAllConcat(a3, b3, '>', "&gt;");
  }

  lemma EscapeHtmlOfChar(c: char)
    ensures EscapeHtml([c]) == EscapeChar(c)
  {
    ReplaceAllOfChar(c, '&', "&amp;");
    var amp := ReplaceAll([c], '&', "&amp;");
    if c == '&' {
      assert '"' !in amp && '<' !in amp && '>' !in amp;
    } else {
      ReplaceAllOfChar(c, '"', "&quot;");
      var quot := ReplaceAll(amp, '"', "&quot;");
      if c == '"' {
        assert '<' !in quot && '>' !in quot;
      } else {
        ReplaceAllOfChar(c, '<', "&lt;");
        var lt := ReplaceAll(quot, '<', "&lt;");
        if c == '<' {
          assert '>' !in lt;
        } else {
          ReplaceAllOfChar(c, '>', "&gt;");
        }
      }
    }
  }

  /** A global replace on one character. */
  lemma ReplaceAllOfChar(c: char, d: char, rep: string)
    ensures ReplaceAll([c], d, rep) == if c == d then rep else [c]
  {
    assert [c][1..] == [];
  }

  /** Because `&` is substituted first, no entity inserted by a later step is
      escaped again: the chain equals the per-character map. */
  lemma {:induction false} EscapeHtmlIsCharMap(s: string)
    ensures EscapeHtml(s) == EscapeEachChar(s)
  {
    if s != [] {
      assert s == [s[0]] + s[1..];
      EscapeHtmlConcat([s[0]], s[1..]);
      EscapeHtmlOfChar(s[0]);
      EscapeHtmlIsCharMap(s[1..]);
    }
  }

  /** The escaped length: each `&` grows by 4, each `"` by 5, each `<` and `>` by 3. */
  lemma {:induction false} EscapeHtmlLength(s: string)
    ensures |EscapeHtml(s)| == |s| + 4 * Count(s, '&') + 5 * Count(s, '"') + 3 * Count(s, '<') + 3 * Count(s, '>')
  {
    EscapeHtmlIsCharMap(s);
    EscapeEachCharLength(s);
  }

  lemma {:induction false} EscapeEachCharLength(s: string)
    ensures |EscapeEachChar(s)| == |s| + 4 * Count(s, '&') + 5 * Count(s, '"') + 3 * Count(s, '<') + 3 * Count(s, '>')
  {
    if s != [] {
      EscapeEachCharLength(s[1..]);
    }
  }

  /** Text without metacharacters is left as it is. */
  lemma EscapeHtmlIdentity(s: string)
    requires '&' !in s && '"' !in s && '<' !in s && '>' !in s
    ensures EscapeHtml(s) == s
  {
  }

  /** The language of escaped text: no raw `<`, `>` or `"`, and every `&`
      opens one of the four entities. */
  predicate IsEscaped(r: string)
    decreases |r|
  {
    if r == [] then true
    else if r[0] == '&' then
      (StartsWith(r, "&amp;") && IsEscaped(r[5..]))
      || (StartsWith(r, "&quot;") && IsEscaped(r[6..]))
      || (StartsWith(r, "&lt;") && IsEscaped(r[4..]))
      || (StartsWith(r, "&gt;") && IsEscaped(r[4..]))
    else
      r[0] != '<' && r[0] != '>' && r[0] != '"' && IsEscaped(r[1..])
  }

  /** One of the four entities begins at offset `i` of `r`. */
  predicate EntityAt(r: string, i: nat)
    requires i <= |r|
  {
    StartsWith(r[i..], "&amp;") || StartsWith(r[i..], "&quot;")
    || StartsWith(r[i..], "&lt;") || StartsWith(r[i..], "&gt;")
  }

  lemma {:induction false} EscapeEachCharIsEscaped(s: string)
    ensures IsEscaped(EscapeEachChar(s))
  {
    if s != [] {
      var e, t := EscapeChar(s[0]), EscapeEachChar(s[1..]);
      EscapeEachCharIsEscaped(s[1..]);
      assert (e + t)[..|e|] == e && (e + t)[|e|..] == t;
    }
  }

  /** escapeHtml's output is escaped text. */
  lemma EscapeHtmlIsEscaped(s: string)
    ensures IsEscaped(EscapeHtml(s))
  {
    EscapeHtmlIsCharMap(s);
    EscapeEachCharIsEscaped(s);
  }

  /** The first token of non-empty escaped text: an entity or one plain character. */
  lemma EscapedHead(r: string) returns (n: nat, x: char)
    requires IsEscaped(r) && r != []
    ensures 1 <= n <= |r| && IsEscaped(r[n..])
    ensures r[0] != '<' && r[0] != '>' && r[0] != '"'
    ensures r[0] == '&' ==> EntityAt(r, 0)
    ensures forall i :: 0 < i < n ==> r[i] != '&' && r[i] != '<' && r[i] != '>' && r[i] != '"'
    ensures r[..n] == EscapeChar(x)
  {
    if r[0] != '&' {
      n, x := 1, r[0];
    } else if StartsWith(r, "&amp;") && IsEscaped(r[5..]) {
      n, x := 5, '&';
      assert r[..5] == "&amp;";
    } else if StartsWith(r, "&quot;") && IsEscaped(r[6..]) {
      n, x := 6, '"';
      assert r[..6] == "&quot;";
    } else if StartsWith(r, "&lt;") && IsEscaped(r[4..]) {
      n, x := 4, '<';
      assert r[..4] == "&lt;";
    } else {
      n, x := 4, '>';
      assert r[..4] == "&gt;";
    }
  }

  /** Escaped text holds no `<`, `>` or `"`, and each `&` in it begins an entity. */
  lemma {:induction false} EscapedTextIsSafe(r: string)
    requires IsEscaped(r)
    ensures '<' !in r && '>' !in r && '"' !in r
    ensures forall i :: 0 <= i < |r| && r[i] == '&' ==> EntityAt(r, i)
    decreases |r|
  {
    if r != [] {
      var n, _ := EscapedHead(r);
      var t := r[n..];
      EscapedTextIsSafe(t);
      forall i | 0 <= i < |r| ensures r[i] != '<' && r[i] != '>' && r[i] != '"' && (r[i] == '&' ==> EntityAt(r, i)) {
        if i >= n {
          assert r[i] == t[i - n];
          assert r[i..] == t[i - n..];
        }
      }
    }
  }

  /** The unescaper: decodes the four entities and keeps everything else. */
  function Unescape(r: string): string
    decreases |r|
  {
    if r == [] then []
    else if StartsWith(r, "&amp;") then "&" + Unescape(r[5..])
    else if StartsWith(r, "&quot;") then "\"" + Unescape(r[6..])
    else if StartsWith(r, "&lt;") then "<" + Unescape(r[4..])
    else if StartsWith(r, "&gt;") then ">" + Unescape(r[4..])
    else [r[0]] + Unescape(r[1..])
  }

  lemma UnescapeEscapeChar(c: char, t: string)
    ensures Unescape(EscapeChar(c) + t) == [c] + Unescape(t)
  {
    var e := EscapeChar(c);
    var r := e + t;
    assert r[..|e|] == e && r[|e|..] == t;
    assert |e| > 1 ==> r[1] == e[1];
    if c == '&' {
      assert StartsWith(r, "&amp;");
    } else if c == '"' {
      assert !StartsWith(r, "&amp;") && StartsWith(r, "&quot;");
    } else if c == '<' {
      assert !StartsWith(r, "&amp;") && !StartsWith(r, "&quot;") && StartsWith(r, "&lt;");
    } else if c == '>' {
      assert !StartsWith(r, "&amp;") && !StartsWith(r, "&quot;") && !StartsWith(r, "&lt;") && StartsWith(r, "&gt;");
    } else {
      assert r[0] == c && r[1..] == t;
      assert !StartsWith(r, "&amp;") && !StartsWith(r, "&quot;") && !StartsWith(r, "&lt;") && !StartsWith(r, "&gt;");
    }
  }

  lemma {:induction false} UnescapeEscapeEachChar(s: string)
    ensures Unescape(EscapeEachChar(s)) == s
  {
    if s != [] {
      UnescapeEscapeEachChar(s[1..]);
      UnescapeEscapeChar(s[0], EscapeEachChar(s[1..]));
      assert s == [s[0]] + s[1..];
    }
  }

  /** Round trip: unescaping escapeHtml's output gives back the input. */
  lemma EscapeHtmlRoundTrip(s: string)
    ensures Unescape(EscapeHtml(s)) == s
  {
    EscapeHtmlIsCharMap(s);
    UnescapeEscapeEachChar(s);
  }

  /** The other direction: every escaped text is escapeHtml of its unescaping,
      so escapeHtml is a bijection onto escaped text. */
  lemma {:induction false} EscapeHtmlOfUnescape(r: string)
    requires IsEscaped(r)
    ensures EscapeHtml(Unescape(r)) == r
  {
    EscapeHtmlIsCharMap(Unescape(r));
    EscapeEachCharOfUnescape(r);
  }

  lemma {:induction false} EscapeEachCharOfUnescape(r: string)
    requires IsEscaped(r)
    ensures EscapeEachChar(Unescape(r)) == r
    decreases |r|
  {
    if r != [] {
      var n, x := EscapedHead(r);
      var t := r[n..];
      assert r == EscapeChar(x) + t;
      UnescapeEscapeChar(x, t);
      EscapeEachCharOfUnescape(t);
      assert ([x] + Unescape(t))[1..] == Unescape(t);
    }
  }

  /* ------------------------------------------------------------------ */
  /*  textToHtml                                                        */
  /* ------------------------------------------------------------------ */

  /** textToHtml: escape `&`, `<`, `>` (in that order), then turn each
      newline into `<br>`. The double quote is left alone. */
  function TextToHtml(text: string): (r: string)
    ensures '\n' !in r
    ensures ('"' in r) == ('"' in text)
    ensures '&' !in text && '<' !in text && '>' !in text && '\n' !in text ==> r == text
  {
    var amp := ReplaceAll(text, '&', "&amp;");
    var lt := ReplaceAll(amp, '<', "&lt;");
    var gt := ReplaceAll(lt, '>', "&gt;");
    assert '"' !in "&amp;" && '"' !in "&lt;" && '"' !in "&gt;" && '"' !in "<br>";
    assert ('"' in gt) == ('"' in text);
    ReplaceAll(gt, '\n', "<br>")
  }

  /** What textToHtml turns each character into. */
  function TextChar(c: char): string
  {
    match c
    case '&' => "&amp;"
    case '<' => "&lt;"
    case '>' => "&gt;"
    case '\n' => "<br>"
    case _ => [c]
  }

  /** Reference definition: convert each character independently. */
  function TextEachChar(s: string): string
  {
    if s == [] then [] else TextChar(s[0]) + TextEachChar(s[1..])
  }

  lemma TextToHtmlConcat(a: string, b: string)
    ensures TextToHtml(a + b) == TextToHtml(a) + TextToHtml(b)
  {
    var a1, b1 := ReplaceAll(a, '&', "&amp;"), ReplaceAll(b, '&', "&amp;");
    ReplaceAllConcat(a, b, '&', "&amp;");
    var a2, b2 := ReplaceAll(a1, '<', "&lt;"), ReplaceAll(b1, '<', "&lt;");
    ReplaceAllConcat(a1, b1, '<', "&lt;");
    var a3, b3 := ReplaceAll(a2, '>', "&gt;"), ReplaceAll(b2, '>', "&gt;");
    ReplaceAllConcat(a2, b2, '>', "&gt;");
    ReplaceAllConcat(a3, b3, '\n', "<br>");
  }

  lemma TextToHtmlOfChar(c: char)
    ensures TextToHtml([c]) == TextChar(c)
  {
    ReplaceAllOfChar(c, '&', "&amp;");
    var amp := ReplaceAll([c], '&', "&amp;");
    if c == '&' {
      assert '<' !in amp && '>' !in amp && '\n' !in amp;
    } else {
      ReplaceAllOfChar(c, '<', "&lt;");
      var lt := ReplaceAll(amp, '<', "&lt;");
      if c == '<' {
        assert '>' !in lt && '\n' !in lt;
      } else {
        ReplaceAllOfChar(c, '>', "&gt;");
        var gt := ReplaceAll(lt, '>', "&gt;");
        if c == '>' {
          assert '\n' !in gt;
        } else {
          ReplaceAllOfChar(c, '\n', "<br>");
        }
      }
    }
  }

  /** The `<br>` inserted last is not escaped, and no entity is escaped twice:
      the chain equals the per-character map. */
  lemma {:induction false} TextToHtmlIsCharMap(s: string)
    ensures TextToHtml(s) == TextEachChar(s)
  {
    if s != [] {
      assert s == [s[0]] + s[1..];
      TextToHtmlConcat([s[0]], s[1..]);
      TextToHtmlOfChar(s[0]);
      TextToHtmlIsCharMap(s[1..]);
    }
  }

  /** The language of textToHtml's output: no newline, no `>` outside `<br>`,
      every `<` opens `<br>` and every `&` opens `&amp;`, `&lt;` or `&gt;`. */
  predicate IsHtmlText(r: string)
    decreases |r|
  {
    if r == [] then true
    else if r[0] == '&' then
      (StartsWith(r, "&amp;") && IsHtmlText(r[5..]))
      || (StartsWith(r, "&lt;") && IsHtmlText(r[4..]))
      || (StartsWith(r, "&gt;") && IsHtmlText(r[4..]))
    else if r[0] == '<' then
      StartsWith(r, "<br>") && IsHtmlText(r[4..])
    else
      r[0] != '>' && r[0] != '\n' && IsHtmlText(r[1..])
  }

  lemma {:induction false} TextEachCharIsHtmlText(s: string)
    ensures IsHtmlText(TextEachChar(s))
  {
    if s != [] {
      var e, t := TextChar(s[0]), TextEachChar(s[1..]);
      TextEachCharIsHtmlText(s[1..]);
      assert (e + t)[..|e|] == e && (e + t)[|e|..] == t;
    }
  }

  /** textToHtml's output is in that language. */
  lemma TextToHtmlIsHtmlText(s: string)
    ensures IsHtmlText(TextToHtml(s))
  {
    TextToHtmlIsCharMap(s);
    TextEachCharIsHtmlText(s);
  }

  /** The first token of non-empty textToHtml output. */
  lemma HtmlTextHead(r: string) returns (n: nat)
    requires IsHtmlText(r) && r != []
    ensures 1 <= n <= |r| && IsHtmlText(r[n..])
    ensures r[0] != '\n'
    ensures r[0] == '<' ==> StartsWith(r, "<br>")
    ensures forall i :: 0 < i < n ==> r[i] != '<' && r[i] != '\n'
  {
    if r[0] == '<' {
      n := 4;
      assert r[..4] == "<br>";
    } else if r[0] != '&' {
      n := 1;
    } else if StartsWith(r, "&amp;") && IsHtmlText(r[5..]) {
      n := 5;
      assert r[..5] == "&amp;";
    } else if StartsWith(r, "&lt;") && IsHtmlText(r[4..]) {
      n := 4;
      assert r[..4] == "&lt;";
    } else {
      n := 4;
      assert r[..4] == "&gt;";
    }
  }

  /** In textToHtml's output there is no newline, and every `<` begins `<br>`. */
  lemma {:induction false} HtmlTextIsSafe(r: string)
    requires IsHtmlText(r)
    ensures '\n' !in r
    ensures forall i :: 0 <= i < |r| && r[i] == '<' ==> StartsWith(r[i..], "<br>")
    decreases |r|
  {
    if r != [] {
      var n := HtmlTextHead(r);
      var t := r[n..];
      HtmlTextIsSafe(t);
      forall i | 0 <= i < |r| ensures r[i] != '\n' && (r[i] == '<' ==> StartsWith(r[i..], "<br>")) {
        if i >= n {
          assert r[i] == t[i - n];
          assert r[i..] == t[i - n..];
        }
      }
    }
  }

  lemma TextCharCounts(x: char)
    ensures Count(TextChar(x), '<') == if x == '\n' then 1 else 0
    ensures Count(TextChar(x), '"') == if x == '"' then 1 else 0
  {
    var e := TextChar(x);
    CountAbsent(e, '"');
    if x == '\n' {
      assert e == ['<'] + "br>";
      CountConcat(['<'], "br>", '<');
      CountAbsent("br>", '<');
    } else {
      CountAbsent(e, '<');
    }
  }

  lemma {:induction false} TextEachCharCounts(s: string)
    ensures Count(TextEachChar(s), '<') == Count(s, '\n')
    ensures Count(TextEachChar(s), '"') == Count(s, '"')
  {
    if s != [] {
      TextEachCharCounts(s[1..]);
      CountConcat(TextChar(s[0]), TextEachChar(s[1..]), '<');
      CountConcat(TextChar(s[0]), TextEachChar(s[1..]), '"');
      TextCharCounts(s[0]);
    }
  }

  /** Every `<` of textToHtml's output comes from a newline of the input (one
      `<` per newline), and double quotes pass through unchanged. */
  lemma TextToHtmlCounts(s: string)
    ensures Count(TextToHtml(s), '<') == Count(s, '\n')
    ensures Count(TextToHtml(s), '"') == Count(s, '"')
  {
    TextToHtmlIsCharMap(s);
    TextEachCharCounts(s);
  }

  /** The inverse of textToHtml: `<br>` back to a newline and the three entities back. */
  function HtmlToText(r: string): string
    decreases |r|
  {
    if r == [] then []
    else if StartsWith(r, "&amp;") then "&" + HtmlToText(r[5..])
    else if StartsWith(r, "&lt;") then "<" + HtmlToText(r[4..])
    else if StartsWith(r, "&gt;") then ">" + HtmlToText(r[4..])
    else if StartsWith(r, "<br>") then "\n" + HtmlToText(r[4..])
    else [r[0]] + HtmlToText(r[1..])
  }

  lemma HtmlToTextOfTextChar(c: char, t: string)
    ensures HtmlToText(TextChar(c) + t) == [c] + HtmlToText(t)
  {
    var e := TextChar(c);
    var r := e + t;
    assert r[..|e|] == e && r[|e|..] == t;
    assert |e| > 1 ==> r[1] == e[1];
    if c == '&' {
      assert StartsWith(r, "&amp;");
    } else if c == '<' {
      assert !StartsWith(r, "&amp;") && StartsWith(r, "&lt;");
    } else if c == '>' {
      assert !StartsWith(r, "&amp;") && !StartsWith(r, "&lt;") && StartsWith(r, "&gt;");
    } else if c == '\n' {
      assert !StartsWith(r, "&amp;") && !StartsWith(r, "&lt;") && !StartsWith(r, "&gt;") && StartsWith(r, "<br>");
    } else {
      assert r[0] == c && r[1..] == t;
      assert !StartsWith(r, "&amp;") && !StartsWith(r, "&lt;") && !StartsWith(r, "&gt;") && !StartsWith(r, "<br>");
    }
  }

  lemma {:induction false} HtmlToTextOfTextEachChar(s: string)
    ensures HtmlToText(TextEachChar(s)) == s
  {
    if s != [] {
      HtmlToTextOfTextEachChar(s[1..]);
      HtmlToTextOfTextChar(s[0], TextEachChar(s[1..]));
      assert s == [s[0]] + s[1..];
    }
  }

  /** Round trip: textToHtml loses no information. */
  lemma TextToHtmlRoundTrip(s: string)
    ensures HtmlToText(TextToHtml(s)) == s
  {
    TextToHtmlIsCharMap(s);
    HtmlToTextOfTextEachChar(s);
  }

}
