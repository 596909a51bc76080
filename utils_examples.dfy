/** Worked examples of the string helpers, stated for any plain word (text
    with none of the characters the escapers touch). Each is computed on the
    per-character reference definition and transferred to the substitution
    chain through the equivalence lemmas of Utils. */
module UtilsExamples {
  import opened Utils

  /** Text neither escaper changes: no `&`, `"`, `<`, `>` or newline. */
  predicate IsPlain(w: string)
  {
    forall i :: 0 <= i < |w| ==> w[i] != '&' && w[i] != '"' && w[i] != '<' && w[i] != '>' && w[i] != '\n'
  }

  /** Escaping is not idempotent: an existing entity such as `&amp;` is
      escaped again, to `&amp;amp;`. */
  lemma EscapeHtmlEscapesEntities(w: string)
    requires IsPlain(w)
    ensures EscapeHtml("&" + w + ";") == "&amp;" + w + ";"
  {
    EntityMap(w);
    EscapeHtmlIsCharMap("&" + w + ";");
  }

  /** A newline becomes a line-break tag, as in `a\nb` to `a<br>b`. */
  lemma TextToHtmlNewline(a: string, b: string)
    requires IsPlain(a) && IsPlain(b)
    ensures TextToHtml(a + "\n" + b) == a + "<br>" + b
  {
    NewlineMap(a, b);
    TextToHtmlIsCharMap(a + "\n" + b);
  }

  /** Markup in plain text is neutralised, as in `<script>` to `&lt;script&gt;`. */
  lemma TextToHtmlScript(w: string)
    requires IsPlain(w)
    ensures TextToHtml("<" + w + ">") == "&lt;" + w + "&gt;"
  {
    TagMap(w);
    TextToHtmlIsCharMap("<" + w + ">");
  }

  lemma EntityMap(w: string)
    requires IsPlain(w)
    ensures EscapeEachChar("&" + w + ";") == "&amp;" + w + ";"
  {
    var s := "&" + w + ";";
    assert s == "&" + (w + ";");
    EscapeEachCharOfPlain(w, ";");
    assert EscapeEachChar(";") == ";";
  }

  lemma NewlineMap(a: string, b: string)
    requires IsPlain(a) && IsPlain(b)
    ensures TextEachChar(a + "\n" + b) == a + "<br>" + b
  {
    var s := a + "\n" + b;
    assert s == a + ("\n" + b);
    TextEachCharOfPlain(a, "\n" + b);
    assert ("\n" + b)[0] == '\n' && ("\n" + b)[1..] == b;
    TextEachCharOfPlain(b, []);
    assert b + [] == b;
  }

  lemma TagMap(w: string)
    requires IsPlain(w)
    ensures TextEachChar("<" + w + ">") == "&lt;" + w + "&gt;"
  {
    var s := "<" + w + ">";
    assert s == "<" + (w + ">");
    TextEachCharOfPlain(w, ">");
    assert TextEachChar(">") == "&gt;";
  }

  /** escapeHtml's reference map keeps plain text. */
  lemma {:induction false} EscapeEachCharOfPlain(a: string, b: string)
    requires IsPlain(a)
    ensures EscapeEachChar(a + b) == a + EscapeEachChar(b)
    decreases |a|
  {
    if a == [] {
      assert a + b == b;
    } else {
      var ab := a + b;
      assert ab[0] == a[0] && ab[1..] == a[1..] + b;
      assert a[0] != '&' && a[0] != '"' && a[0] != '<' && a[0] != '>' && a[0] != '\n';
      assert EscapeChar(a[0]) == [a[0]];
      assert IsPlain(a[1..]) by {
        forall i | 0 <= i < |a[1..]| ensures a[1..][i] == a[i + 1] { }
      }
      EscapeEachCharOfPlain(a[1..], b);
      assert a == [a[0]] + a[1..];
    }
  }

  /** textToHtml's reference map keeps plain text. */
  lemma {:induction false} TextEachCharOfPlain(a: string, b: string)
    requires IsPlain(a)
    ensures TextEachChar(a + b) == a + TextEachChar(b)
    decreases |a|
  {
    if a == [] {
      assert a + b == b;
    } else {
      var ab := a + b;
      assert ab[0] == a[0] && ab[1..] == a[1..] + b;
      assert a[0] != '&' && a[0] != '"' && a[0] != '<' && a[0] != '>' && a[0] != '\n';
      assert TextChar(a[0]) == [a[0]];
      assert IsPlain(a[1..]) by {
        forall i | 0 <= i < |a[1..]| ensures a[1..][i] == a[i + 1] { }
      }
      TextEachCharOfPlain(a[1..], b);
      assert a == [a[0]] + a[1..];
    }
  }
}
