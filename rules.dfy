/**
 * The ordered string-rewriting pipeline of the editor's HTML cleaner.
 *
 * A rule rewrites a whole string. The literal rules (`&nbsp;`, `</sup> <sup>`,
 * ` </sup>`, `<br>` and the `sub` forms) are given concretely as a global,
 * case-insensitive literal replace; every other rule is a regular expression
 * whose engine is not part of this model, so it is an abstract
 * `string -> string` function that is only known never to lengthen its input.
 */
module Rules {

  /** ASCII lower-casing, which is how a case-insensitive regular expression compares the letters of these literals. */
  function Lower(c: char): (r: char)
    ensures 'A' <= c <= 'Z' ==> r as int == c as int + 32
    ensures !('A' <= c <= 'Z') ==> r == c
  {
    if 'A' <= c <= 'Z' then (c as int + 32) as char else c
  }

  /** `s` begins with `pat`, ignoring ASCII case. */
  predicate StartsWith(s: string, pat: string)
  {
    |pat| <= |s| && forall i :: 0 <= i < |pat| ==> Lower(s[i]) == Lower(pat[i])
  }

  /** No suffix of `s` begins with `pat`: the pattern does not occur in `s`. */
  predicate Free(s: string, pat: string)
  {
    forall i :: 0 <= i <= |s| ==> !StartsWith(s[i..], pat)
  }

  /**
   * `s.replace(/pat/gi, rep)` for a literal `pat`: matches are found from the
   * left, each search resuming after the previous match, and every match is
   * replaced by `rep`.
   */
  function ReplaceAll(s: string, pat: string, rep: string): (r: string)
    requires pat != []
    decreases |s|
  {
    if |s| < |pat| then s
    else if StartsWith(s, pat) then rep + ReplaceAll(s[|pat|..], pat, rep)
    else [s[0]] + ReplaceAll(s[1..], pat, rep)
  }

  /** A replacement no longer than its pattern never lengthens the string. */
  lemma {:induction false} ReplaceAllShorter(s: string, pat: string, rep: string)
    requires pat != [] && |rep| <= |pat|
    ensures |ReplaceAll(s, pat, rep)| <= |s|
    decreases |s|
  {
    if |s| < |pat| {
    } else if StartsWith(s, pat) {
      ReplaceAllShorter(s[|pat|..], pat, rep);
    } else {
      ReplaceAllShorter(s[1..], pat, rep);
    }
  }

  /** A string in which the pattern does not occur is returned unchanged. */
  lemma {:induction false} ReplaceAllFree(s: string, pat: string, rep: string)
    requires pat != [] && Free(s, pat)
    ensures ReplaceAll(s, pat, rep) == s
    decreases |s|
  {
    if |s| < |pat| {
    } else {
      assert s[0..] == s;
      assert !StartsWith(s, pat);
      assert Free(s[1..], pat) by {
        forall i | 0 <= i <= |s[1..]|
          ensures !StartsWith(s[1..][i..], pat)
        {
          assert s[1..][i..] == s[i + 1..];
        }
      }
      ReplaceAllFree(s[1..], pat, rep);
    }
  }

  /** No letter of `q` matches, ignoring case, any letter of `rep`. */
  predicate Disjoint(q: string, rep: string)
  {
    forall i, j :: 0 <= i < |q| && 0 <= j < |rep| ==> Lower(q[i]) != Lower(rep[j])
  }

  lemma HeadLetter(r: string, q: string)
    requires q != [] && StartsWith(r, q)
    ensures Lower(r[0]) == Lower(q[0])
  {
  }

  /**
   * Text that shares no letter with the replacement can only be found at the
   * head of the result if it was already at the head of the input.
   */
  lemma {:induction false} HeadSurvives(t: string, pat: string, rep: string, q: string)
    requires pat != [] && rep != [] && Disjoint(q, rep)
    requires StartsWith(ReplaceAll(t, pat, rep), q)
    ensures StartsWith(t, q)
    decreases |t|
  {
    var r := ReplaceAll(t, pat, rep);
    if |t| < |pat| || q == [] {
    } else if StartsWith(t, pat) {
      HeadLetter(r, q);
      assert false;
    } else {
      var r' := ReplaceAll(t[1..], pat, rep);
      assert r == [t[0]] + r';
      assert StartsWith(r', q[1..]) by {
        forall i | 0 <= i < |q[1..]|
          ensures Lower(r'[i]) == Lower(q[1..][i])
        {
          assert r'[i] == r[i + 1];
        }
      }
      assert Disjoint(q[1..], rep) by {
        forall i, j | 0 <= i < |q[1..]| && 0 <= j < |rep|
          ensures Lower(q[1..][i]) != Lower(rep[j])
        {
          assert q[1..][i] == q[i + 1];
        }
      }
      HeadSurvives(t[1..], pat, rep, q[1..]);
      forall i | 0 <= i < |q|
        ensures Lower(t[i]) == Lower(q[i])
      {
        if i > 0 {
          assert t[i] == t[1..][i - 1] && q[i] == q[1..][i - 1];
        }
      }
    }
  }

  /**
   * A non-empty replacement sharing no letter with its pattern leaves no
   * occurrence of the pattern behind (for example `&nbsp;` becomes a space,
   * and no `&nbsp;` remains).
   */
  lemma {:induction false} ReplaceAllClears(s: string, pat: string, rep: string)
    requires pat != [] && rep != [] && Disjoint(pat, rep)
    ensures Free(ReplaceAll(s, pat, rep), pat)
    decreases |s|
  {
    var r := ReplaceAll(s, pat, rep);
    if |s| < |pat| {
    } else if StartsWith(s, pat) {
      var r' := ReplaceAll(s[|pat|..], pat, rep);
      ReplaceAllClears(s[|pat|..], pat, rep);
      forall i | 0 <= i <= |r|
        ensures !StartsWith(r[i..], pat)
      {
        if i < |rep| {
          assert r[i..][0] == rep[i];
        } else {
          assert r[i..] == r'[i - |rep|..];
        }
      }
    } else {
      var r' := ReplaceAll(s[1..], pat, rep);
      ReplaceAllClears(s[1..], pat, rep);
      forall i | 0 <= i <= |r|
        ensures !StartsWith(r[i..], pat)
      {
        if i == 0 {
          assert r[0..] == r;
          if StartsWith(r, pat) {
            HeadSurvives(s, pat, rep, pat);
          }
        } else {
          assert r[i..] == r'[i - 1..];
        }
      }
    }
  }

  /** A rule of a rule list: a literal replace, or a regular-expression replace whose engine is abstract. */
  datatype Rule =
    | Literal(pat: string, rep: string)
    | Pattern(apply: string -> string)

  /** The patterns of literal rules are never empty. */
  predicate WellFormed(rule: Rule)
  {
    rule.Literal? ==> rule.pat != []
  }

  /** A function that never returns a longer string than it is given. */
  ghost predicate Shrinks(f: string -> string)
  {
    forall s :: |f(s)| <= |s|
  }

  /** Every match is replaced by something no longer than itself. */
  ghost predicate Shortening(rule: Rule)
  {
    match rule
    case Literal(pat, rep) => pat != [] && |rep| <= |pat|
    case Pattern(f) => Shrinks(f)
  }

  /** `content.replace(rule.regex, rule.replace)`. */
  function Apply(rule: Rule, s: string): (r: string)
    requires WellFormed(rule)
  {
    match rule
    case Literal(pat, rep) => ReplaceAll(s, pat, rep)
    case Pattern(f) => f(s)
  }

  lemma ApplyShorter(rule: Rule, s: string)
    requires Shortening(rule)
    ensures |Apply(rule, s)| <= |s|
  {
    if rule.Literal? {
      ReplaceAllShorter(s, rule.pat, rule.rep);
    }
  }

  predicate AllWellFormed(rules: seq<Rule>)
  {
    forall i :: 0 <= i < |rules| ==> WellFormed(rules[i])
  }

  /** The content after every rule of `rules` has been applied in list order, each to the previous one's output. */
  function Filter(s: string, rules: seq<Rule>): (r: string)
    requires AllWellFormed(rules)
    decreases |rules|
  {
    if rules == [] then s
    else Apply(rules[|rules| - 1], Filter(s, rules[..|rules| - 1]))
  }

  /** Running two rule lists one after the other is running their concatenation. */
  lemma {:induction false} FilterAppend(s: string, a: seq<Rule>, b: seq<Rule>)
    requires AllWellFormed(a) && AllWellFormed(b)
    ensures AllWellFormed(a + b)
    ensures Filter(s, a + b) == Filter(Filter(s, a), b)
    decreases |b|
  {
    if b == [] {
      assert a + b == a;
    } else {
      var b' := b[..|b| - 1];
      assert (a + b)[..|a + b| - 1] == a + b';
      FilterAppend(s, a, b');
    }
  }

  /** The first rule is applied first, to the input itself. */
  lemma FilterCons(s: string, rule: Rule, rest: seq<Rule>)
    requires WellFormed(rule) && AllWellFormed(rest)
    ensures AllWellFormed([rule] + rest)
    ensures Filter(s, [rule] + rest) == Filter(Apply(rule, s), rest)
  {
    FilterAppend(s, [rule], rest);
    assert [rule][..0] == [];
  }

  /** A list of rules none of which lengthens its input never lengthens the content. */
  lemma {:induction false} FilterShorter(s: string, rules: seq<Rule>)
    requires forall i :: 0 <= i < |rules| ==> Shortening(rules[i])
    ensures AllWellFormed(rules) && |Filter(s, rules)| <= |s|
    decreases |rules|
  {
    if rules != [] {
      FilterShorter(s, rules[..|rules| - 1]);
      ApplyShorter(rules[|rules| - 1], Filter(s, rules[..|rules| - 1]));
    }
  }

  /** `_filterContentWithRules`: reassigns the content once per rule, in list order. */
  method FilterContentWithRules(content: string, rules: seq<Rule>) returns (r: string)
    requires AllWellFormed(rules)
    ensures r == Filter(content, rules)
    ensures rules == [] ==> r == content
  {
    r := content;
    var i := 0;
    while i < |rules|
      invariant i <= |rules|
      invariant r == Filter(content, rules[..i])
    {
      assert rules[..i + 1][..i] == rules[..i];
      r := Apply(rules[i], r);
      i := i + 1;
    }
    assert rules[..i] == rules;
  }

  /** The regular-expression rules of `_cleanHTML`, whose matching is abstract. */
  datatype CleanPatterns = CleanPatterns(
    emptyParagraph: string -> string,  // <p ...>(&nbsp;|\s)*</p>  -> ""
    supAttributes: string -> string,   // <sup ...>                -> "<sup>"
    subAttributes: string -> string,   // <sub ...>                -> "<sub>"
    styleBlock: string -> string,      // <style ...>...</style>   -> ""
    openComment: string -> string,     // <!-- without a -->       -> ""
    forbiddenTag: string -> string)    // <br|title|meta|...>      -> ""

  ghost predicate CleanShrinks(p: CleanPatterns)
  {
    Shrinks(p.emptyParagraph) && Shrinks(p.supAttributes) && Shrinks(p.subAttributes)
    && Shrinks(p.styleBlock) && Shrinks(p.openComment) && Shrinks(p.forbiddenTag)
  }

  /** The rule list of `_cleanHTML`, in its order. */
  function CleanRules(p: CleanPatterns): (rules: seq<Rule>)
    ensures |rules| == 12 && AllWellFormed(rules)
    ensures CleanShrinks(p) ==> forall i :: 0 <= i < |rules| ==> Shortening(rules[i])
  {
    [ Pattern(p.emptyParagraph),
      Pattern(p.supAttributes),
      Pattern(p.subAttributes),
      Literal("&nbsp;", " "),
      Literal("</sup> <sup>", " "),
      Literal("</sub> <sub>", " "),
      Literal(" </sup>", "</sup> "),
      Literal(" </sub>", "</sub> "),
      Literal("<br>", ""),
      Pattern(p.styleBlock),
      Pattern(p.openComment),
      Pattern(p.forbiddenTag) ]
  }

  /** `_cleanHTML`. */
  function CleanHTML(content: string, p: CleanPatterns): (r: string)
  {
    Filter(content, CleanRules(p))
  }

  /** `_cleanHTML` never returns a string longer than its input. */
  lemma CleanHTMLShorter(content: string, p: CleanPatterns)
    requires CleanShrinks(p)
    ensures |CleanHTML(content, p)| <= |content|
  {
    FilterShorter(content, CleanRules(p));
  }

  /** The `&nbsp;` rule of `_cleanHTML` leaves no `&nbsp;`, in any letter case, in the string it returns. */
  lemma NbspCleared(s: string)
    ensures Free(Apply(Literal("&nbsp;", " "), s), "&nbsp;")
  {
    ReplaceAllClears(s, "&nbsp;", " ");
  }

  /** The regular-expression rules of `_cleanPasteHTML`, whose matching is abstract. */
  datatype PastePatterns = PastePatterns(
    afterHtml: string -> string,       // everything after </html>
    conditionalComment: string -> string,
    fragmentComment: string -> string,
    xmlBlock: string -> string,
    xmlDeclaration: string -> string,
    officeTag: string -> string,       // <o:p>, </o:p>, ...
    msoStyle: string -> string,
    msoClass: string -> string,
    appleClass: string -> string,
    oleLink: string -> string,
    emptySpan: string -> string)

  ghost predicate PasteShrinks(q: PastePatterns)
  {
    Shrinks(q.afterHtml) && Shrinks(q.conditionalComment) && Shrinks(q.fragmentComment)
    && Shrinks(q.xmlBlock) && Shrinks(q.xmlDeclaration) && Shrinks(q.officeTag)
    && Shrinks(q.msoStyle) && Shrinks(q.msoClass) && Shrinks(q.appleClass)
    && Shrinks(q.oleLink) && Shrinks(q.emptySpan)
  }

  /** The first, harsher rule list of `_cleanPasteHTML`. */
  function OfficeRules(q: PastePatterns): (rules: seq<Rule>)
    ensures |rules| == 6 && AllWellFormed(rules)
    ensures PasteShrinks(q) ==> forall i :: 0 <= i < |rules| ==> Shortening(rules[i])
  {
    [ Pattern(q.afterHtml), Pattern(q.conditionalComment), Pattern(q.fragmentComment),
      Pattern(q.xmlBlock), Pattern(q.xmlDeclaration), Pattern(q.officeTag) ]
  }

  /** The second rule list of `_cleanPasteHTML`, run on the browser-normalised markup. */
  function AttributeRules(q: PastePatterns): (rules: seq<Rule>)
    ensures |rules| == 5 && AllWellFormed(rules)
    ensures PasteShrinks(q) ==> forall i :: 0 <= i < |rules| ==> Shortening(rules[i])
  {
    [ Pattern(q.msoStyle), Pattern(q.msoClass), Pattern(q.appleClass),
      Pattern(q.oleLink), Pattern(q.emptySpan) ]
  }

  /** The characters `\s` matches in a JavaScript regular expression. */
  predicate IsSpace(c: char)
  {
    c == ' ' || c == '\t' || c == '\n' || c == '\r' || c == '\U{B}' || c == '\U{C}'
    || c == '\U{A0}' || c == '\U{1680}' || '\U{2000}' <= c <= '\U{200A}'
    || c == '\U{2028}' || c == '\U{2029}' || c == '\U{202F}' || c == '\U{205F}'
    || c == '\U{3000}' || c == '\U{FEFF}'
  }

  /** `!content.match(/\S/)`. */
  predicate Blank(s: string)
  {
    forall i :: 0 <= i < |s| ==> IsSpace(s[i])
  }

  /**
   * `_cleanPasteHTML`. `reparse` is the browser's parse-and-serialise round
   * trip through a detached `div`, which this model does not interpret.
   */
  function CleanPasteHTML(content: string, p: CleanPatterns, q: PastePatterns, reparse: string -> string): (r: string)
  {
    if content == [] then ""
    else
      var first := CleanHTML(Filter(content, OfficeRules(q)), p);
      if first == [] || Blank(first) then first
      else CleanHTML(Filter(reparse(first), AttributeRules(q)), p)
  }

  /**
   * When the browser round trip does not lengthen the markup, neither does
   * `_cleanPasteHTML`; markup that is blank after the first pass never
   * reaches the browser at all.
   */
  lemma CleanPasteShorter(content: string, p: CleanPatterns, q: PastePatterns, reparse: string -> string)
    requires CleanShrinks(p) && PasteShrinks(q) && Shrinks(reparse)
    ensures |CleanPasteHTML(content, p, q, reparse)| <= |content|
  {
    if content != [] {
      var filtered := Filter(content, OfficeRules(q));
      FilterShorter(content, OfficeRules(q));
      CleanHTMLShorter(filtered, p);
      var first := CleanHTML(filtered, p);
      if !(first == [] || Blank(first)) {
        var again := Filter(reparse(first), AttributeRules(q));
        FilterShorter(reparse(first), AttributeRules(q));
        CleanHTMLShorter(again, p);
      }
    }
  }

  /** Markup that the first pass leaves blank is returned without the browser round trip. */
  lemma CleanPasteBlank(content: string, p: CleanPatterns, q: PastePatterns, reparse: string -> string, other: string -> string)
    requires content != [] && Blank(CleanHTML(Filter(content, OfficeRules(q)), p))
    ensures CleanPasteHTML(content, p, q, reparse) == CleanPasteHTML(content, p, q, other)
  {
  }

  /**
   * `html.substr(start, length)` for `0 <= start <= |html|`: a negative or zero
   * length gives the empty string and the end is clipped to the string.
   */
  function Substr(html: string, start: nat, length: int): (r: string)
    requires start <= |html|
    ensures |r| <= |html| - start
    ensures forall i :: 0 <= i < |r| ==> r[i] == html[start + i]
  {
    if length <= 0 then ""
    else if start + length <= |html| then html[start..start + length]
    else html[start..]
  }

  /** The paragraph-marker strip of `getCleanHTML`. */
  function StripParagraph(html: string, startParagraph: string, endParagraph: string): (r: string)
  {
    if |startParagraph| <= |html| && html[..|startParagraph|] == startParagraph then
      Substr(html, |startParagraph|, |html| - (|startParagraph| + |endParagraph|))
    else html
  }

  /** With both markers empty, as `getCleanHTML` has them, the strip changes nothing. */
  lemma StripIdentity(html: string)
    ensures StripParagraph(html, "", "") == html
  {
    if html != [] {
      assert html[0..|html|] == html;
    }
  }

  /**
   * `getCleanHTML`, given the serialised markup of the cleaned clone. The
   * clone's own edits (yui ids, selection spans, controls) and its
   * serialisation are outside this model, and the live editor is never an
   * argument, so it cannot change.
   */
  function GetCleanHTML(html: string, p: CleanPatterns): (r: string)
  {
    if html == "" || html == "<br>" then ""
    else CleanHTML(StripParagraph(html, "", ""), p)
  }

  /** An untouched editor reads back as the empty string; any other markup is just cleaned. */
  lemma GetCleanHTMLSpec(html: string, p: CleanPatterns)
    ensures html == "" || html == "<br>" ==> GetCleanHTML(html, p) == ""
    ensures html != "" && html != "<br>" ==> GetCleanHTML(html, p) == CleanHTML(html, p)
    ensures CleanShrinks(p) ==> |GetCleanHTML(html, p)| <= |html|
  {
    StripIdentity(html);
    if CleanShrinks(p) {
      CleanHTMLShorter(html, p);
    }
  }
}
