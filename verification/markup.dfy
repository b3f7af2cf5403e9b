/**
 * The HTML helpers the chat client falls back on when its third-party
 * renderer and sanitizer are not loaded, and the link filter it installs
 * in the renderer.
 */
module Markup {
  import opened Text

  // ----- renderMarkdown fallback ------------------------------------------

  /** `s.replace(/c/g, repl)` for a one-character pattern. */
  function ReplaceChar(s: string, c: char, repl: string): string
    decreases |s|
  {
    if s == [] then [] else (if s[0] == c then repl else [s[0]]) + ReplaceChar(s[1..], c, repl)
  }

  lemma {:induction false} ReplaceCharAppend(a: string, b: string, c: char, repl: string)
    ensures ReplaceChar(a + b, c, repl) == ReplaceChar(a, c, repl) + ReplaceChar(b, c, repl)
    decreases |a|
  {
    if a == [] {
      assert a + b == b;
    } else {
      assert (a + b)[1..] == a[1..] + b;
      ReplaceCharAppend(a[1..], b, c, repl);
    }
  }

  lemma {:induction false} ReplaceCharAbsent(s: string, c: char, repl: string)
    requires c !in s
    ensures ReplaceChar(s, c, repl) == s
    decreases |s|
  {
    if s != [] {
      ReplaceCharAbsent(s[1..], c, repl);
    }
  }

  /** The fallback of `renderMarkdown`: four global replacements, `&` first. */
  function RenderFallback(text: string): string {
    var amp := ReplaceChar(text, '&', "&amp;");
    var lt := ReplaceChar(amp, '<', "&lt;");
    var gt := ReplaceChar(lt, '>', "&gt;");
    ReplaceChar(gt, '\n', "<br>")
  }

  /** What the fallback does to one character. */
  function EscapeChar(c: char): string {
    if c == '&' then "&amp;"
    else if c == '<' then "&lt;"
    else if c == '>' then "&gt;"
    else if c == '\n' then "<br>"
    else [c]
  }

  function EscapeEach(s: string): string
    decreases |s|
  {
    if s == [] then [] else EscapeChar(s[0]) + EscapeEach(s[1..])
  }

  lemma ReplaceCharSingle(c: char, d: char, repl: string)
    ensures ReplaceChar([c], d, repl) == if c == d then repl else [c]
  {
    assert [c][1..] == [];
  }

  /** The escape of one character contains none of the characters the
      later replacements in the chain look for. */
  lemma RenderFallbackChar(c: char)
    ensures RenderFallback([c]) == EscapeChar(c)
  {
    var a1 := ReplaceChar([c], '&', "&amp;");
    ReplaceCharSingle(c, '&', "&amp;");
    var a2 := ReplaceChar(a1, '<', "&lt;");
    if c == '&' { ReplaceCharAbsent(a1, '<', "&lt;"); } else { ReplaceCharSingle(c, '<', "&lt;"); }
    var a3 := ReplaceChar(a2, '>', "&gt;");
    if c == '&' || c == '<' { ReplaceCharAbsent(a2, '>', "&gt;"); } else { ReplaceCharSingle(c, '>', "&gt;"); }
    if c == '&' || c == '<' || c == '>' {
      ReplaceCharAbsent(a3, '\n', "<br>");
    } else {
      ReplaceCharSingle(c, '\n', "<br>");
    }
  }

  /** Because `&` is replaced first, the four chained replacements act as
      one character-by-character escape: no replacement rewrites the text
      an earlier one inserted. */
  lemma {:induction false} RenderFallbackIsPerChar(s: string)
    ensures RenderFallback(s) == EscapeEach(s)
    decreases |s|
  {
    if s != [] {
      var c, rest := s[0], s[1..];
      assert s == [c] + rest;
      var a1 := ReplaceChar([c], '&', "&amp;");
      var b1 := ReplaceChar(rest, '&', "&amp;");
      ReplaceCharAppend([c], rest, '&', "&amp;");
      var a2 := ReplaceChar(a1, '<', "&lt;");
      var b2 := ReplaceChar(b1, '<', "&lt;");
      ReplaceCharAppend(a1, b1, '<', "&lt;");
      var a3 := ReplaceChar(a2, '>', "&gt;");
      var b3 := ReplaceChar(b2, '>', "&gt;");
      ReplaceCharAppend(a2, b2, '>', "&gt;");
      ReplaceCharAppend(a3, b3, '\n', "<br>");
      RenderFallbackChar(c);
      RenderFallbackIsPerChar(rest);
    }
  }

  /** The decoder the escape is designed for: a browser reading the HTML
      back as text. */
  function UnescapeHtml(t: string): string
    decreases |t|
  {
    if t == [] then []
    else if "&amp;" <= t then "&" + UnescapeHtml(t[5..])
    else if "&lt;" <= t then "<" + UnescapeHtml(t[4..])
    else if "&gt;" <= t then ">" + UnescapeHtml(t[4..])
    else if "<br>" <= t then "\n" + UnescapeHtml(t[4..])
    else [t[0]] + UnescapeHtml(t[1..])
  }

  lemma UnescapeChar(c: char, rest: string)
    ensures UnescapeHtml(EscapeChar(c) + rest) == [c] + UnescapeHtml(rest)
  {
    var t := EscapeChar(c) + rest;
    if c == '&' {
      assert "&amp;" <= t && t[5..] == rest;
    } else if c == '<' {
      assert !("&amp;" <= t) by { assert t[1] == 'l'; }
      assert "&lt;" <= t && t[4..] == rest;
    } else if c == '>' {
      assert !("&amp;" <= t) by { assert t[1] == 'g'; }
      assert !("&lt;" <= t) by { assert t[1] == 'g'; }
      assert "&gt;" <= t && t[4..] == rest;
    } else if c == '\n' {
      assert t[0] == '<';
      assert "<br>" <= t && t[4..] == rest;
    } else {
      assert t[0] == c && t[1..] == rest;
    }
  }

  /** The fallback loses nothing: reading its output back as HTML text
      gives the original message. */
  lemma {:induction false} RenderFallbackRoundTrip(s: string)
    ensures UnescapeHtml(RenderFallback(s)) == s
  {
    RenderFallbackIsPerChar(s);
    EscapeEachRoundTrip(s);
  }

  lemma {:induction false} EscapeEachRoundTrip(s: string)
    ensures UnescapeHtml(EscapeEach(s)) == s
    decreases |s|
  {
    if s != [] {
      UnescapeChar(s[0], EscapeEach(s[1..]));
      EscapeEachRoundTrip(s[1..]);
    }
  }

  /** Every `<` opens a `<br>`. */
  predicate OnlyBreakTags(r: string) {
    forall i :: 0 <= i < |r| && r[i] == '<' ==> "<br>" <= r[i..]
  }

  /** The only markup the fallback emits is `<br>`. */
  lemma {:induction false} RenderFallbackOnlyBreaks(s: string)
    ensures OnlyBreakTags(RenderFallback(s))
  {
    RenderFallbackIsPerChar(s);
    EscapeEachOnlyBreaks(s);
  }

  lemma EscapeCharOpensOnlyBreak(c: char, i: nat)
    requires i < |EscapeChar(c)| && EscapeChar(c)[i] == '<'
    ensures c == '\n' && i == 0 && EscapeChar(c) == "<br>"
  {
  }

  lemma {:induction false} EscapeEachOnlyBreaks(s: string)
    ensures OnlyBreakTags(EscapeEach(s))
    decreases |s|
  {
    if s != [] {
      EscapeEachOnlyBreaks(s[1..]);
      var head, tail := EscapeChar(s[0]), EscapeEach(s[1..]);
      var r := head + tail;
      forall i | 0 <= i < |r| && r[i] == '<' ensures "<br>" <= r[i..] {
        if i < |head| {
          assert head[i] == '<';
          EscapeCharOpensOnlyBreak(s[0], i);
          assert r[i..] == "<br>" + tail;
          assert "<br>" <= "<br>" + tail;
        } else {
          var j := i - |head|;
          assert r[i..] == tail[j..] && tail[j] == '<';
          assert "<br>" <= tail[j..];
        }
      }
    }
  }

  // ----- sanitize fallback ------------------------------------------------

  /** Index of the first occurrence of `c`. */
  function IndexOf(s: string, c: char): (k: nat)
    requires c in s
    ensures k < |s| && s[k] == c && c !in s[..k]
    decreases |s|
  {
    if s[0] == c then 0 else 1 + IndexOf(s[1..], c)
  }

  /** No `<` is followed, anywhere later, by a `>`. */
  predicate NoTag(r: string) {
    forall i, j :: 0 <= i < j < |r| && r[i] == '<' ==> r[j] != '>'
  }

  /** `html.replace(/<[^>]*>/g, '')`: from a `<`, the pattern runs to the
      first `>`; a `<` with no `>` after it is kept. */
  function StripTags(s: string): (r: string)
    ensures forall k :: 0 <= k < |r| ==> r[k] in s
    ensures NoTag(r)
    decreases |s|
  {
    if s == [] then []
    else if s[0] == '<' && '>' in s[1..] then
      var close := 1 + IndexOf(s[1..], '>');
      StripTags(s[close + 1..])
    else
      var rest := StripTags(s[1..]);
      assert s[0] == '<' ==> forall k :: 0 <= k < |rest| ==> rest[k] != '>';
      [s[0]] + rest
  }

  /** A string with no tag left passes through unchanged. */
  lemma {:induction false} StripTagsKeepsClean(r: string)
    requires NoTag(r)
    ensures StripTags(r) == r
    decreases |r|
  {
    if r != [] {
      if r[0] == '<' {
        assert '>' !in r[1..] by {
          forall k | 0 <= k < |r| - 1 ensures r[1..][k] != '>' { assert r[1..][k] == r[k + 1]; }
        }
      }
      StripTagsKeepsClean(r[1..]);
    }
  }

  /** The first occurrence is the one `IndexOf` finds. */
  lemma IndexOfFirst(s: string, c: char, k: nat)
    requires k < |s| && s[k] == c && c !in s[..k]
    ensures IndexOf(s, c) == k
  {
    var r := IndexOf(s, c);
    assert forall i :: 0 <= i < k ==> s[..k][i] == s[i];
    assert forall i :: 0 <= i < r ==> s[..r][i] == s[i];
  }

  /** A tag is removed up to its first `>`, and the text before it, which
      holds no `<`, is kept: `"a<b>c"` becomes `"ac"`. */
  lemma StripTagsSkipsTag(a: string, t: string, b: string)
    requires '<' !in a && '>' !in t
    ensures StripTags(a + "<" + t + ">" + b) == a + StripTags(b)
  {
    var x := "<" + t + ">" + b;
    assert a + "<" + t + ">" + b == a + x;
    StripTagsPlainPrefix(a, x);
    StripTagsTagFirst(t, b);
  }

  /** Text without `<` in front of anything is kept as it is. */
  lemma {:induction false} StripTagsPlainPrefix(a: string, x: string)
    requires '<' !in a
    ensures StripTags(a + x) == a + StripTags(x)
    decreases |a|
  {
    if a == [] {
      assert a + x == x;
    } else {
      assert (a + x)[1..] == a[1..] + x;
      assert (a + x)[0] == a[0];
      StripTagsPlainPrefix(a[1..], x);
      assert a == [a[0]] + a[1..];
    }
  }

  /** A leading tag is dropped whole. */
  lemma StripTagsTagFirst(t: string, b: string)
    requires '>' !in t
    ensures StripTags("<" + t + ">" + b) == StripTags(b)
  {
    var s := "<" + t + ">" + b;
    var inner := t + ">" + b;
    assert s[1..] == inner;
    assert inner[..|t|] == t && inner[|t|] == '>';
    IndexOfFirst(inner, '>', |t|);
    assert s[|t| + 2..] == b;
  }

  /** Text with no `>` in it is kept after whatever comes before, so a `<`
      with no later `>` survives. */
  lemma {:induction false} StripTagsUnclosedTail(a: string, x: string)
    requires '>' !in x
    ensures StripTags(a + x) == StripTags(a) + x
    decreases |a|
  {
    if a == [] {
      assert a + x == x;
      StripTagsKeepsClean(x);
    } else {
      var s := a + x;
      assert s[0] == a[0];
      assert s[1..] == a[1..] + x;
      if a[0] == '<' && '>' in a[1..] {
        var k := IndexOf(a[1..], '>');
        assert s[1..][..k] == a[1..][..k];
        IndexOfFirst(s[1..], '>', k);
        assert s[k + 2..] == a[k + 2..] + x;
        StripTagsUnclosedTail(a[k + 2..], x);
      } else {
        assert a[0] == '<' ==> '>' !in s[1..];
        StripTagsUnclosedTail(a[1..], x);
      }
    }
  }

  lemma StripTagsExample()
    ensures StripTags("a<b>c") == "ac"
  {
    assert "a" + "<" + "b" + ">" + "c" == "a<b>c";
    StripTagsSkipsTag("a", "b", "c");
    StripTagsKeepsClean("c");
  }

  /** Stripping twice is stripping once. */
  lemma StripTagsIdempotent(s: string)
    ensures StripTags(StripTags(s)) == StripTags(s)
  {
    StripTagsKeepsClean(StripTags(s));
  }

  // ----- link filter ------------------------------------------------------

  /** Characters `/[\s\u0000-\u001f]/g` removes from a lower-cased href. */
  predicate IsIgnoredInScheme(c: char) {
    IsJsSpace(c) || c as int <= 0x1F
  }

  function RemoveIgnored(s: string): (r: string)
    ensures forall k :: 0 <= k < |r| ==> !IsIgnoredInScheme(r[k])
    decreases |s|
  {
    if s == [] then []
    else (if IsIgnoredInScheme(s[0]) then [] else [s[0]]) + RemoveIgnored(s[1..])
  }

  lemma {:induction false} RemoveIgnoredAppend(a: string, b: string)
    ensures RemoveIgnored(a + b) == RemoveIgnored(a) + RemoveIgnored(b)
    decreases |a|
  {
    if a == [] {
      assert a + b == b;
    } else {
      assert (a + b)[1..] == a[1..] + b;
      RemoveIgnoredAppend(a[1..], b);
    }
  }

  /** The normalised href whose scheme is tested. */
  function SchemeKey(href: string): string {
    RemoveIgnored(LowerAscii(href))
  }

  predicate IsDangerousHref(href: string) {
    var u := SchemeKey(href);
    "javascript:" <= u || "data:" <= u || "vbscript:" <= u
  }

  /** The renderer's link hook: a dangerous link becomes its bare text. */
  function RenderLink(href: string, text: string): (r: string)
    ensures IsDangerousHref(href) ==> r == text
    ensures !IsDangerousHref(href) ==>
      r == "<a href=\"" + href + "\" target=\"_blank\" rel=\"noopener noreferrer\">" + text + "</a>"
  {
    if IsDangerousHref(href) then text
    else "<a href=\"" + href + "\" target=\"_blank\" rel=\"noopener noreferrer\">" + text + "</a>"
  }

  lemma LowerAsciiAppend(a: string, b: string)
    ensures LowerAscii(a + b) == LowerAscii(a) + LowerAscii(b)
  {
  }

  /** Inserting white space or a control character anywhere in an href does
      not change the normalised scheme, hence not whether it is blocked. */
  lemma InsertIgnoredKeepsVerdict(href: string, i: nat, c: char)
    requires i <= |href| && IsIgnoredInScheme(c)
    ensures SchemeKey(href[..i] + [c] + href[i..]) == SchemeKey(href)
    ensures IsDangerousHref(href[..i] + [c] + href[i..]) == IsDangerousHref(href)
  {
    var a, b := href[..i], href[i..];
    assert href == a + b;
    LowerAsciiAppend(a + [c], b);
    LowerAsciiAppend(a, [c]);
    LowerAsciiAppend(a, b);
    var la, lb := LowerAscii(a), LowerAscii(b);
    var lc := LowerAscii([c]);
    assert lc == [c];
    RemoveIgnoredAppend(la + lc, lb);
    RemoveIgnoredAppend(la, lc);
    RemoveIgnoredAppend(la, lb);
    assert RemoveIgnored(lc) == [] by { assert lc[1..] == []; }
  }

  /** Changing the ASCII case of an href does not change whether it is
      blocked. */
  lemma CaseKeepsVerdict(href: string)
    ensures IsDangerousHref(LowerAscii(href)) == IsDangerousHref(href)
  {
    assert LowerAscii(LowerAscii(href)) == LowerAscii(href);
  }

  /** Lower-case printable ASCII characters survive the normalisation. */
  predicate IsPlainSchemeText(s: string) {
    forall k :: 0 <= k < |s| ==> 0x21 <= s[k] as int <= 0x7E && !('A' <= s[k] <= 'Z')
  }

  lemma SchemeKeyPlainPrefix(p: string, rest: string)
    requires IsPlainSchemeText(p)
    ensures SchemeKey(p + rest) == p + SchemeKey(rest)
  {
    assert LowerAscii(p) == p;
    RemoveIgnoredNone(p);
    LowerAsciiAppend(p, rest);
    RemoveIgnoredAppend(p, LowerAscii(rest));
  }

  /** An href that starts with `javascript:` is blocked, whatever follows. */
  lemma JavascriptSchemeBlocked(rest: string)
    ensures IsDangerousHref("javascript:" + rest)
  {
    var plain := "javascript:";
    assert IsPlainSchemeText(plain);
    SchemeKeyPlainPrefix(plain, rest);
    var u := plain + SchemeKey(rest);
    assert plain <= u;
  }

  /** A link whose scheme is `javascript:` in mixed case, or with a tab
      hidden inside the scheme, is rendered as its bare text. */
  lemma ObfuscatedSchemesBlocked(rest: string, text: string)
    ensures RenderLink("JavaScript:" + rest, text) == text
    ensures RenderLink("java\tscript:" + rest, text) == text
  {
    var plain := "javascript:";
    var h := plain + rest;
    JavascriptSchemeBlocked(rest);
    var mixed := "JavaScript:" + rest;
    LowerAsciiAppend("JavaScript:", rest);
    LowerAsciiAppend(plain, rest);
    assert LowerAscii("JavaScript:") == LowerAscii(plain);
    assert LowerAscii(mixed) == LowerAscii(h);
    InsertIgnoredKeepsVerdict(h, 4, '\t');
    assert h[..4] + ['\t'] + h[4..] == "java\tscript:" + rest;
  }

  lemma {:induction false} RemoveIgnoredNone(s: string)
    requires forall k :: 0 <= k < |s| ==> !IsIgnoredInScheme(s[k])
    ensures RemoveIgnored(s) == s
    decreases |s|
  {
    if s != [] {
      RemoveIgnoredNone(s[1..]);
    }
  }
}
