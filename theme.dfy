/**
 * The colour theme of the map page: read from the URL query string when the
 * page loads, and toggled by reloading the page with `?theme=<new theme>`.
 * The page URL (`window.location.href`) is a parameter; the reload is
 * modelled by the URL string that would be assigned to `window.location`.
 */
module Theme {
  /**
   * JavaScript `s.split(sep)` for a one-character separator, read from the
   * end: each character extends the last piece, and a separator starts a new one.
   */
  function Split(s: string, sep: char): (parts: seq<string>)
    ensures |parts| >= 1
    decreases |s|
  {
    if |s| == 0 then [""]
    else
      var init := Split(s[..|s| - 1], sep);
      var c := s[|s| - 1];
      if c == sep then init + [""]
      else init[..|init| - 1] + [init[|init| - 1] + [c]]
  }

  /** JavaScript `parts.join(sep)`, the inverse of `Split`. */
  function Join(parts: seq<string>, sep: char): string
    requires |parts| >= 1
  {
    if |parts| == 1 then parts[0] else Join(parts[..|parts| - 1], sep) + [sep] + parts[|parts| - 1]
  }

  /** JavaScript `parts.slice(-1)[0]`. */
  function Last(parts: seq<string>): string
    requires |parts| >= 1
  {
    parts[|parts| - 1]
  }

  /** No piece of a split holds the separator. */
  lemma {:induction false} SplitPiecesFree(s: string, sep: char)
    ensures forall k :: 0 <= k < |Split(s, sep)| ==> sep !in Split(s, sep)[k]
    decreases |s|
  {
    if |s| > 0 {
      var init := s[..|s| - 1];
      SplitPiecesFree(init, sep);
      var parts := Split(init, sep);
      var c := s[|s| - 1];
      if c != sep {
        assert sep !in Last(parts) + [c];
      }
    }
  }

  /** Extending the last piece extends the join by the same characters. */
  lemma JoinExtendLast(parts: seq<string>, sep: char, more: string)
    requires |parts| >= 1
    ensures Join(parts[..|parts| - 1] + [Last(parts) + more], sep) == Join(parts, sep) + more
  {
    var n := |parts| - 1;
    var parts' := parts[..n] + [Last(parts) + more];
    assert parts'[..n] == parts[..n];
  }

  /** Splitting and joining again gives the string back. */
  lemma {:induction false} JoinSplit(s: string, sep: char)
    ensures Join(Split(s, sep), sep) == s
    decreases |s|
  {
    if |s| > 0 {
      var init := s[..|s| - 1];
      var c := s[|s| - 1];
      JoinSplit(init, sep);
      var parts := Split(init, sep);
      if c == sep {
        assert (parts + [""])[..|parts|] == parts;
      } else {
        JoinExtendLast(parts, sep, [c]);
      }
      assert s == init + [c];
    }
  }

  /** A string without the separator splits into itself alone. */
  lemma {:induction false} SplitFree(s: string, sep: char)
    requires sep !in s
    ensures Split(s, sep) == [s]
    decreases |s|
  {
    if |s| > 0 {
      var init := s[..|s| - 1];
      SplitFree(init, sep);
      assert s == init + [s[|s| - 1]];
    }
  }

  /** A separator followed by a piece free of it appends that piece to the pieces before it. */
  lemma {:induction false} SplitAppendPiece(a: string, b: string, sep: char)
    requires sep !in b
    ensures Split(a + [sep] + b, sep) == Split(a, sep) + [b]
    decreases |b|
  {
    var s := a + [sep] + b;
    if |b| == 0 {
      assert s == a + [sep] && s[..|s| - 1] == a;
    } else {
      var b' := b[..|b| - 1];
      SplitAppendPiece(a, b', sep);
      assert s[..|s| - 1] == a + [sep] + b';
      assert b == b' + [b[|b| - 1]];
    }
  }

  /** Joining pieces free of the separator and splitting again gives the pieces back. */
  lemma {:induction false} SplitJoin(parts: seq<string>, sep: char)
    requires |parts| >= 1
    requires forall k :: 0 <= k < |parts| ==> sep !in parts[k]
    ensures Split(Join(parts, sep), sep) == parts
    decreases |parts|
  {
    var n := |parts| - 1;
    if n == 0 {
      SplitFree(parts[0], sep);
    } else {
      SplitJoin(parts[..n], sep);
      SplitAppendPiece(Join(parts[..n], sep), parts[n], sep);
      assert parts == parts[..n] + [parts[n]];
    }
  }

  /**
   * `r` is the text after the last `sep` of `s`: a suffix of `s` free of
   * `sep` that is either all of `s` or directly follows a `sep`.
   */
  predicate AfterLast(s: string, sep: char, r: string) {
    |r| <= |s| && r == s[|s| - |r|..] && sep !in r &&
    (|r| < |s| ==> s[|s| - |r| - 1] == sep)
  }

  /**
   * `b` is the text before the first `sep` of `s`: a prefix of `s` free of
   * `sep` that is either all of `s` or directly followed by a `sep`.
   */
  predicate BeforeFirst(s: string, sep: char, b: string) {
    |b| <= |s| && b == s[..|b|] && sep !in b &&
    (|b| < |s| ==> s[|b|] == sep)
  }

  /** There is only one text before the first separator. */
  lemma BeforeFirstUnique(s: string, sep: char, b: string, b': string)
    requires BeforeFirst(s, sep, b) && BeforeFirst(s, sep, b')
    ensures b == b'
  {
  }

  /** There is only one text after the last separator. */
  lemma AfterLastUnique(s: string, sep: char, r: string, r': string)
    requires AfterLast(s, sep, r) && AfterLast(s, sep, r')
    ensures r == r'
  {
  }

  /** The last piece of a split is the text after the last separator. */
  lemma {:induction false} LastPiece(s: string, sep: char)
    ensures AfterLast(s, sep, Last(Split(s, sep)))
    decreases |s|
  {
    if |s| > 0 {
      var init := s[..|s| - 1];
      var c := s[|s| - 1];
      assert s == init + [c];
      LastOfSplitSnoc(init, c, sep);
      if c != sep {
        LastPiece(init, sep);
        AfterLastExtend(init, c, sep, Last(Split(init, sep)));
      }
    }
  }

  /** A character other than the separator extends the text after the last separator. */
  lemma AfterLastExtend(s: string, c: char, sep: char, r: string)
    requires c != sep && AfterLast(s, sep, r)
    ensures AfterLast(s + [c], sep, r + [c])
  {
    var s' := s + [c];
    assert s'[|s'| - |r| - 1..] == s[|s| - |r|..] + [c];
    if |r| < |s| {
      assert s'[|s'| - |r| - 2] == s[|s| - |r| - 1];
    }
  }

  /** The text after the last separator is all of `s` exactly when `s` has no separator. */
  lemma AfterLastWhole(s: string, sep: char, r: string)
    requires AfterLast(s, sep, r)
    ensures r == s <==> sep !in s
  {
  }

  /** A suffix of a string lacks every character the string lacks. */
  lemma SuffixFree(s: string, r: string, c: char)
    requires |r| <= |s| && r == s[|s| - |r|..] && c !in s
    ensures c !in r
  {
  }

  /** The theme named in the query string of `url`, `"light"` when there is none (`getThemeFromURL`). */
  function ThemeFromURL(url: string): (t: string)
    ensures '?' !in url ==> t == "light"
    ensures '?' in url ==> '?' !in t && '=' !in t
  {
    if '?' in url then
      var query := Last(Split(url, '?'));
      LastPiece(url, '?');
      LastPiece(query, '=');
      var t := Last(Split(query, '='));
      SuffixFree(query, t, '?');
      t
    else "light"
  }

  /**
   * With a query string, the theme is the text after the last `=` of the text
   * after the last `?`, or that whole text when it has no `=`.
   */
  lemma ThemeIsLastValue(url: string)
    requires '?' in url
    ensures AfterLast(url, '?', Last(Split(url, '?')))
    ensures AfterLast(Last(Split(url, '?')), '=', ThemeFromURL(url))
    ensures '=' !in Last(Split(url, '?')) ==> ThemeFromURL(url) == Last(Split(url, '?'))
  {
    var query := Last(Split(url, '?'));
    LastPiece(url, '?');
    LastPiece(query, '=');
    AfterLastWhole(query, '=', ThemeFromURL(url));
  }

  /** The theme the toggle switches to: `"dark"` becomes `"light"`, anything else `"dark"`. */
  function Toggle(t: string): (t': string)
    ensures t' == "dark" || t' == "light"
    ensures t' == "light" <==> t == "dark"
  {
    if t == "dark" then "light" else "dark"
  }

  /** On the two themes the page knows, toggling twice is the identity. */
  lemma ToggleInvolution(t: string)
    requires t == "dark" || t == "light"
    ensures Toggle(Toggle(t)) == t && Toggle(t) != t
  {
  }

  /** The URL `switchTheme` reloads: the page URL up to its first `?`, then `?theme=<t>`. */
  function ThemeURL(href: string, t: string): (url: string)
    ensures |url| >= |t| + 7 && url[|url| - |t| - 7..] == "?theme=" + t
    ensures BeforeFirst(href, '?', url[..|url| - |t| - 7])
  {
    var base := Split(href, '?')[0];
    FirstPiece(href);
    var url := base + "?theme=" + t;
    assert url[..|base|] == base && url[|base|..] == "?theme=" + t;
    url
  }

  /** Whatever precedes a separator does not change the last piece after it. */
  lemma {:induction false} LastAfterSeparator(a: string, b: string, sep: char)
    ensures Last(Split(a + [sep] + b, sep)) == Last(Split(b, sep))
    decreases |b|
  {
    if |b| == 0 {
      LastOfSplitSnoc(a, sep, sep);
      LastOfSplitSnoc("", sep, sep);
      assert a + [sep] + b == a + [sep];
    } else {
      var b', c := b[..|b| - 1], b[|b| - 1];
      assert b == b' + [c];
      assert a + [sep] + b == (a + [sep] + b') + [c];
      LastAfterSeparator(a, b', sep);
      LastOfSplitSnoc(a + [sep] + b', c, sep);
      LastOfSplitSnoc(b', c, sep);
    }
  }

  /** Appending one character: a separator starts an empty last piece, any other character extends it. */
  lemma LastOfSplitSnoc(s: string, c: char, sep: char)
    ensures Last(Split(s + [c], sep)) == if c == sep then "" else Last(Split(s, sep)) + [c]
  {
    var s' := s + [c];
    assert s'[..|s'| - 1] == s && s'[|s'| - 1] == c;
  }

  /** The first piece of a split is a prefix of the string. */
  lemma {:induction false} JoinStartsWithFirst(parts: seq<string>, sep: char)
    requires |parts| >= 1
    ensures |parts[0]| <= |Join(parts, sep)| && Join(parts, sep)[..|parts[0]|] == parts[0]
    decreases |parts|
  {
    if |parts| > 1 {
      var init := parts[..|parts| - 1];
      JoinStartsWithFirst(init, sep);
      assert init[0] == parts[0];
    }
  }

  /** With two pieces or more, the first separator of the join directly follows the first piece. */
  lemma {:induction false} JoinAfterFirst(parts: seq<string>, sep: char)
    requires |parts| >= 2
    ensures |parts[0]| < |Join(parts, sep)| && Join(parts, sep)[|parts[0]|] == sep
    decreases |parts|
  {
    var init := parts[..|parts| - 1];
    assert init[0] == parts[0];
    if |parts| == 2 {
      assert Join(init, sep) == parts[0];
    } else {
      JoinAfterFirst(init, sep);
    }
  }

  /** `href.split("?")[0]` is the text before the first `?` of `href`. */
  lemma FirstPiece(href: string)
    ensures BeforeFirst(href, '?', Split(href, '?')[0])
  {
    var parts := Split(href, '?');
    JoinSplit(href, '?');
    JoinStartsWithFirst(parts, '?');
    SplitPiecesFree(href, '?');
    if |parts| >= 2 {
      JoinAfterFirst(parts, '?');
    }
  }

  /**
   * The page that `switchTheme` loads reads back the theme it was given,
   * whatever the old URL, for any theme free of `?` and `=`.
   */
  lemma ThemeURLRoundTrip(href: string, t: string)
    requires '?' !in t && '=' !in t
    ensures ThemeFromURL(ThemeURL(href, t)) == t
  {
    QueryOfThemeURL(href, t);
    ValueOfThemeQuery(t);
  }

  /** The query string of the reload URL is `theme=<t>`. */
  lemma QueryOfThemeURL(href: string, t: string)
    requires '?' !in t
    ensures Last(Split(ThemeURL(href, t), '?')) == "theme=" + t
  {
    var base := Split(href, '?')[0];
    var query := "theme=" + t;
    assert ThemeURL(href, t) == base + ['?'] + query;
    LastAfterSeparator(base, query, '?');
    assert '?' !in query;
    SplitFree(query, '?');
  }

  /** The value in `theme=<t>` is `t`. */
  lemma ValueOfThemeQuery(t: string)
    requires '=' !in t
    ensures Last(Split("theme=" + t, '=')) == t
  {
    assert "theme=" + t == "theme" + ['='] + t;
    LastAfterSeparator("theme", t, '=');
    SplitFree(t, '=');
  }

  /** The theme of the page, set from its URL on load and toggled by `switchTheme`. */
  class PageTheme {
    var theme: string

    /** On load, `THEME = getThemeFromURL()`. */
    constructor (href: string)
      ensures theme == ThemeFromURL(href)
    {
      theme := ThemeFromURL(href);
    }

    /**
     * `switchTheme`: toggle the theme and return the URL the page is reloaded
     * with; that URL carries the new theme, so the reloaded page reads it back.
     */
    method SwitchTheme(href: string) returns (url: string)
      modifies this
      ensures theme == Toggle(old(theme))
      ensures url == ThemeURL(href, theme)
      ensures ThemeFromURL(url) == theme
    {
      theme := if theme == "dark" then "light" else "dark";
      url := Split(href, '?')[0] + "?theme=" + theme;
      ThemeURLRoundTrip(href, theme);
    }
  }
}
