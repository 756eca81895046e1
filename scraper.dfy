/** The DOI handling of `natureasia_scraper1`: the text of each article's DOI field is
    reduced to the identifier that the content API is later asked about. The HTML parsing
    that finds those texts is not modelled; the texts are the input. */
module Scraper {
  import opened Strings

  /** The characters of the argument of `lstrip('10.1038/')`, which Python reads as a
      set of characters. */
  predicate IsPrefixChar(c: char)
  {
    c == '1' || c == '0' || c == '.' || c == '3' || c == '8' || c == '/'
  }

  /** The DOI field's text reduced to what follows its last `:`, without surrounding
      whitespace (line 104). */
  function DoiText(text: string): (s: string)
    ensures ':' !in s
    ensures s == [] || (!IsSpace(s[0]) && !IsSpace(s[|s| - 1]))
    ensures var field := LastField(text, ':');
      && (forall k :: 0 <= k < |field| - |LStrip(field, IsSpace)| ==> IsSpace(field[k]))
      && StartsWith(LStrip(field, IsSpace), s)
      && (forall k :: |s| <= k < |LStrip(field, IsSpace)| ==> IsSpace(LStrip(field, IsSpace)[k]))
  {
    Strip(LastField(text, ':'))
  }

  /** The identifier kept for one article: `DoiText` with every leading character
      from `IsPrefixChar` removed (line 105). */
  function ExtractDoi(text: string): (doi: string)
    ensures ':' !in doi
    ensures EndsWith(DoiText(text), doi)
    ensures forall i :: 0 <= i < |DoiText(text)| - |doi| ==> IsPrefixChar(DoiText(text)[i])
    ensures doi == [] || !IsPrefixChar(doi[0])
  {
    var s := DoiText(text);
    var doi := LStrip(s, IsPrefixChar);
    SuffixChars(s, doi);
    doi
  }

  /** The list the scraper returns when `identify` reduces one article's DOI text to
      its identifier: one identifier per article whose DOI text is non-empty, in page
      order. The code as written uses `ExtractDoi`; the corrected one uses
      `RegistrantSuffix`. */
  function DoiList(texts: seq<string>, identify: string -> string): (dois: seq<string>)
    ensures |dois| <= |texts|
  {
    if texts == [] then []
    else
      var last := texts[|texts| - 1];
      DoiList(texts[..|texts| - 1], identify) + (if last != [] then [identify(last)] else [])
  }

  /** The accumulation loop of `natureasia_scraper1` (lines 100-106), as written. */
  method ScrapeDois(texts: seq<string>) returns (dois: seq<string>)
    ensures dois == DoiList(texts, ExtractDoi)
  {
    dois := [];
    for i := 0 to |texts|
      invariant dois == DoiList(texts[..i], ExtractDoi)
    {
      assert texts[..i + 1][..i] == texts[..i];
      var link := texts[i];
      if link != [] {
        var doi := ExtractDoi(link);
        dois := dois + [doi];
      }
    }
    assert texts[..|texts|] == texts;
  }

  /** Scraping two runs of articles in turn gives the identifiers of the first followed
      by those of the second: the page order is kept. */
  lemma {:induction false} DoiListAppend(a: seq<string>, b: seq<string>, identify: string -> string)
    ensures DoiList(a + b, identify) == DoiList(a, identify) + DoiList(b, identify)
  {
    if b == [] {
      assert a + b == a;
    } else {
      var b' := b[..|b| - 1];
      assert (a + b)[..|a + b| - 1] == a + b';
      DoiListAppend(a, b', identify);
    }
  }

  /** Every identifier in the list comes from an article with a non-empty DOI text. */
  lemma {:induction false} DoiListSources(texts: seq<string>, identify: string -> string, doi: string)
    requires doi in DoiList(texts, identify)
    ensures exists i :: 0 <= i < |texts| && texts[i] != [] && doi == identify(texts[i])
  {
    var init, last := texts[..|texts| - 1], texts[|texts| - 1];
    if doi in DoiList(init, identify) {
      DoiListSources(init, identify, doi);
      var i :| 0 <= i < |init| && init[i] != [] && doi == identify(init[i]);
      assert texts[i] == init[i];
    } else {
      assert last != [] && doi == identify(last);
    }
  }

  /** Every article with a non-empty DOI text contributes its identifier. */
  lemma {:induction false} DoiListContains(texts: seq<string>, identify: string -> string, i: nat)
    requires i < |texts| && texts[i] != []
    ensures identify(texts[i]) in DoiList(texts, identify)
  {
    var init := texts[..|texts| - 1];
    if i < |init| {
      assert init[i] == texts[i];
      DoiListContains(init, identify, i);
    } else {
      assert i == |texts| - 1;
      assert DoiList(texts, identify) == DoiList(init, identify) + [identify(texts[i])];
    }
  }

  /** Articles whose DOI text is empty contribute nothing. */
  lemma {:induction false} DoiListSkipsEmpty(texts: seq<string>, identify: string -> string)
    requires forall i :: 0 <= i < |texts| ==> texts[i] == []
    ensures DoiList(texts, identify) == []
  {
    if texts != [] {
      DoiListSkipsEmpty(texts[..|texts| - 1], identify);
    }
  }

  /** The registrant prefix the scraper means to remove. */
  const DoiPrefix: string := "10.1038/"

  /** The identifier as evidently intended: `s` without the prefix `10.1038/` when it
      starts with it, and `s` itself otherwise. */
  function RemovePrefix(s: string): (doi: string)
    ensures EndsWith(s, doi)
    ensures StartsWith(s, DoiPrefix) ==> |doi| == |s| - |DoiPrefix|
    ensures !StartsWith(s, DoiPrefix) ==> doi == s
  {
    if StartsWith(s, DoiPrefix) then s[|DoiPrefix|..] else s
  }

  /** The corrected identifier of one article: its DOI text with the prefix removed. */
  function RegistrantSuffix(text: string): (doi: string)
    ensures EndsWith(DoiText(text), doi)
    ensures StartsWith(DoiText(text), DoiPrefix) ==> |doi| == |DoiText(text)| - |DoiPrefix|
    ensures !StartsWith(DoiText(text), DoiPrefix) ==> doi == DoiText(text)
  {
    RemovePrefix(DoiText(text))
  }

  /** Stripping a run of set characters in front of `t` ends where stripping `t` does. */
  lemma {:induction false} LStripPrefixRun(p: string, t: string)
    requires forall i :: 0 <= i < |p| ==> IsPrefixChar(p[i])
    ensures LStrip(p + t, IsPrefixChar) == LStrip(t, IsPrefixChar)
  {
    if p != [] {
      var s, drop: char -> bool := p + t, IsPrefixChar;
      assert s != [] && s[0] == p[0] && drop(s[0]);
      assert s[1..] == p[1..] + t;
      LStripPrefixRun(p[1..], t);
    } else {
      assert p + t == t;
    }
  }

  /** Every character of `10.1038/` is in the set that `lstrip` removes. */
  lemma DoiPrefixChars(p: string)
    requires p == DoiPrefix
    ensures forall i :: 0 <= i < |p| ==> IsPrefixChar(p[i])
  {
  }

  /** On a prefixed text, `lstrip` removes the prefix and then whatever run of set
      characters follows it. */
  lemma LStripPrefixed(s: string, t: string)
    requires s == DoiPrefix + t
    ensures LStrip(s, IsPrefixChar) == LStrip(t, IsPrefixChar)
    ensures RemovePrefix(s) == t
  {
    assert s[..|DoiPrefix|] == DoiPrefix;
    assert s[|DoiPrefix|..] == t;
    DoiPrefixChars(DoiPrefix);
    LStripPrefixRun(DoiPrefix, t);
  }

  /** The character set and the prefix agree exactly when the suffix after `10.1038/`
      does not start with a character of the set: then both give the suffix. Otherwise
      the set also removes the suffix's leading run and returns something shorter. */
  lemma LStripVersusRemovePrefix(s: string)
    requires StartsWith(s, DoiPrefix)
    ensures var t := s[|DoiPrefix|..];
      && (t == [] || !IsPrefixChar(t[0]) ==> LStrip(s, IsPrefixChar) == RemovePrefix(s) == t)
      && (t != [] && IsPrefixChar(t[0]) ==> |LStrip(s, IsPrefixChar)| < |RemovePrefix(s)|)
  {
    var t := s[|DoiPrefix|..];
    assert s == DoiPrefix + t;
    LStripPrefixed(s, t);
    if t != [] && IsPrefixChar(t[0]) {
      assert LStrip(t, IsPrefixChar) == LStrip(t[1..], IsPrefixChar);
    }
  }

  /** A DOI field whose text after the last `:` has no surrounding whitespace reads as
      exactly that text. */
  lemma DoiTextAfterColon(head: string, t: string)
    requires ':' !in t
    requires t == [] || (!IsSpace(t[0]) && !IsSpace(t[|t| - 1]))
    ensures DoiText(head + [':'] + t) == t
  {
    LastFieldAfterSeparator(head, ':', t);
    StripKeepsTrimmed(t);
  }

  /** When the suffix after `10.1038/` starts with a character outside the set (a
      letter, as in `s41586-...` or `nature12345`), the code as written gives the
      intended identifier. */
  lemma ExtractDoiAgreesOnLetterSuffix(text: string)
    requires StartsWith(DoiText(text), DoiPrefix)
    requires |DoiText(text)| > |DoiPrefix|
    requires !IsPrefixChar(DoiText(text)[|DoiPrefix|])
    ensures ExtractDoi(text) == RegistrantSuffix(text)
  {
    LStripVersusRemovePrefix(DoiText(text));
  }

  /** When the suffix after `10.1038/` starts with a character of the set (a digit `0`,
      `1`, `3` or `8`), the code as written removes that character too and returns less
      than the intended identifier. */
  lemma ExtractDoiLosesSetChar(text: string)
    requires StartsWith(DoiText(text), DoiPrefix)
    requires |DoiText(text)| > |DoiPrefix|
    requires IsPrefixChar(DoiText(text)[|DoiPrefix|])
    ensures |ExtractDoi(text)| < |RegistrantSuffix(text)|
  {
    LStripVersusRemovePrefix(DoiText(text));
  }

  /** Whatever the DOI text, the code as written keeps a suffix of the intended
      identifier: it never adds a character, it only loses some. */
  lemma ExtractDoiEndsIntended(text: string)
    ensures EndsWith(RegistrantSuffix(text), ExtractDoi(text))
  {
    LStripEndsRemovePrefix(DoiText(text));
  }

  /** `lstrip` with the set returns a suffix of what the prefix removal returns. */
  lemma LStripEndsRemovePrefix(s: string)
    ensures EndsWith(RemovePrefix(s), LStrip(s, IsPrefixChar))
  {
    if StartsWith(s, DoiPrefix) {
      var t := s[|DoiPrefix|..];
      assert s == DoiPrefix + t;
      LStripPrefixed(s, t);
    }
  }

  /** An article whose DOI text is `10.1038/` followed by a suffix that starts outside
      the set of `IsPrefixChar`. */
  predicate LetterSuffix(text: string)
  {
    && StartsWith(DoiText(text), DoiPrefix)
    && |DoiText(text)| > |DoiPrefix|
    && !IsPrefixChar(DoiText(text)[|DoiPrefix|])
  }

  /** When every listed article has a suffix starting outside the set, the loop as
      written returns exactly the intended list. */
  lemma DoiListAgreesOnLetterSuffixes(texts: seq<string>)
    requires forall i :: 0 <= i < |texts| && texts[i] != [] ==> LetterSuffix(texts[i])
    ensures DoiList(texts, ExtractDoi) == DoiList(texts, RegistrantSuffix)
  {
    forall i | 0 <= i < |texts| && texts[i] != []
      ensures ExtractDoi(texts[i]) == RegistrantSuffix(texts[i])
    {
      ExtractDoiAgreesOnLetterSuffix(texts[i]);
    }
    DoiListAgrees(texts, ExtractDoi, RegistrantSuffix);
  }

  /** One article whose suffix starts with a set character is enough for the loop as
      written to return a list other than the intended one. */
  lemma DoiListDiffersOnSetChar(texts: seq<string>, i: nat)
    requires i < |texts| && texts[i] != []
    requires StartsWith(DoiText(texts[i]), DoiPrefix)
    requires |DoiText(texts[i])| > |DoiPrefix|
    requires IsPrefixChar(DoiText(texts[i])[|DoiPrefix|])
    ensures DoiList(texts, ExtractDoi) != DoiList(texts, RegistrantSuffix)
  {
    ExtractDoiLosesSetChar(texts[i]);
    DoiListDiffers(texts, ExtractDoi, RegistrantSuffix, i);
  }

  /** Two identifier functions that agree on every listed article give the same list. */
  lemma {:induction false} DoiListAgrees(texts: seq<string>, f: string -> string, g: string -> string)
    requires forall i :: 0 <= i < |texts| && texts[i] != [] ==> f(texts[i]) == g(texts[i])
    ensures DoiList(texts, f) == DoiList(texts, g)
  {
    if texts != [] {
      var init := texts[..|texts| - 1];
      assert forall i :: 0 <= i < |init| ==> init[i] == texts[i];
      DoiListAgrees(init, f, g);
    }
  }

  /** Two identifier functions that disagree on one listed article give different
      lists. */
  lemma {:induction false} DoiListDiffers(texts: seq<string>, f: string -> string, g: string -> string, i: nat)
    requires i < |texts| && texts[i] != [] && f(texts[i]) != g(texts[i])
    ensures DoiList(texts, f) != DoiList(texts, g)
  {
    var init, last := texts[..|texts| - 1], texts[|texts| - 1];
    var a, b := DoiList(init, f), DoiList(init, g);
    if i == |texts| - 1 {
      LastDiffers(a, b, f(last), g(last));
    } else {
      assert init[i] == texts[i];
      DoiListDiffers(init, f, g, i);
      if last != [] {
        PrefixDiffers(a, b, f(last), g(last));
      } else {
        assert DoiList(texts, f) == a + [];
        assert a + [] == a && b + [] == b;
      }
    }
  }

  /** Two lists that end in different elements differ. */
  lemma LastDiffers(a: seq<string>, b: seq<string>, x: string, y: string)
    requires x != y
    ensures a + [x] != b + [y]
  {
    assert (a + [x])[|a|] == x;
    assert (b + [y])[|b|] == y;
  }

  /** Extending two different lists by one element each keeps them different. */
  lemma PrefixDiffers(a: seq<string>, b: seq<string>, x: string, y: string)
    requires a != b
    ensures a + [x] != b + [y]
  {
    assert (a + [x])[..|a|] == a;
    assert (b + [y])[..|b|] == b;
  }

  /** A Nature DOI whose suffix starts with a digit of the set: the code as written
      drops the leading `3` of the suffix, where removing the prefix keeps it. */
  lemma NumericSuffixLosesDigit(text: string)
    requires text == "doi:10.1038/35057062"
    ensures ExtractDoi(text) == "5057062"
    ensures RegistrantSuffix(text) == "35057062"
  {
    var t := "10.1038/35057062";
    NumericDoiText(text, t);
    NumericLStrip(t, "10.1038/3", "5057062");
    NumericRemovePrefix(t, "35057062");
  }

  /** The example's DOI field reads as `10.1038/35057062`. */
  lemma NumericDoiText(text: string, t: string)
    requires text == "doi:10.1038/35057062" && t == "10.1038/35057062"
    ensures DoiText(text) == t
  {
    assert text == "doi" + [':'] + t;
    assert ':' !in t && !IsSpace(t[0]) && !IsSpace(t[|t| - 1]);
    DoiTextAfterColon("doi", t);
  }

  /** The leading run `10.1038/3` is all set characters; `5` stops the strip. */
  lemma NumericLStrip(t: string, p: string, rest: string)
    requires t == "10.1038/35057062" && p == "10.1038/3" && rest == "5057062"
    ensures LStrip(t, IsPrefixChar) == rest
  {
    assert t == p + rest;
    assert forall i :: 0 <= i < |p| ==> IsPrefixChar(p[i]);
    LStripPrefixRun(p, rest);
    assert !IsPrefixChar(rest[0]);
  }

  /** The example's identifier once the prefix is removed. */
  lemma NumericRemovePrefix(t: string, rest: string)
    requires t == "10.1038/35057062" && rest == "35057062"
    ensures RemovePrefix(t) == rest
  {
    assert t == DoiPrefix + rest;
    LStripPrefixed(t, rest);
  }
}
