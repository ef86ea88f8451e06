/** The URL helper of `populate_urls.py`: a country name becomes an officeholidays.com page. */
module Slug {
  import opened Text

  /** `slugify`: strip, lower-case, `&` to "and", space to `-`, drop apostrophes. */
  function Slugify(name: string): string {
    ReplaceChar(ReplaceChar(ReplaceChar(Lower(Strip(name)), '&', "and"), ' ', "-"), '\'', "")
  }

  /** A slug never holds a space, an apostrophe or an ampersand. */
  lemma {:induction false} SlugHasNoSeparators(name: string)
    ensures ' ' !in Slugify(name)
    ensures '\'' !in Slugify(name)
    ensures '&' !in Slugify(name)
  {
    var a := ReplaceChar(Lower(Strip(name)), '&', "and");
    var b := ReplaceChar(a, ' ', "-");
    ReplaceCharMembership(Lower(Strip(name)), '&', "and", '&');
    ReplaceCharMembership(a, ' ', "-", ' ');
    ReplaceCharMembership(a, ' ', "-", '&');
    ReplaceCharMembership(b, '\'', "", ' ');
    ReplaceCharMembership(b, '\'', "", '\'');
    ReplaceCharMembership(b, '\'', "", '&');
  }

  /** Lower-casing comes first and every inserted text is lower case, so no capital survives. */
  lemma SlugIsLowerCase(name: string)
    ensures forall c :: c in Slugify(name) ==> !IsAsciiUpper(c)
  {
    var l := Lower(Strip(name));
    LowerHasNoUpper(Strip(name));
    ReplaceCharKeepsLowerCase(l, '&', "and");
    var a := ReplaceChar(l, '&', "and");
    ReplaceCharKeepsLowerCase(a, ' ', "-");
    ReplaceCharKeepsLowerCase(ReplaceChar(a, ' ', "-"), '\'', "");
  }

  /** Only the middle part of `x + mid + y` is rewritten when `x` and `y` lack the character. */
  lemma ReplaceAround(x: string, mid: string, y: string, c: char, r: string)
    requires c !in x && c !in y
    ensures ReplaceChar(x + mid + y, c, r) == x + ReplaceChar(mid, c, r) + y
  {
    ReplaceCharAppend(x + mid, y, c, r);
    ReplaceCharAppend(x, mid, c, r);
    ReplaceCharAbsent(x, c, r);
    ReplaceCharAbsent(y, c, r);
  }

  /**
   * Two lower-case words joined by " & " become one slug joined by "-and-":
   * the ampersand is spelled out before the spaces turn into hyphens.
   */
  lemma SlugOfAmpersandPair(x: string, y: string)
    requires ' ' !in x && ' ' !in y && '&' !in x && '&' !in y && '\'' !in x && '\'' !in y
    ensures ReplaceChar(ReplaceChar(ReplaceChar(x + " & " + y, '&', "and"), ' ', "-"), '\'', "")
            == x + "-and-" + y
  {
    ReplaceAround(x + " ", "&", " " + y, '&', "and");
    assert x + " & " + y == x + " " + "&" + (" " + y);
    assert ReplaceChar("&", '&', "and") == "and";
    var a := x + " " + "and" + (" " + y);
    assert a == x + " and " + y;
    ReplaceAround(x, " and ", y, ' ', "-");
    assert ReplaceChar(" and ", ' ', "-") == "-and-";
    ReplaceCharAbsent(x + "-and-" + y, '\'', "");
  }

  /**
   * A name of two words joined by " & " (no other spaces, ampersands or
   * apostrophes, no surrounding whitespace) becomes the lower-cased words
   * joined by "-and-".
   */
  lemma SlugifyAmpersandName(x: string, y: string)
    requires x != [] && y != [] && !IsSpace(x[0]) && !IsSpace(y[|y| - 1])
    requires ' ' !in x && ' ' !in y && '&' !in x && '&' !in y && '\'' !in x && '\'' !in y
    ensures Slugify(x + " & " + y) == Lower(x) + "-and-" + Lower(y)
  {
    var s := x + " & " + y;
    assert s[0] == x[0] && s[|s| - 1] == y[|y| - 1];
    StripTrimmed(s);
    LowerAppend(x + " & ", y);
    LowerAppend(x, " & ");
    assert Lower(" & ") == " & ";
    forall c: char | c == ' ' || c == '&' || c == '\''
      ensures c !in Lower(x) && c !in Lower(y)
    {
    }
    SlugOfAmpersandPair(Lower(x), Lower(y));
  }

  /** The docstring's example. */
  lemma SlugifyExample(x: string, y: string)
    requires x == "Bosnia" && y == "Herzegovina"
    ensures Slugify(x + " & " + y) == "bosnia-and-herzegovina"
  {
    SlugifyAmpersandName(x, y);
    BosniaLowered(x, y);
  }

  lemma BosniaLowered(x: string, y: string)
    requires x == "Bosnia" && y == "Herzegovina"
    ensures Lower(x) + "-and-" + Lower(y) == "bosnia-and-herzegovina"
  {
    assert Lower(x) == "bosnia";
    assert Lower(y) == "herzegovina";
  }

  const UrlPrefix := "https://www.officeholidays.com/countries/"
  const UrlYear := "/2026"
  const CongoName := "Democratic Republic of the Congo"
  const CongoSlug := "democratic-republic-of-the-congo"

  /** The URL `main` writes for a country, with its one name-specific slug. */
  function CountryUrl(name: string): (url: string)
    ensures |url| >= |UrlPrefix| + |UrlYear|
    ensures url[..|UrlPrefix|] == UrlPrefix && url[|url| - |UrlYear|..] == UrlYear
  {
    var slug := if name == CongoName then CongoSlug else Slugify(name);
    UrlPrefix + slug + UrlYear
  }

  /** The slug between the fixed prefix and year is the country's slug. */
  lemma CountryUrlSlug(name: string)
    requires name != CongoName
    ensures CountryUrl(name)[|UrlPrefix|..|CountryUrl(name)| - |UrlYear|] == Slugify(name)
  {
  }
}
