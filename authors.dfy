/** Author names as shown in blame rows: `abbreviate_author`. */
module Authors {
  import opened Text

  /** "First Last ..." becomes "First L."; a name of at most one
      whitespace-separated token is returned unchanged (blanks included). */
  function AbbreviateAuthor(author: string): (r: string)
    ensures |Tokens(author)| < 2 ==> r == author
  {
    var parts := Tokens(author);
    if |parts| >= 2 then parts[0] + " " + [parts[1][0]] + "." else author
  }

  /** The abbreviation of a name with two or more tokens is exactly two
      tokens: the first name, and the initial of the second followed by a dot. */
  lemma AbbreviationTokens(author: string)
    requires |Tokens(author)| >= 2
    ensures Tokens(AbbreviateAuthor(author)) == [Tokens(author)[0], [Tokens(author)[1][0], '.']]
  {
    var parts := Tokens(author);
    TokensAreWords(author);
    var initial := [parts[1][0], '.'];
    assert IsWord(initial);
    TokensOfSpaced(parts[0], initial);
    assert parts[0] + " " + [parts[1][0]] + "." == parts[0] + " " + initial;
    TokensOfWord(initial);
  }

  /** Abbreviating twice changes nothing more. */
  lemma AbbreviateIdempotent(author: string)
    ensures AbbreviateAuthor(AbbreviateAuthor(author)) == AbbreviateAuthor(author)
  {
    if |Tokens(author)| >= 2 {
      AbbreviationTokens(author);
    }
  }

  /** "Jane Doe" and "Jane Doe Smith" both become "Jane D.": any name whose
      first two words are separated by one space. */
  lemma AbbreviateFullName(first: string, second: string, rest: string)
    requires IsWord(first) && IsWord(second)
    requires rest == [] || IsWhitespace(rest[0])
    ensures AbbreviateAuthor(first + " " + second + rest) == first + " " + [second[0]] + "."
  {
    TokensOfWordThen(second, rest);
    TokensOfSpaced(first, second + rest);
    assert first + " " + second + rest == first + " " + (second + rest);
  }

  /** A single word, with any surrounding blanks, is kept as it is ("Cher"). */
  lemma AbbreviateSingleName(lead: string, name: string, trail: string)
    requires AllWhitespace(lead) && AllWhitespace(trail)
    requires IsWord(name)
    ensures AbbreviateAuthor(lead + name + trail) == lead + name + trail
  {
    TokensSkipWhitespace(lead, name + trail);
    assert lead + name + trail == lead + (name + trail);
    if trail == [] {
      assert name + trail == name;
      TokensOfWord(name);
    } else {
      TokensOfWordThen(name, trail);
      TokensSkipWhitespace(trail, []);
      assert trail + [] == trail;
    }
  }
}
