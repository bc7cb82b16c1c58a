/** The package-level constructor: a parser reading the package's own tables. */
module Urlify {
  import opened Slugs
  import opened Tables
  import opened Parsers
  import opened Transliteration

  /** `NewParser` (main.go:148-150): a parser with every field at its zero value,
      reading the package's `charsMap` and `removeList`. */
  method NewParser() returns (p: Parser)
    ensures fresh(p) && p.Valid()
    ensures p.tables == Globals(CharsMap(), RemoveList())
    ensures p.language == "" && p.maxLength == 0 && p.text == "" && p.parsedText == "" && p.removeList == []
  {
    RemoveListDistinct();
    p := new Parser(Globals(CharsMap(), RemoveList()));
  }

  /** No default stopword is listed twice, so a word has at most one index in the list. */
  lemma RemoveListDistinct()
    ensures Distinct(RemoveList())
  {
  }

  /** The cache: two `Parse` calls with no setter in between. Each call visits
      the maps in its own order (Go's map order may differ from one `range` to
      the next). A non-empty slug is cached and returned again; an empty slug
      counts as "no cache", so the second call runs the pipeline again, in its
      own order, and can return something else. */
  method ParseTwice(p: Parser, o1: Order, o2: Order) returns (first: string, second: string)
    requires p.Valid() && Fits(p.tables.charsMap, o1) && Fits(p.tables.charsMap, o2)
    modifies p`parsedText, p`cachedWords, p`cachedOrder
    ensures old(p.parsedText) != "" ==> first == old(p.parsedText)
    ensures old(p.parsedText) == "" ==> first == Slug(p.tables, p.text, p.language, p.maxLength, p.removeList, o1)
    ensures first != "" ==> second == first
    ensures first == "" ==> second == Slug(p.tables, p.text, p.language, p.maxLength, p.removeList, o2)
    ensures p.parsedText == second
  {
    first := p.Parse(o1);
    second := p.Parse(o2);
  }
}
