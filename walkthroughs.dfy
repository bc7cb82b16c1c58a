/** The whole pipeline on concrete texts over the package's own tables, for
    every order Go may visit the maps in, and what the cache of `Parse` does
    when the slug comes out empty. The reasoning is done for any table and
    default list with the entries it reads, then applied to the package's own. */
module Walkthroughs {
  import opened GoStrings
  import opened Transliteration
  import opened Slugs
  import opened Tables
  import opened Parsers
  import opened Urlify

  /** The package's tables, as `NewParser` hands them to a parser. */
  function Package(): Globals {
    Globals(CharsMap(), RemoveList())
  }

  // ---------------------------------------------------------------------
  // The table entries the walkthroughs read
  // ---------------------------------------------------------------------

  /** 'ö' is in "de" as "oe" and in "latin" as "o", and in no other map; 'ъ'
      is only in "ru", where it is deleted; 'Ü' is in "de" as "Ue". */
  ghost predicate KnownEntries(t: Table) {
    "de" in t && "latin" in t && "ru" in t &&
    'ö' in t["de"] && t["de"]['ö'] == "oe" && 'ö' in t["latin"] && t["latin"]['ö'] == "o" &&
    (forall l :: l in t && l != "de" && l != "latin" ==> 'ö' !in t[l]) &&
    'ъ' in t["ru"] && t["ru"]['ъ'] == "" &&
    (forall l :: l in t && l != "ru" ==> 'ъ' !in t[l]) &&
    'Ü' in t["de"] && t["de"]['Ü'] == "Ue"
  }

  lemma DisplayKnownEntries(de: map<char, string>, latin: map<char, string>, symbols: map<char, string>, ru: map<char, string>)
    requires 'ö' in de && de['ö'] == "oe" && 'ö' in latin && latin['ö'] == "o" && 'ö' !in symbols && 'ö' !in ru
    requires 'ъ' in ru && ru['ъ'] == "" && 'ъ' !in de && 'ъ' !in latin && 'ъ' !in symbols
    requires 'Ü' in de && de['Ü'] == "Ue"
    ensures KnownEntries(map["de" := de, "latin" := latin, "latin_symbols" := symbols, "ru" := ru])
  {
    DisplayEntries(de, latin, symbols, ru);
  }

  lemma GermanKnown()
    ensures 'ö' in German() && German()['ö'] == "oe" && 'Ü' in German() && German()['Ü'] == "Ue"
    ensures 'ъ' !in German()
  {
  }

  lemma LatinKnown()
    ensures 'ö' in Latin() && Latin()['ö'] == "o" && 'ъ' !in Latin()
  {
    assert 'ö' in LatinRows20To22() && LatinRows20To22()['ö'] == "o";
    assert 'ъ' !in LatinRows14To16() && 'ъ' !in LatinRows17To19() && 'ъ' !in LatinRows20To22();
    RowsLookup(LatinRows14To16(), LatinRows17To19(), LatinRows20To22(), 'ö');
    RowsLookup(LatinRows14To16(), LatinRows17To19(), LatinRows20To22(), 'ъ');
  }

  lemma HardSignInRussian()
    ensures 'ъ' in Russian() && Russian()['ъ'] == ""
  {
    assert 'ъ' in RussianRows59To62() && RussianRows59To62()['ъ'] == "" && 'ъ' !in RussianRows63To66();
    RowsLookup(RussianRows56To58(), RussianRows59To62(), RussianRows63To66(), 'ъ');
  }

  lemma OUmlautNotRussian()
    ensures 'ö' !in Russian()
  {
    assert 'ö' !in RussianRows56To58() && 'ö' !in RussianRows59To62() && 'ö' !in RussianRows63To66();
    RowsLookup(RussianRows56To58(), RussianRows59To62(), RussianRows63To66(), 'ö');
  }

  /** The package's `charsMap` has the entries the walkthroughs read. */
  lemma CharsMapKnown()
    ensures WellFormed(CharsMap()) && KnownEntries(CharsMap())
  {
    CharsMapWellFormed();
    GermanKnown();
    LatinKnown();
    HardSignInRussian();
    OUmlautNotRussian();
    assert 'ö' !in LatinSymbols() && 'ъ' !in LatinSymbols();
    DisplayKnownEntries(German(), Latin(), LatinSymbols(), Russian());
  }

  // ---------------------------------------------------------------------
  // The default stopwords the walkthroughs read
  // ---------------------------------------------------------------------

  function BeforeOn(): seq<string> {
    ["a", "an", "as", "at", "before", "but", "by", "for", "from", "is", "in", "into", "like", "of", "off"]
  }

  function AfterOn(): seq<string> {
    ["onto", "per", "since", "than", "the", "this", "that", "to", "up", "via", "with"]
  }

  /** Letters that every default stopword but "on" holds and that "on " and "oen " lack. */
  function NotInOnText(): set<char> {
    {'a', 'i', 'b', 's', 't', 'u', 'y', 'f', 'p', 'l', 'h', 'w'}
  }

  /** Letters that every default stopword holds and that "Ueber cool!" lacks. */
  function NotInUeberCool(): set<char> {
    {'a', 'f', 'i', 'n', 'p', 's', 't', 'u', 'y', 'w'}
  }

  /** Letters that every default stopword holds and that "A B C" lacks: their first letters. */
  function NotInABC(): set<char> {
    {'a', 'b', 'f', 'i', 'l', 'o', 'p', 's', 't', 'u', 'v', 'w'}
  }

  /** Letters that every default stopword but "a", "for", "of" and "off"
      holds and that "foo bar" lacks. */
  function NotInFooBar(): set<char> {
    {'e', 'i', 'n', 's', 't', 'u', 'y', 'm'}
  }

  lemma DefaultsAroundOn()
    ensures RemoveList() == BeforeOn() + ["on"] + AfterOn()
  {
  }

  lemma AroundOnTouches()
    ensures forall w :: w in BeforeOn() ==> Touches(w, NotInOnText())
    ensures forall w :: w in AfterOn() ==> Touches(w, NotInOnText())
  {
  }

  lemma DefaultsTouchUeberCool()
    ensures forall w :: w in RemoveList() ==> Touches(w, NotInUeberCool())
  {
  }

  lemma DefaultsTouchABC()
    ensures forall w :: w in RemoveList() ==> Touches(w, NotInABC())
  {
  }

  lemma DefaultsTouchFooBar()
    ensures forall w :: w in RemoveList() ==> Touches(w, NotInFooBar()) || w in {"a", "for", "of", "off"}
  {
  }

  /** A text in which the first two characters of a pattern never stand side
      by side is left alone by the replacement. */
  lemma LeadingPairAbsent(s: string, from: string, to: string)
    requires |from| >= 2 && !Adjacent(s, from[0], from[1])
    ensures ReplaceAll(s, from, to) == s
  {
    ReplaceExcluded(s, from, to);
  }

  // ---------------------------------------------------------------------
  // Transliteration with no preferred language
  // ---------------------------------------------------------------------

  /** With no preferred language, 'ö' follows whichever of "de" and "latin"
      is visited first. */
  lemma OUmlautByOrder(t: Table, o: Order)
    requires KnownEntries(t) && Fits(t, o)
    ensures Before(o, "latin", "de") ==> Rewrite('ö', VisitPairs(t, o, "")) == "o"
    ensures Before(o, "de", "latin") ==> Rewrite('ö', VisitPairs(t, o, "")) == "oe"
  {
    if Before(o, "latin", "de") {
      FirstOfTwoDecides(t, o, "", 'ö', "latin", "de");
    }
    if Before(o, "de", "latin") {
      FirstOfTwoDecides(t, o, "", 'ö', "de", "latin");
    }
  }

  /** Each character of "ön ъ" on its own; the ASCII ones stay. */
  lemma OnTextRewrites(ps: seq<Pair>)
    requires PairsWellFormed(ps)
    ensures RewriteEach("ön ъ", ps) == Rewrite('ö', ps) + "n " + Rewrite('ъ', ps)
  {
    assert "ön ъ" == "ö" + "n " + "ъ";
    RewriteAppend("ö" + "n ", "ъ", ps);
    RewriteAppend("ö", "n ", ps);
    RewriteOne('ö', ps);
    RewriteOne('ъ', ps);
    AsciiText("n ");
    RewriteEachAscii("n ", ps);
  }

  /** "ön ъ" becomes "on " or "oen ", depending on the order: 'ъ' is deleted
      whatever the order, and the ASCII characters stay. */
  lemma TransliterateOnText(t: Table, o: Order)
    requires WellFormed(t) && KnownEntries(t) && Fits(t, o)
    ensures Before(o, "latin", "de") ==> Transliterate(t, o, "", "ön ъ") == "on "
    ensures Before(o, "de", "latin") ==> Transliterate(t, o, "", "ön ъ") == "oen "
  {
    var ps := VisitPairs(t, o, "");
    TransliterateEach(t, o, "", "ön ъ");
    FitsCovers(t, o);
    VisitPairsWellFormed(t, o, "");
    OUmlautByOrder(t, o);
    OnlyMapDecides(t, o, "", 'ъ', "ru");
    OnTextRewrites(ps);
  }

  // ---------------------------------------------------------------------
  // The empty slug is not cached
  // ---------------------------------------------------------------------

  /** Default stopwords split around "on" delete all of "on ". */
  lemma StopwordsDeleteOn(defaults: seq<string>)
    requires defaults == BeforeOn() + ["on"] + AfterOn()
    ensures RemoveWords("on ", defaults) == ""
  {
    AroundOnTouches();
    OnLacks();
    RemoveWordsAppend("on ", BeforeOn() + ["on"], AfterOn());
    RemoveWordsAppend("on ", BeforeOn(), ["on"]);
    RemoveWordsUnchanged("on ", BeforeOn(), NotInOnText());
    OnRemoved();
    RemoveWordsOfEmpty(AfterOn());
  }

  lemma OnLacks()
    ensures forall c :: c in "on " ==> c !in NotInOnText()
  {
  }

  /** The stopword "on" deletes "on ". */
  lemma OnRemoved()
    ensures RemoveWords("on ", ["on"]) == ""
  {
    assert " " + "on" == " on" && "on" + " " == "on ";
    assert !Adjacent("on ", ' ', 'o');
    ReplaceExcluded("on ", " on", "");
  }

  /** The same stopwords leave "oen " alone: only "on" has all its letters in
      it, and "on" is not there. */
  lemma StopwordsKeepOen(defaults: seq<string>)
    requires defaults == BeforeOn() + ["on"] + AfterOn()
    ensures RemoveWords("oen ", defaults) == "oen "
  {
    AroundOnTouches();
    assert StopwordExcluded("on", "oen ");
    RemoveWordsUnchanged("oen ", defaults, NotInOnText());
  }

  /** A non-empty word of lower-case letters is its own normal form and has no
      hyphen to trim. */
  lemma PlainWord(s: string)
    requires s != [] && forall c :: c in s ==> IsAsciiLower(c)
    ensures Normalize(s) == s && Trim(s, {'-'}) == s
  {
    assert s[0] in s && s[|s| - 1] in s;
    ReplaceMissingChar(s, "_", " ", '_');
    LetterNotSpace(s[0]);
    LetterNotSpace(s[|s| - 1]);
    TrimUnchanged(s, Spaces());
    ReplaceMissingChar(s, " ", "-", ' ');
    ReplaceMissingChar(s, "--", "-", '-');
    ToLowerNoUpper(s);
    TrimUnchanged(s, {'-'});
  }

  /** "oen " normalises to "oen": the trailing space is trimmed. */
  lemma OenNormalized()
    ensures Normalize("oen ") == "oen" && Trim("oen", {'-'}) == "oen"
  {
    ReplaceMissingChar("oen ", "_", " ", '_');
    assert "oen " == "oen" + [' '];
    TrimDropsLast("oen", ' ', Spaces());
    PlainWord("oen");
  }

  /** The pipeline with each stage's result named: the slug is the trimmed,
      truncated normal form of the cleaned transliteration of the trimmed text. */
  lemma SlugThrough(g: Globals, text: string, language: string, maxLength: int, words: seq<string>, o: Order,
                    trimmed: string, transliterated: string, cleaned: string, normalized: string)
    requires TrimSpace(text) == trimmed
    requires Transliterate(g.charsMap, o, language, trimmed) == transliterated
    requires Sanitize(RemoveWords(RemoveWords(transliterated, g.removeList), words)) == cleaned
    requires Normalize(cleaned) == normalized
    ensures Slug(g, text, language, maxLength, words, o) == Trim(Truncate(normalized, maxLength), {'-'})
  {
    SlugStages(g, text, language, maxLength, words, o);
  }

  lemma OnTextTrimmed()
    ensures TrimSpace("ön ъ") == "ön ъ"
  {
    TrimUnchanged("ön ъ", Spaces());
  }

  lemma EmptyNormalized()
    ensures Sanitize("") == "" && Normalize("") == "" && Trim(Truncate("", 0), {'-'}) == ""
  {
    ReplaceMissingChar("", "_", " ", '_');
    TrimUnchanged("", Spaces());
    ReplaceMissingChar("", " ", "-", ' ');
    ReplaceMissingChar("", "--", "-", '-');
  }

  lemma OnTextSlugFor(g: Globals, o: Order)
    requires WellFormed(g.charsMap) && KnownEntries(g.charsMap) && Fits(g.charsMap, o)
    requires g.removeList == BeforeOn() + ["on"] + AfterOn()
    ensures Before(o, "latin", "de") ==> Slug(g, "ön ъ", "", 0, [], o) == ""
    ensures Before(o, "de", "latin") ==> Slug(g, "ön ъ", "", 0, [], o) == "oen"
  {
    OnTextTrimmed();
    TransliterateOnText(g.charsMap, o);
    if Before(o, "latin", "de") {
      StopwordsDeleteOn(g.removeList);
      EmptyNormalized();
      SlugThrough(g, "ön ъ", "", 0, [], o, "ön ъ", "on ", "", "");
    }
    if Before(o, "de", "latin") {
      StopwordsKeepOen(g.removeList);
      SanitizeKeeps("oen ");
      OenNormalized();
      SlugThrough(g, "ön ъ", "", 0, [], o, "ön ъ", "oen ", "oen ", "oen");
    }
  }

  /** The whole pipeline on "ön ъ": "" when "latin" is visited before "de"
      (the stopword "on" then deletes "on "), "oen" when "de" comes first. */
  lemma OnTextSlug(o: Order)
    requires Fits(CharsMap(), o)
    ensures Before(o, "latin", "de") ==> Slug(Package(), "ön ъ", "", 0, [], o) == ""
    ensures Before(o, "de", "latin") ==> Slug(Package(), "ön ъ", "", 0, [], o) == "oen"
  {
    CharsMapKnown();
    DefaultsAroundOn();
    OnTextSlugFor(Package(), o);
  }

  lemma LatinFirstListed()
    ensures Enumerates(["latin", "de", "latin_symbols", "ru"], {"de", "latin", "latin_symbols", "ru"})
  {
  }

  lemma DeFirstListed()
    ensures Enumerates(["de", "latin", "latin_symbols", "ru"], {"de", "latin", "latin_symbols", "ru"})
  {
  }

  /** Go may visit "latin" before "de" in a table with the package's four languages... */
  lemma LatinFirstFor(t: Table)
    requires t.Keys == {"de", "latin", "latin_symbols", "ru"}
    ensures exists o :: Fits(t, o) && Before(o, "latin", "de")
  {
    var latinFirst := ["latin", "de", "latin_symbols", "ru"];
    LatinFirstListed();
    ListingFits(t, latinFirst);
    var o := Order(latinFirst, KeyListings(t));
    assert o.langs[0] == "latin" && o.langs[1] == "de";
  }

  /** ...and "de" before "latin". */
  lemma DeFirstFor(t: Table)
    requires t.Keys == {"de", "latin", "latin_symbols", "ru"}
    ensures exists o :: Fits(t, o) && Before(o, "de", "latin")
  {
    var deFirst := ["de", "latin", "latin_symbols", "ru"];
    DeFirstListed();
    ListingFits(t, deFirst);
    var o := Order(deFirst, KeyListings(t));
    assert o.langs[0] == "de" && o.langs[1] == "latin";
  }

  /** Orders of both kinds exist for the package's `charsMap`. */
  lemma BothOrdersExist()
    ensures exists o :: Fits(CharsMap(), o) && Before(o, "latin", "de")
    ensures exists o :: Fits(CharsMap(), o) && Before(o, "de", "latin")
  {
    CharsMapEntries();
    LatinFirstFor(CharsMap());
    DeFirstFor(CharsMap());
  }

  /** A fresh parser given "ön ъ", parsed twice: when the first call visits
      "latin" before "de" it returns "" and caches nothing, so the second call,
      visiting "de" first, returns "oen". The same parser, with no setter in
      between, answers two different slugs. */
  method EmptySlugNotCached(o1: Order, o2: Order) returns (first: string, second: string)
    requires Fits(CharsMap(), o1) && Before(o1, "latin", "de")
    requires Fits(CharsMap(), o2) && Before(o2, "de", "latin")
    ensures first == "" && second == "oen"
  {
    var p := NewParser();
    p := p.SetText("ön ъ");
    first, second := ParseTwice(p, o1, o2);
    OnTextSlug(o1);
    OnTextSlug(o2);
  }

  // ---------------------------------------------------------------------
  // The pipeline on the documented examples
  // ---------------------------------------------------------------------

  lemma AsciiText(s: string)
    requires forall c :: c in s ==> IsAscii(c)
    ensures AllAscii(s)
  {
    forall i | 0 <= i < |s| ensures IsAscii(s[i]) {
      assert s[i] in s;
    }
  }

  /** Normalisation with each step's result named. */
  lemma NormalizeThrough(s: string, spaced: string, trimmed: string, hyphened: string, joined: string, lowered: string)
    requires ReplaceAll(s, "_", " ") == spaced
    requires TrimSpace(spaced) == trimmed
    requires ReplaceAll(trimmed, " ", "-") == hyphened
    requires ReplaceAll(hyphened, "--", "-") == joined
    requires ToLower(joined) == lowered
    ensures Normalize(s) == lowered
  {
  }

  /** Sanitising text that is already clean, followed by one character the
      pattern deletes. */
  lemma SanitizeDropsLast(s: string, c: char)
    requires Sanitize(s) == s && !Kept(c)
    ensures Sanitize(s + [c]) == s
  {
    SanitizeAppend(s, [c]);
  }

  // "Über cool!" with language "de"

  /** Each character of "Über cool!" on its own; the ASCII ones stay. */
  lemma UeberRewrites(ps: seq<Pair>)
    requires PairsWellFormed(ps)
    ensures RewriteEach("Über cool!", ps) == Rewrite('Ü', ps) + "ber cool!"
  {
    assert "Über cool!" == "Ü" + "ber cool!";
    RewriteAppend("Ü", "ber cool!", ps);
    RewriteOne('Ü', ps);
    AsciiText("ber cool!");
    RewriteEachAscii("ber cool!", ps);
  }

  /** The umlaut follows the German map and the rest is ASCII. */
  lemma UeberTransliterated(t: Table, o: Order)
    requires WellFormed(t) && KnownEntries(t) && Fits(t, o)
    ensures Transliterate(t, o, "de", "Über cool!") == "Ueber cool!"
  {
    PreferredLanguageWins(t, o, "de", 'Ü');
    TransliterateEach(t, o, "de", "Über cool!");
    FitsCovers(t, o);
    VisitPairsWellFormed(t, o, "de");
    UeberRewrites(VisitPairs(t, o, "de"));
    assert "Ue" + "ber cool!" == "Ueber cool!";
  }

  lemma UeberTrimmed()
    ensures TrimSpace("Über cool!") == "Über cool!"
  {
    TrimUnchanged("Über cool!", Spaces());
  }

  lemma UeberLacks()
    ensures forall c :: c in "Ueber cool!" ==> c !in NotInUeberCool()
  {
  }

  lemma UeberKept()
    ensures Sanitize("Ueber cool") == "Ueber cool"
  {
    assert forall c :: c in "Ueber cool" ==> Kept(c);
    SanitizeKeeps("Ueber cool");
  }

  lemma BangDeleted()
    ensures !Kept('!') && "Ueber cool!" == "Ueber cool" + ['!']
  {
  }

  /** The '!' is sanitised away. */
  lemma UeberSanitized()
    ensures Sanitize("Ueber cool!") == "Ueber cool"
  {
    UeberKept();
    BangDeleted();
    SanitizeDropsLast("Ueber cool", '!');
  }

  /** No stopword occurs in "Ueber cool!", and the '!' is sanitised away. */
  lemma UeberCleaned(defaults: seq<string>)
    requires forall w :: w in defaults ==> Touches(w, NotInUeberCool())
    ensures Sanitize(RemoveWords(RemoveWords("Ueber cool!", defaults), [])) == "Ueber cool"
  {
    UeberLacks();
    RemoveWordsUnchanged("Ueber cool!", defaults, NotInUeberCool());
    UeberSanitized();
  }

  lemma UeberSpaced()
    ensures ReplaceAll("Ueber cool", "_", " ") == "Ueber cool"
  {
    assert '_' !in "Ueber cool";
    ReplaceMissingChar("Ueber cool", "_", " ", '_');
  }

  lemma UeberSpaceTrimmed()
    ensures TrimSpace("Ueber cool") == "Ueber cool"
  {
    TrimUnchanged("Ueber cool", Spaces());
  }

  lemma CoolHyphened()
    ensures ReplaceAll(" cool", " ", "-") == "-cool"
    ensures "Ueber cool" == "Ueber" + " cool" && "Ueber" + "-cool" == "Ueber-cool"
  {
  }

  lemma UeberHyphened()
    ensures ReplaceAll("Ueber cool", " ", "-") == "Ueber-cool"
  {
    CoolHyphened();
    ReplaceAllAppend("Ueber", " cool", " ", "-");
  }

  lemma UeberLowerHead()
    ensures ToLower("Ueber") == "ueber"
  {
  }

  lemma UeberLowerTail()
    ensures ToLower("-cool") == "-cool"
  {
  }

  lemma UeberHalves()
    ensures "Ueber-cool" == "Ueber" + "-cool" && "ueber" + "-cool" == "ueber-cool"
  {
  }

  lemma UeberLowered()
    ensures ToLower("Ueber-cool") == "ueber-cool"
  {
    UeberLowerHead();
    UeberLowerTail();
    UeberHalves();
    ToLowerAppend("Ueber", "-cool");
  }

  lemma UeberFinished()
    ensures Trim("ueber-cool", {'-'}) == "ueber-cool"
  {
    TrimUnchanged("ueber-cool", {'-'});
  }

  /** "Ueber cool" normalised: the space becomes a hyphen and the text is lower-cased. */
  lemma UeberCoolNormalized()
    ensures Normalize("Ueber cool") == "ueber-cool"
  {
    UeberSpaced();
    UeberSpaceTrimmed();
    UeberHyphened();
    assert !Adjacent("Ueber-cool", '-', '-');
    LeadingPairAbsent("Ueber-cool", "--", "-");
    UeberLowered();
    NormalizeThrough("Ueber cool", "Ueber cool", "Ueber cool", "Ueber-cool", "Ueber-cool", "ueber-cool");
  }

  lemma UeberCoolFor(g: Globals, o: Order)
    requires WellFormed(g.charsMap) && KnownEntries(g.charsMap) && Fits(g.charsMap, o)
    requires forall w :: w in g.removeList ==> Touches(w, NotInUeberCool())
    ensures Slug(g, "Über cool!", "de", 0, [], o) == "ueber-cool"
  {
    UeberTrimmed();
    UeberTransliterated(g.charsMap, o);
    UeberCleaned(g.removeList);
    UeberCoolNormalized();
    UeberFinished();
    SlugThrough(g, "Über cool!", "de", 0, [], o, "Über cool!", "Ueber cool!", "Ueber cool", "ueber-cool");
  }

  /** "Über cool!" with language "de" gives "ueber-cool", in every visiting order. */
  lemma UeberCool(o: Order)
    requires Fits(CharsMap(), o)
    ensures Slug(Package(), "Über cool!", "de", 0, [], o) == "ueber-cool"
  {
    CharsMapKnown();
    DefaultsTouchUeberCool();
    UeberCoolFor(Package(), o);
  }

  // "foo bar" with the instance stopword "foo"

  lemma FooBarTrimmed()
    ensures TrimSpace("foo bar") == "foo bar" && AllAscii("foo bar")
  {
    TrimUnchanged("foo bar", Spaces());
    AsciiText("foo bar");
  }

  lemma FooBarLacks()
    ensures forall c :: c in "foo bar" ==> c !in NotInFooBar()
  {
  }

  /** "a", "for", "of" and "off" have all their letters in "foo bar", but
      never next to a space as they would need to be. */
  lemma FooBarExcluded()
    ensures StopwordExcluded("a", "foo bar") && StopwordExcluded("for", "foo bar")
    ensures StopwordExcluded("of", "foo bar") && StopwordExcluded("off", "foo bar")
  {
  }

  lemma FooBeforeSpace()
    ensures ReplaceAll("foo bar", "foo ", "") == "bar"
    ensures " " + "foo" == " foo" && "foo" + " " == "foo "
  {
  }

  /** The instance stopword "foo" leaves "bar". */
  lemma FooRemoved()
    ensures RemoveWords("foo bar", ["foo"]) == "bar"
  {
    assert !Adjacent("foo bar", ' ', 'f');
    LeadingPairAbsent("foo bar", " foo", "");
    FooBeforeSpace();
  }

  /** No default stopword occurs in "foo bar"; the instance stopword "foo" then leaves "bar". */
  lemma FooBarStopwords(defaults: seq<string>)
    requires forall w :: w in defaults ==> Touches(w, NotInFooBar()) || w in {"a", "for", "of", "off"}
    ensures RemoveWords(RemoveWords("foo bar", defaults), ["foo"]) == "bar"
  {
    FooBarLacks();
    FooBarExcluded();
    RemoveWordsUnchanged("foo bar", defaults, NotInFooBar());
    FooRemoved();
  }

  lemma BarFinished()
    ensures Sanitize("bar") == "bar" && Normalize("bar") == "bar" && Trim("bar", {'-'}) == "bar"
  {
    SanitizeKeeps("bar");
    PlainWord("bar");
  }

  lemma FooBarFor(g: Globals, o: Order)
    requires WellFormed(g.charsMap) && Fits(g.charsMap, o)
    requires forall w :: w in g.removeList ==> Touches(w, NotInFooBar()) || w in {"a", "for", "of", "off"}
    ensures Slug(g, "foo bar", "", 0, ["foo"], o) == "bar"
  {
    FooBarTrimmed();
    TransliterateKeepsAscii(g.charsMap, o, "", "foo bar");
    FooBarStopwords(g.removeList);
    BarFinished();
    SlugThrough(g, "foo bar", "", 0, ["foo"], o, "foo bar", "foo bar", "bar", "bar");
  }

  /** "foo bar" with the instance stopword "foo" gives "bar", in every visiting order. */
  lemma FooBar(o: Order)
    requires Fits(CharsMap(), o)
    ensures Slug(Package(), "foo bar", "", 0, ["foo"], o) == "bar"
  {
    CharsMapWellFormed();
    DefaultsTouchFooBar();
    FooBarFor(Package(), o);
  }

  // "A B C" cut to 3 characters

  lemma ABCTrimmed()
    ensures TrimSpace("A B C") == "A B C" && AllAscii("A B C")
  {
    TrimUnchanged("A B C", Spaces());
    AsciiText("A B C");
  }

  lemma ABCLacks()
    ensures forall c :: c in "A B C" ==> c !in NotInABC()
  {
  }

  lemma ABCKept()
    ensures Sanitize("A B C") == "A B C"
  {
    assert forall c :: c in "A B C" ==> Kept(c);
    SanitizeKeeps("A B C");
  }

  lemma ABCSpaced()
    ensures ReplaceAll("A B C", "_", " ") == "A B C"
  {
    assert '_' !in "A B C";
    ReplaceMissingChar("A B C", "_", " ", '_');
  }

  lemma ABCHyphened()
    ensures ReplaceAll("A B C", " ", "-") == "A-B-C"
  {
  }

  lemma ABCLowered()
    ensures ToLower("A-B-C") == "a-b-c"
  {
  }

  /** "A B C" normalised. */
  lemma ABCNormalized()
    ensures Normalize("A B C") == "a-b-c"
  {
    ABCSpaced();
    ABCTrimmed();
    ABCHyphened();
    assert !Adjacent("A-B-C", '-', '-');
    LeadingPairAbsent("A-B-C", "--", "-");
    ABCLowered();
    NormalizeThrough("A B C", "A B C", "A B C", "A-B-C", "A-B-C", "a-b-c");
  }

  /** The cut to 3 characters ends on a letter. */
  lemma ABCCut()
    ensures Trim(Truncate("a-b-c", 3), {'-'}) == "a-b"
  {
    assert "a-b-c"[..3] == "a-b";
    TrimUnchanged("a-b", {'-'});
  }

  lemma ABCFor(g: Globals, o: Order)
    requires WellFormed(g.charsMap) && Fits(g.charsMap, o)
    requires forall w :: w in g.removeList ==> Touches(w, NotInABC())
    ensures Slug(g, "A B C", "", 3, [], o) == "a-b"
  {
    ABCTrimmed();
    TransliterateKeepsAscii(g.charsMap, o, "", "A B C");
    ABCLacks();
    RemoveWordsUnchanged("A B C", g.removeList, NotInABC());
    ABCKept();
    ABCNormalized();
    ABCCut();
    SlugThrough(g, "A B C", "", 3, [], o, "A B C", "A B C", "A B C", "a-b-c");
  }

  /** "A B C" cut to 3 characters gives "a-b", in every visiting order. */
  lemma ABC(o: Order)
    requires Fits(CharsMap(), o)
    ensures Slug(Package(), "A B C", "", 3, [], o) == "a-b"
  {
    CharsMapWellFormed();
    DefaultsTouchABC();
    ABCFor(Package(), o);
  }

  // "x   y", and its slug slugged again

  lemma GapTrimmed()
    ensures TrimSpace("x   y") == "x   y" && AllAscii("x   y")
  {
    TrimUnchanged("x   y", Spaces());
    AsciiText("x   y");
  }

  lemma GapLacks()
    ensures forall c :: c in "x   y" ==> c !in NotInABC()
  {
  }

  lemma GapKept()
    ensures Sanitize("x   y") == "x   y"
  {
    assert forall c :: c in "x   y" ==> Kept(c);
    SanitizeKeeps("x   y");
  }

  lemma GapSpaced()
    ensures ReplaceAll("x   y", "_", " ") == "x   y"
  {
    assert '_' !in "x   y";
    ReplaceMissingChar("x   y", "_", " ", '_');
  }

  lemma GapHyphened()
    ensures ReplaceAll("x   y", " ", "-") == "x---y"
  {
  }

  /** One pass of "--" to "-" over three hyphens leaves two. */
  lemma GapJoined()
    ensures ReplaceAll("x---y", "--", "-") == "x--y"
  {
    assert "x---y" == "x" + "---y";
    ReplaceAllAppend("x", "---y", "--", "-");
    assert "---y"[..2] == "--" && "---y"[2..] == "-y";
    assert !Adjacent("-y", '-', '-');
    LeadingPairAbsent("-y", "--", "-");
  }

  lemma GapLowered()
    ensures ToLower("x--y") == "x--y"
  {
  }

  lemma GapNormalized()
    ensures Normalize("x   y") == "x--y"
  {
    GapSpaced();
    GapTrimmed();
    GapHyphened();
    GapJoined();
    GapLowered();
    NormalizeThrough("x   y", "x   y", "x   y", "x---y", "x--y", "x--y");
  }

  lemma GapFinished()
    ensures Trim(Truncate("x--y", 0), {'-'}) == "x--y"
  {
    TrimUnchanged("x--y", {'-'});
  }

  lemma GapFor(g: Globals, o: Order)
    requires WellFormed(g.charsMap) && Fits(g.charsMap, o)
    requires forall w :: w in g.removeList ==> Touches(w, NotInABC())
    ensures Slug(g, "x   y", "", 0, [], o) == "x--y"
  {
    GapTrimmed();
    TransliterateKeepsAscii(g.charsMap, o, "", "x   y");
    GapLacks();
    RemoveWordsUnchanged("x   y", g.removeList, NotInABC());
    GapKept();
    GapNormalized();
    GapFinished();
    SlugThrough(g, "x   y", "", 0, [], o, "x   y", "x   y", "x   y", "x--y");
  }

  lemma HyphensTrimmed()
    ensures TrimSpace("x--y") == "x--y" && AllAscii("x--y")
  {
    TrimUnchanged("x--y", Spaces());
    AsciiText("x--y");
  }

  lemma HyphensLack()
    ensures forall c :: c in "x--y" ==> c !in NotInABC()
  {
  }

  lemma HyphensKept()
    ensures Sanitize("x--y") == "x--y"
  {
    assert forall c :: c in "x--y" ==> Kept(c);
    SanitizeKeeps("x--y");
  }

  lemma HyphensSpaced()
    ensures ReplaceAll("x--y", "_", " ") == "x--y"
    ensures ReplaceAll("x--y", " ", "-") == "x--y"
  {
    assert '_' !in "x--y" && ' ' !in "x--y";
    ReplaceMissingChar("x--y", "_", " ", '_');
    ReplaceMissingChar("x--y", " ", "-", ' ');
  }

  lemma HyphensJoined()
    ensures ReplaceAll("x--y", "--", "-") == "x-y"
  {
  }

  lemma HyphensLowered()
    ensures ToLower("x-y") == "x-y"
  {
  }

  lemma HyphensNormalized()
    ensures Normalize("x--y") == "x-y"
  {
    HyphensSpaced();
    HyphensTrimmed();
    HyphensJoined();
    HyphensLowered();
    NormalizeThrough("x--y", "x--y", "x--y", "x--y", "x-y", "x-y");
  }

  lemma HyphensFor(g: Globals, o: Order)
    requires WellFormed(g.charsMap) && Fits(g.charsMap, o)
    requires forall w :: w in g.removeList ==> Touches(w, NotInABC())
    ensures Slug(g, "x--y", "", 0, [], o) == "x-y"
  {
    HyphensTrimmed();
    TransliterateKeepsAscii(g.charsMap, o, "", "x--y");
    HyphensLack();
    RemoveWordsUnchanged("x--y", g.removeList, NotInABC());
    HyphensKept();
    HyphensNormalized();
    TrimUnchanged("x-y", {'-'});
    SlugThrough(g, "x--y", "", 0, [], o, "x--y", "x--y", "x--y", "x-y");
  }

  /** Three spaces leave a double hyphen in the slug, and slugging that slug
      again shortens it: the pipeline is not idempotent. */
  lemma SlugNotIdempotent(o: Order)
    requires Fits(CharsMap(), o)
    ensures Slug(Package(), "x   y", "", 0, [], o) == "x--y"
    ensures Slug(Package(), "x--y", "", 0, [], o) == "x-y"
  {
    CharsMapWellFormed();
    DefaultsTouchABC();
    GapFor(Package(), o);
    HyphensFor(Package(), o);
  }

  // "x\ty": a tab survives

  lemma TabTrimmed()
    ensures TrimSpace("x\ty") == "x\ty" && AllAscii("x\ty")
  {
    TrimUnchanged("x\ty", Spaces());
    AsciiText("x\ty");
  }

  lemma TabLacks()
    ensures forall c :: c in "x\ty" ==> c !in NotInABC()
  {
  }

  lemma TabKept()
    ensures Sanitize("x\ty") == "x\ty"
  {
    assert forall c :: c in "x\ty" ==> Kept(c);
    SanitizeKeeps("x\ty");
  }

  lemma TabNormalized()
    ensures Normalize("x\ty") == "x\ty"
  {
    assert '_' !in "x\ty" && ' ' !in "x\ty" && '-' !in "x\ty";
    ReplaceMissingChar("x\ty", "_", " ", '_');
    TabTrimmed();
    ReplaceMissingChar("x\ty", " ", "-", ' ');
    ReplaceMissingChar("x\ty", "--", "-", '-');
    assert ToLower("x\ty") == "x\ty";
    NormalizeThrough("x\ty", "x\ty", "x\ty", "x\ty", "x\ty", "x\ty");
  }

  lemma TabFor(g: Globals, o: Order)
    requires WellFormed(g.charsMap) && Fits(g.charsMap, o)
    requires forall w :: w in g.removeList ==> Touches(w, NotInABC())
    ensures Slug(g, "x\ty", "", 0, [], o) == "x\ty"
  {
    TabTrimmed();
    TransliterateKeepsAscii(g.charsMap, o, "", "x\ty");
    TabLacks();
    RemoveWordsUnchanged("x\ty", g.removeList, NotInABC());
    TabKept();
    TabNormalized();
    TrimUnchanged("x\ty", {'-'});
    SlugThrough(g, "x\ty", "", 0, [], o, "x\ty", "x\ty", "x\ty", "x\ty");
  }

  /** A tab inside the text survives into the slug: `removePattern` keeps
      every `\s` character, and only a space becomes a hyphen. */
  lemma TabSurvives(o: Order)
    requires Fits(CharsMap(), o)
    ensures Slug(Package(), "x\ty", "", 0, [], o) == "x\ty"
  {
    CharsMapWellFormed();
    DefaultsTouchABC();
    TabFor(Package(), o);
  }

  /** A client of the builder: a new parser given "foo bar", with "foo" added
      to its stopwords, parses to "bar". */
  method FooBarClient(o: Order) returns (r: string)
    requires Fits(CharsMap(), o)
    ensures r == "bar"
  {
    var p := NewParser();
    p := p.SetText("foo bar");
    TrimUnchanged("foo", Spaces());
    p := p.AddToRemoveList("foo");
    assert p.removeList == ["foo"];
    r := p.Parse(o);
    FooBar(o);
  }
}
