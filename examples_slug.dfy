/** Consequences of the model on the parser's own tables: the preferred
    language decides, stopwords are matched case-sensitively, a run of spaces
    can leave a double hyphen in the slug, and `RemoveFromRemoveList` as
    written deletes by the default list's index. */
module Examples {
  import opened GoStrings
  import opened Transliteration
  import opened Slugs
  import opened Tables
  import opened Parsers
  import opened Options
  import opened Urlify

  /** A one-character text holding a key of the preferred language's map becomes
      that map's value. */
  lemma PreferredSingleChar(table: Table, o: Order, language: string, c: char)
    requires WellFormed(table) && Fits(table, o)
    requires Preferred(table, language) && c in table[language]
    ensures Transliterate(table, o, language, [c]) == table[language][c]
  {
    var ps := VisitPairs(table, o, language);
    FitsCovers(table, o);
    PreferredLanguageWins(table, o, language, c);
    VisitPairsWellFormed(table, o, language);
    ApplyPairsPerChar([c], ps);
    assert RewriteEach([c], ps) == Rewrite(c, ps) + RewriteEach([], ps);
  }

  /** The German map turns 'Ä' into "Ae". */
  lemma GermanUmlaut()
    ensures 'Ä' in German() && German()['Ä'] == "Ae"
  {
  }

  /** The table's "de" entry is the German map. */
  lemma GermanEntry()
    ensures "de" in CharsMap() && CharsMap()["de"] == German()
  {
    CharsMapEntries();
  }

  /** With language "de", 'Ä' becomes "Ae", whatever the "latin" map says and
      in every visiting order. */
  lemma UmlautFollowsGerman(o: Order)
    requires Fits(CharsMap(), o)
    ensures Transliterate(CharsMap(), o, "de", "Ä") == "Ae"
  {
    CharsMapWellFormed();
    GermanEntry();
    GermanUmlaut();
    PreferredSingleChar(CharsMap(), o, "de", 'Ä');
  }

  /** Characters "The Quick Fox" lacks; every default stopword holds one. */
  function NotInQuickFox(): set<char> {
    {'a', 'b', 'f', 'l', 'n', 'p', 's', 't', 'v', 'w'}
  }

  lemma QuickFoxLacks()
    ensures forall c :: c in "The Quick Fox" ==> c !in NotInQuickFox()
  {
  }

  lemma DefaultsTouchQuickFox()
    ensures forall w :: w in RemoveList() ==> Touches(w, NotInQuickFox())
  {
  }

  /** Stopwords are matched with their case: "the" is a default stopword, yet
      the stopword loops leave "The Quick Fox" alone. */
  lemma TheQuickFoxKeepsThe()
    ensures "the" in RemoveList()
    ensures RemoveWords("The Quick Fox", RemoveList()) == "The Quick Fox"
  {
    QuickFoxLacks();
    DefaultsTouchQuickFox();
    RemoveWordsUnchanged("The Quick Fox", RemoveList(), NotInQuickFox());
  }

  /** One pass of "--" to "-" shortens a run of three hyphens (three spaces in
      the text) only to two, so a slug can hold a double hyphen. */
  lemma RunOfThreeHyphens()
    ensures ReplaceAll("---", "--", "-") == "--"
  {
    assert "---"[..2] == "--";
    assert "---"[2..] == "-";
    assert ReplaceAll("-", "--", "-") == "-";
  }

  /** The removal as written can delete a word other than the one asked for:
      the word at the asked word's index in the default list. The intended
      removal keeps every other word. */
  lemma RemovalDeletesAnotherWord(defaults: seq<string>, list: seq<string>, w: string)
    requires Distinct(defaults)
    requires w in defaults && IndexOf(defaults, w) < |list| && list[IndexOf(defaults, w)] != w
    ensures var x := list[IndexOf(defaults, w)];
      RemovalAsWritten(defaults, list, w).Some? &&
      multiset(RemovalAsWritten(defaults, list, w).value)[x] < multiset(WithoutWord(list, w))[x]
  {
    var i := IndexOf(defaults, w);
    var x := list[i];
    var r := list[..i] + list[i + 1..];
    assert RemovalAsWritten(defaults, list, w) == Some(r);
    DropOne(list, i);
    assert multiset(r)[x] < multiset(list)[x];
    var m := multiset(WithoutWord(list, w));
    assert m == multiset(list)[w := 0];
    assert m[x] == multiset(list)[x];
  }

  /** Deleting the element at `i` takes one copy of it out of the multiset. */
  lemma DropOne(list: seq<string>, i: int)
    requires 0 <= i < |list|
    ensures multiset(list[..i] + list[i + 1..]) + multiset{list[i]} == multiset(list)
  {
    assert list == list[..i] + [list[i]] + list[i + 1..];
  }

  /** The default list starts with "a" and "an". */
  lemma RemoveListStart()
    ensures |RemoveList()| > 1 && RemoveList()[0] == "a" && RemoveList()[1] == "an"
  {
  }

  /** With a default list that starts with "a", removing "a" from the instance
      list ["foo", "bar"] deletes "foo", where the intended removal keeps both. */
  lemma RemovingA(defaults: seq<string>)
    requires Distinct(defaults) && |defaults| > 0 && defaults[0] == "a"
    ensures RemovalAsWritten(defaults, ["foo", "bar"], "a") == Some(["bar"])
    ensures WithoutWord(["foo", "bar"], "a") == ["foo", "bar"]
  {
    assert IndexOf(defaults, "a") == 0;
    var list := ["foo", "bar"];
    assert list[..0] + list[1..] == ["bar"];
  }

  /** With a default list that starts with "a" and "an", removing "an" from a
      one-word instance list panics, where the intended removal is total. */
  lemma RemovingAnPanics(defaults: seq<string>)
    requires Distinct(defaults) && |defaults| > 1 && defaults[0] == "a" && defaults[1] == "an"
    ensures RemovalAsWritten(defaults, ["foo"], "an").None?
    ensures WithoutWord(["foo"], "an") == ["foo"]
  {
    assert defaults[1..][0] == "an";
    assert IndexOf(defaults, "an") == 1;
  }

  /** The two cases above, for the parser's own default list. */
  lemma RemovalOnDefaults()
    ensures Distinct(RemoveList())
    ensures RemovalAsWritten(RemoveList(), ["foo", "bar"], "a") == Some(["bar"])
    ensures RemovalAsWritten(RemoveList(), ["foo"], "an").None?
  {
    RemoveListDistinct();
    RemoveListStart();
    RemovingA(RemoveList());
    RemovingAnPanics(RemoveList());
  }

  /** Removing a word that is no default stopword, such as one added with
      `AddToRemoveList`, does nothing, where the intended removal deletes it. */
  lemma RemovalMissesAddedWord(defaults: seq<string>, w: string)
    requires Distinct(defaults) && w !in defaults
    ensures RemovalAsWritten(defaults, [w], w) == Some([w])
    ensures WithoutWord([w], w) == []
  {
  }
}
