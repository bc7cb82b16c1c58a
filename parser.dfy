/** The `parser` builder of main.go:139-239: its configuration, the memoised
    slug, the setters and `Parse`. */
module Parsers {
  import opened GoStrings
  import opened Transliteration
  import opened Slugs
  import opened Options

  /** One `for from, to := range chars` loop of main.go:197-199 and 207-209:
      each entry of `chars`, in the order `keys`, replaces its key everywhere. */
  method ReplaceEntries(s: string, chars: map<char, string>, keys: seq<char>) returns (t: string)
    requires forall k :: k in keys ==> k in chars
    ensures t == ApplyPairs(s, EntryPairs(chars, keys, |keys|))
  {
    t := s;
    var i := 0;
    while i < |keys|
      invariant 0 <= i <= |keys|
      invariant t == ApplyPairs(s, EntryPairs(chars, keys, i))
    {
      assert keys[i] in keys;
      ApplyPairsSnoc(s, EntryPairs(chars, keys, i), (keys[i], chars[keys[i]]));
      t := ReplaceAll(t, [keys[i]], chars[keys[i]]);
      i := i + 1;
    }
  }

  /** The second transliteration loop (main.go:203-211): every map but the
      preferred language's, in the order `o`. */
  method ReplaceOtherLanguages(table: Table, o: Order, language: string, s: string) returns (t: string)
    requires Covers(table, o)
    ensures t == ApplyLangs(table, o, language, s, |o.langs|)
  {
    t := s;
    var j := 0;
    while j < |o.langs|
      invariant 0 <= j <= |o.langs|
      invariant t == ApplyLangs(table, o, language, s, j)
    {
      var lang := o.langs[j];
      if language != "" && language == lang {
        // this map was applied first
      } else {
        assert lang in o.langs;
        CoversLang(table, o, lang);
        t := ReplaceEntries(t, table[lang], o.entries[lang]);
      }
      j := j + 1;
    }
  }

  /** The transliteration of main.go:194-211: the preferred language's map, then
      every other map, in the order `o`. */
  method TransliterateText(table: Table, o: Order, language: string, s: string) returns (t: string)
    requires Covers(table, o)
    ensures t == Transliterate(table, o, language, s)
  {
    t := s;
    if language != "" {
      if language in table {
        CoversLang(table, o, language);
        t := ReplaceEntries(t, table[language], o.entries[language]);
      }
    }
    t := ReplaceOtherLanguages(table, o, language, t);
    ApplyLangsPairs(table, o, language, s, PreferredPairs(table, o, language), |o.langs|);
  }

  /** One stopword loop of main.go:213-223: for each word in order, every
      `" " + word` and then every `word + " "` is deleted. */
  method RemoveStopwords(s: string, words: seq<string>) returns (t: string)
    ensures t == RemoveWords(s, words)
  {
    t := s;
    var k := 0;
    while k < |words|
      invariant 0 <= k <= |words|
      invariant t == RemoveWords(s, words[..k])
    {
      var word := words[k];
      assert words[..k + 1][..k] == words[..k];
      t := ReplaceAll(t, " " + word, "");
      t := ReplaceAll(t, word + " ", "");
      k := k + 1;
    }
    assert words[..|words|] == words;
  }

  /** The uncached part of `Parse` (main.go:192-237) for the tables `g`, the
      configuration and the instance stopwords `words`, visiting the maps in
      the order `o`: it computes exactly `Slug`. */
  method ParseText(g: Globals, text: string, language: string, maxLength: int, words: seq<string>, o: Order)
    returns (slug: string)
    requires Fits(g.charsMap, o)
    ensures slug == Slug(g, text, language, maxLength, words, o)
  {
    var t := TrimSpace(text);
    FitsCovers(g.charsMap, o);
    t := TransliterateText(g.charsMap, o, language, t);
    t := RemoveStopwords(t, g.removeList);
    ghost var u := t;
    if |words| > 0 {
      t := RemoveStopwords(t, words);
    }
    assert t == RemoveWords(u, words);

    t := Sanitize(t);

    t := ReplaceAll(t, "_", " ");
    t := TrimSpace(t);
    t := ReplaceAll(t, " ", "-");
    t := ReplaceAll(t, "--", "-");
    t := ToLower(t);

    ghost var full := t;
    assert full == Untruncated(g, text, language, words, o);
    if maxLength > 0 && |t| > maxLength {
      t := t[..maxLength];
    }
    assert t == Truncate(full, maxLength);

    slug := Trim(t, {'-'});
    SlugStages(g, text, language, maxLength, words, o);
  }

  /** No word appears twice. */
  predicate Distinct(words: seq<string>) {
    forall i, j :: 0 <= i < j < |words| ==> words[i] != words[j]
  }

  /** The index of the first occurrence of `w` in `words`. */
  function IndexOf(words: seq<string>, w: string): (i: nat)
    requires w in words
    ensures i < |words| && words[i] == w
    ensures forall j :: 0 <= j < i ==> words[j] != w
  {
    if words[0] == w then 0 else 1 + IndexOf(words[1..], w)
  }

  /** What `RemoveFromRemoveList` (main.go:175-185) makes of the instance list
      `list` for the trimmed word `w`, given the default list `defaults` whose
      words are distinct: `None` when Go panics. The index comes from the
      default list, whatever word the instance list holds there. */
  function RemovalAsWritten(defaults: seq<string>, list: seq<string>, w: string): Option<seq<string>>
    requires Distinct(defaults)
  {
    if list == [] || w !in defaults then Some(list)
    else
      var i := IndexOf(defaults, w);
      if i >= |list| then None else Some(list[..i] + list[i + 1..])
  }

  /** The removal as written: nothing changes when the instance list is empty or
      the word is no default stopword; otherwise exactly one element goes, the
      one at the word's index in the default list, or Go panics when there is none. */
  lemma RemovalAsWrittenCases(defaults: seq<string>, list: seq<string>, w: string)
    requires Distinct(defaults)
    ensures list == [] || w !in defaults ==> RemovalAsWritten(defaults, list, w) == Some(list)
    ensures list != [] && w in defaults ==>
      var i := IndexOf(defaults, w);
      (RemovalAsWritten(defaults, list, w).None? <==> |list| <= i) &&
      (i < |list| ==>
        var r := RemovalAsWritten(defaults, list, w).value;
        |r| == |list| - 1 && r[..i] == list[..i] && r[i..] == list[i + 1..] &&
        defaults[i] == w)
  {
  }

  /** The evidently intended removal: every occurrence of `w` leaves the
      instance list and every other word stays, in order (`WithoutWordAppend`). */
  function WithoutWord(list: seq<string>, w: string): (r: seq<string>)
    ensures multiset(r) == multiset(list)[w := 0]
    ensures w !in r && |r| <= |list|
  {
    if list == [] then []
    else
      assert list == [list[0]] + list[1..];
      (if list[0] == w then [] else [list[0]]) + WithoutWord(list[1..], w)
  }

  /** The removal works piece by piece: the words that stay keep their order. */
  lemma {:induction false} WithoutWordAppend(a: seq<string>, b: seq<string>, w: string)
    ensures WithoutWord(a + b, w) == WithoutWord(a, w) + WithoutWord(b, w)
  {
    if a == [] {
      assert a + b == b;
    } else {
      assert (a + b)[0] == a[0] && (a + b)[1..] == a[1..] + b;
      WithoutWordAppend(a[1..], b, w);
    }
  }

  // ---------------------------------------------------------------------
  // The cache of `Parse`
  // ---------------------------------------------------------------------

  /** One call of `Parse` as written (main.go:188-190, 238), on the cache
      `cache` with `computed` the slug the pipeline gives on this call: the
      result and the new cache. "" stands for "nothing cached", so an empty slug
      is never kept. */
  function CacheStep(cache: string, computed: string): (string, string) {
    if cache != "" then (cache, cache) else (computed, computed)
  }

  /** The results of successive calls of `Parse` as written, starting from
      `cache`, when the pipeline gives `computed[k]` on call `k`. */
  function CacheRuns(cache: string, computed: seq<string>): (r: seq<string>)
    ensures |r| == |computed|
    decreases |computed|
  {
    if computed == [] then []
    else
      var (slug, next) := CacheStep(cache, computed[0]);
      [slug] + CacheRuns(next, computed[1..])
  }

  /** As written, once a call returns a non-empty slug every later call returns it too. */
  lemma {:induction false} CacheRunsSettle(cache: string, computed: seq<string>)
    requires cache != ""
    ensures forall k :: 0 <= k < |computed| ==> CacheRuns(cache, computed)[k] == cache
  {
    if computed != [] {
      CacheRunsSettle(cache, computed[1..]);
    }
  }

  /** As written, an empty slug is recomputed on the next call: two calls with
      no setter between them can return "" and then a different slug. */
  lemma EmptySlugRecomputed(next: string)
    requires next != ""
    ensures CacheRuns("", ["", next]) == ["", next]
  {
    assert ["", next][1..] == [next];
  }

  /** The cache as evidently intended: whether a slug is cached is kept apart
      from the slug, so an empty slug is cached like any other. */
  datatype Memo = Empty | Cached(slug: string)

  /** One call of `Parse` with the intended cache. */
  function MemoStep(m: Memo, computed: string): (string, Memo) {
    match m
    case Cached(s) => (s, m)
    case Empty => (computed, Cached(computed))
  }

  /** The results of successive calls with the intended cache. */
  function MemoRuns(m: Memo, computed: seq<string>): (r: seq<string>)
    ensures |r| == |computed|
    decreases |computed|
  {
    if computed == [] then []
    else
      var (slug, next) := MemoStep(m, computed[0]);
      [slug] + MemoRuns(next, computed[1..])
  }

  /** With the intended cache, every call after the first returns what the
      first returned, whatever the pipeline would give on later calls. */
  lemma {:induction false} MemoRunsAgree(m: Memo, computed: seq<string>)
    requires computed != []
    ensures forall k :: 0 <= k < |computed| ==> MemoRuns(m, computed)[k] == MemoRuns(m, computed)[0]
  {
    var first := MemoStep(m, computed[0]);
    MemoRunsCached(first.0, computed[1..]);
  }

  /** From a cached slug on, every call returns it. */
  lemma {:induction false} MemoRunsCached(s: string, computed: seq<string>)
    ensures forall k :: 0 <= k < |computed| ==> MemoRuns(Cached(s), computed)[k] == s
  {
    if computed != [] {
      MemoRunsCached(s, computed[1..]);
    }
  }

  class Parser {
    var language: string
    var maxLength: int
    var text: string
    /** The memoised result; "" means none. */
    var parsedText: string
    /** The stopwords added to this instance. */
    var removeList: seq<string>

    /** The process-wide `charsMap` and `removeList` this parser reads. */
    const tables: Globals

    /** The instance stopwords and the visiting order `parsedText` was computed with. */
    ghost var cachedWords: seq<string>
    ghost var cachedOrder: Order

    /** A non-empty cache is the slug of the current language, length and text,
        for the instance stopwords as they were when it was computed: only the
        stopword methods leave it stale. */
    ghost predicate Valid()
      reads this`parsedText, this`text, this`language, this`maxLength, this`cachedWords, this`cachedOrder
    {
      Distinct(tables.removeList) &&
      (parsedText != "" ==> parsedText == Slug(tables, text, language, maxLength, cachedWords, cachedOrder))
    }

    /** The `&parser{}` literal of main.go:149: every field at its zero value,
        reading the tables `g`. */
    constructor (g: Globals)
      requires Distinct(g.removeList)
      ensures Valid()
      ensures language == "" && maxLength == 0 && text == "" && parsedText == "" && removeList == []
      ensures tables == g
    {
      tables := g;
      language, maxLength, text, parsedText, removeList := "", 0, "", "", [];
      cachedWords, cachedOrder := [], Order([], map[]);
    }

    /** `SetLanguage` (main.go:152-156): sets the language, clears the cache and returns the receiver. */
    method SetLanguage(lang: string) returns (p: Parser)
      requires Valid()
      modifies this`language, this`parsedText
      ensures Valid() && p == this
      ensures language == lang && parsedText == ""
      ensures maxLength == old(maxLength) && text == old(text) && removeList == old(removeList)
    {
      language := lang;
      parsedText := "";
      p := this;
    }

    /** `SetMaxLength` (main.go:158-162): sets the length limit, clears the cache and returns the receiver. */
    method SetMaxLength(length: int) returns (p: Parser)
      requires Valid()
      modifies this`maxLength, this`parsedText
      ensures Valid() && p == this
      ensures maxLength == length && parsedText == ""
      ensures language == old(language) && text == old(text) && removeList == old(removeList)
    {
      maxLength := length;
      parsedText := "";
      p := this;
    }

    /** `SetText` (main.go:164-168): sets the input, clears the cache and returns the receiver. */
    method SetText(s: string) returns (p: Parser)
      requires Valid()
      modifies this`text, this`parsedText
      ensures Valid() && p == this
      ensures text == s && parsedText == ""
      ensures language == old(language) && maxLength == old(maxLength) && removeList == old(removeList)
    {
      parsedText := "";
      text := s;
      p := this;
    }

    /** `AddToRemoveList` (main.go:170-173): appends the trimmed word to the
        instance list. The cache is NOT cleared. */
    method AddToRemoveList(word: string) returns (p: Parser)
      requires Valid()
      modifies this`removeList
      ensures Valid() && p == this
      ensures removeList == old(removeList) + [TrimSpace(word)]
      ensures parsedText == old(parsedText)
    {
      removeList := removeList + [TrimSpace(word)];
      p := this;
    }

    /** `RemoveFromRemoveList` (main.go:175-185). The trimmed word is looked up in
        the DEFAULT list (whose words are distinct), and the instance-list element at that index is deleted,
        whatever word it holds. When that index is not below the instance list's
        length, Go panics with the state unchanged: `panicked` reports it. The
        cache is NOT cleared. */
    method RemoveFromRemoveList(word: string) returns (p: Parser, panicked: bool)
      requires Valid()
      modifies this`removeList
      ensures Valid() && p == this && parsedText == old(parsedText)
      ensures var r := RemovalAsWritten(tables.removeList, old(removeList), TrimSpace(word));
        (panicked <==> r.None?) && removeList == if panicked then old(removeList) else r.value
    {
      p := this;
      panicked := false;
      var w := TrimSpace(word);
      if |removeList| > 0 {
        var defaults := tables.removeList;
        // the index at which `w` was met, or -1
        ghost var found := -1;
        var i := 0;
        while i < |defaults| && !panicked
          invariant 0 <= i <= |defaults|
          invariant found == -1 ==>
            !panicked && removeList == old(removeList) && forall m :: 0 <= m < i ==> defaults[m] != w
          invariant found != -1 ==>
            0 <= found < i && defaults[found] == w && (panicked <==> found >= |old(removeList)|) &&
            removeList == if panicked then old(removeList) else old(removeList)[..found] + old(removeList)[found + 1..]
        {
          if defaults[i] == w {
            found := i;
            if i + 1 > |removeList| {
              // removeList[i+1:] is out of range: Go panics
              panicked := true;
            } else {
              removeList := removeList[..i] + removeList[i + 1..];
            }
          }
          i := i + 1;
        }
        if found != -1 {
          assert IndexOf(defaults, w) == found;
        }
      }
    }

    /** `Parse` (main.go:187-239). With a cache it returns it and changes nothing;
        otherwise it runs the pipeline, visiting the maps in the order `o`, and
        caches the slug. Either way the result is a slug within the length limit. */
    method Parse(o: Order) returns (r: string)
      requires Valid() && Fits(tables.charsMap, o)
      modifies this`parsedText, this`cachedWords, this`cachedOrder
      ensures Valid() && parsedText == r
      ensures old(parsedText) != "" ==> r == old(parsedText) && parsedText == old(parsedText)
      ensures old(parsedText) == "" ==>
        r == Slug(tables, text, language, maxLength, removeList, o) && parsedText == r
      ensures (r, parsedText) == CacheStep(old(parsedText), Slug(tables, text, language, maxLength, removeList, o))
      ensures IsSlug(r) && (maxLength > 0 ==> |r| <= maxLength)
    {
      if parsedText != "" {
        SlugShape(tables, text, language, maxLength, cachedWords, cachedOrder);
        return parsedText;
      }

      r := ParseText(tables, text, language, maxLength, removeList, o);
      SlugShape(tables, text, language, maxLength, removeList, o);
      parsedText := r;
      cachedWords, cachedOrder := removeList, o;
    }
  }
}
