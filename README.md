# urlify-go slug parser in Dafny

This project models the slug `parser` of the Go package `urlify` (main.go). The
parser is a builder. It holds a preferred `language`, a `maxLength`, the input
`text`, the cached result `parsedText` and an instance stopword list
`removeList`. `SetLanguage`, `SetMaxLength` and `SetText` change one field and
clear the cache. `AddToRemoveList` and `RemoveFromRemoveList` edit the instance
stopword list. `Parse` returns the cached slug, or runs the pipeline and caches
its result.

The pipeline has these steps:

1. Trim the Unicode white space.
2. Transliterate through the language-keyed character maps `charsMap`. The
   preferred language's map goes first, then every other map.
3. Delete every `" " + word` and `word + " "`. The default `removeList` goes
   first, then the instance list.
4. Drop every character that `removePattern` matches.
5. Normalise: underscores become spaces, the text is trimmed, spaces become
   hyphens, one pass turns `--` into `-`, and the text is lower-cased.
6. Cut to `maxLength`.
7. Trim hyphens at both ends.

The modules are:

- **GoStrings** models the `strings` functions the parser calls: `Replace` with
  `n = -1`, `Trim`, `TrimSpace` and `ToLower`.
- **Transliteration** models the two map loops. Go visits the entries of a map
  in an unspecified order. That order is therefore a parameter, an `Order` that
  must enumerate every language and every key once (`Fits`).
  - The main results hold in every order. A character of the preferred map
    becomes that map's value. The order of keys inside a map never matters.
    ASCII text is never changed.
  - Replacing the table's keys one after the other is the same as rewriting
    each character on its own (`ApplyPairsPerChar`). The reason is that every
    key is one non-ASCII code point and every value is ASCII.
- **Tables** holds the data: `charsMap` (four of its seventeen languages) and
  `removeList`. It proves the table invariant for the modelled maps.
- **Slugs** states the pipeline as a list of `Step`s (`Slug`). It proves the
  shape of every slug: which characters it may hold, that it has no hyphen at
  either end, the length bound, and that truncation only takes a prefix.
- **Parsers** holds the `parser` class, whose methods update its fields in
  place. `Parse`'s loops are methods proved equal to the pipeline functions.
  - `RemoveFromRemoveList` as written takes its index from the default list.
    The class keeps that behaviour and models the Go panic as a returned flag.
- **Urlify** holds `NewParser`, and `ParseTwice`, which calls `Parse` twice to show the cache at work.
- **Examples** gives consequences on the package's own tables.
- **Walkthroughs** proves what the whole pipeline gives on concrete texts over
  the package's tables, for every order that fits: "Über cool!" with "de"
  gives "ueber-cool", "foo bar" with "foo" added gives "bar", "A B C" cut to 3
  characters gives "a-b", "x   y" gives "x--y" and that slug gives "x-y", and
  a tab survives. It also shows the cache returning two different slugs (see
  "## Findings"). Its counterexample reads the four modelled maps, where 'ö' is
  only in "de" and "latin" and 'ъ' only in "ru". In the full table of main.go,
  "tr" and "az" also map 'ö' to "o" (main.go:41, 125), and "bg" maps 'ъ' to "a"
  (main.go:53). There, 'ö' becomes "o" when any of "latin", "tr" and "az" comes
  before "de", and "oe" when "de" comes before all three. The slug of "ön ъ" is
  "" when one of those three comes before "de" and "ru" comes before "bg", and
  "oen" when "de" comes before all three.
- **Options** holds the `Option` type.

Where the code and its documentation disagree, the model follows the code:

- Stopwords are matched case-sensitively, before lower-casing. "The Quick Fox"
  keeps its "The" (`Examples.TheQuickFoxKeepsThe`).
- A single pass collapses `--`, so a run of three spaces leaves `--`
  (`Walkthroughs.SlugNotIdempotent`).
- The `\s` characters tab, newline, form feed and carriage return survive into
  the slug. Only a space becomes a hyphen (`Walkthroughs.TabSurvives`).
- `AddToRemoveList` and `RemoveFromRemoveList` do not clear the cache.
- `RemoveFromRemoveList` deletes by the default list's index, and it can panic.
  The intended removal (`WithoutWord`) deletes every copy of the word from the
  instance list. This is a choice of the model: the documentation speaks of the
  first match, and the two agree whenever the instance list holds the word at
  most once.
- `Parse` caches only a non-empty slug. An empty slug is computed again on the
  next call, and that call may visit the maps in another order.
- Slugging a slug again is not always the identity. A slug can hold `--`, and
  a second run turns it into `-` (`Walkthroughs.SlugNotIdempotent`).

## Model

| member | source | states |
|---|---|---|
| GoStrings.ReplaceAllBounds | main.go:213-216 | `strings.Replace` only copies characters of the text or of the replacement, and a replacement no longer than its pattern never lengthens the text |
| GoStrings.ReplaceAll | main.go:198-230 | `strings.Replace(s, old, new, -1)` as called at main.go:198, 209, 214-215, 220-221, 227, 229 and 230: leftmost, non-overlapping, and the inserted text is never searched again; its properties are the lemmas below |
| GoStrings.ReplaceChangesIffOccurs | main.go:213-216 | with a replacement shorter than the pattern, `strings.Replace` changes the text exactly when the pattern occurs in it, and then makes it strictly shorter |
| GoStrings.ReplaceCharIsSubst | main.go:197-199 | replacing a one-character key equals a per-character substitution: the inserted value is never searched again |
| GoStrings.ReplaceMissingChar | main.go:227 | a text lacking a character of the pattern is left unchanged |
| GoStrings.ReplaceAllAppend | main.go:229 | a prefix that lacks the pattern's first character passes through the replacement unchanged, and the rest is replaced on its own |
| GoStrings.ReplaceExcluded | main.go:230 | a text in which some adjacent pair of the pattern never occurs is left unchanged |
| GoStrings.TrimLeft | main.go:192 | drops exactly the leading run of cut characters: every dropped character is cut and the result does not start with one |
| GoStrings.TrimRight | main.go:237 | drops exactly the trailing run of cut characters: every dropped character is cut and the result does not end with one |
| GoStrings.Trim | main.go:237 | `strings.Trim`: the leading and then the trailing run of cut characters go; `TrimShape` states its result |
| GoStrings.TrimSpace | main.go:192 | `strings.TrimSpace`: `Trim` with the 25 code points Go's `unicode.IsSpace` accepts |
| GoStrings.TrimUnchanged | main.go:228 | a text that neither starts nor ends with a cut character is not changed by trimming |
| GoStrings.TrimDropsLast | main.go:228 | one trailing cut character after such a text is trimmed away |
| GoStrings.TrimShape | main.go:237 | `strings.Trim` keeps characters of its input, the result neither starts nor ends with a cut character, and it is empty exactly when every character is cut |
| GoStrings.TrimOfPrefix | main.go:233-237 | trimming a prefix of a text gives a prefix of the trimmed text |
| GoStrings.ToLower | main.go:231 | lower-casing keeps the length, leaves no upper-case ASCII letter, and changes only upper-case letters, each to its lower-case partner |
| GoStrings.ToLowerAppend | main.go:231 | lower-casing works piece by piece |
| GoStrings.ToLowerNoUpper | main.go:231 | text without upper-case ASCII letters is already lower case |
| Transliteration.FitsCovers | main.go:203-211 | an order that enumerates every language and every key of each map names exactly the keys of each map |
| Transliteration.ApplyPairsAppend | main.go:194-211 | two runs of replacements one after the other equal one run of both |
| Transliteration.ApplyLangsPairs | main.go:203-211 | the pass over the languages, map by map, equals the flat sequence of its replacements |
| Transliteration.EntryPairsWellFormed | main.go:197-199 | one map visited in a fitting order yields, in order, one replacement per key, each from a non-ASCII key to an ASCII value |
| Transliteration.VisitPairsWellFormed | main.go:8-128 | every replacement of a transliteration over a well-formed table maps a non-ASCII character to ASCII text |
| Transliteration.ApplyPairsPerChar | main.go:194-211 | replacing the keys one after the other on the whole text equals rewriting each character by its first replacement |
| Transliteration.MapLookup | main.go:197-199 | a whole map, visited in any order of its keys, rewrites a character to the map's value exactly when it is a key |
| Transliteration.PreferredLanguageWins | main.go:194-201 | a character of the preferred language's map becomes that map's value, whatever the other maps say and in every visiting order |
| Transliteration.LangLookupByLanguage | main.go:203-211 | in the pass over the other languages, a character becomes the value of the first visited map other than the preferred one that has it, whatever order each map's keys are visited in |
| Transliteration.KeyOrderIrrelevant | main.go:194-211 | two visiting orders with the same language order transliterate every text alike: only the language order can matter |
| Transliteration.TransliterateKeepsAscii | main.go:194-211 | ASCII text passes through transliteration unchanged |
| Transliteration.Transliterate | main.go:194-211 | the transliteration: the preferred map's replacements, then every other map's, in the order `o` |
| Transliteration.TransliterateEach | main.go:194-211 | transliteration rewrites each character on its own, by the first replacement for it in the run |
| Transliteration.FirstMapDecides | main.go:203-211 | with no preferred map, a character becomes the value of the first visited map that has it |
| Transliteration.NoMapHasChar | main.go:203-211 | with no preferred map, a character that no map has is kept |
| Transliteration.OnlyMapDecides | main.go:203-211 | with no preferred map, a character held by one map only becomes that map's value, whatever the order |
| Transliteration.FirstOfTwoDecides | main.go:203-211 | with no preferred map, a character held by exactly two maps becomes the value of the one visited first |
| Transliteration.ListingFits | main.go:203 | any listing of the languages, with any listing of each map's keys, is an order Go may visit the table in |
| Tables.CharsMap | main.go:8-128 | `charsMap`: four of its seventeen languages ("de", "latin", "latin_symbols", "ru"), entry for entry |
| Tables.RemoveList | main.go:130-135 | `removeList`: the 27 default stopwords, in order |
| Transliteration.Fits | main.go:197-208 | an order Go's `range` may visit the table in: every language once, and every key of each map once |
| Tables.CharsMapWellFormed | main.go:8-128 | every key of the modelled maps is a non-ASCII code point and every value is ASCII |
| Tables.CharsMapEntries | main.go:8-128 | the modelled table has the languages "de", "latin", "latin_symbols" and "ru", each with its own map |
| Urlify.RemoveListDistinct | main.go:130-135 | no default stopword is listed twice, so a word has at most one index in the list |
| Slugs.Sanitize | main.go:225 | a character is in the result exactly when it is in the input and `removePattern` (main.go:137) does not match it; the result is no longer than the input |
| Slugs.Kept | main.go:137 | the characters `removePattern` does not match: ASCII `\s`, `_`, `-`, letters and digits |
| Slugs.SanitizeAppend | main.go:225 | sanitising works piece by piece |
| Slugs.SanitizeKeeps | main.go:225 | text whose every character is kept is not changed by sanitising |
| Slugs.RemoveWords | main.go:213-223 | the stopword loops: for each word in list order, every `" " + word` and then every `word + " "` is deleted |
| Slugs.RemoveWordsAppend | main.go:213-223 | removing the default words and then the instance words is one removal over both lists joined |
| Slugs.RemoveWordsUnchanged | main.go:213-223 | when every stopword holds a character the text lacks, or cannot stand next to a space in it, stopword removal leaves the text alone |
| Slugs.Normalize | main.go:227-231 | underscores to spaces, trim, spaces to hyphens, one pass of `--` to `-`, lower case |
| Slugs.Truncate | main.go:233-235 | the result is a prefix of the text, no longer than a positive limit, and the whole text when the limit is non-positive or not exceeded |
| Slugs.Slug | main.go:192-237 | the whole uncached pipeline, as a list of steps run in order on the text |
| Parsers.IndexOf | main.go:177-178 | the index where a word first occurs in a list |
| Slugs.RunAppend | main.go:192-237 | running two lists of steps one after the other equals running them joined |
| Slugs.SlugStages | main.go:192-237 | the slug is the untruncated pipeline result, cut to `maxLength`, with hyphens trimmed at both ends |
| Slugs.NormalizeAlphabet | main.go:227-231 | normalising sanitised text leaves no upper-case letter, no underscore and no space |
| Slugs.UntruncatedAlphabet | main.go:192-231 | before truncation the text holds only lower-case ASCII letters, digits, hyphens, tab, newline, form feed and carriage return |
| Slugs.SlugShape | main.go:225-237 | every slug holds only those characters, neither starts nor ends with a hyphen, and is no longer than a positive `maxLength` |
| Slugs.TruncationKeepsPrefix | main.go:233-237 | the slug is a prefix of the slug with no limit, and a non-positive `maxLength` gives exactly that slug |
| Slugs.StopwordStepUnchangedIff | main.go:213-216 | one stopword step leaves the text as it is exactly when neither `" " + w` nor `w + " "` occurs in it, and never lengthens it |
| Slugs.RemoveWordsDeletes | main.go:213-223 | stopword removal never lengthens the text and adds no character |
| Parsers.ReplaceEntries | main.go:197-199 | the loop over one map performs that map's replacements in the visiting order |
| Parsers.ReplaceOtherLanguages | main.go:203-211 | the loop over the languages applies every map but the preferred one, map by map in the visiting order |
| Parsers.TransliterateText | main.go:194-211 | the two transliteration loops compute the transliteration function |
| Parsers.RemoveStopwords | main.go:213-223 | the stopword loop deletes, word by word in list order, every `" " + word` and then every `word + " "` |
| Parsers.ParseText | main.go:192-237 | the uncached body of `Parse` computes the slug function `Slug` |
| Parsers.RemovalAsWrittenCases | main.go:175-185 | for a default list without repeated words, removal changes nothing for an empty instance list or a non-default word; otherwise it deletes exactly the element at the word's default-list index, or panics when the instance list is too short |
| Parsers.RemovalAsWritten | main.go:175-185 | the instance list after `RemoveFromRemoveList`, with `None` where Go panics, for a default list without repeated words |
| Parsers.WithoutWord | main.go:175-185 | the intended removal: every copy of the word leaves the instance list and every other word keeps its count |
| Parsers.WithoutWordAppend | main.go:175-185 | the intended removal works piece by piece, so the words that stay keep their order |
| Parsers.CacheStep | main.go:188-190 | definition of one `Parse` as written, where "" stands for "nothing cached"; what it promises over runs of calls is in `CacheRunsSettle` and `EmptySlugRecomputed` |
| Parsers.CacheRunsSettle | main.go:187-190 | as written, once a non-empty slug is cached every later call returns it |
| Parsers.EmptySlugRecomputed | main.go:188 | as written, an empty slug is not kept: the next call returns whatever it computes |
| Parsers.MemoStep | main.go:187-190 | definition of one `Parse` with the intended cache, which keeps "cached" apart from the slug; what it promises over runs of calls is in `MemoRunsAgree` |
| Parsers.MemoRunsAgree | main.go:187-190 | with the intended cache, every call returns what the first call returned, whatever later calls would compute |
| Parsers.Parser.constructor | main.go:139-150 | a new parser has every field at its zero value and reads the given tables |
| Parsers.Parser.SetLanguage | main.go:152-156 | sets the language, clears the cache, changes no other field and returns the receiver |
| Parsers.Parser.SetMaxLength | main.go:158-162 | sets the length limit, clears the cache, changes no other field and returns the receiver |
| Parsers.Parser.SetText | main.go:164-168 | sets the text, clears the cache, changes no other field and returns the receiver |
| Parsers.Parser.AddToRemoveList | main.go:170-173 | appends the trimmed word to the end of the instance list and keeps the cache |
| Parsers.Parser.RemoveFromRemoveList | main.go:175-185 | the instance list becomes the as-written removal result, or Go panics and it is unchanged; the cache is kept |
| Parsers.Parser.Parse | main.go:187-239 | a cached slug is returned unchanged; otherwise the slug of the current configuration is computed and cached; either way the result has the slug shape and length bound |
| Urlify.NewParser | main.go:147-150 | a new parser at its zero value, reading the package's `charsMap` and `removeList` |
| Urlify.ParseTwice | main.go:187-190 | two `Parse` calls with no setter between them, each visiting the maps in its own order: the first returns the cached slug if there is one and computes the slug otherwise; a non-empty first slug is returned again; after an empty one the second call computes the slug afresh in its own order |
| Examples.PreferredSingleChar | main.go:194-201 | a one-character text holding a key of the preferred map becomes that map's value |
| Examples.UmlautFollowsGerman | main.go:9-10 | with language "de", "Ä" becomes "Ae" in every visiting order, although the "latin" map says "A" |
| Examples.TheQuickFoxKeepsThe | main.go:213-223 | "the" is a default stopword, yet the default stopwords leave "The Quick Fox" unchanged: stopwords are matched with their case |
| Examples.RunOfThreeHyphens | main.go:230 | one pass of `--` to `-` turns `---` into `--` |
| Examples.RemovalDeletesAnotherWord | main.go:175-185 | when the instance list holds a different word at the default-list index, the removal as written deletes a copy of that word, which the intended removal keeps |
| Examples.RemovalOnDefaults | main.go:175-185 | with the package's list, removing "a" from ["foo", "bar"] gives ["bar"], and removing "an" from ["foo"] panics |
| Examples.RemovalMissesAddedWord | main.go:175-185 | removing a word that is not a default stopword leaves it in the instance list, where the intended removal deletes it |
| Walkthroughs.CharsMapKnown | main.go:9-59 | the modelled table maps 'ö' to "oe" in "de" and to "o" in "latin" and in no other map, 'ъ' to "" in "ru" only, and 'Ü' to "Ue" in "de", over the four modelled maps |
| Walkthroughs.OUmlautByOrder | main.go:203-211 | with no preferred language, 'ö' becomes "o" when "latin" is visited before "de" and "oe" when "de" comes first, over the four modelled maps |
| Walkthroughs.TransliterateOnText | main.go:194-211 | with no preferred language, "ön ъ" becomes "on " or "oen ", depending on which of "latin" and "de" is visited first, over the four modelled maps |
| Walkthroughs.StopwordsDeleteOn | main.go:213-216 | the default stopwords delete all of "on " |
| Walkthroughs.StopwordsKeepOen | main.go:213-216 | the default stopwords leave "oen " alone |
| Walkthroughs.OnTextSlug | main.go:192-237 | the slug of "ön ъ" is "" when "latin" is visited before "de", and "oen" when "de" comes first, over the four modelled maps |
| Walkthroughs.BothOrdersExist | main.go:203 | orders of both kinds fit the package's table, over the four modelled maps |
| Walkthroughs.EmptySlugNotCached | main.go:187-190 | a new parser given "ön ъ" and parsed twice with no setter in between returns "" and then "oen", over the four modelled maps |
| Walkthroughs.UeberCool | main.go:192-237 | "Über cool!" with language "de" gives "ueber-cool" in every order that fits |
| Walkthroughs.FooBar | main.go:213-223 | "foo bar" with the instance stopword "foo" gives "bar" in every order that fits |
| Walkthroughs.ABC | main.go:233-237 | "A B C" with `maxLength` 3 gives "a-b" in every order that fits |
| Walkthroughs.SlugNotIdempotent | main.go:227-230 | "x   y" gives "x--y" in every order that fits, and "x--y" gives "x-y": one pass of `--` to `-` leaves a double hyphen, so slugging a slug can change it |
| Walkthroughs.TabSurvives | main.go:137 | "x" tab "y" keeps its tab in the slug in every order that fits: `removePattern` keeps `\s`, and only a space becomes a hyphen |
| Walkthroughs.FooBarClient | main.go:164-173 | a new parser given "foo bar", with "foo" added to its stopwords, parses to "bar" |

## Left out

- Tables.CharsMap: models four of the seventeen maps of main.go:8-128 ("de", "latin", "latin_symbols", "ru"). The other thirteen obey the same invariant. The general lemmas hold for any table with that invariant. The concrete results over `CharsMap()` depend on which maps are present: `Walkthroughs.CharsMapKnown`, `OUmlautByOrder`, `TransliterateOnText`, `OnTextSlug`, `BothOrdersExist` and `EmptySlugNotCached` read that 'ö' is only in "de" and "latin" and 'ъ' only in "ru", which is false of the full table ("tr", "az", "bg"). `UeberCool`, `FooBar`, `ABC` and the `Examples` lemmas read only the preferred map or no map.
- Go's map iteration order is not modelled as random. Each `Parse` call takes its own language order and per-map key order as an `Order` parameter. Two calls may get different orders, and the lemmas hold for every order that fits. How likely an order is is not modelled.
- Strings are sequences of Unicode code points, not UTF-8 bytes. The keys of `charsMap` are single code points, so replacing their bytes equals replacing the code point. Invalid UTF-8 input is not modelled.
- Slugs.Truncate: cuts a number of characters, where Go's `len` and slicing count bytes. By that step the text is ASCII, so the two agree.
- The regexp engine behind `removePattern` (main.go:137, 225) is not modelled. The pattern is a per-character predicate (`Kept`) with RE2's ASCII `\s`.
- GoStrings.ToLower: lower-cases only the ASCII letters, while Go's `ToLower` follows Unicode case mapping. By main.go:231 the text is ASCII, so the two agree there.
- Parsers.Parser.RemoveFromRemoveList: the Go panic is a returned `panicked` flag with the list unchanged; unwinding the caller is not modelled. The aliasing of Go's in-place `append` on the instance slice is not modelled either.
- Parsers.Parser.constructor: takes the package tables as a parameter (`tables`) so the class does not depend on literal data. `Urlify.NewParser` passes the package's own tables.
- Parsers.Parser.Parse: takes the visiting order `o` as a parameter. Its loops are factored into `ParseText` and the methods it calls.
- No idempotence lemma: a slug can hold `--`, which a second run shortens, so slugging a slug again can differ (`Walkthroughs.SlugNotIdempotent`).

## Findings

| source | as written | input that shows it | evidently intended | confidence | as-written member | corrected member |
|---|---|---|---|---|---|---|
| main.go:175-185 | the loop ranges over the package's default `removeList` and deletes the instance-list element at the matching index | instance list ["foo", "bar"], word "a": "foo" is deleted; instance list ["foo"], word "an": index out of range, panic; word "foo" added and then removed: it stays | delete the given word from the instance list | high, not executed | Parsers.Parser.RemoveFromRemoveList, Examples.RemovalDeletesAnotherWord | Parsers.WithoutWord |
| main.go:187-190 | `parsedText == ""` stands for "nothing cached", so an empty slug is not kept, and every call ranges over `charsMap` afresh | text "ön ъ", no language, the four modelled maps: a call visiting "latin" before "de" returns "" ("on" is a stopword) and caches nothing; the next call, visiting "de" first, returns "oen". On the full table the same holds when the first call also visits "ru" before "bg" and the second visits "de" before "tr" and "az" | with no setter in between, every call returns the slug of the first | medium, not executed | Parsers.EmptySlugRecomputed, Walkthroughs.EmptySlugNotCached | Parsers.MemoRunsAgree |
