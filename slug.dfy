/** The slug pipeline of `parser.Parse` (main.go:192-237) as functions, and
    what it guarantees about the slug it produces. */
module Slugs {
  import opened GoStrings
  import opened Transliteration

  /** The characters `removePattern` (main.go:137) does not match, so they survive
      sanitisation: RE2's `\s` (tab, newline, form feed, carriage return, space),
      underscore, hyphen and the ASCII letters and digits. */
  predicate Kept(c: char) {
    c == '\t' || c == '\n' || c == '\U{000C}' || c == '\r' || c == ' ' || c == '_' || c == '-' ||
    IsAsciiUpper(c) || IsAsciiLower(c) || IsDigit(c)
  }

  /** `removePattern.ReplaceAllString(text, "")`: deletes every character the
      pattern matches and keeps the others in order. */
  function Sanitize(s: string): (r: string)
    ensures forall c :: c in r <==> c in s && Kept(c)
    ensures |r| <= |s|
  {
    if s == [] then [] else (if Kept(s[0]) then [s[0]] else []) + Sanitize(s[1..])
  }

  /** The stopword loops (main.go:213-223): for each word in order, every
      `" " + word` and then every `word + " "` is deleted. */
  function RemoveWords(s: string, words: seq<string>): string {
    if words == [] then s
    else
      var w := words[|words| - 1];
      ReplaceAll(ReplaceAll(RemoveWords(s, words[..|words| - 1]), " " + w, ""), w + " ", "")
  }

  /** Underscores to spaces, trim, spaces to hyphens, one pass of "--" to "-",
      lower case (main.go:227-231). */
  function Normalize(s: string): string {
    ToLower(ReplaceAll(ReplaceAll(TrimSpace(ReplaceAll(s, "_", " ")), " ", "-"), "--", "-"))
  }

  /** The cut to `maxLength` (main.go:233-235). By then the text is ASCII, so
      Go's byte length is its number of characters. */
  function Truncate(s: string, maxLength: int): (r: string)
    ensures r <= s
    ensures maxLength > 0 ==> |r| <= maxLength
    ensures maxLength <= 0 || |s| <= maxLength ==> r == s
    ensures maxLength > 0 && |s| > maxLength ==> r == s[..maxLength]
  {
    if maxLength > 0 && |s| > maxLength then s[..maxLength] else s
  }

  /** Truncation keeps only characters of its input. */
  lemma TruncateKeepsChars(s: string, maxLength: int)
    ensures forall c :: c in Truncate(s, maxLength) ==> c in s
  {
    var r := Truncate(s, maxLength);
    forall c | c in r ensures c in s {
      var i :| 0 <= i < |r| && r[i] == c;
      assert s[i] == c;
    }
  }

  /** The process-wide data `Parse` reads: the character maps and the default stopwords. */
  datatype Globals = Globals(charsMap: Table, removeList: seq<string>)

  /** The text just before truncation: steps 1 to 5 of the pipeline. */
  function Untruncated(g: Globals, text: string, language: string, words: seq<string>, o: Order): string {
    var t := Transliterate(g.charsMap, o, language, TrimSpace(text));
    Normalize(Sanitize(RemoveWords(RemoveWords(t, g.removeList), words)))
  }

  /** A pattern of `strings.Replace` in the pipeline: never empty. */
  type Pattern = s: string | |s| > 0 witness "-"

  /** One text transformation of `Parse`, in the order main.go:192-237 makes them. */
  datatype Step =
    | TrimSpaces                                           // strings.TrimSpace
    | Transliteration(table: Table, order: Order, language: string)
    | Stopwords(words: seq<string>)
    | Sanitization                                         // removePattern.ReplaceAllString
    | Replacement(from: Pattern, to: string)               // strings.Replace(text, from, to, -1)
    | Lowering                                             // strings.ToLower
    | Truncation(maxLength: int)
    | HyphenTrim                                           // strings.Trim(text, "-")

  function Apply(s: string, step: Step): string {
    match step
    case TrimSpaces => TrimSpace(s)
    case Transliteration(table, order, language) => Transliterate(table, order, language, s)
    case Stopwords(words) => RemoveWords(s, words)
    case Sanitization => Sanitize(s)
    case Replacement(from, to) => ReplaceAll(s, from, to)
    case Lowering => ToLower(s)
    case Truncation(maxLength) => Truncate(s, maxLength)
    case HyphenTrim => Trim(s, {'-'})
  }

  /** Applies the steps one after the other. */
  function Run(s: string, steps: seq<Step>): string
    decreases steps
  {
    if steps == [] then s else Run(Apply(s, steps[0]), steps[1..])
  }

  /** Two runs, one after the other, are one run of both. */
  lemma {:induction false} RunAppend(s: string, a: seq<Step>, b: seq<Step>)
    ensures Run(s, a + b) == Run(Run(s, a), b)
    decreases a
  {
    if a == [] {
      assert a + b == b;
    } else {
      assert (a + b)[1..] == a[1..] + b;
      RunAppend(Apply(s, a[0]), a[1..], b);
    }
  }

  /** Trimming, transliteration, the two stopword loops and sanitisation
      (main.go:192-225), for the tables `g` and the instance stopwords `words`,
      when Go visits the maps in the order `o`. */
  function Cleaning(g: Globals, language: string, words: seq<string>, o: Order): seq<Step> {
    [TrimSpaces, Transliteration(g.charsMap, o, language), Stopwords(g.removeList), Stopwords(words), Sanitization]
  }

  /** Underscores to spaces, trim, spaces to hyphens, one pass of "--" to "-",
      lower case (main.go:227-231). */
  function Normalizing(): seq<Step> {
    [Replacement("_", " "), TrimSpaces, Replacement(" ", "-"), Replacement("--", "-"), Lowering]
  }

  /** The cut to `maxLength` and the hyphen trim (main.go:233-237). */
  function Finishing(maxLength: int): seq<Step> {
    [Truncation(maxLength), HyphenTrim]
  }

  /** What `Parse` computes for the configuration (`text`, `language`,
      `maxLength`, instance stopwords `words`) when Go visits the maps in order `o`. */
  function Slug(g: Globals, text: string, language: string, maxLength: int, words: seq<string>, o: Order): string {
    Run(text, Cleaning(g, language, words, o) + Normalizing() + Finishing(maxLength))
  }

  lemma RunCleaning(g: Globals, text: string, language: string, words: seq<string>, o: Order)
    ensures Run(text, Cleaning(g, language, words, o)) ==
      Sanitize(RemoveWords(RemoveWords(Transliterate(g.charsMap, o, language, TrimSpace(text)), g.removeList), words))
  {
    var p := Cleaning(g, language, words, o);
    var t1 := TrimSpace(text);
    var t2 := Transliterate(g.charsMap, o, language, t1);
    var t3 := RemoveWords(t2, g.removeList);
    var t4 := RemoveWords(t3, words);
    assert Run(text, p) == Run(t1, p[1..]);
    assert Run(t1, p[1..]) == Run(t2, p[2..]);
    assert Run(t2, p[2..]) == Run(t3, p[3..]);
    assert Run(t3, p[3..]) == Run(t4, p[4..]);
    assert Run(t4, p[4..]) == Run(Sanitize(t4), p[5..]);
  }

  lemma RunNormalizing(s: string)
    ensures Run(s, Normalizing()) == Normalize(s)
  {
    var p := Normalizing();
    var t1 := ReplaceAll(s, "_", " ");
    var t2 := TrimSpace(t1);
    var t3 := ReplaceAll(t2, " ", "-");
    var t4 := ReplaceAll(t3, "--", "-");
    assert Run(s, p) == Run(t1, p[1..]);
    assert Run(t1, p[1..]) == Run(t2, p[2..]);
    assert Run(t2, p[2..]) == Run(t3, p[3..]);
    assert Run(t3, p[3..]) == Run(t4, p[4..]);
    assert Run(t4, p[4..]) == Run(ToLower(t4), p[5..]);
  }

  lemma RunFinishing(s: string, maxLength: int)
    ensures Run(s, Finishing(maxLength)) == Trim(Truncate(s, maxLength), {'-'})
  {
    var p := Finishing(maxLength);
    var t := Truncate(s, maxLength);
    assert Run(s, p) == Run(t, p[1..]);
    assert Run(t, p[1..]) == Run(Trim(t, {'-'}), p[2..]);
  }

  /** The pipeline, stage by stage: the untruncated text, cut to the limit,
      with the hyphens at both ends trimmed. */
  lemma SlugStages(g: Globals, text: string, language: string, maxLength: int, words: seq<string>, o: Order)
    ensures Slug(g, text, language, maxLength, words, o) ==
      Trim(Truncate(Untruncated(g, text, language, words, o), maxLength), {'-'})
  {
    var c := Cleaning(g, language, words, o);
    RunAppend(text, c + Normalizing(), Finishing(maxLength));
    RunAppend(text, c, Normalizing());
    RunCleaning(g, text, language, words, o);
    RunNormalizing(Run(text, c));
    RunFinishing(Run(text, c + Normalizing()), maxLength);
  }

  // ---------------------------------------------------------------------
  // Properties
  // ---------------------------------------------------------------------

  /** The characters a slug can hold: lower-case ASCII letters, digits, hyphens,
      and the whitespace that `removePattern` keeps and only a space is turned
      into a hyphen: tab, newline, form feed and carriage return. */
  predicate SlugChar(c: char) {
    IsAsciiLower(c) || IsDigit(c) || c == '-' || c == '\t' || c == '\n' || c == '\U{000C}' || c == '\r'
  }

  predicate IsSlug(r: string) {
    (forall c :: c in r ==> SlugChar(c)) && (r == [] || (r[0] != '-' && r[|r| - 1] != '-'))
  }

  /** What survives sanitisation, with no underscore or space left, lower-cases
      to slug characters. */
  lemma LowerSlugChars(d: string)
    requires forall c :: c in d ==> Kept(c) && c != '_' && c != ' '
    ensures forall c :: c in ToLower(d) ==> SlugChar(c)
  {
    var e := ToLower(d);
    forall c | c in e ensures SlugChar(c) {
      var i :| 0 <= i < |e| && e[i] == c;
      assert d[i] in d;
    }
  }

  /** Normalising sanitised text leaves only slug characters: no upper-case
      letter, no underscore and no space. */
  lemma NormalizeAlphabet(s: string)
    requires forall c :: c in s ==> Kept(c)
    ensures forall c :: c in Normalize(s) ==> SlugChar(c)
  {
    var a := ReplaceAll(s, "_", " ");
    assert forall c :: c in a ==> Kept(c) && c != '_' by {
      ReplaceCharIsSubst(s, '_', " ");
    }
    var b := TrimSpace(a);
    TrimShape(a, Spaces());
    var c1 := ReplaceAll(b, " ", "-");
    assert forall c :: c in c1 ==> Kept(c) && c != '_' && c != ' ' by {
      ReplaceCharIsSubst(b, ' ', "-");
    }
    var d := ReplaceAll(c1, "--", "-");
    ReplaceAllBounds(c1, "--", "-");
    LowerSlugChars(d);
  }

  /** The text before truncation holds only slug characters. */
  lemma UntruncatedAlphabet(g: Globals, text: string, language: string, words: seq<string>, o: Order)
    ensures forall c :: c in Untruncated(g, text, language, words, o) ==> SlugChar(c)
  {
    var t := Transliterate(g.charsMap, o, language, TrimSpace(text));
    NormalizeAlphabet(Sanitize(RemoveWords(RemoveWords(t, g.removeList), words)));
  }

  /** The slug alphabet, the hyphen trimming of main.go:237 and the length bound of
      main.go:233-235: the result never starts or ends with a hyphen, holds only
      slug characters (so it is ASCII), and is no longer than a positive `maxLength`. */
  lemma SlugShape(g: Globals, text: string, language: string, maxLength: int, words: seq<string>, o: Order)
    ensures IsSlug(Slug(g, text, language, maxLength, words, o))
    ensures maxLength > 0 ==> |Slug(g, text, language, maxLength, words, o)| <= maxLength
  {
    SlugStages(g, text, language, maxLength, words, o);
    var u := Untruncated(g, text, language, words, o);
    UntruncatedAlphabet(g, text, language, words, o);
    var v := Truncate(u, maxLength);
    TruncateKeepsChars(u, maxLength);
    TrimShape(v, {'-'});
  }

  /** Truncation keeps a prefix of the slug with no limit, and a non-positive
      `maxLength` means no limit at all. */
  lemma TruncationKeepsPrefix(g: Globals, text: string, language: string, maxLength: int, words: seq<string>, o: Order)
    ensures Slug(g, text, language, maxLength, words, o) <= Slug(g, text, language, 0, words, o)
    ensures maxLength <= 0 ==> Slug(g, text, language, maxLength, words, o) == Slug(g, text, language, 0, words, o)
  {
    SlugStages(g, text, language, maxLength, words, o);
    SlugStages(g, text, language, 0, words, o);
    var u := Untruncated(g, text, language, words, o);
    TrimOfPrefix(Truncate(u, maxLength), u, {'-'});
  }

  /** A step of the stopword loop leaves the text as it is exactly when neither
      `" " + w` nor `w + " "` occurs in it; otherwise it makes it shorter. */
  lemma StopwordStepUnchangedIff(s: string, w: string)
    ensures var r := ReplaceAll(ReplaceAll(s, " " + w, ""), w + " ", "");
      (r == s <==> !Occurs(s, " " + w) && !Occurs(s, w + " ")) && |r| <= |s|
  {
    var a := ReplaceAll(s, " " + w, "");
    ReplaceChangesIffOccurs(s, " " + w, "");
    ReplaceChangesIffOccurs(a, w + " ", "");
    if a != s {
      assert |a| < |s|;
    }
  }

  // ---------------------------------------------------------------------
  // Stage by stage, on concrete texts
  // ---------------------------------------------------------------------

  /** Sanitisation works character by character. */
  lemma {:induction false} SanitizeAppend(a: string, b: string)
    ensures Sanitize(a + b) == Sanitize(a) + Sanitize(b)
  {
    if a == [] {
      assert a + b == b;
    } else {
      assert (a + b)[0] == a[0] && (a + b)[1..] == a[1..] + b;
      SanitizeAppend(a[1..], b);
    }
  }

  /** Text made only of kept characters is not sanitised. */
  lemma {:induction false} SanitizeKeeps(s: string)
    requires forall c :: c in s ==> Kept(c)
    ensures Sanitize(s) == s
  {
    if s != [] {
      assert s[0] in s;
      assert forall c :: c in s[1..] ==> c in s;
      SanitizeKeeps(s[1..]);
      assert [s[0]] + s[1..] == s;
    }
  }

  /** The stopword loops over `a + b` are the loops over `a`, then over `b`. */
  lemma {:induction false} RemoveWordsAppend(s: string, a: seq<string>, b: seq<string>)
    ensures RemoveWords(s, a + b) == RemoveWords(RemoveWords(s, a), b)
    decreases |b|
  {
    if b == [] {
      assert a + b == a;
    } else {
      var ab := a + b;
      assert ab[|ab| - 1] == b[|b| - 1] && ab[..|ab| - 1] == a + b[..|b| - 1];
      RemoveWordsAppend(s, a, b[..|b| - 1]);
    }
  }

  /** The stopword loops leave the empty text empty. */
  lemma {:induction false} RemoveWordsOfEmpty(words: seq<string>)
    ensures RemoveWords("", words) == ""
  {
    if words != [] {
      RemoveWordsOfEmpty(words[..|words| - 1]);
    }
  }

  /** Neither `" " + w` nor `w + " "` can occur in `s`: a pair of their
      neighbouring characters is never a pair of neighbours in `s`. */
  predicate StopwordExcluded(w: string, s: string) {
    w != [] &&
    (!Adjacent(s, ' ', w[0]) || Excluded(w, s)) &&
    (!Adjacent(s, w[|w| - 1], ' ') || Excluded(w, s))
  }

  lemma StopwordPatterns(w: string, s: string)
    requires StopwordExcluded(w, s)
    ensures Excluded(" " + w, s) && Excluded(w + " ", s)
  {
    var p, q := " " + w, w + " ";
    assert p[0] == ' ' && p[1] == w[0] && p[1..] == w;
    assert q[|q| - 2] == w[|w| - 1] && q[|q| - 1] == ' ';
    if Excluded(w, s) {
      ExcludedExtend(w, " ", s);
    } else {
      ExcludedByLastPair(q, s);
    }
  }

  /** `w` holds a character of `chars`. */
  predicate Touches(w: string, chars: set<char>) {
    w != [] && (w[0] in chars || Touches(w[1..], chars))
  }

  lemma {:induction false} TouchesWitness(w: string, chars: set<char>) returns (c: char)
    requires Touches(w, chars)
    ensures c in w && c in chars
  {
    if w[0] in chars {
      c := w[0];
    } else {
      c := TouchesWitness(w[1..], chars);
    }
  }

  /** When every stopword holds a character that `s` lacks, or can occur in
      `s` neither after nor before a space, the stopword loops leave `s` alone. */
  lemma {:induction false} RemoveWordsUnchanged(s: string, words: seq<string>, missing: set<char>)
    requires forall c :: c in s ==> c !in missing
    requires forall w :: w in words ==> Touches(w, missing) || StopwordExcluded(w, s)
    ensures RemoveWords(s, words) == s
  {
    if words != [] {
      var w := words[|words| - 1];
      assert w in words;
      RemoveWordsUnchanged(s, words[..|words| - 1], missing);
      if Touches(w, missing) {
        var c := TouchesWitness(w, missing);
        ReplaceMissingChar(s, " " + w, "", c);
        ReplaceMissingChar(s, w + " ", "", c);
      } else {
        StopwordPatterns(w, s);
        ReplaceExcluded(s, " " + w, "");
        ReplaceExcluded(s, w + " ", "");
      }
    }
  }

  /** Stopword removal only deletes: the result is no longer than the input and
      holds no character the input does not. */
  lemma {:induction false} RemoveWordsDeletes(s: string, words: seq<string>)
    ensures |RemoveWords(s, words)| <= |s|
    ensures forall c :: c in RemoveWords(s, words) ==> c in s
  {
    if words != [] {
      var w := words[|words| - 1];
      var prev := RemoveWords(s, words[..|words| - 1]);
      RemoveWordsDeletes(s, words[..|words| - 1]);
      ReplaceAllBounds(prev, " " + w, "");
      ReplaceAllBounds(ReplaceAll(prev, " " + w, ""), w + " ", "");
    }
  }
}
