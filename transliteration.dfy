/** Transliteration through the language-keyed character maps: the preferred
    language's map is applied first, then every other map. Go visits map entries
    in an unspecified order, so the order is a parameter (`Order`) that every
    visit must respect. */
module Transliteration {
  import opened GoStrings
  import opened Options

  /** A language key to a map from a source character to its replacement. Every
      key of the source's maps is a string of exactly one code point, so the keys
      are modelled as characters. */
  type Table = map<string, map<char, string>>

  /** One `strings.Replace(text, string(from), to, -1)` call of the transliteration loops. */
  type Pair = (char, string)

  /** The table invariant: every key is a non-ASCII code point and every value is ASCII. */
  ghost predicate WellFormed(table: Table) {
    forall l, k :: l in table && k in table[l] ==> !IsAscii(k) && AllAscii(table[l][k])
  }

  /** `xs` lists every element of `keys` exactly once: one `range` over a Go map. */
  predicate Enumerates<K>(xs: seq<K>, keys: set<K>) {
    (forall i, j :: 0 <= i < j < |xs| ==> xs[i] != xs[j]) &&
    (forall i :: 0 <= i < |xs| ==> xs[i] in keys) &&
    (forall x :: x in keys ==> x in xs)
  }

  /** The order in which one run of the parser visits the table: the languages
      (outer `range charsMap`) and, per language, the keys (inner `range chars`). */
  datatype Order = Order(langs: seq<string>, entries: map<string, seq<char>>)

  predicate Fits(table: Table, o: Order) {
    Enumerates(o.langs, table.Keys) &&
    forall l :: l in table ==> l in o.entries && Enumerates(o.entries[l], table[l].Keys)
  }

  /** The replacements made by the first `n` steps of `range m` in the order
      `keys`. (A key that `m` lacks is skipped; an order that fits has none.) */
  function EntryPairs(m: map<char, string>, keys: seq<char>, n: nat): seq<Pair>
    requires n <= |keys|
  {
    if n == 0 then []
    else EntryPairs(m, keys, n - 1) + (if keys[n - 1] in m then [(keys[n - 1], m[keys[n - 1]])] else [])
  }

  /** `language` names a map and is visited first; it is skipped in the second pass. */
  predicate Preferred(table: Table, language: string) {
    language != "" && language in table
  }

  function PreferredPairs(table: Table, o: Order, language: string): seq<Pair> {
    if Preferred(table, language) && language in o.entries then
      EntryPairs(table[language], o.entries[language], |o.entries[language]|)
    else []
  }

  /** The replacements made by the first `n` steps of the pass over all languages.
      (A language that the table or the order lacks is skipped; an order that fits has none.) */
  function LangPairs(table: Table, o: Order, language: string, n: nat): seq<Pair>
    requires n <= |o.langs|
  {
    if n == 0 then []
    else
      var l := o.langs[n - 1];
      LangPairs(table, o, language, n - 1) +
      (if (language != "" && language == l) || l !in table || l !in o.entries then []
       else EntryPairs(table[l], o.entries[l], |o.entries[l]|))
  }

  /** Every replacement of one transliteration, in the order they are made. */
  function VisitPairs(table: Table, o: Order, language: string): seq<Pair> {
    PreferredPairs(table, o, language) + LangPairs(table, o, language, |o.langs|)
  }

  /** Performs the replacements `ps` one after the other. */
  function ApplyPairs(s: string, ps: seq<Pair>): string {
    if ps == [] then s
    else ReplaceAll(ApplyPairs(s, ps[..|ps| - 1]), [ps[|ps| - 1].0], ps[|ps| - 1].1)
  }

  lemma ApplyPairsSnoc(s: string, ps: seq<Pair>, p: Pair)
    ensures ApplyPairs(s, ps + [p]) == ReplaceAll(ApplyPairs(s, ps), [p.0], p.1)
  {
    assert (ps + [p])[..|ps|] == ps;
  }

  /** What the transliteration needs of an order: every language of the table
      or of the order is in both, and its key list holds exactly its map's keys
      (an order that fits lists each of them once). */
  ghost predicate Covers(table: Table, o: Order) {
    forall l :: l in table || l in o.langs ==>
      l in table && l in o.entries && forall k :: k in o.entries[l] <==> k in table[l]
  }

  lemma FitsCovers(table: Table, o: Order)
    requires Fits(table, o)
    ensures Covers(table, o)
  {
    forall l | l in table || l in o.langs
      ensures l in table && l in o.entries && forall k :: k in o.entries[l] <==> k in table[l]
    {
      if l in o.langs {
        var i :| 0 <= i < |o.langs| && o.langs[i] == l;
      }
      forall k | k in o.entries[l] ensures k in table[l] {
        var i :| 0 <= i < |o.entries[l]| && o.entries[l][i] == k;
      }
    }
  }

  lemma CoversLang(table: Table, o: Order, l: string)
    requires Covers(table, o) && (l in table || l in o.langs)
    ensures l in table && l in o.entries && forall k :: k in o.entries[l] <==> k in table[l]
  {
  }

  /** Two runs of replacements, one after the other, are one run of both. */
  lemma {:induction false} ApplyPairsAppend(s: string, a: seq<Pair>, b: seq<Pair>)
    ensures ApplyPairs(s, a + b) == ApplyPairs(ApplyPairs(s, a), b)
    decreases |b|
  {
    if b == [] {
      assert a + b == a;
    } else {
      var init, p := b[..|b| - 1], b[|b| - 1];
      assert b == init + [p];
      assert a + b == (a + init) + [p];
      ApplyPairsAppend(s, a, init);
      ApplyPairsSnoc(s, a + init, p);
      ApplyPairsSnoc(ApplyPairs(s, a), init, p);
    }
  }

  /** The pass over all languages, language by language: the text after the
      first `n` languages of `o.langs`. */
  function ApplyLangs(table: Table, o: Order, language: string, s: string, n: nat): string
    requires n <= |o.langs|
  {
    if n == 0 then s
    else
      var l := o.langs[n - 1];
      var prev := ApplyLangs(table, o, language, s, n - 1);
      if (language != "" && language == l) || l !in table || l !in o.entries then prev
      else ApplyPairs(prev, EntryPairs(table[l], o.entries[l], |o.entries[l]|))
  }

  /** Language by language is the same as replacement by replacement. */
  lemma {:induction false} ApplyLangsPairs(table: Table, o: Order, language: string, s: string, ps: seq<Pair>, n: nat)
    requires n <= |o.langs|
    ensures ApplyLangs(table, o, language, ApplyPairs(s, ps), n) == ApplyPairs(s, ps + LangPairs(table, o, language, n))
  {
    if n == 0 {
      assert ps + [] == ps;
    } else {
      ApplyLangsPairs(table, o, language, s, ps, n - 1);
      var l := o.langs[n - 1];
      var prefix := LangPairs(table, o, language, n - 1);
      var e := if (language != "" && language == l) || l !in table || l !in o.entries then []
        else EntryPairs(table[l], o.entries[l], |o.entries[l]|);
      assert LangPairs(table, o, language, n) == prefix + e;
      var t := ApplyPairs(s, ps);
      ApplyPairsAppend(s, ps, prefix);
      ApplyPairsAppend(t, prefix, e);
      ApplyPairsAppend(s, ps, prefix + e);
    }
  }

  /** Lines 194-211 of the source: the transliteration of `s`. */
  function Transliterate(table: Table, o: Order, language: string, s: string): string {
    ApplyPairs(s, VisitPairs(table, o, language))
  }

  // ---------------------------------------------------------------------
  // A per-character reference definition
  // ---------------------------------------------------------------------

  /** The value of the first replacement in `ps` whose key is `c`. */
  function Lookup(c: char, ps: seq<Pair>): Option<string> {
    if ps == [] then None
    else if ps[0].0 == c then Some(ps[0].1)
    else Lookup(c, ps[1..])
  }

  /** What the character `c` becomes: the first replacement for it, or itself. */
  function Rewrite(c: char, ps: seq<Pair>): string {
    match Lookup(c, ps)
    case Some(v) => v
    case None => [c]
  }

  /** Rewrites each character of `s` independently. */
  function RewriteEach(s: string, ps: seq<Pair>): string {
    if s == [] then [] else Rewrite(s[0], ps) + RewriteEach(s[1..], ps)
  }

  /** The pairs satisfy the table invariant. */
  predicate PairsWellFormed(ps: seq<Pair>) {
    forall i :: 0 <= i < |ps| ==> !IsAscii(ps[i].0) && AllAscii(ps[i].1)
  }

  lemma {:induction false} EntryPairsWellFormed(table: Table, l: string, keys: seq<char>, n: nat)
    requires WellFormed(table) && l in table
    requires n <= |keys| && forall k :: k in keys ==> k in table[l]
    ensures PairsWellFormed(EntryPairs(table[l], keys, n))
    ensures |EntryPairs(table[l], keys, n)| == n
    ensures forall i :: 0 <= i < n ==> EntryPairs(table[l], keys, n)[i] == (keys[i], table[l][keys[i]])
  {
    if n > 0 {
      EntryPairsWellFormed(table, l, keys, n - 1);
      assert keys[n - 1] in keys;
    }
  }

  lemma {:induction false} LangPairsWellFormed(table: Table, o: Order, language: string, n: nat)
    requires WellFormed(table) && Covers(table, o) && n <= |o.langs|
    ensures PairsWellFormed(LangPairs(table, o, language, n))
  {
    if n > 0 {
      LangPairsWellFormed(table, o, language, n - 1);
      var l := o.langs[n - 1];
      assert l in o.langs;
      CoversLang(table, o, l);
      EntryPairsWellFormed(table, l, o.entries[l], |o.entries[l]|);
    }
  }

  /** Every replacement of a transliteration over a well-formed table obeys its invariant. */
  lemma VisitPairsWellFormed(table: Table, o: Order, language: string)
    requires WellFormed(table) && Covers(table, o)
    ensures PairsWellFormed(VisitPairs(table, o, language))
  {
    if Preferred(table, language) {
      CoversLang(table, o, language);
      EntryPairsWellFormed(table, language, o.entries[language], |o.entries[language]|);
    }
    LangPairsWellFormed(table, o, language, |o.langs|);
  }

  /** Looking a character up in two runs of replacements. */
  lemma {:induction false} LookupAppend(c: char, a: seq<Pair>, b: seq<Pair>)
    ensures Lookup(c, a + b) == if Lookup(c, a).Some? then Lookup(c, a) else Lookup(c, b)
  {
    if a == [] {
      assert a + b == b;
    } else {
      assert (a + b)[1..] == a[1..] + b;
      LookupAppend(c, a[1..], b);
    }
  }

  lemma RewriteAppend(a: string, b: string, ps: seq<Pair>)
    ensures RewriteEach(a + b, ps) == RewriteEach(a, ps) + RewriteEach(b, ps)
  {
    if a == [] {
      assert a + b == b;
    } else {
      assert (a + b)[1..] == a[1..] + b;
      RewriteAppend(a[1..], b, ps);
    }
  }

  /** An ASCII character is no key of a well-formed run, so it is left alone. */
  lemma AsciiUntouched(c: char, ps: seq<Pair>)
    requires PairsWellFormed(ps) && IsAscii(c)
    ensures Lookup(c, ps) == None
  {
    if ps != [] {
      assert ps[0].0 != c;
      AsciiUntouched(c, ps[1..]);
    }
  }

  lemma {:induction false} RewriteEachAscii(s: string, ps: seq<Pair>)
    requires PairsWellFormed(ps) && AllAscii(s)
    ensures RewriteEach(s, ps) == s
  {
    if s != [] {
      AsciiUntouched(s[0], ps);
      RewriteEachAscii(s[1..], ps);
    }
  }

  /** Values found by a lookup in a well-formed run are ASCII. */
  lemma {:induction false} LookupAscii(c: char, ps: seq<Pair>)
    requires PairsWellFormed(ps)
    ensures Lookup(c, ps).Some? ==> AllAscii(Lookup(c, ps).value)
  {
    if ps != [] && ps[0].0 != c {
      LookupAscii(c, ps[1..]);
    }
  }

  /** One more replacement, for the character `x`, acting on the rewritten text. */
  lemma {:induction false} SubstRewriteEach(s: string, ps: seq<Pair>, x: char, v: string)
    requires PairsWellFormed(ps) && !IsAscii(x) && AllAscii(v)
    ensures Subst(RewriteEach(s, ps), x, v) == RewriteEach(s, ps + [(x, v)])
  {
    if s != [] {
      var c := s[0];
      SubstAppend(Rewrite(c, ps), RewriteEach(s[1..], ps), x, v);
      SubstRewriteEach(s[1..], ps, x, v);
      LookupAppend(c, ps, [(x, v)]);
      match Lookup(c, ps)
      case Some(w) =>
        LookupAscii(c, ps);
        assert x !in w;
      case None =>
        assert Subst([c], x, v) == (if c == x then v else [c]) + Subst([], x, v);
    }
  }

  /** The replacements, done one after the other on the whole text, rewrite each
      character on its own: the first replacement for a character wins, and the
      ASCII text a replacement produces is never rewritten again. */
  lemma {:induction false} ApplyPairsPerChar(s: string, ps: seq<Pair>)
    requires PairsWellFormed(ps)
    ensures ApplyPairs(s, ps) == RewriteEach(s, ps)
  {
    if ps == [] {
      RewriteEachIdentity(s);
    } else {
      var init, p := ps[..|ps| - 1], ps[|ps| - 1];
      assert ps == init + [p];
      ApplyPairsPerChar(s, init);
      ApplyPairsSnoc(s, init, p);
      ReplaceCharIsSubst(RewriteEach(s, init), p.0, p.1);
      SubstRewriteEach(s, init, p.0, p.1);
    }
  }

  lemma {:induction false} RewriteEachIdentity(s: string)
    ensures RewriteEach(s, []) == s
  {
    if s != [] {
      RewriteEachIdentity(s[1..]);
    }
  }

  /** A key visited in the first `n` entries of a map is looked up to that map's value. */
  lemma {:induction false} EntryLookup(c: char, m: map<char, string>, keys: seq<char>, n: nat)
    requires n <= |keys| && forall k :: k in keys ==> k in m
    ensures Lookup(c, EntryPairs(m, keys, n)) == if c in keys[..n] then Some(m[c]) else None
  {
    if n > 0 {
      EntryLookup(c, m, keys, n - 1);
      LookupAppend(c, EntryPairs(m, keys, n - 1), [(keys[n - 1], m[keys[n - 1]])]);
      assert keys[..n] == keys[..n - 1] + [keys[n - 1]];
      assert keys[n - 1] in keys;
    }
  }

  /** The whole of one map, visited in any order, replaces exactly its keys by its values. */
  lemma MapLookup(c: char, m: map<char, string>, keys: seq<char>)
    requires forall k :: k in keys <==> k in m
    ensures Lookup(c, EntryPairs(m, keys, |keys|)) == if c in m then Some(m[c]) else None
  {
    EntryLookup(c, m, keys, |keys|);
    assert keys[..|keys|] == keys;
  }

  /** Transliteration precedence: a character that the preferred language's map
      contains becomes that map's value, whatever the other maps say and in
      whatever order the maps are visited. */
  lemma PreferredLanguageWins(table: Table, o: Order, language: string, c: char)
    requires WellFormed(table) && Fits(table, o)
    requires Preferred(table, language) && c in table[language]
    ensures Rewrite(c, VisitPairs(table, o, language)) == table[language][c]
  {
    FitsCovers(table, o);
    CoversLang(table, o, language);
    MapLookup(c, table[language], o.entries[language]);
    LookupAppend(c, PreferredPairs(table, o, language), LangPairs(table, o, language, |o.langs|));
  }

  /** What the map of language `l` says about `c` in the pass over all languages. */
  function LangValue(table: Table, language: string, l: string, c: char): Option<string>
    requires l in table
  {
    if (language != "" && language == l) || c !in table[l] then None else Some(table[l][c])
  }

  /** A reference definition of a lookup in the pass over all languages: the
      value of the first of the first `n` languages (other than the preferred
      one) whose map has `c`. It reads only the language order. */
  function LangsLookup(table: Table, language: string, langs: seq<string>, c: char, n: nat): Option<string>
    requires n <= |langs|
  {
    if n == 0 then None
    else
      var prev := LangsLookup(table, language, langs, c, n - 1);
      if prev.Some? || langs[n - 1] !in table then prev else LangValue(table, language, langs[n - 1], c)
  }

  /** One more language of the pass keeps the lookup in step with the reference
      definition: the first visited language (other than the preferred one)
      whose map has the character decides. */
  lemma LangLookupStep(table: Table, o: Order, language: string, c: char, n: nat)
    requires Covers(table, o) && 0 < n <= |o.langs|
    requires Lookup(c, LangPairs(table, o, language, n - 1)) == LangsLookup(table, language, o.langs, c, n - 1)
    ensures Lookup(c, LangPairs(table, o, language, n)) == LangsLookup(table, language, o.langs, c, n)
  {
    var l := o.langs[n - 1];
    assert l in o.langs;
    CoversLang(table, o, l);
    var e := if language != "" && language == l then [] else EntryPairs(table[l], o.entries[l], |o.entries[l]|);
    LookupAppend(c, LangPairs(table, o, language, n - 1), e);
    if !(language != "" && language == l) {
      MapLookup(c, table[l], o.entries[l]);
    }
  }

  /** Looking a character up in the pass over all languages agrees with the
      reference definition, whatever the key order of each map. */
  lemma {:induction false} LangLookupByLanguage(table: Table, o: Order, language: string, c: char, n: nat)
    requires Covers(table, o) && n <= |o.langs|
    ensures Lookup(c, LangPairs(table, o, language, n)) == LangsLookup(table, language, o.langs, c, n)
  {
    if n > 0 {
      LangLookupByLanguage(table, o, language, c, n - 1);
      LangLookupStep(table, o, language, c, n);
    }
  }

  lemma {:induction false} RewriteEachCongruent(s: string, ps: seq<Pair>, qs: seq<Pair>)
    requires forall c :: Lookup(c, ps) == Lookup(c, qs)
    ensures RewriteEach(s, ps) == RewriteEach(s, qs)
  {
    if s != [] {
      RewriteEachCongruent(s[1..], ps, qs);
    }
  }

  /** The order in which Go visits the keys of each map does not change the
      transliteration; only the order of the languages can. */
  lemma KeyOrderIrrelevant(table: Table, o1: Order, o2: Order, language: string, s: string)
    requires WellFormed(table) && Fits(table, o1) && Fits(table, o2) && o1.langs == o2.langs
    ensures Transliterate(table, o1, language, s) == Transliterate(table, o2, language, s)
  {
    FitsCovers(table, o1);
    FitsCovers(table, o2);
    var ps, qs := VisitPairs(table, o1, language), VisitPairs(table, o2, language);
    VisitPairsWellFormed(table, o1, language);
    VisitPairsWellFormed(table, o2, language);
    forall c ensures Lookup(c, ps) == Lookup(c, qs) {
      LangLookupByLanguage(table, o1, language, c, |o1.langs|);
      LangLookupByLanguage(table, o2, language, c, |o2.langs|);
      LookupAppend(c, PreferredPairs(table, o1, language), LangPairs(table, o1, language, |o1.langs|));
      LookupAppend(c, PreferredPairs(table, o2, language), LangPairs(table, o2, language, |o2.langs|));
      if Preferred(table, language) {
        CoversLang(table, o1, language);
        CoversLang(table, o2, language);
        MapLookup(c, table[language], o1.entries[language]);
        MapLookup(c, table[language], o2.entries[language]);
      }
    }
    ApplyPairsPerChar(s, ps);
    ApplyPairsPerChar(s, qs);
    RewriteEachCongruent(s, ps, qs);
  }

  /** ASCII text passes through transliteration unchanged: no map has an ASCII key. */
  lemma TransliterateKeepsAscii(table: Table, o: Order, language: string, s: string)
    requires WellFormed(table) && Fits(table, o) && AllAscii(s)
    ensures Transliterate(table, o, language, s) == s
  {
    FitsCovers(table, o);
    VisitPairsWellFormed(table, o, language);
    ApplyPairsPerChar(s, VisitPairs(table, o, language));
    RewriteEachAscii(s, VisitPairs(table, o, language));
  }

  // ---------------------------------------------------------------------
  // Character by character, for a text and a visiting order
  // ---------------------------------------------------------------------

  /** Transliteration rewrites each character on its own. */
  lemma TransliterateEach(table: Table, o: Order, language: string, s: string)
    requires WellFormed(table) && Fits(table, o)
    ensures Transliterate(table, o, language, s) == RewriteEach(s, VisitPairs(table, o, language))
  {
    FitsCovers(table, o);
    VisitPairsWellFormed(table, o, language);
    ApplyPairsPerChar(s, VisitPairs(table, o, language));
  }

  lemma RewriteOne(c: char, ps: seq<Pair>)
    ensures RewriteEach([c], ps) == Rewrite(c, ps)
  {
    assert RewriteEach([c], ps) == Rewrite(c, ps) + RewriteEach([], ps);
  }

  /** When none of the first `n` languages (other than the preferred one) has
      `c`, the pass over them leaves it alone. */
  lemma {:induction false} LangsLookupNone(table: Table, language: string, langs: seq<string>, c: char, n: nat)
    requires n <= |langs|
    requires forall k :: 0 <= k < n && langs[k] in table ==> LangValue(table, language, langs[k], c).None?
    ensures LangsLookup(table, language, langs, c, n) == None
  {
    if n > 0 {
      LangsLookupNone(table, language, langs, c, n - 1);
    }
  }

  /** The first listed language (other than the preferred one) whose map has
      `c` decides what `c` becomes. */
  lemma {:induction false} LangsLookupFirst(table: Table, language: string, langs: seq<string>, c: char, i: nat, n: nat)
    requires i < n <= |langs| && langs[i] in table && LangValue(table, language, langs[i], c).Some?
    requires forall k :: 0 <= k < i && langs[k] in table ==> LangValue(table, language, langs[k], c).None?
    ensures LangsLookup(table, language, langs, c, n) == LangValue(table, language, langs[i], c)
    decreases n
  {
    if n - 1 > i {
      LangsLookupFirst(table, language, langs, c, i, n - 1);
    } else {
      LangsLookupNone(table, language, langs, c, i);
    }
  }

  /** With no preferred map, a character becomes the value of the first map,
      in the visiting order, that has it: the order of the languages decides
      between maps that disagree. */
  lemma FirstMapDecides(table: Table, o: Order, language: string, c: char, i: nat)
    requires Fits(table, o) && !Preferred(table, language)
    requires i < |o.langs| && o.langs[i] in table && c in table[o.langs[i]]
    requires forall k :: 0 <= k < i ==> o.langs[k] in table && c !in table[o.langs[k]]
    ensures Rewrite(c, VisitPairs(table, o, language)) == table[o.langs[i]][c]
  {
    FitsCovers(table, o);
    assert VisitPairs(table, o, language) == LangPairs(table, o, language, |o.langs|);
    LangLookupByLanguage(table, o, language, c, |o.langs|);
    LangsLookupFirst(table, language, o.langs, c, i, |o.langs|);
  }

  /** A character that no map has is left alone. */
  lemma NoMapHasChar(table: Table, o: Order, language: string, c: char)
    requires Fits(table, o)
    requires forall l :: l in table ==> c !in table[l]
    ensures Rewrite(c, VisitPairs(table, o, language)) == [c]
  {
    FitsCovers(table, o);
    LookupAppend(c, PreferredPairs(table, o, language), LangPairs(table, o, language, |o.langs|));
    if Preferred(table, language) {
      MapLookup(c, table[language], o.entries[language]);
    }
    LangLookupByLanguage(table, o, language, c, |o.langs|);
    LangsLookupNone(table, language, o.langs, c, |o.langs|);
  }

  /** The order `o` visits language `a` before language `b`. */
  predicate Before(o: Order, a: string, b: string) {
    exists i, j :: 0 <= i < j < |o.langs| && o.langs[i] == a && o.langs[j] == b
  }

  /** With no preferred map, a character that only the map of `a` has becomes
      that map's value, in every order. */
  lemma OnlyMapDecides(table: Table, o: Order, language: string, c: char, a: string)
    requires Fits(table, o) && !Preferred(table, language)
    requires a in table && c in table[a]
    requires forall l :: l in table && l != a ==> c !in table[l]
    ensures Rewrite(c, VisitPairs(table, o, language)) == table[a][c]
  {
    var i :| 0 <= i < |o.langs| && o.langs[i] == a;
    forall k | 0 <= k < i
      ensures o.langs[k] in table && c !in table[o.langs[k]]
    {
    }
    FirstMapDecides(table, o, language, c, i);
  }

  /** With no preferred map, a character that exactly the maps of `a` and `b`
      have becomes the value in whichever of the two is visited first. */
  lemma FirstOfTwoDecides(table: Table, o: Order, language: string, c: char, a: string, b: string)
    requires Fits(table, o) && !Preferred(table, language)
    requires a in table && c in table[a] && b in table && c in table[b]
    requires forall l :: l in table && l != a && l != b ==> c !in table[l]
    requires Before(o, a, b)
    ensures Rewrite(c, VisitPairs(table, o, language)) == table[a][c]
  {
    var i, j :| 0 <= i < j < |o.langs| && o.langs[i] == a && o.langs[j] == b;
    forall k | 0 <= k < i
      ensures o.langs[k] in table && c !in table[o.langs[k]]
    {
    }
    FirstMapDecides(table, o, language, c, i);
  }

  // ---------------------------------------------------------------------
  // Every listing of the languages is a visiting order
  // ---------------------------------------------------------------------

  /** Some listing of a finite set of keys, each once. */
  ghost function Listing(keys: set<char>): (xs: seq<char>)
    ensures Enumerates(xs, keys)
    decreases |keys|
  {
    if keys == {} then []
    else
      var k :| k in keys;
      var rest := Listing(keys - {k});
      assert forall x :: x in keys ==> x == k || x in keys - {k};
      [k] + rest
  }

  /** Each map's keys, listed. */
  ghost function KeyListings(table: Table): (entries: map<string, seq<char>>)
    ensures forall l :: l in table ==> l in entries && Enumerates(entries[l], table[l].Keys)
  {
    map l | l in table :: Listing(table[l].Keys)
  }

  /** Any listing of the languages, with any listing of each map's keys, is an
      order Go may visit the table in. */
  lemma ListingFits(table: Table, langs: seq<string>)
    requires Enumerates(langs, table.Keys)
    ensures Fits(table, Order(langs, KeyListings(table)))
  {
  }
}
