/** The process-wide tables of the parser: the character maps and the default
    stopword list. The character maps are a representative subset of the
    seventeen languages of main.go:8-128 ("de", "latin", "latin_symbols" and
    "ru"); every map there obeys the same table invariant. The two longer
    maps are written as the union of three parts, each proved on its own. */
module Tables {
  import opened GoStrings
  import opened Transliteration

  /** The "de" map. */
  function German(): map<char, string> {
    map[
      'Ä' := "Ae", 'Ö' := "Oe", 'Ü' := "Ue", 'ä' := "ae", 'ö' := "oe", 'ü' := "ue", 'ß' := "ss", 'ẞ' := "SS"
    ]
  }

  /** Rows 14-16 of the "latin" map. */
  function LatinRows14To16(): map<char, string> {
    map[
      'À' := "A", 'Á' := "A", 'Â' := "A", 'Ã' := "A", 'Ä' := "A", 'Å' := "A", 'Ă' := "A", 'Æ' := "AE",
      'Ç' := "C", 'È' := "E", 'É' := "E", 'Ê' := "E", 'Ë' := "E", 'Ì' := "I", 'Í' := "I", 'Î' := "I",
      'Ï' := "I", 'Ð' := "D", 'Ñ' := "N", 'Ò' := "O", 'Ó' := "O", 'Ô' := "O", 'Õ' := "O", 'Ö' := "O",
      'Ő' := "O", 'Ø' := "O"
    ]
  }

  /** Rows 17-19 of the "latin" map. */
  function LatinRows17To19(): map<char, string> {
    map[
      'Ș' := "S", 'Ț' := "T", 'Ù' := "U", 'Ú' := "U", 'Û' := "U", 'Ü' := "U", 'Ű' := "U", 'Ý' := "Y",
      'Þ' := "TH", 'ß' := "ss", 'à' := "a", 'á' := "a", 'â' := "a", 'ã' := "a", 'ä' := "a", 'å' := "a",
      'ă' := "a", 'æ' := "ae", 'ç' := "c", 'è' := "e", 'é' := "e", 'ê' := "e", 'ë' := "e"
    ]
  }

  /** Rows 20-22 of the "latin" map. */
  function LatinRows20To22(): map<char, string> {
    map[
      'ì' := "i", 'í' := "i", 'î' := "i", 'ï' := "i", 'ð' := "d", 'ñ' := "n", 'ò' := "o", 'ó' := "o",
      'ô' := "o", 'õ' := "o", 'ö' := "o", 'ő' := "o", 'ø' := "o", 'ș' := "s", 'ț' := "t", 'ù' := "u",
      'ú' := "u", 'û' := "u", 'ü' := "u", 'ű' := "u", 'ý' := "y", 'þ' := "th", 'ÿ' := "y"
    ]
  }

  /** The "latin" map. */
  function Latin(): map<char, string> {
    LatinRows14To16() + LatinRows17To19() + LatinRows20To22()
  }

  /** The "latin_symbols" map. */
  function LatinSymbols(): map<char, string> {
    map[
      '©' := "(c)"
    ]
  }

  /** Rows 56-58 of the "ru" map. */
  function RussianRows56To58(): map<char, string> {
    map[
      'а' := "a", 'б' := "b", 'в' := "v", 'г' := "g", 'д' := "d", 'е' := "e", 'ё' := "yo", 'ж' := "zh",
      'з' := "z", 'и' := "i", 'й' := "j", 'к' := "k", 'л' := "l", 'м' := "m", 'н' := "n", 'о' := "o",
      'п' := "p", 'р' := "r", 'с' := "s", 'т' := "t", 'у' := "u", 'ф' := "f", 'х' := "h", 'ц' := "c"
    ]
  }

  /** Rows 59-62 of the "ru" map. */
  function RussianRows59To62(): map<char, string> {
    map[
      'ч' := "ch", 'ш' := "sh", 'щ' := "sh", 'ъ' := "", 'ы' := "y", 'ь' := "", 'э' := "e", 'ю' := "yu",
      'я' := "ya", 'А' := "A", 'Б' := "B", 'В' := "V", 'Г' := "G", 'Д' := "D", 'Е' := "E", 'Ё' := "Yo",
      'Ж' := "Zh", 'З' := "Z", 'И' := "I", 'Й' := "J", 'К' := "K", 'Л' := "L", 'М' := "M", 'Н' := "N",
      'О' := "O"
    ]
  }

  /** Rows 63-66 of the "ru" map. */
  function RussianRows63To66(): map<char, string> {
    map[
      'П' := "P", 'Р' := "R", 'С' := "S", 'Т' := "T", 'У' := "U", 'Ф' := "F", 'Х' := "H", 'Ц' := "C",
      'Ч' := "Ch", 'Ш' := "Sh", 'Щ' := "Sh", 'Ъ' := "", 'Ы' := "Y", 'Ь' := "", 'Э' := "E", 'Ю' := "Yu",
      'Я' := "Ya", '№' := ""
    ]
  }

  /** The "ru" map. */
  function Russian(): map<char, string> {
    RussianRows56To58() + RussianRows59To62() + RussianRows63To66()
  }

  /** `charsMap`: the language key to its character map. */
  function CharsMap(): Table {
    map[
      "de" := German(), "latin" := Latin(), "latin_symbols" := LatinSymbols(), "ru" := Russian()
    ]
  }

  /** One character map obeys the table invariant. */
  ghost predicate MapWellFormed(m: map<char, string>) {
    forall c :: c in m ==> !IsAscii(c) && AllAscii(m[c])
  }

  lemma UnionWellFormed(a: map<char, string>, b: map<char, string>)
    requires MapWellFormed(a) && MapWellFormed(b)
    ensures MapWellFormed(a + b)
  {
  }

  lemma GermanWellFormed()
    ensures forall c :: c in German() ==> !IsAscii(c) && AllAscii(German()[c])
  {
  }

  lemma LatinRows14To16WellFormed()
    ensures forall c :: c in LatinRows14To16() ==> !IsAscii(c) && AllAscii(LatinRows14To16()[c])
  {
  }

  lemma LatinRows17To19WellFormed()
    ensures forall c :: c in LatinRows17To19() ==> !IsAscii(c) && AllAscii(LatinRows17To19()[c])
  {
  }

  lemma LatinRows20To22WellFormed()
    ensures forall c :: c in LatinRows20To22() ==> !IsAscii(c) && AllAscii(LatinRows20To22()[c])
  {
  }

  lemma RussianRows56To58WellFormed()
    ensures forall c :: c in RussianRows56To58() ==> !IsAscii(c) && AllAscii(RussianRows56To58()[c])
  {
  }

  lemma RussianRows59To62WellFormed()
    ensures forall c :: c in RussianRows59To62() ==> !IsAscii(c) && AllAscii(RussianRows59To62()[c])
  {
  }

  lemma RussianRows63To66WellFormed()
    ensures forall c :: c in RussianRows63To66() ==> !IsAscii(c) && AllAscii(RussianRows63To66()[c])
  {
  }

  lemma LatinSymbolsWellFormed()
    ensures forall c :: c in LatinSymbols() ==> !IsAscii(c) && AllAscii(LatinSymbols()[c])
  {
  }

  lemma TableWellFormed(de: map<char, string>, latin: map<char, string>, symbols: map<char, string>, ru: map<char, string>)
    requires MapWellFormed(de) && MapWellFormed(latin) && MapWellFormed(symbols) && MapWellFormed(ru)
    ensures WellFormed(map["de" := de, "latin" := latin, "latin_symbols" := symbols, "ru" := ru])
  {
  }

  /** The character maps obey the table invariant. */
  lemma CharsMapWellFormed()
    ensures WellFormed(CharsMap())
  {
    GermanWellFormed();
    LatinSymbolsWellFormed();
    LatinRows14To16WellFormed();
    LatinRows17To19WellFormed();
    LatinRows20To22WellFormed();
    RussianRows56To58WellFormed();
    RussianRows59To62WellFormed();
    RussianRows63To66WellFormed();
    UnionWellFormed(LatinRows14To16(), LatinRows17To19());
    UnionWellFormed(LatinRows14To16() + LatinRows17To19(), LatinRows20To22());
    UnionWellFormed(RussianRows56To58(), RussianRows59To62());
    UnionWellFormed(RussianRows56To58() + RussianRows59To62(), RussianRows63To66());
    TableWellFormed(German(), Latin(), LatinSymbols(), Russian());
  }

  /** `removeList`: the default stopwords, lower case, in the order they are removed. */
  function RemoveList(): seq<string> {
    [
      "a", "an", "as", "at", "before", "but", "by", "for", "from",
      "is", "in", "into", "like", "of", "off", "on", "onto", "per",
      "since", "than", "the", "this", "that", "to", "up", "via",
      "with"
    ]
  }

  // ---------------------------------------------------------------------
  // Lookups
  // ---------------------------------------------------------------------

  /** The four language keys of a table display and the map under each. */
  lemma DisplayEntries(de: map<char, string>, latin: map<char, string>, symbols: map<char, string>, ru: map<char, string>)
    ensures var t := map["de" := de, "latin" := latin, "latin_symbols" := symbols, "ru" := ru];
      t.Keys == {"de", "latin", "latin_symbols", "ru"} &&
      t["de"] == de && t["latin"] == latin && t["latin_symbols"] == symbols && t["ru"] == ru
  {
    assert "de" != "latin" && "de" != "latin_symbols" && "de" != "ru";
    assert "latin" != "latin_symbols" && "latin" != "ru" && "latin_symbols" != "ru";
  }

  /** `charsMap` has the languages "de", "latin", "latin_symbols" and "ru". */
  lemma CharsMapEntries()
    ensures CharsMap().Keys == {"de", "latin", "latin_symbols", "ru"}
    ensures CharsMap()["de"] == German() && CharsMap()["latin"] == Latin()
    ensures CharsMap()["latin_symbols"] == LatinSymbols() && CharsMap()["ru"] == Russian()
  {
    DisplayEntries(German(), Latin(), LatinSymbols(), Russian());
  }

  /** A map made of three rows: a key is in it when it is in a row, and the
      last row's value wins. */
  lemma RowsLookup(a: map<char, string>, b: map<char, string>, c: map<char, string>, k: char)
    ensures k in a + b + c <==> k in a || k in b || k in c
    ensures k in c ==> (a + b + c)[k] == c[k]
  {
  }
}
