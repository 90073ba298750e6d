/**
  * The 5x7 dot-matrix font: a table from characters to seven rows of five
  * '0'/'1' dots, the lookup that falls back to the blank pattern, and the
  * upper-casing applied to typed keys before they are looked up.
  */
module Font {
  import opened Geometry

  /** One character's dot pattern: DOT_H rows, each a string of DOT_W '0'/'1' dots. */
  type Glyph = seq<string>

  const BLANK: char := ' '

  const FONT: map<char, Glyph> := map[
    ' ' := ["00000","00000","00000","00000","00000","00000","00000"],
    'A' := ["01110","10001","11111","10001","10001","10001","10001"],
    'B' := ["11110","10001","11110","10001","10001","10001","11110"],
    'C' := ["01110","10001","10000","10000","10000","10001","01110"],
    'D' := ["11110","10001","10001","10001","10001","10001","11110"],
    'E' := ["11111","10000","11110","10000","10000","10000","11111"],
    'F' := ["11111","10000","11110","10000","10000","10000","10000"],
    'G' := ["01110","10001","10000","10111","10001","10001","01110"],
    'H' := ["10001","10001","11111","10001","10001","10001","10001"],
    'I' := ["01110","00100","00100","00100","00100","00100","01110"],
    'J' := ["00001","00001","00001","10001","10001","10001","01110"],
    'K' := ["10001","10010","11100","10100","10010","10001","10001"],
    'L' := ["10000","10000","10000","10000","10000","10000","11111"],
    'M' := ["10001","11011","10101","10101","10001","10001","10001"],
    'N' := ["10001","11001","10101","10011","10001","10001","10001"],
    'O' := ["01110","10001","10001","10001","10001","10001","01110"],
    'P' := ["11110","10001","11110","10000","10000","10000","10000"],
    'Q' := ["01110","10001","10001","10001","10101","10010","01101"],
    'R' := ["11110","10001","11110","10100","10010","10001","10001"],
    'S' := ["01111","10000","10000","01110","00001","00001","11110"],
    'T' := ["11111","00100","00100","00100","00100","00100","00100"],
    'U' := ["10001","10001","10001","10001","10001","10001","01110"],
    'V' := ["10001","10001","10001","01010","01010","00100","00100"],
    'W' := ["10001","10001","10101","10101","10101","11011","10001"],
    'X' := ["10001","01010","00100","00100","00100","01010","10001"],
    'Y' := ["10001","01010","00100","00100","00100","00100","00100"],
    'Z' := ["11111","00001","00010","00100","01000","10000","11111"],
    '-' := ["00000","00000","00000","11111","00000","00000","00000"],
    '0' := ["01110","10001","10011","10101","11001","10001","01110"],
    '1' := ["00100","01100","00100","00100","00100","00100","01110"],
    '2' := ["01110","10001","00001","00110","01000","10000","11111"],
    '3' := ["01110","10001","00001","00110","00001","10001","01110"],
    '4' := ["10010","10010","10010","11111","00010","00010","00010"],
    '5' := ["11111","10000","11110","00001","00001","10001","01110"],
    '6' := ["01110","10000","11110","10001","10001","10001","01110"],
    '7' := ["11111","00001","00010","00100","01000","01000","01000"],
    '8' := ["01110","10001","01110","10001","10001","10001","01110"],
    '9' := ["01110","10001","10001","01111","00001","00001","01110"]
  ]

  predicate IsBitRow(row: string) {
    |row| == DOT_W && forall i :: 0 <= i < |row| ==> row[i] == '0' || row[i] == '1'
  }

  /** Exactly DOT_H rows of exactly DOT_W dots each. */
  predicate WellFormed(g: Glyph) {
    |g| == DOT_H && forall j :: 0 <= j < |g| ==> IsBitRow(g[j])
  }

  /** Every dot of the pattern is off. */
  predicate AllOff(g: Glyph) {
    forall j, i :: 0 <= j < |g| && 0 <= i < |g[j]| ==> g[j][i] == '0'
  }

  /** The characters the table has a pattern for: space, '-', 'A'..'Z' and '0'..'9'. */
  predicate IsFontChar(ch: char) {
    ch == ' ' || ch == '-' || 'A' <= ch <= 'Z' || '0' <= ch <= '9'
  }

  /**
    * The pattern drawn for a character: its table entry, or the blank pattern
    * when the table has none.
    */
  function Pattern(ch: char): (g: Glyph)
    ensures WellFormed(g)
    ensures ch !in FONT ==> AllOff(g)
  {
    EntryWellFormed(ch);
    if ch in FONT then FONT[ch] else FONT[BLANK]
  }

  /**
    * Upper-casing of a single typed character, as far as it matters for the
    * table: 'a'..'z' become 'A'..'Z', dotless i (U+0131) becomes 'I' and long
    * s (U+017F) becomes 'S'; every other character is kept (its upper case, if
    * it has one, is not a key of the table either).
    */
  function ToUpper(ch: char): char {
    if 'a' <= ch <= 'z' then (ch as int - 32) as char
    else if ch == '\U{0131}' then 'I'
    else if ch == '\U{017F}' then 'S'
    else ch
  }

  // ---------- properties of the font ----------

  /** Every table entry has DOT_H rows of DOT_W '0'/'1' dots. */
  lemma FontWellFormed()
    ensures forall ch | ch in FONT :: WellFormed(FONT[ch])
  {
    forall ch | ch in FONT
      ensures WellFormed(FONT[ch])
    {
      FontKeys(ch);
      if ch == ' ' || ch == '-' {
        PunctuationWellFormed(ch);
      } else if '0' <= ch <= '3' {
        Digits0To3WellFormed(ch);
      } else if '4' <= ch <= '6' {
        Digits4To6WellFormed(ch);
      } else if '7' <= ch <= '9' {
        Digits7To9WellFormed(ch);
      } else if 'A' <= ch <= 'D' {
        LettersAToDWellFormed(ch);
      } else if 'E' <= ch <= 'H' {
        LettersEToHWellFormed(ch);
      } else if 'I' <= ch <= 'L' {
        LettersIToLWellFormed(ch);
      } else if 'M' <= ch <= 'P' {
        LettersMToPWellFormed(ch);
      } else if 'Q' <= ch <= 'T' {
        LettersQToTWellFormed(ch);
      } else if 'U' <= ch <= 'W' {
        LettersUToWWellFormed(ch);
      } else if 'X' <= ch <= 'Z' {
        LettersXToZWellFormed(ch);
      }
    }
  }

  /** The entry of one character, and the blank entry, are well formed; the blank entry is all off. */
  lemma EntryWellFormed(ch: char)
    ensures ch in FONT ==> WellFormed(FONT[ch])
    ensures BLANK in FONT && WellFormed(FONT[BLANK]) && AllOff(FONT[BLANK])
  {
    FontWellFormed();
  }

  // The table is checked a few keys at a time, to keep each proof small.

  lemma PunctuationWellFormed(ch: char)
    requires ch == ' ' || ch == '-'
    ensures ch in FONT && WellFormed(FONT[ch])
  {
  }

  lemma Digits0To3WellFormed(ch: char)
    requires '0' <= ch <= '3'
    ensures ch in FONT && WellFormed(FONT[ch])
  {
  }

  lemma Digits4To6WellFormed(ch: char)
    requires '4' <= ch <= '6'
    ensures ch in FONT && WellFormed(FONT[ch])
  {
  }

  lemma Digits7To9WellFormed(ch: char)
    requires '7' <= ch <= '9'
    ensures ch in FONT && WellFormed(FONT[ch])
  {
  }

  lemma LettersAToDWellFormed(ch: char)
    requires 'A' <= ch <= 'D'
    ensures ch in FONT && WellFormed(FONT[ch])
  {
  }

  lemma LettersEToHWellFormed(ch: char)
    requires 'E' <= ch <= 'H'
    ensures ch in FONT && WellFormed(FONT[ch])
  {
  }

  lemma LettersIToLWellFormed(ch: char)
    requires 'I' <= ch <= 'L'
    ensures ch in FONT && WellFormed(FONT[ch])
  {
  }

  lemma LettersMToPWellFormed(ch: char)
    requires 'M' <= ch <= 'P'
    ensures ch in FONT && WellFormed(FONT[ch])
  {
  }

  lemma LettersQToTWellFormed(ch: char)
    requires 'Q' <= ch <= 'T'
    ensures ch in FONT && WellFormed(FONT[ch])
  {
  }

  lemma LettersUToWWellFormed(ch: char)
    requires 'U' <= ch <= 'W'
    ensures ch in FONT && WellFormed(FONT[ch])
  {
  }

  lemma LettersXToZWellFormed(ch: char)
    requires 'X' <= ch <= 'Z'
    ensures ch in FONT && WellFormed(FONT[ch])
  {
  }

  /** The table's keys are exactly space, '-', the capital letters and the digits. */
  lemma FontKeys(ch: char)
    ensures ch in FONT <==> IsFontChar(ch)
  {
  }

  /** A character of the table is drawn with its own entry. */
  lemma PatternOfKey(ch: char)
    requires ch in FONT
    ensures Pattern(ch) == FONT[ch]
  {
  }

  /** The blank entry is the all-off pattern. */
  lemma BlankIsAllOff()
    ensures BLANK in FONT && AllOff(FONT[BLANK])
  {
  }

  /**
    * A typed character is accepted exactly when it is space, '-', a digit, a
    * letter of either case, dotless i or long s; upper-casing is idempotent on
    * the table's keys.
    */
  lemma AcceptedKeys(ch: char)
    ensures ToUpper(ch) in FONT <==>
              IsFontChar(ch) || 'a' <= ch <= 'z' || ch == '\U{0131}' || ch == '\U{017F}'
    ensures ch in FONT ==> ToUpper(ch) == ch
  {
    FontKeys(ch);
    FontKeys(ToUpper(ch));
  }
}
