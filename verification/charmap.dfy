/** The game's character table `gbaCharMap`: the text each `_`-prefixed character
    macro stands for. */
module CharMap {

  /** The letters `A`-`Z`, `a`-`z` and the digits `0`-`9`. */
  predicate IsLetterOrDigit(c: char) {
    ('A' <= c <= 'Z') || ('a' <= c <= 'z') || ('0' <= c <= '9')
  }

  /** The table's entries whose name is longer than one character, keyed by the name
      after the leading `_`. `PO`, `KE`, `BL`, `OC` and `OK` stand for two characters
      each; the sentinel `END` stands for the empty text. */
  const Named: map<string, string> := map[
    "SPACE" := " ", "PERIOD" := ".", "EXCLAMATION" := "!", "QUESTION" := "?",
    "HYPHEN" := "-", "AMPERSAND" := "&", "APOSTROPHE" := "'", "TIMES" := "\U{D7}",
    "NEWLINE" := "\n", "AT" := "@", "eACUTE" := "\U{E9}",
    "PO" := "PO", "KE" := "KE", "BL" := "BL", "OC" := "OC", "OK" := "OK",
    "END" := ""
  ]

  /** Whether `key` is one of the table's keys: `_` followed by one letter or digit
      (`_A` .. `_Z`, `_a` .. `_z`, `_0` .. `_9`) or by one of the longer names. */
  predicate InTable(key: string) {
    && |key| >= 2
    && key[0] == '_'
    && ((|key| == 2 && IsLetterOrDigit(key[1])) || key[1..] in Named)
  }

  /** `gbaCharMap.get(key, '?')`: the text a key stands for, `"?"` when the table
      has no such key. A one-letter or one-digit key stands for that character;
      no entry is longer than two characters. */
  function Translate(key: string): (r: string)
    ensures |r| <= 2
  {
    if |key| == 2 && key[0] == '_' && IsLetterOrDigit(key[1]) then [key[1]]
    else if |key| >= 2 && key[0] == '_' && key[1..] in Named then Named[key[1..]]
    else "?"
  }

  /** `"?"` marks exactly the missing keys: a key outside the table gives `"?"`, and
      no entry stands for a lone question mark except `_QUESTION`. */
  lemma TranslateShape(key: string)
    ensures !InTable(key) ==> Translate(key) == "?"
    ensures InTable(key) && Translate(key) == "?" ==> key == "_QUESTION"
    ensures InTable(key) && |key| == 2 ==> Translate(key) == [key[1]]
  {
  }
}
