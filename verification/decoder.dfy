/** `decodeMacroName`: turns the token list of a `.trainerName = { ... }` field into
    display text. Every `_`-prefixed run of word characters is looked up in the
    character table; decoding never fails and never stops early. */
module Decoder {
  import opened Text
  import opened CharMap

  /** Whether a match of `_(\w+)` begins at `i`: an underscore followed by a word character. */
  predicate TokenAt(s: string, i: nat) {
    i + 1 < |s| && s[i] == '_' && IsWordChar(s[i + 1])
  }

  /** `re.findall(r'_(\w+)', ...)` scanning `s` from position `i`: the captured names
      of the non-overlapping matches, left to right. `\w+` is greedy and `_` is a
      word character, so a name runs to the first non-word character. */
  function TokensFrom(s: string, i: nat): (ts: seq<string>)
    requires i <= |s|
    ensures forall k :: 0 <= k < |ts| ==> |ts[k]| > 0 && AllWord(ts[k])
    decreases |s| - i
  {
    if i == |s| then []
    else if TokenAt(s, i) then
      var e := WordEnd(s, i + 1);
      [s[i + 1..e]] + TokensFrom(s, e)
    else TokensFrom(s, i + 1)
  }

  function Tokens(s: string): seq<string> {
    TokensFrom(s, 0)
  }

  /** The table text of each captured name, joined in order. */
  function TranslateAll(names: seq<string>): string {
    if |names| == 0 then "" else Translate("_" + names[0]) + TranslateAll(names[1..])
  }

  /** `decodeMacroName(charArray)`. Every token spends at least two characters of
      the field text and stands for at most two, so the display text is never
      longer than the field text; text without tokens decodes to nothing. */
  function DecodeMacroName(s: string): (r: string)
    ensures |r| <= |s|
    ensures (forall p :: 0 <= p < |s| ==> !TokenAt(s, p)) ==> r == ""
  {
    DecodeNoLonger(s, 0);
    TokensFromEmpty(s, 0);
    TranslateAll(Tokens(s))
  }

  /** A token key as it is written in a name field: `_` and one or more word characters. */
  predicate IsKey(key: string) {
    |key| >= 2 && key[0] == '_' && AllWord(key[1..])
  }

  /** The table text of each key, joined in order: the reference meaning of a token list. */
  function TranslateKeys(keys: seq<string>): string {
    if |keys| == 0 then "" else Translate(keys[0]) + TranslateKeys(keys[1..])
  }

  /** A separator between keys that holds no word character, such as `", "`. */
  predicate IsSeparator(sep: string) {
    |sep| > 0 && forall k :: 0 <= k < |sep| ==> !IsWordChar(sep[k])
  }

  // ---------------------------------------------------------------------------
  // Token scanning

  /** The scan finds no names exactly when no underscore is followed by a word character. */
  lemma {:induction false} TokensFromEmpty(s: string, i: nat)
    requires i <= |s|
    ensures TokensFrom(s, i) == [] <==> forall p :: i <= p < |s| ==> !TokenAt(s, p)
    decreases |s| - i
  {
    if i < |s| && !TokenAt(s, i) {
      TokensFromEmpty(s, i + 1);
    }
  }

  /** Text in which no `_` is followed by a word character decodes to the empty
      text, and that is the only way to have no tokens at all. */
  lemma NoTokenDecodesEmpty(s: string)
    ensures Tokens(s) == [] <==> forall p :: 0 <= p < |s| ==> !TokenAt(s, p)
    ensures (forall p :: 0 <= p < |s| ==> !TokenAt(s, p)) ==> DecodeMacroName(s) == ""
  {
    TokensFromEmpty(s, 0);
  }

  /** Scanning the tail of `pre + s` behaves as scanning `s`. */
  lemma {:induction false} TokensFromShift(pre: string, s: string, j: nat)
    requires j <= |s|
    ensures TokensFrom(pre + s, |pre| + j) == TokensFrom(s, j)
    decreases |s| - j
  {
    var t := pre + s;
    var i := |pre| + j;
    if j < |s| {
      assert TokenAt(t, i) <==> TokenAt(s, j) by {
        if j + 1 < |s| {
          assert t[i] == s[j] && t[i + 1] == s[j + 1];
        }
      }
      if TokenAt(s, j) {
        var e := WordEnd(s, j + 1);
        ShiftedWord(pre, s, j + 1, e);
        TokensFromShift(pre, s, e);
        assert TokensFrom(t, i) == [t[i + 1..|pre| + e]] + TokensFrom(t, |pre| + e);
      } else {
        TokensFromShift(pre, s, j + 1);
      }
    }
  }

  /** A run of word characters in `s` is the same run, shifted, in `pre + s`. */
  lemma ShiftedWord(pre: string, s: string, j: nat, e: nat)
    requires j <= |s| && e == WordEnd(s, j)
    ensures WordEnd(pre + s, |pre| + j) == |pre| + e
    ensures (pre + s)[|pre| + j..|pre| + e] == s[j..e]
  {
    var t := pre + s;
    assert t[|pre| + j..|pre| + e] == s[j..e];
    assert |pre| + e < |t| ==> t[|pre| + e] == s[e];
    WordEndAt(t, |pre| + j, |pre| + e);
  }

  /** A leading character other than `_` starts no token. */
  lemma NonUnderscoreLead(c: char, s: string)
    requires c != '_'
    ensures Tokens([c] + s) == Tokens(s)
  {
    TokensFromShift([c], s, 0);
  }

  /** A separator contributes no tokens of its own. */
  lemma {:induction false} SeparatorLead(sep: string, s: string)
    requires forall k :: 0 <= k < |sep| ==> !IsWordChar(sep[k])
    ensures Tokens(sep + s) == Tokens(s)
    decreases |sep|
  {
    if |sep| > 0 {
      var rest := sep[1..] + s;
      assert sep + s == [sep[0]] + rest;
      assert !IsWordChar(sep[0]);
      NonUnderscoreLead(sep[0], rest);
      assert forall k :: 0 <= k < |sep[1..]| ==> sep[1..][k] == sep[k + 1];
      SeparatorLead(sep[1..], s);
    } else {
      assert sep + s == s;
    }
  }

  /** A scan of `a + [c] + b` with `c` a non-word character, from inside `a`,
      finds the tokens of `a` from there and then those of `b`. */
  lemma {:induction false} TokensFromSplit(a: string, c: char, b: string, i: nat)
    requires !IsWordChar(c)
    requires i <= |a|
    ensures TokensFrom(a + [c] + b, i) == TokensFrom(a, i) + Tokens(b)
    decreases |a| - i
  {
    var t := a + [c] + b;
    if i == |a| {
      assert t == (a + [c]) + b;
      TokensFromShift(a + [c], b, 0);
    } else {
      assert TokenAt(t, i) <==> TokenAt(a, i) by {
        assert t[i] == a[i];
        if i + 1 < |a| {
          assert t[i + 1] == a[i + 1];
        } else {
          assert t[i + 1] == c;
        }
      }
      if TokenAt(a, i) {
        var e := WordEnd(a, i + 1);
        assert t[e] == (if e < |a| then a[e] else c);
        WordEndAt(t, i + 1, e);
        assert t[i + 1..e] == a[i + 1..e];
        TokensFromSplit(a, c, b, e);
      } else {
        TokensFromSplit(a, c, b, i + 1);
      }
    }
  }

  /** Tokens never straddle a separator: the tokens of `a + sep + b` are those of
      `a` followed by those of `b`. */
  lemma TokensAcrossSeparator(a: string, sep: string, b: string)
    requires IsSeparator(sep)
    ensures Tokens(a + sep + b) == Tokens(a) + Tokens(b)
  {
    assert a + sep + b == a + [sep[0]] + (sep[1..] + b);
    TokensFromSplit(a, sep[0], sep[1..] + b, 0);
    SeparatorLead(sep[1..], b);
  }

  /** A key written alone is scanned as exactly one token: its name after the `_`. */
  lemma KeyIsOneToken(key: string)
    requires IsKey(key)
    ensures Tokens(key) == [key[1..]]
  {
    assert key[1] == key[1..][0];
    assert AllWord(key[1..|key|]) by {
      assert key[1..|key|] == key[1..];
    }
    WordEndAt(key, 1, |key|);
    assert TokenAt(key, 0);
    assert TokensFrom(key, |key|) == [];
    assert key[1..|key|] == key[1..];
  }

  // ---------------------------------------------------------------------------
  // Decoding

  lemma {:induction false} TranslateAllAppend(x: seq<string>, y: seq<string>)
    ensures TranslateAll(x + y) == TranslateAll(x) + TranslateAll(y)
  {
    if |x| > 0 {
      assert (x + y)[1..] == x[1..] + y;
      TranslateAllAppend(x[1..], y);
    } else {
      assert x + y == y;
    }
  }

  lemma {:induction false} TranslateKeysAppend(x: seq<string>, y: seq<string>)
    ensures TranslateKeys(x + y) == TranslateKeys(x) + TranslateKeys(y)
  {
    if |x| > 0 {
      assert (x + y)[1..] == x[1..] + y;
      TranslateKeysAppend(x[1..], y);
    } else {
      assert x + y == y;
    }
  }

  /** Decoding distributes over a separator: the decoded text of `a + sep + b` is
      the decoded text of `a` followed by that of `b`. */
  lemma DecodeAcrossSeparator(a: string, sep: string, b: string)
    requires IsSeparator(sep)
    ensures DecodeMacroName(a + sep + b) == DecodeMacroName(a) + DecodeMacroName(b)
  {
    TokensAcrossSeparator(a, sep, b);
    TranslateAllAppend(Tokens(a), Tokens(b));
  }

  /** The decoded text of each part, joined in order. */
  function DecodeEach(parts: seq<string>): string {
    if |parts| == 0 then "" else DecodeMacroName(parts[0]) + DecodeEach(parts[1..])
  }

  /** Decoding a separated list equals decoding each element and joining the results. */
  lemma {:induction false} DecodeJoin(parts: seq<string>, sep: string)
    requires IsSeparator(sep)
    ensures DecodeMacroName(Join(parts, sep)) == DecodeEach(parts)
  {
    if |parts| == 0 {
      assert Tokens("") == [];
    } else if |parts| == 1 {
      assert parts[1..] == [];
    } else {
      DecodeAcrossSeparator(parts[0], sep, Join(parts[1..], sep));
      DecodeJoin(parts[1..], sep);
    }
  }

  /** A list of keys decodes to the in-order concatenation of each key's table
      text; a key the table lacks contributes `"?"` and is neither dropped nor an
      error. */
  lemma {:induction false} DecodeKeyList(keys: seq<string>, sep: string)
    requires IsSeparator(sep)
    requires forall k :: 0 <= k < |keys| ==> IsKey(keys[k])
    ensures DecodeMacroName(Join(keys, sep)) == TranslateKeys(keys)
  {
    DecodeJoin(keys, sep);
    DecodeEachKeys(keys);
  }

  lemma {:induction false} DecodeEachKeys(keys: seq<string>)
    requires forall k :: 0 <= k < |keys| ==> IsKey(keys[k])
    ensures DecodeEach(keys) == TranslateKeys(keys)
  {
    if |keys| > 0 {
      var key, rest := keys[0], keys[1..];
      DecodeKey(key);
      assert forall k :: 0 <= k < |rest| ==> IsKey(rest[k]) by {
        forall k | 0 <= k < |rest| ensures IsKey(rest[k]) {
          assert rest[k] == keys[k + 1];
        }
      }
      DecodeEachKeys(rest);
    }
  }

  /** `_END` contributes nothing and does not end decoding: the keys after it are
      still decoded. */
  lemma EndDoesNotStop(before: seq<string>, after: seq<string>, sep: string)
    requires IsSeparator(sep)
    requires forall k :: 0 <= k < |before| ==> IsKey(before[k])
    requires forall k :: 0 <= k < |after| ==> IsKey(after[k])
    ensures DecodeMacroName(Join(before + ["_END"] + after, sep))
         == TranslateKeys(before) + TranslateKeys(after)
  {
    var keys := before + ["_END"] + after;
    EndKey();
    KeysAppend(before, ["_END"]);
    KeysAppend(before + ["_END"], after);
    DecodeKeyList(keys, sep);
    TranslateKeysAppend(before + ["_END"], after);
    TranslateKeysAppend(before, ["_END"]);
  }

  lemma KeysAppend(x: seq<string>, y: seq<string>)
    requires forall k :: 0 <= k < |x| ==> IsKey(x[k])
    requires forall k :: 0 <= k < |y| ==> IsKey(y[k])
    ensures forall k :: 0 <= k < |x + y| ==> IsKey((x + y)[k])
  {
    forall k | 0 <= k < |x + y|
      ensures IsKey((x + y)[k])
    {
      if k < |x| {
        assert (x + y)[k] == x[k];
      } else {
        assert (x + y)[k] == y[k - |x|];
      }
    }
  }

  /** The sentinel is written as a key and stands for the empty text. */
  lemma EndKey()
    ensures IsKey("_END") && Translate("_END") == "" && TranslateKeys(["_END"]) == ""
  {
    assert "_END"[1..] == "END";
    assert ["_END"][1..] == [];
  }

  /** A key the table lacks decodes to a single question mark. */
  lemma UnknownKeyIsQuestionMark(key: string)
    requires IsKey(key) && !InTable(key)
    ensures DecodeMacroName(key) == "?"
  {
    DecodeKey(key);
    TranslateShape(key);
  }

  /** The decoded text is never longer than the field text it came from: every
      token spends at least two characters and stands for at most two. */
  lemma {:induction false} DecodeNoLonger(s: string, i: nat)
    requires i <= |s|
    ensures |TranslateAll(TokensFrom(s, i))| <= |s| - i
    decreases |s| - i
  {
    if i < |s| {
      if TokenAt(s, i) {
        var e := WordEnd(s, i + 1);
        var name := s[i + 1..e];
        var rest := TokensFrom(s, e);
        assert TokensFrom(s, i) == [name] + rest;
        TranslateAllCons(name, rest);
        DecodeNoLonger(s, e);
        assert e >= i + 2;
      } else {
        DecodeNoLonger(s, i + 1);
      }
    }
  }

  lemma TranslateAllCons(name: string, rest: seq<string>)
    ensures TranslateAll([name] + rest) == Translate("_" + name) + TranslateAll(rest)
  {
    assert ([name] + rest)[1..] == rest;
  }

  /** A single key decodes to its table text. */
  lemma DecodeKey(key: string)
    requires IsKey(key)
    ensures DecodeMacroName(key) == Translate(key)
  {
    KeyIsOneToken(key);
    assert "_" + key[1..] == key;
    assert TranslateAll([key[1..]]) == Translate(key) + TranslateAll([]);
  }

  /** A key followed by a separator decodes to the key's table text followed by the rest. */
  lemma DecodeCons(key: string, sep: string, rest: string)
    requires IsKey(key) && IsSeparator(sep)
    ensures DecodeMacroName(key + sep + rest) == Translate(key) + DecodeMacroName(rest)
  {
    DecodeAcrossSeparator(key, sep, rest);
    DecodeKey(key);
  }

  /** The keys of an example name field. */
  const BugCatcherKeys: seq<string> := ["_B", "_u", "_g", "_SPACE", "_C", "_END"]

  /** That name, `_B, _u, _g, _SPACE, _C, _END`, decodes to `Bug C`. */
  lemma BugCatcherName(name: string)
    requires name == "_B, _u, _g, _SPACE, _C, _END"
    ensures DecodeMacroName(name) == "Bug C"
  {
    BugCatcherText();
    BugCatcherAllKeys();
    DecodeKeyList(BugCatcherKeys, ", ");
    BugCatcherTranslate();
  }

  /** The example name is its keys joined by `", "`. */
  lemma BugCatcherText()
    ensures Join(BugCatcherKeys, ", ") == "_B, _u, _g, _SPACE, _C, _END"
  {
  }

  lemma BugCatcherAllKeys()
    ensures IsSeparator(", ")
    ensures forall k :: 0 <= k < |BugCatcherKeys| ==> IsKey(BugCatcherKeys[k])
  {
    assert "_SPACE"[1..] == "SPACE";
    assert "_END"[1..] == "END";
  }

  lemma BugCatcherTranslate()
    ensures TranslateKeys(BugCatcherKeys) == "Bug C"
  {
    assert "_SPACE"[1..] == "SPACE";
    assert "_END"[1..] == "END";
  }
}
