/** The four regular expressions of the trainer reader, as hand-written matchers:
    the record-open pattern `\[(.+?)\]\s*=\s*\{` and the three field patterns
    `\.trainerName\s*=\s*\{([^}]+)\}`, `\.trainerClass\s*=\s*(\w+)` and
    `\.trainerPic\s*=\s*(\w+)`. Each is used through `re.search`: the leftmost
    position where the pattern matches wins. */
module Patterns {
  import opened Text
  import opened Wrappers

  // ---------------------------------------------------------------------------
  // The record-open pattern

  /** `\s*=\s*\{` matches at `i`. A greedy `\s*` can only be followed by `=` or `{`
      once all the whitespace is consumed, so no backtracking is needed. */
  predicate AssignBraceAt(s: string, i: nat)
    requires i <= |s|
  {
    var j := SkipSpace(s, i);
    && j < |s| && s[j] == '='
    && var k := SkipSpace(s, j + 1);
    && k < |s| && s[k] == '{'
  }

  /** `s[i..]` reads whitespace, `=` at `j`, whitespace, `{` at `k`. */
  predicate AssignBraceLaidOut(s: string, i: nat, j: nat, k: nat) {
    && i <= j < k < |s|
    && AllSpace(s[i..j]) && s[j] == '='
    && AllSpace(s[j + 1..k]) && s[k] == '{'
  }

  /** The greedy matcher agrees with the layout it is meant to recognise. */
  lemma AssignBraceIff(s: string, i: nat)
    requires i <= |s|
    ensures AssignBraceAt(s, i) <==> exists j: nat, k: nat :: AssignBraceLaidOut(s, i, j, k)
  {
    if AssignBraceAt(s, i) {
      var j := SkipSpace(s, i);
      var k := SkipSpace(s, j + 1);
      assert AssignBraceLaidOut(s, i, j, k);
    }
    if exists j: nat, k: nat :: AssignBraceLaidOut(s, i, j, k) {
      var j: nat, k: nat :| AssignBraceLaidOut(s, i, j, k);
      SkipSpaceAt(s, i, j);
      SkipSpaceAt(s, j + 1, k);
    }
  }

  predicate NoNewline(s: string) {
    forall k :: 0 <= k < |s| ==> s[k] != '\n'
  }

  /** The pattern matches with `[` at `i` and `]` at `j`, capturing `s[i + 1..j]`:
      the group `.+?` is at least one character and never crosses a line break. */
  predicate ClosesAt(s: string, i: nat, j: nat) {
    && i < |s| && s[i] == '['
    && i + 1 < j < |s|
    && NoNewline(s[i + 1..j])
    && s[j] == ']'
    && AssignBraceAt(s, j + 1)
  }

  /** The lazy group: the least `j' >= j` at which the match opened at `i` closes.
      Every character before `j - 1` is already known to be in the group. */
  function LazyClose(s: string, i: nat, j: nat): (r: Option<nat>)
    requires i < |s| && s[i] == '['
    requires i + 2 <= j <= |s|
    requires NoNewline(s[i + 1..j - 1])
    ensures r.Some? ==> j <= r.value && ClosesAt(s, i, r.value)
    ensures r.Some? ==> forall j': nat :: j <= j' < r.value ==> !ClosesAt(s, i, j')
    ensures r.None? ==> forall j': nat :: j <= j' ==> !ClosesAt(s, i, j')
    decreases |s| - j
  {
    if j == |s| then None
    else if s[j - 1] == '\n' then
      NewlineEndsGroup(s, i, j - 1);
      None
    else
      ClosesHere(s, i, j);
      if s[j] == ']' && AssignBraceAt(s, j + 1) then Some(j)
      else LazyClose(s, i, j + 1)
  }

  /** With the group so far free of line breaks, whether the match closes at `j`
      depends only on what follows the group. */
  lemma ClosesHere(s: string, i: nat, j: nat)
    requires i < |s| && s[i] == '['
    requires i + 2 <= j < |s|
    requires NoNewline(s[i + 1..j - 1]) && s[j - 1] != '\n'
    ensures NoNewline(s[i + 1..j])
    ensures ClosesAt(s, i, j) <==> s[j] == ']' && AssignBraceAt(s, j + 1)
  {
    NoNewlineExtend(s, i + 1, j - 1);
  }

  /** A line break at `q` inside the would-be group stops every later close. */
  lemma NewlineEndsGroup(s: string, i: nat, q: nat)
    requires i + 1 <= q < |s| && s[q] == '\n'
    ensures forall j: nat :: q < j ==> !ClosesAt(s, i, j)
  {
    forall j: nat | q < j
      ensures !ClosesAt(s, i, j)
    {
      if j < |s| {
        assert s[i + 1..j][q - (i + 1)] == '\n';
      }
    }
  }

  lemma NoNewlineExtend(s: string, a: nat, b: nat)
    requires a <= b < |s| && NoNewline(s[a..b]) && s[b] != '\n'
    ensures NoNewline(s[a..b + 1])
  {
    var t, u := s[a..b + 1], s[a..b];
    forall k | 0 <= k < |t|
      ensures t[k] != '\n'
    {
      if k < |u| {
        assert t[k] == u[k];
      }
    }
  }

  /** Where the match opened by a `[` at `i` closes, if it does: the shortest group. */
  function CloseOf(s: string, i: nat): (r: Option<nat>)
    ensures r.Some? ==> ClosesAt(s, i, r.value)
    ensures r.Some? ==> forall j': nat :: j' < r.value ==> !ClosesAt(s, i, j')
    ensures r.None? ==> forall j: nat :: !ClosesAt(s, i, j)
  {
    if i + 2 <= |s| && s[i] == '[' then LazyClose(s, i, i + 2) else None
  }

  /** The leftmost position at or after `i` where the record-open pattern matches. */
  function OpenSearch(s: string, i: nat): (r: Option<nat>)
    requires i <= |s|
    ensures r.Some? ==> i <= r.value < |s| && CloseOf(s, r.value).Some?
    ensures r.Some? ==> forall p: nat :: i <= p < r.value ==> CloseOf(s, p).None?
    ensures r.None? ==> forall p: nat :: i <= p ==> CloseOf(s, p).None?
    decreases |s| - i
  {
    if i == |s| then None
    else if CloseOf(s, i).Some? then Some(i)
    else OpenSearch(s, i + 1)
  }

  /** `start_re.search(line)` and its `group(1)`: the bracketed text of the
      leftmost match, if any. */
  function StartMatch(line: string): (r: Option<string>)
    ensures r.Some? ==> |r.value| > 0 && NoNewline(r.value)
  {
    match OpenSearch(line, 0)
    case Some(p) => Some(line[p + 1..CloseOf(line, p).value])
    case None => None
  }

  /** The match whose `[` is leftmost and whose group is shortest. */
  ghost predicate FirstOpening(s: string, i: nat, j: nat) {
    && ClosesAt(s, i, j)
    && (forall j': nat :: j' < j ==> !ClosesAt(s, i, j'))
    && (forall i': nat, j': nat :: i' < i ==> !ClosesAt(s, i', j'))
  }

  /** `StartMatch` finds exactly the leftmost, shortest match, and finds nothing
      exactly when the pattern matches nowhere. */
  lemma StartMatchSpec(line: string)
    ensures StartMatch(line).Some? ==>
              exists i: nat, j: nat :: FirstOpening(line, i, j) && StartMatch(line).value == line[i + 1..j]
    ensures StartMatch(line).None? <==> forall i: nat, j: nat :: !ClosesAt(line, i, j)
  {
    var r := OpenSearch(line, 0);
    if r.Some? {
      var p := r.value;
      var j := CloseOf(line, p).value;
      forall i': nat, j': nat | i' < p
        ensures !ClosesAt(line, i', j')
      {
        assert CloseOf(line, i').None?;
      }
      assert FirstOpening(line, p, j);
    } else {
      forall i: nat, j: nat
        ensures !ClosesAt(line, i, j)
      {
        assert CloseOf(line, i).None?;
      }
    }
  }

  /** Whatever its shape, a line with a first opening has it found by `StartMatch`. */
  lemma FirstOpeningFound(line: string, i: nat, j: nat)
    requires FirstOpening(line, i, j)
    ensures StartMatch(line) == Some(line[i + 1..j])
  {
    assert CloseOf(line, i).Some?;
  }

  /** No match opens before the first `[`. */
  lemma NoOpenBefore(s: string, i: nat)
    requires forall k :: 0 <= k < i && k < |s| ==> s[k] != '['
    ensures forall i': nat, j': nat :: i' < i ==> !ClosesAt(s, i', j')
  {
  }

  /** A match opened at `i` cannot close before the first `]` after it. */
  lemma NoCloseBefore(s: string, i: nat, j: nat)
    requires forall k :: i < k < j && k < |s| ==> s[k] != ']'
    ensures forall j': nat :: j' < j ==> !ClosesAt(s, i, j')
  {
  }

  /** A match whose `[` is the first on the line and whose `]` is the first after
      it is the one found. */
  lemma OpeningAt(s: string, i: nat, j: nat)
    requires ClosesAt(s, i, j)
    requires forall k :: 0 <= k < i ==> s[k] != '['
    requires forall k :: i < k < j ==> s[k] != ']'
    ensures StartMatch(s) == Some(s[i + 1..j])
  {
    NoOpenBefore(s, i);
    NoCloseBefore(s, i, j);
    FirstOpeningFound(s, i, j);
  }

  /** A record-open line as the table writes it, `[<id>]` followed by whitespace,
      `=`, whitespace and `{`, with any text before the `[` that holds no `[` and
      anything after the `{`: it opens a record whose identifier is the bracketed
      text. */
  lemma OpeningLine(pre: string, id: string, rest: string, e: nat, b: nat)
    requires forall k :: 0 <= k < |pre| ==> pre[k] != '['
    requires |id| > 0 && NoNewline(id) && forall k :: 0 <= k < |id| ==> id[k] != ']'
    requires AssignBraceLaidOut(rest, 0, e, b)
    ensures StartMatch(pre + "[" + id + "]" + rest) == Some(id)
  {
    var s := pre + "[" + id + "]" + rest;
    var i := |pre|;
    var j := i + 1 + |id|;
    assert s[i] == '[' && s[j] == ']';
    assert s[i + 1..j] == id;
    assert forall k :: 0 <= k < i ==> s[k] == pre[k];
    assert forall k :: i < k < j ==> s[k] == id[k - i - 1];
    assert AssignBraceLaidOut(s, j + 1, j + 1 + e, j + 1 + b) by {
      assert s[j + 1..j + 1 + e] == rest[0..e];
      assert s[j + 1 + e + 1..j + 1 + b] == rest[e + 1..b];
    }
    AssignBraceIff(s, j + 1);
    OpeningAt(s, i, j);
  }

  /** The opening line as the table writes it, `[<id>] = {...`, with any
      whitespace around the `=`: it opens a record named by the bracketed text. */
  lemma OpeningLineSpaced(pre: string, id: string, w1: string, w2: string, post: string)
    requires forall k :: 0 <= k < |pre| ==> pre[k] != '['
    requires |id| > 0 && NoNewline(id) && forall k :: 0 <= k < |id| ==> id[k] != ']'
    requires AllSpace(w1) && AllSpace(w2)
    ensures StartMatch(pre + "[" + id + "]" + (w1 + "=" + w2 + "{" + post)) == Some(id)
  {
    AssignText(w1, w2, post);
    OpeningLine(pre, id, w1 + "=" + w2 + "{" + post, |w1|, |w1| + 1 + |w2|);
  }

  /** The text after the `]` of an opening line, `<spaces>=<spaces>{...}`, is laid
      out as the pattern's tail demands. */
  lemma AssignText(w1: string, w2: string, post: string)
    requires AllSpace(w1) && AllSpace(w2)
    ensures AssignBraceLaidOut(w1 + "=" + w2 + "{" + post, 0, |w1|, |w1| + 1 + |w2|)
  {
    var r := w1 + "=" + w2 + "{" + post;
    assert r[0..|w1|] == w1;
    assert r[|w1| + 1..|w1| + 1 + |w2|] == w2;
  }

  // ---------------------------------------------------------------------------
  // The field patterns

  datatype Field = TrainerName | TrainerClass | TrainerPic {

    /** The literal text the pattern starts with. */
    function Literal(): string {
      match this
      case TrainerName => ".trainerName"
      case TrainerClass => ".trainerClass"
      case TrainerPic => ".trainerPic"
    }
  }

  /** The value part of a field pattern, matched at `k` after `\s*=\s*`:
      `\{([^}]+)\}` for the name and `(\w+)` for class and picture. */
  function ValueAt(f: Field, s: string, k: nat): Option<string>
    requires k <= |s|
  {
    match f
    case TrainerName =>
      if k < |s| && s[k] == '{' then
        var e := Until(s, k + 1, '}');
        if k + 1 < e < |s| then Some(s[k + 1..e]) else None
      else None
    case _ =>
      var e := WordEnd(s, k);
      if k < e then Some(s[k..e]) else None
  }

  /** The head of a field pattern, `.trainerX\s*=`, matched at `i`: the position of
      its `=`. The greedy `\s*` cannot give characters back, since `=` is not
      whitespace. */
  function HeadAt(f: Field, s: string, i: nat): Option<nat> {
    var lit := f.Literal();
    if i + |lit| <= |s| && s[i..i + |lit|] == lit then
      var j := SkipSpace(s, i + |lit|);
      if j < |s| && s[j] == '=' then Some(j) else None
    else None
  }

  /** The field pattern matched at `i`: its captured group. The `\s*` after the `=`
      cannot give characters back either: the value never starts with whitespace. */
  function FieldAt(f: Field, s: string, i: nat): Option<string> {
    match HeadAt(f, s, i)
    case Some(j) => ValueAt(f, s, SkipSpace(s, j + 1))
    case None => None
  }

  /** `s[i..]` reads the field's literal, whitespace and `=` at `j`. */
  ghost predicate HeadLaidOut(f: Field, s: string, i: nat, j: nat) {
    var lit := f.Literal();
    && i + |lit| <= j < |s|
    && s[i..i + |lit|] == lit
    && AllSpace(s[i + |lit|..j]) && s[j] == '='
  }

  /** After the `=` at `j`: whitespace and the captured value `g` starting at `k`,
      delimited as the field's pattern demands: inside braces and free of `}` for
      the name, a maximal run of word characters for class and picture. */
  ghost predicate ValueLaidOut(f: Field, s: string, j: nat, k: nat, g: string) {
    && j < k && k + |g| <= |s|
    && |g| > 0 && s[k..k + |g|] == g
    && match f
       case TrainerName =>
         && j + 1 < k && AllSpace(s[j + 1..k - 1]) && s[k - 1] == '{'
         && (forall p :: 0 <= p < |g| ==> g[p] != '}')
         && k + |g| < |s| && s[k + |g|] == '}'
       case _ =>
         && AllSpace(s[j + 1..k]) && AllWord(g)
         && (k + |g| == |s| || !IsWordChar(s[k + |g|]))
  }

  ghost predicate FieldLaidOut(f: Field, s: string, i: nat, j: nat, k: nat, g: string) {
    HeadLaidOut(f, s, i, j) && ValueLaidOut(f, s, j, k, g)
  }

  /** The value matcher captures exactly what the layout describes. */
  lemma ValueSound(f: Field, s: string, j: nat, g: string)
    requires j < |s|
    requires ValueAt(f, s, SkipSpace(s, j + 1)) == Some(g)
    ensures exists k: nat :: ValueLaidOut(f, s, j, k, g)
  {
    var k0 := SkipSpace(s, j + 1);
    if f.TrainerName? {
      assert ValueLaidOut(f, s, j, k0 + 1, g);
    } else {
      assert ValueLaidOut(f, s, j, k0, g);
    }
  }

  lemma ValueComplete(f: Field, s: string, j: nat, k: nat, g: string)
    requires ValueLaidOut(f, s, j, k, g)
    ensures ValueAt(f, s, SkipSpace(s, j + 1)) == Some(g)
  {
    var e := k + |g|;
    if f.TrainerName? {
      SkipSpaceAt(s, j + 1, k - 1);
      assert forall p :: 0 <= p < e - k ==> s[k..e][p] == g[p];
      UntilAt(s, k, '}', e);
    } else {
      assert g[0] == s[k];
      WordCharIsNotSpace(s[k]);
      SkipSpaceAt(s, j + 1, k);
      WordEndAt(s, k, e);
    }
  }

  /** The matcher captures `g` at `i` exactly when the text there is laid out as
      the pattern describes. */
  lemma FieldAtIff(f: Field, s: string, i: nat, g: string)
    ensures FieldAt(f, s, i) == Some(g) <==> exists j: nat, k: nat :: FieldLaidOut(f, s, i, j, k, g)
  {
    if FieldAt(f, s, i) == Some(g) {
      FieldSound(f, s, i, g);
    }
    if exists j: nat, k: nat :: FieldLaidOut(f, s, i, j, k, g) {
      var j: nat, k: nat :| FieldLaidOut(f, s, i, j, k, g);
      FieldComplete(f, s, i, j, k, g);
    }
  }

  lemma HeadSound(f: Field, s: string, i: nat)
    requires HeadAt(f, s, i).Some?
    ensures HeadLaidOut(f, s, i, HeadAt(f, s, i).value)
  {
  }

  lemma HeadComplete(f: Field, s: string, i: nat, j: nat)
    requires HeadLaidOut(f, s, i, j)
    ensures HeadAt(f, s, i) == Some(j)
  {
    var lit := f.Literal();
    SkipSpaceAt(s, i + |lit|, j);
  }

  lemma FieldSound(f: Field, s: string, i: nat, g: string)
    requires FieldAt(f, s, i) == Some(g)
    ensures exists j: nat, k: nat :: FieldLaidOut(f, s, i, j, k, g)
  {
    var j := HeadAt(f, s, i).value;
    HeadSound(f, s, i);
    ValueSound(f, s, j, g);
    var k: nat :| ValueLaidOut(f, s, j, k, g);
    assert FieldLaidOut(f, s, i, j, k, g);
  }

  lemma FieldComplete(f: Field, s: string, i: nat, j: nat, k: nat, g: string)
    requires FieldLaidOut(f, s, i, j, k, g)
    ensures FieldAt(f, s, i) == Some(g)
  {
    HeadComplete(f, s, i, j);
    ValueComplete(f, s, j, k, g);
  }

  /** No field pattern starts at or past the end of the text. */
  lemma NoFieldPastEnd(f: Field, s: string)
    ensures forall p: nat :: |s| <= p ==> FieldAt(f, s, p).None?
  { }

  /** The leftmost position at or after `i` where a field pattern matches. */
  function FieldSearchFrom(f: Field, s: string, i: nat): (r: Option<nat>)
    requires i <= |s|
    ensures r.Some? ==> i <= r.value < |s| && FieldAt(f, s, r.value).Some?
    ensures r.Some? ==> forall p: nat :: i <= p < r.value ==> FieldAt(f, s, p).None?
    ensures r.None? ==> forall p: nat :: i <= p ==> FieldAt(f, s, p).None?
    decreases |s| - i
  {
    if i == |s| then NoFieldPastEnd(f, s); None
    else if FieldAt(f, s, i).Some? then Some(i)
    else FieldSearchFrom(f, s, i + 1)
  }

  /** `re.search(<field pattern>, body)` and its `group(1)`: the value captured by
      the leftmost match, if any. */
  function FieldSearch(f: Field, body: string): (r: Option<string>)
    ensures r.None? <==> forall i: nat, j: nat, k: nat, g: string :: !FieldLaidOut(f, body, i, j, k, g)
  {
    FieldSearchNone(f, body);
    match FieldSearchFrom(f, body, 0)
    case Some(p) => FieldAt(f, body, p)
    case None => None
  }

  /** The search finds nothing exactly when the field is laid out nowhere in the body. */
  lemma FieldSearchNone(f: Field, body: string)
    ensures FieldSearchFrom(f, body, 0).None? <==>
              forall i: nat, j: nat, k: nat, g: string :: !FieldLaidOut(f, body, i, j, k, g)
  {
    var r := FieldSearchFrom(f, body, 0);
    if r.Some? {
      var g := FieldAt(f, body, r.value).value;
      FieldSound(f, body, r.value, g);
    } else {
      forall i: nat, j: nat, k: nat, g: string
        ensures !FieldLaidOut(f, body, i, j, k, g)
      {
        if FieldLaidOut(f, body, i, j, k, g) {
          FieldComplete(f, body, i, j, k, g);
        }
      }
    }
  }

  /** What a search finds is well delimited: a name value holds no `}`; a class or
      picture value is a non-empty run of word characters. */
  lemma FieldValueShape(f: Field, body: string)
    ensures FieldSearch(f, body).Some? ==> |FieldSearch(f, body).value| > 0
    ensures f.TrainerName? && FieldSearch(f, body).Some? ==>
              forall p :: 0 <= p < |FieldSearch(f, body).value| ==> FieldSearch(f, body).value[p] != '}'
    ensures !f.TrainerName? && FieldSearch(f, body).Some? ==> AllWord(FieldSearch(f, body).value)
  {
    var r := FieldSearchFrom(f, body, 0);
    if r.Some? {
      FieldAtIff(f, body, r.value, FieldSearch(f, body).value);
    }
  }
}
