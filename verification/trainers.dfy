/** The trainer entry `parseTrainers` builds for each finished record, and the
    per-field extraction with its defaults. The three field searches run over the
    whole record body, independently of each other and of their order. */
module Trainers {
  import opened Text
  import opened Wrappers
  import opened Patterns
  import opened Decoder

  /** One dictionary of the list `parseTrainers` returns, with the keys `id`,
      `name`, `class` and `sprite`; `sprite` is `None` when the record names no
      picture. */
  datatype Trainer = Trainer(id: string, name: string, trainerClass: string, sprite: Option<string>)

  /** The displayed name: `"Unknown"` when the body has no `.trainerName = {...}`
      field, `"???"` when the field decodes to the empty text. */
  function NameOf(body: string): (name: string)
    ensures name != ""
  {
    match FieldSearch(TrainerName, body)
    case None => "Unknown"
    case Some(chars) =>
      var decoded := DecodeMacroName(chars);
      if decoded == "" then "???" else decoded
  }

  /** The class identifier, `"???"` when the body has no `.trainerClass` field. */
  function ClassOf(body: string): (c: string)
    ensures c == "???" <==> FieldSearch(TrainerClass, body).None?
  {
    FieldValueShape(TrainerClass, body);
    FieldSearch(TrainerClass, body).OrElse("???")
  }

  /** The picture file name: the lower-cased picture identifier with `.png`
      appended, `None` when the body has no `.trainerPic` field. */
  function SpriteOf(body: string): (sprite: Option<string>)
    ensures sprite.None? <==> FieldSearch(TrainerPic, body).None?
  {
    match FieldSearch(TrainerPic, body)
    case Some(pic) => Some(Lower(pic) + ".png")
    case None => None
  }

  /** The entry appended for a finished record: the identifier captured from its
      opening line, stripped, and the three fields extracted from its body. */
  function MakeTrainer(identifier: string, body: string): (t: Trainer)
    ensures t.id == Strip(identifier)
    ensures t.name != ""
    ensures t.trainerClass == "???" <==> FieldSearch(TrainerClass, body).None?
    ensures t.sprite.None? <==> FieldSearch(TrainerPic, body).None?
  {
    Trainer(Strip(identifier), NameOf(body), ClassOf(body), SpriteOf(body))
  }

  /** The class is the identifier the field names, or `"???"`; a real class is a
      run of word characters, so it is never mistaken for the default. */
  lemma ClassDefault(identifier: string, body: string)
    ensures FieldSearch(TrainerClass, body).Some? ==>
              MakeTrainer(identifier, body).trainerClass == FieldSearch(TrainerClass, body).value
    ensures var c := MakeTrainer(identifier, body).trainerClass;
            c == "???" || (|c| > 0 && AllWord(c))
  {
    FieldValueShape(TrainerClass, body);
  }

  /** A sprite, when there is one, is a non-empty lower-case word followed by `.png`. */
  lemma SpriteShape(identifier: string, body: string)
    ensures MakeTrainer(identifier, body).sprite.Some? ==>
              var file := MakeTrainer(identifier, body).sprite.value;
              var stem := file[..|file| - 4];
              && |file| > 4 && file[|file| - 4..] == ".png"
              && AllWord(stem)
              && forall k :: 0 <= k < |stem| ==> !('A' <= stem[k] <= 'Z')
  {
    FieldValueShape(TrainerPic, body);
    match FieldSearch(TrainerPic, body)
    case Some(pic) =>
      LowerWord(pic);
      PngSplit(Lower(pic));
    case None =>
  }

  /** Lowering a word keeps it a word and leaves no upper-case letter in it. */
  lemma LowerWord(w: string)
    requires AllWord(w)
    ensures AllWord(Lower(w))
    ensures forall k :: 0 <= k < |Lower(w)| ==> !('A' <= Lower(w)[k] <= 'Z')
  {
  }

  lemma PngSplit(stem: string)
    ensures var file := stem + ".png";
            file[..|file| - 4] == stem && file[|file| - 4..] == ".png"
  {
    var file := stem + ".png";
    assert file[..|file| - 4] == stem;
    assert file[|file| - 4..] == ".png";
  }

  /** A field found at `i` with nothing matching earlier is the field the search
      returns. */
  lemma FieldFound(f: Field, body: string, i: nat, j: nat, k: nat, g: string)
    requires FieldLaidOut(f, body, i, j, k, g)
    requires forall p: nat :: p < i ==> FieldAt(f, body, p).None?
    ensures FieldSearch(f, body) == Some(g)
  {
    FieldComplete(f, body, i, j, k, g);
  }

  /** A field laid out at `i`, with no match of its pattern earlier in the body. */
  ghost predicate FirstAt(f: Field, body: string, i: nat, j: nat, k: nat, g: string) {
    && FieldLaidOut(f, body, i, j, k, g)
    && forall p: nat :: p < i ==> FieldAt(f, body, p).None?
  }

  /** A field laid out nowhere in the body. */
  ghost predicate Absent(f: Field, body: string) {
    forall i: nat, j: nat, k: nat, g: string :: !FieldLaidOut(f, body, i, j, k, g)
  }

  /** The name shown for a record whose first name field holds the token text `g`:
      the decoded text, or `"???"` when it decodes to nothing. */
  lemma NameFound(identifier: string, body: string, i: nat, j: nat, k: nat, g: string)
    requires FirstAt(TrainerName, body, i, j, k, g)
    ensures MakeTrainer(identifier, body).name
         == (if DecodeMacroName(g) == "" then "???" else DecodeMacroName(g))
  {
    FieldFound(TrainerName, body, i, j, k, g);
  }

  /** The class shown for a record whose first class field names `g` is `g`. */
  lemma ClassFound(identifier: string, body: string, i: nat, j: nat, k: nat, g: string)
    requires FirstAt(TrainerClass, body, i, j, k, g)
    ensures MakeTrainer(identifier, body).trainerClass == g
  {
    FieldFound(TrainerClass, body, i, j, k, g);
  }

  /** The sprite of a record whose first picture field names `g` is `g` lower-cased
      with `.png` appended. */
  lemma SpriteFound(identifier: string, body: string, i: nat, j: nat, k: nat, g: string)
    requires FirstAt(TrainerPic, body, i, j, k, g)
    ensures MakeTrainer(identifier, body).sprite == Some(Lower(g) + ".png")
  {
    FieldFound(TrainerPic, body, i, j, k, g);
  }

  /** A record without a field gets that field's default: `"Unknown"` for the name,
      `"???"` for the class and no sprite. */
  lemma FieldsAbsent(identifier: string, body: string)
    ensures Absent(TrainerName, body) ==> MakeTrainer(identifier, body).name == "Unknown"
    ensures Absent(TrainerClass, body) ==> MakeTrainer(identifier, body).trainerClass == "???"
    ensures Absent(TrainerPic, body) ==> MakeTrainer(identifier, body).sprite.None?
  {
  }
}
