/** The vocabulary store (backend/words/database_functions.py over the schema
    of backend/words/models.py) with the database replaced by a value: the
    `Word` rows, the symmetric synonym links between their ids, and the next
    id to hand out. Every save stamps `last_seen` with the time `now` given
    to the operation, as the field's `auto_now` option does, and checks the
    table's two uniqueness constraints. */
module WordStore {
  import opened Wrappers
  import opened Seqs

  // ---- the schema ----

  /** The values of the `Languages` choices, in declaration order. */
  const Languages: seq<string> := ["en", "es", "fr", "de", "it", "pt", "ru", "zh", "ja", "ko"]

  /** A `Word` row. The float `p` is left out. */
  datatype Word = Word(id: nat, word: string, language: string, difficulty: int, strength: int, lastSeen: int)

  /** A new row with the field defaults: difficulty 0 and strength 0. */
  function Fresh(id: nat, word: string, language: string, now: int): (w: Word)
    ensures w.id == id && w.word == word && w.language == language
    ensures w.difficulty == 0 && w.strength == 0 && w.lastSeen == now
  {
    Word(id, word, language, 0, 0, now)
  }

  datatype Db = Db(rows: seq<Word>, links: set<(nat, nat)>, nextId: nat)

  function Ids(rows: seq<Word>): set<nat> {
    set w | w in rows :: w.id
  }

  /** `unique_together` on `(word, language)`. */
  predicate KeyClash(a: Word, b: Word) {
    a.word == b.word && a.language == b.language
  }

  /** `unique_together` on `(difficulty, language)`. */
  predicate RankClash(a: Word, b: Word) {
    a.difficulty == b.difficulty && a.language == b.language
  }

  /** Two different rows may live side by side. */
  predicate Compatible(a: Word, b: Word) {
    a.id != b.id && !KeyClash(a, b) && !RankClash(a, b)
  }

  /** Links join existing, different rows and come in both directions, as
      the symmetrical many-to-many through `Synonym` stores them. */
  predicate LinksOk(rows: seq<Word>, links: set<(nat, nat)>) {
    forall p :: p in links ==> p.0 != p.1 && (p.1, p.0) in links && p.0 in Ids(rows) && p.1 in Ids(rows)
  }

  /** A database the constraints allow. */
  predicate Valid(db: Db) {
    Distinct(db.rows)
    && (forall a, b :: a in db.rows && b in db.rows && a != b ==> Compatible(a, b))
    && (forall w :: w in db.rows ==> w.id < db.nextId)
    && LinksOk(db.rows, db.links)
  }

  function Empty(): (db: Db)
    ensures Valid(db) && db.rows == []
  {
    Db([], {}, 0)
  }

  // ---- errors ----

  datatype Error =
    | ValueError(message: string)
    | LookupError(message: string)
    | IntegrityError(constraint: string)

  const KeyConstraint := "UNIQUE constraint failed: words_word.word, words_word.language"
  const RankConstraint := "UNIQUE constraint failed: words_word.difficulty, words_word.language"
  const ForeignKey := "FOREIGN KEY constraint failed"

  // ---- assert_valid_language ----

  /** The message lists the values as Python prints a list of strings. */
  function InvalidLanguage(language: string): string {
    "Invalid language '" + language
      + "'. Must be one of ['en', 'es', 'fr', 'de', 'it', 'pt', 'ru', 'zh', 'ja', 'ko']."
  }

  /** `assert_valid_language`: no error exactly for the ten codes. */
  function CheckLanguage(language: string): (r: Option<Error>)
    ensures r.None? <==> language in Languages
    ensures r.Some? ==> r.value.ValueError?
  {
    if language in Languages then None else Some(ValueError(InvalidLanguage(language)))
  }

  // ---- Model.save ----

  /** The first row other than `w`'s own that `w` would clash with, by the
      order the constraints are declared in. */
  function Clash(rows: seq<Word>, w: Word): (r: Option<string>)
    ensures r.None? <==> forall x :: x in rows && x.id != w.id ==> !KeyClash(x, w) && !RankClash(x, w)
  {
    if exists x :: x in rows && x.id != w.id && KeyClash(x, w) then Some(KeyConstraint)
    else if exists x :: x in rows && x.id != w.id && RankClash(x, w) then Some(RankConstraint)
    else None
  }

  /** Position of the row with id `id`. */
  function IndexOf(rows: seq<Word>, id: nat): (r: Option<nat>)
    ensures r.Some? ==> r.value < |rows| && rows[r.value].id == id
    ensures r.None? <==> id !in Ids(rows)
  {
    if rows == [] then None
    else if rows[0].id == id then Some(0)
    else match IndexOf(rows[1..], id)
      case None =>
        assert forall x :: x in rows ==> x == rows[0] || x in rows[1..];
        None
      case Some(i) => Some(i + 1)
  }

  /** `word.save()`: an UPDATE of the row with the same id, or an INSERT
      when there is none, with `last_seen` set to `now`. */
  function Save(db: Db, w: Word, now: int): (r: Result<(Db, Word), Error>)
    ensures r.Failure? <==> Clash(db.rows, w).Some?
    ensures r.Failure? ==> r.error == IntegrityError(Clash(db.rows, w).value)
    ensures r.Success? ==> (r.value.1 == w.(lastSeen := now) && r.value.1 in r.value.0.rows
      && r.value.0.links == db.links && r.value.0.nextId >= db.nextId
      && Ids(r.value.0.rows) == Ids(db.rows) + {w.id}
      && forall x :: x in db.rows && x.id != w.id ==> x in r.value.0.rows)
  {
    var saved := w.(lastSeen := now);
    match Clash(db.rows, w)
    case Some(c) => Failure(IntegrityError(c))
    case None =>
      match IndexOf(db.rows, w.id)
      case Some(i) =>
        ReplaceKeeps(db.rows, i, saved);
        Success((db.(rows := db.rows[i := saved]), saved))
      case None =>
        var rows := db.rows + [saved];
        assert rows[|db.rows|] == saved;
        Success((Db(rows, db.links, if w.id < db.nextId then db.nextId else w.id + 1), saved))
  }

  /** Putting `w` in place of the row of the same id keeps every other row
      and every id. */
  lemma ReplaceKeeps(rows: seq<Word>, i: nat, w: Word)
    requires i < |rows| && rows[i].id == w.id
    ensures w in rows[i := w]
    ensures forall x :: x in rows && x.id != w.id ==> x in rows[i := w]
    ensures Ids(rows[i := w]) == Ids(rows)
  {
    var r := rows[i := w];
    assert r[i] == w;
    forall x | x in rows && x.id != w.id ensures x in r {
      var j :| 0 <= j < |rows| && rows[j] == x;
      assert r[j] == x;
    }
    forall id | id in Ids(rows) ensures id in Ids(r) {
      var x :| x in rows && x.id == id;
      if id == w.id { assert w in r; } else { assert x in r; }
    }
    forall id | id in Ids(r) ensures id in Ids(rows) {
      var x :| x in r && x.id == id;
      var j :| 0 <= j < |r| && r[j] == x;
      if j == i { assert rows[i].id == id; } else { assert rows[j] == x; }
    }
  }

  /** Saving keeps the constraints. */
  lemma SaveValid(db: Db, w: Word, now: int)
    ensures Valid(db) && Save(db, w, now).Success? ==> Valid(Save(db, w, now).value.0)
  {
    if Valid(db) && Save(db, w, now).Success? {
      var saved := w.(lastSeen := now);
      var rows := Save(db, w, now).value.0.rows;
      match IndexOf(db.rows, w.id)
      case Some(i) =>
        assert rows == db.rows[i := saved];
        ReplaceMembers(db.rows, i, saved);
      case None =>
        assert rows == db.rows + [saved];
        DistinctSnoc(db.rows, saved);
    }
  }

  /** Replacing one entry of a sequence without repeats: the other entries
      stay, the old one goes, and there are still no repeats when the new
      entry is not among the others. */
  lemma ReplaceMembers(rows: seq<Word>, i: nat, w: Word)
    requires i < |rows| && Distinct(rows)
    requires forall x :: x in rows && x.id != w.id ==> !KeyClash(x, w) && !RankClash(x, w)
    requires rows[i].id == w.id
    requires forall a, b :: a in rows && b in rows && a != b ==> Compatible(a, b)
    ensures Distinct(rows[i := w])
    ensures forall x :: x in rows[i := w] ==> x == w || (x in rows && x != rows[i] && x.id != w.id)
  {
    var r := rows[i := w];
    forall x | x in r ensures x == w || (x in rows && x != rows[i] && x.id != w.id) {
      var j :| 0 <= j < |r| && r[j] == x;
      if j != i {
        assert x == rows[j] && rows[j] != rows[i];
        assert rows[j] in rows && rows[i] in rows;
      }
    }
    forall p, q | 0 <= p < q < |r| ensures r[p] != r[q] {
      if p != i && q != i {
        assert r[p] == rows[p] && r[q] == rows[q];
      } else if p == i {
        assert r[q] == rows[q] && rows[q] != rows[i];
        assert rows[q] in rows && rows[i] in rows;
      } else {
        assert r[p] == rows[p] && rows[p] != rows[i];
        assert rows[p] in rows && rows[i] in rows;
      }
    }
  }

  // ---- update_or_create_word ----

  /** The row keyed by `(word, language)`. */
  function FindKey(rows: seq<Word>, word: string, language: string): (r: Option<nat>)
    ensures r.Some? ==> r.value < |rows| && rows[r.value].word == word && rows[r.value].language == language
    ensures r.None? <==> forall x :: x in rows ==> x.word != word || x.language != language
  {
    if rows == [] then None
    else if rows[0].word == word && rows[0].language == language then Some(0)
    else match FindKey(rows[1..], word, language)
      case None =>
        assert forall x :: x in rows ==> x == rows[0] || x in rows[1..];
        None
      case Some(i) => Some(i + 1)
  }

  /** `update_or_create_word(word, language, strength, last_seen)`: the
      language is checked, then the row keyed by `(word, language)` gets the
      new strength, or a new row is made with the field defaults. The
      `last_seen` argument is passed on only when truthy, and the field's
      `auto_now` overwrites it on every save either way, so it has no
      effect. The flag says whether a row was created. */
  function Upsert(db: Db, word: string, language: string, strength: int, lastSeen: Option<int>, now: int)
    : (r: Result<(Db, Word, bool), Error>)
    ensures CheckLanguage(language).Some? ==> r == Failure(CheckLanguage(language).value)
    ensures r.Success? ==> var (db', w, created) := r.value;
      w in db'.rows && w.word == word && w.language == language && w.strength == strength && w.lastSeen == now
      && db'.links == db.links
      && (created <==> forall x :: x in db.rows ==> !KeyClash(x, w))
      && (created ==> w.difficulty == 0 && w.id == db.nextId)
      && (forall x :: x in db.rows && x.id != w.id ==> x in db'.rows)
    ensures r.Failure? && CheckLanguage(language).None? ==> r.error.IntegrityError?
  {
    if CheckLanguage(language).Some? then Failure(CheckLanguage(language).value)
    else match FindKey(db.rows, word, language)
      case Some(i) =>
        var (db', w) :- Save(db, db.rows[i].(strength := strength), now);
        assert KeyClash(db.rows[i], w);
        Success((db', w, false))
      case None =>
        var (db', w) :- Save(db, Fresh(db.nextId, word, language, now).(strength := strength), now);
        Success((db', w, true))
  }

  /** In a valid database, upserting keeps the constraints. With a valid
      language it fails exactly when the word is new and its language
      already holds a row of difficulty 0, the default every new row takes. */
  lemma UpsertValid(db: Db, word: string, language: string, strength: int, lastSeen: Option<int>, now: int)
    requires Valid(db)
    ensures var r := Upsert(db, word, language, strength, lastSeen, now);
      r.Success? ==> Valid(r.value.0) && r.value.0.nextId >= db.nextId
    ensures var r := Upsert(db, word, language, strength, lastSeen, now);
      CheckLanguage(language).None? ==> (r.Failure? <==> (FindKey(db.rows, word, language).None?
        && exists x :: x in db.rows && x.language == language && x.difficulty == 0))
    ensures var r := Upsert(db, word, language, strength, lastSeen, now);
      r.Failure? && CheckLanguage(language).None? ==> r.error == IntegrityError(RankConstraint)
  {
    if CheckLanguage(language).None? {
      match FindKey(db.rows, word, language)
      case Some(i) =>
        SaveValid(db, db.rows[i].(strength := strength), now);
        NoClashWithSelf(db, db.rows[i], db.rows[i].(strength := strength));
        assert db.rows[i] in db.rows;
      case None =>
        var w := Fresh(db.nextId, word, language, now).(strength := strength);
        SaveValid(db, w, now);
        if exists x :: x in db.rows && x.language == language && x.difficulty == 0 {
          var x :| x in db.rows && x.language == language && x.difficulty == 0;
          assert x.id != w.id && RankClash(x, w);
        }
    }
  }

  /** The `last_seen` argument changes nothing. */
  lemma LastSeenIgnored(db: Db, word: string, language: string, strength: int, a: Option<int>, b: Option<int>, now: int)
    ensures Upsert(db, word, language, strength, a, now) == Upsert(db, word, language, strength, b, now)
  {}

  /** Since `difficulty` defaults to 0 and `(difficulty, language)` is
      unique, a language that already holds a row of difficulty 0 accepts
      no new word: only updates of existing words succeed. */
  lemma OneNewWordPerLanguage(db: Db, word: string, language: string, strength: int, lastSeen: Option<int>, now: int)
    requires Valid(db)
    requires exists x :: x in db.rows && x.language == language && x.difficulty == 0
    ensures var r := Upsert(db, word, language, strength, lastSeen, now);
      r.Success? ==> !r.value.2
  {
    UpsertValid(db, word, language, strength, lastSeen, now);
  }

  // ---- get_word ----

  /** Python truthiness of an optional string: `None` and `""` are false. */
  predicate Truthy(language: Option<string>) {
    language.Some? && language.value != ""
  }

  /** `Word.objects.filter(word=word)`, narrowed to a language when given. */
  function Matches(rows: seq<Word>, word: string, language: Option<string>): (q: seq<Word>)
    ensures forall x :: x in q <==> x in rows && x.word == word && (language.Some? ==> x.language == language.value)
    ensures Distinct(rows) ==> Distinct(q)
  {
    if rows == [] then []
    else
      var rest := Matches(rows[1..], word, language);
      assert forall x :: x in rows <==> x == rows[0] || x in rows[1..];
      if rows[0].word == word && (language.Some? ==> rows[0].language == language.value) then
        KeepHead(rows, rest);
        [rows[0]] + rest
      else
        TailDistinct(rows);
        rest
  }

  /** A filter that keeps the head of a sequence without repeats, and some
      of its tail without repeats, has no repeats. */
  lemma KeepHead(rows: seq<Word>, rest: seq<Word>)
    requires rows != [] && forall x :: x in rest ==> x in rows[1..]
    ensures Distinct(rows) && Distinct(rest) ==> Distinct([rows[0]] + rest)
  {
    if Distinct(rows) && Distinct(rest) {
      DistinctCons(rows);
      DistinctCons([rows[0]] + rest);
      assert ([rows[0]] + rest)[1..] == rest;
    }
  }

  lemma TailDistinct(rows: seq<Word>)
    requires rows != []
    ensures Distinct(rows) ==> Distinct(rows[1..])
  {
    DistinctCons(rows);
  }

  const MultipleWords := "Multiple words found, please specify a language."

  /** `get_word(word, language)`. A falsy language skips both the check and
      the filter, but only `None` selects the shorter message. */
  function GetWord(db: Db, word: string, language: Option<string>): (r: Result<Word, Error>)
    ensures Truthy(language) && CheckLanguage(language.value).Some? ==> r == Failure(CheckLanguage(language.value).value)
    ensures r.Success? <==> ((!Truthy(language) || language.value in Languages)
      && |Matches(db.rows, word, if Truthy(language) then language else None)| == 1)
    ensures r.Success? ==> (r.value in db.rows && r.value.word == word
      && (Truthy(language) ==> r.value.language == language.value))
    ensures r.Failure? && r.error.LookupError? ==> r.error.message == MultipleWords
    ensures (!Truthy(language) || language.value in Languages) ==>
      var q := Matches(db.rows, word, if Truthy(language) then language else None);
      (|q| > 1 ==> r == Failure(LookupError(MultipleWords)))
      && (|q| == 0 && language.None? ==> r == Failure(ValueError("Word '" + word + "' does not exist.")))
      && (|q| == 0 && language.Some? ==>
            r == Failure(ValueError("Word '" + word + "' in language '" + language.value + "' does not exist.")))
  {
    var filter := if Truthy(language) then language else None;
    if Truthy(language) && CheckLanguage(language.value).Some? then Failure(CheckLanguage(language.value).value)
    else
      var q := Matches(db.rows, word, filter);
      if |q| > 1 then Failure(LookupError(MultipleWords))
      else if |q| == 0 && language == None then Failure(ValueError("Word '" + word + "' does not exist."))
      else if |q| == 0 then Failure(ValueError("Word '" + word + "' in language '" + language.value + "' does not exist."))
      else Success(q[0])
  }

  /** A row `get_word(word, language)` looks for. */
  predicate Hit(x: Word, word: string, language: Option<string>) {
    x.word == word && (Truthy(language) ==> x.language == language.value)
  }

  /** Over rows without repeats and with an acceptable language, the lookup
      says "does not exist" exactly when no row is sought, "multiple words"
      exactly when two different rows are, and otherwise finds the only
      one. */
  lemma GetWordOutcomes(db: Db, word: string, language: Option<string>)
    requires Distinct(db.rows) && (!Truthy(language) || language.value in Languages)
    ensures var r := GetWord(db, word, language);
      (r.Failure? && r.error.ValueError? <==> forall x :: x in db.rows ==> !Hit(x, word, language))
      && (r == Failure(LookupError(MultipleWords)) <==>
            exists x, y :: x in db.rows && y in db.rows && x != y && Hit(x, word, language) && Hit(y, word, language))
      && (r.Success? ==> forall x :: x in db.rows && Hit(x, word, language) ==> x == r.value)
  {
    var q := Matches(db.rows, word, if Truthy(language) then language else None);
    assert forall x :: x in q <==> x in db.rows && Hit(x, word, language);
    if |q| > 1 {
      assert q[0] in q && q[1] in q;
      assert q[0] != q[1];
    } else if |q| == 1 {
      assert q[0] in q;
      assert forall x :: x in q ==> x == q[0];
    } else {
      assert forall x :: x !in q;
    }
  }

  /** With a language given, at most one row matches, so the "multiple
      words" error can only come from a lookup without one. */
  lemma NoAmbiguityWithLanguage(db: Db, word: string, language: string)
    requires Valid(db) && language != ""
    ensures |Matches(db.rows, word, Some(language))| <= 1
    ensures !(GetWord(db, word, Some(language)).Failure? && GetWord(db, word, Some(language)).error.LookupError?)
  {
    var q := Matches(db.rows, word, Some(language));
    if |q| > 1 {
      assert q[0] in db.rows && q[1] in db.rows && q[0] != q[1];
      assert KeyClash(q[0], q[1]);
      assert false;
    }
  }

  /** The same word in two languages makes a lookup without a language fail
      with the "multiple words" error. */
  lemma AmbiguousWithoutLanguage(db: Db, a: Word, b: Word)
    requires Valid(db) && a in db.rows && b in db.rows && a.word == b.word && a.language != b.language
    ensures GetWord(db, a.word, None) == Failure(LookupError(MultipleWords))
  {
    var q := Matches(db.rows, a.word, None);
    assert a in q && b in q;
  }

  // ---- remove_word ----

  /** The rows without the one of id `id`. */
  function Without(rows: seq<Word>, id: nat): (r: seq<Word>)
    ensures forall x :: x in r <==> x in rows && x.id != id
    ensures Distinct(rows) ==> Distinct(r)
    ensures |r| <= |rows|
  {
    if rows == [] then []
    else
      var rest := Without(rows[1..], id);
      assert forall x :: x in rows <==> x == rows[0] || x in rows[1..];
      if rows[0].id == id then
        TailDistinct(rows);
        rest
      else
        KeepHead(rows, rest);
        [rows[0]] + rest
  }

  /** `word.delete()`: the row goes, and its links with it (`CASCADE`). */
  function Delete(db: Db, id: nat): (r: Db)
    ensures forall x :: x in r.rows <==> x in db.rows && x.id != id
    ensures forall p :: p in r.links <==> p in db.links && p.0 != id && p.1 != id
    ensures Valid(db) ==> Valid(r)
  {
    var r := Db(Without(db.rows, id), (set p | p in db.links && p.0 != id && p.1 != id), db.nextId);
    assert Valid(db) ==> LinksOk(r.rows, r.links) by {
      if Valid(db) {
        forall p | p in r.links ensures p.0 in Ids(r.rows) && p.1 in Ids(r.rows) {
          var x :| x in db.rows && x.id == p.0;
          var y :| y in db.rows && y.id == p.1;
          assert x in r.rows && y in r.rows;
        }
      }
    }
    r
  }

  /** `remove_word(word, language)`: exactly the row `get_word` finds is
      deleted, and its errors pass through. */
  function RemoveWord(db: Db, word: string, language: Option<string>): (r: Result<Db, Error>)
    ensures r.Failure? <==> GetWord(db, word, language).Failure?
    ensures r.Failure? ==> r.error == GetWord(db, word, language).error
    ensures r.Success? ==> var w := GetWord(db, word, language).value;
      w !in r.value.rows
      && (forall x :: x in db.rows && x.id != w.id ==> x in r.value.rows)
      && (forall x :: x in r.value.rows ==> x in db.rows)
      && (forall p :: p in r.value.links ==> p.0 != w.id && p.1 != w.id)
  {
    var w :- GetWord(db, word, language);
    Success(Delete(db, w.id))
  }

  // ---- create_synonym ----

  const SelfSynonym := "A word cannot be a synonym of itself."

  /** The database after a call that may have raised part-way: the saves
      already done stay done. `word` is the caller's word object afterwards:
      its save stamps `last_seen` on the object before writing, so the
      stamp stays even when the write fails. */
  datatype Outcome = Outcome(db: Db, word: Word, error: Option<Error>)

  /** `create_synonym(word, synonym)`: two objects are the same word when
      their ids are equal. Both are saved, a failing save being ignored (and
      skipping the ones after it), then the link is added in both
      directions; adding an existing link changes nothing. */
  function CreateSynonym(db: Db, w: Word, s: Word, now: int): (r: Outcome)
    ensures w.id == s.id ==> r == Outcome(db, w, Some(ValueError(SelfSynonym)))
    ensures w.id != s.id ==> r.word == w.(lastSeen := now)
    ensures Valid(db) && w in db.rows && w.id != s.id ==> r.word in r.db.rows
    ensures r.db.links >= db.links
    ensures r.error.None? <==> w.id != s.id && w.id in Ids(r.db.rows) && s.id in Ids(r.db.rows)
    ensures r.error.None? ==> r.db.links == db.links + {(w.id, s.id), (s.id, w.id)}
    ensures Valid(db) ==> Valid(r.db)
  {
    if w.id == s.id then Outcome(db, w, Some(ValueError(SelfSynonym)))
    else
      var saved := SaveBoth(db, w, s, now);
      if w.id in Ids(saved.rows) && s.id in Ids(saved.rows) then
        Outcome(saved.(links := saved.links + {(w.id, s.id), (s.id, w.id)}), w.(lastSeen := now), None)
      else Outcome(saved, w.(lastSeen := now), Some(IntegrityError(ForeignKey)))
  }

  /** `word.save(); synonym.save()` inside a `try` that ignores errors. */
  function SaveBoth(db: Db, w: Word, s: Word, now: int): (r: Db)
    ensures r.links == db.links
    ensures Ids(db.rows) <= Ids(r.rows)
    ensures Valid(db) ==> Valid(r)
    ensures Valid(db) && w in db.rows && s.id != w.id ==> w.(lastSeen := now) in r.rows
  {
    SaveValid(db, w, now);
    StoredSaves(db, w);
    match Save(db, w, now)
    case Failure(_) => db
    case Success((db1, _)) =>
      SaveValid(db1, s, now);
      match Save(db1, s, now)
      case Failure(_) => db1
      case Success((db2, _)) => db2
  }

  /** Saving a stored row unchanged clashes with nothing. */
  lemma StoredSaves(db: Db, w: Word)
    ensures Valid(db) && w in db.rows ==> Clash(db.rows, w).None?
  {
    if Valid(db) && w in db.rows {
      NoClashWithSelf(db, w, w);
    }
  }

  // ---- dec_strength / inc_strength ----

  /** `dec_strength(word, ammount)`: only a positive strength is lowered and
      saved; the result is the word as it stands afterwards. */
  function DecStrength(db: Db, w: Word, amount: int, now: int): (r: Result<(Db, Word), Error>)
    ensures w.strength <= 0 ==> r == Success((db, w))
    ensures w.strength > 0 ==> r == Save(db, w.(strength := w.strength - amount), now)
    ensures r.Success? ==> r.value.1.strength == (if w.strength > 0 then w.strength - amount else w.strength)
  {
    if w.strength > 0 then Save(db, w.(strength := w.strength - amount), now)
    else Success((db, w))
  }

  /** `inc_strength(word, ammount)`: only a strength below 5 is raised. */
  function IncStrength(db: Db, w: Word, amount: int, now: int): (r: Result<(Db, Word), Error>)
    ensures w.strength >= 5 ==> r == Success((db, w))
    ensures w.strength < 5 ==> r == Save(db, w.(strength := w.strength + amount), now)
    ensures r.Success? ==> r.value.1.strength == (if w.strength < 5 then w.strength + amount else w.strength)
  {
    if w.strength < 5 then Save(db, w.(strength := w.strength + amount), now)
    else Success((db, w))
  }

  /** Steps of one keep a strength within 0..5, and move it by one when
      there is room. */
  lemma StrengthStaysInRange(db: Db, w: Word, now: int)
    requires Valid(db) && w in db.rows && 0 <= w.strength <= 5
    ensures DecStrength(db, w, 1, now).Success? && IncStrength(db, w, 1, now).Success?
    ensures var d := DecStrength(db, w, 1, now).value.1.strength;
      0 <= d <= 5 && (w.strength > 0 ==> d == w.strength - 1)
    ensures var i := IncStrength(db, w, 1, now).value.1.strength;
      0 <= i <= 5 && (w.strength < 5 ==> i == w.strength + 1)
  {
    NoClashWithSelf(db, w, w.(strength := w.strength - 1));
    NoClashWithSelf(db, w, w.(strength := w.strength + 1));
  }

  /** A stored row with only its strength changed clashes with no other. */
  lemma NoClashWithSelf(db: Db, w: Word, w': Word)
    requires Valid(db) && w in db.rows
    requires w'.id == w.id && w'.word == w.word && w'.language == w.language && w'.difficulty == w.difficulty
    ensures Clash(db.rows, w').None?
  {
    forall x | x in db.rows && x.id != w'.id ensures !KeyClash(x, w') && !RankClash(x, w') {
      assert x != w && Compatible(x, w);
    }
  }

  // ---- update_word_synonyms ----

  /** `a` lists some of the entries of `b`, in the same order. */
  predicate Subsequence(a: seq<string>, b: seq<string>)
    decreases |b|
  {
    if a == [] then true
    else if b == [] then false
    else (a[0] == b[0] && Subsequence(a[1..], b[1..])) || Subsequence(a, b[1..])
  }

  function WordsOf(ws: seq<Word>): (r: seq<string>)
    ensures |r| == |ws| && forall i :: 0 <= i < |ws| ==> r[i] == ws[i].word
  {
    if ws == [] then [] else [ws[0].word] + WordsOf(ws[1..])
  }

  /** The string is the word itself, in its own language. */
  predicate SameKey(w: Word, syn: string, synLanguage: string) {
    syn == w.word && synLanguage == w.language
  }

  /** The loop of `update_word_synonyms` over the synonym strings: each is
      upserted with strength 0 in `synLanguage` and linked to `w`; a string
      whose upsert or link raises is skipped, but the upsert's changes stay.
      The linked synonyms are returned in input order, with the word object
      as the loop leaves it: stamped once a link has saved it. Unless one
      of the strings is the word itself, which the upsert rewrites behind
      the object's back, the object is the stored row. */
  function LinkAll(db: Db, w: Word, syns: seq<string>, synLanguage: string, now: int): (r: (Db, seq<Word>, Word))
    decreases |syns|
    ensures r.2 == w || r.2 == w.(lastSeen := now)
    ensures r.1 != [] ==> r.2 == w.(lastSeen := now)
    ensures Valid(db) && w in db.rows && (forall i :: 0 <= i < |syns| ==> !SameKey(w, syns[i], synLanguage))
      ==> r.2 in r.0.rows
    ensures r.0.links >= db.links
    ensures Valid(db) ==> Valid(r.0)
    ensures |r.1| <= |syns| && Subsequence(WordsOf(r.1), syns)
    ensures forall s :: s in r.1 ==> s.language == synLanguage && s.id != w.id && (w.id, s.id) in r.0.links
  {
    if syns == [] then (db, [], w)
    else
      var (db1, linked, w1) := LinkOne(db, w, syns[0], synLanguage, now);
      var rest := LinkAll(db1, w1, syns[1..], synLanguage, now);
      assert w1.id == w.id && w1.word == w.word && w1.language == w.language;
      assert (forall i :: 0 <= i < |syns| ==> !SameKey(w, syns[i], synLanguage))
        ==> forall i :: 0 <= i < |syns[1..]| ==> !SameKey(w1, syns[1..][i], synLanguage);
      match linked
      case Some(s) =>
        ConsSub(syns, WordsOf(rest.1));
        assert WordsOf([s] + rest.1) == [syns[0]] + WordsOf(rest.1);
        (rest.0, [s] + rest.1, rest.2)
      case None =>
        SkipOne(WordsOf(rest.1), syns);
        rest
  }

  /** One turn of that loop: the synonym linked, if any, and the word
      object, stamped when the link got as far as saving it. */
  function LinkOne(db: Db, w: Word, syn: string, synLanguage: string, now: int): (r: (Db, Option<Word>, Word))
    ensures r.2 == w || r.2 == w.(lastSeen := now)
    ensures r.1.Some? ==> r.2 == w.(lastSeen := now)
    ensures Valid(db) && w in db.rows && !SameKey(w, syn, synLanguage) ==> r.2 in r.0.rows
    ensures r.0.links >= db.links
    ensures Valid(db) ==> Valid(r.0)
    ensures r.1.Some? ==> (r.1.value.word == syn && r.1.value.language == synLanguage
      && r.1.value.id != w.id && (w.id, r.1.value.id) in r.0.links)
  {
    match Upsert(db, syn, synLanguage, 0, None, now)
    case Failure(_) => (db, None, w)
    case Success((db1, s, _)) =>
      UpsertKeepsValid(db, syn, synLanguage, now);
      UpsertSpares(db, syn, synLanguage, now, w);
      var o := CreateSynonym(db1, w, s, now);
      (o.db, if o.error.None? then Some(s) else None, o.word)
  }

  /** Upserting another key leaves a stored row where it is. */
  lemma UpsertSpares(db: Db, syn: string, synLanguage: string, now: int, w: Word)
    ensures var r := Upsert(db, syn, synLanguage, 0, None, now);
      Valid(db) && w in db.rows && !SameKey(w, syn, synLanguage) && r.Success? ==>
        r.value.1.id != w.id && w in r.value.0.rows
  {
    if Valid(db) && w in db.rows && !SameKey(w, syn, synLanguage) && CheckLanguage(synLanguage).None? {
      match FindKey(db.rows, syn, synLanguage)
      case Some(i) =>
        assert db.rows[i] in db.rows && db.rows[i] != w;
      case None =>
    }
  }

  lemma UpsertKeepsValid(db: Db, syn: string, synLanguage: string, now: int)
    ensures var r := Upsert(db, syn, synLanguage, 0, None, now);
      Valid(db) && r.Success? ==> Valid(r.value.0)
  {
    if Valid(db) {
      UpsertValid(db, syn, synLanguage, 0, None, now);
    }
  }

  /** Keeping the head of both sequences keeps a subsequence one. */
  lemma ConsSub(b: seq<string>, a: seq<string>)
    requires b != [] && Subsequence(a, b[1..])
    ensures Subsequence([b[0]] + a, b)
  {
    assert ([b[0]] + a)[1..] == a;
  }

  /** Dropping the head of the longer sequence keeps a subsequence one. */
  lemma SkipOne(a: seq<string>, b: seq<string>)
    requires b != [] && Subsequence(a, b[1..])
    ensures Subsequence(a, b)
  {}

  /** `update_word_synonyms(word_str, language, synonym_strs,
      synonym_language)`: the word must exist (the errors of `get_word` pass
      through); the word object and the synonyms linked are returned. The
      object differs from the row found at most in `last_seen`, stamped once
      a synonym is linked, and it is the stored row unless a synonym string
      is the word itself. */
  function UpdateWordSynonyms(db: Db, word: string, language: string, syns: seq<string>, synLanguage: string, now: int)
    : (r: Result<(Db, Word, seq<Word>), Error>)
    ensures r.Failure? <==> GetWord(db, word, Some(language)).Failure?
    ensures r.Failure? ==> r.error == GetWord(db, word, Some(language)).error
    ensures r.Success? ==> var (db', w, linked) := r.value; var found := GetWord(db, word, Some(language)).value;
      (w == found || w == found.(lastSeen := now))
      && (linked != [] ==> w.lastSeen == now)
      && (Valid(db) && (forall i :: 0 <= i < |syns| ==> !SameKey(found, syns[i], synLanguage)) ==> w in db'.rows)
      && db'.links >= db.links && (Valid(db) ==> Valid(db'))
      && Subsequence(WordsOf(linked), syns)
      && forall s :: s in linked ==> s.language == synLanguage && s.id != w.id && (w.id, s.id) in db'.links
  {
    var w :- GetWord(db, word, Some(language));
    var (db', linked, w') := LinkAll(db, w, syns, synLanguage, now);
    Success((db', w', linked))
  }

  // ---- get_synonyms ----

  /** The order of `Meta.ordering = ["word"]`: strings compared character
      by character, a prefix first. */
  predicate WordLe(a: string, b: string)
    decreases |a|
  {
    a == [] || (b != [] && (a[0] < b[0] || (a[0] == b[0] && WordLe(a[1..], b[1..]))))
  }

  lemma {:induction false} WordLeTotal(a: string, b: string)
    ensures WordLe(a, b) || WordLe(b, a)
    decreases |a|
  {
    if a != [] && b != [] && a[0] == b[0] {
      WordLeTotal(a[1..], b[1..]);
    }
  }

  lemma {:induction false} WordLeTrans(a: string, b: string, c: string)
    requires WordLe(a, b) && WordLe(b, c)
    ensures WordLe(a, c)
    decreases |a|
  {
    if a != [] && b != [] && c != [] && a[0] == b[0] && b[0] == c[0] {
      WordLeTrans(a[1..], b[1..], c[1..]);
    }
  }

  predicate SortedByWord(ws: seq<Word>) {
    forall i, j :: 0 <= i < j < |ws| ==> WordLe(ws[i].word, ws[j].word)
  }

  /** `x` put into a sorted sequence before the first entry it does not
      come after. */
  function Insert(x: Word, ws: seq<Word>): (r: seq<Word>)
    requires SortedByWord(ws)
    ensures SortedByWord(r) && multiset(r) == multiset(ws) + multiset{x}
    ensures Distinct(ws) && x !in ws ==> Distinct(r)
  {
    if ws == [] then [x]
    else if WordLe(x.word, ws[0].word) then
      InsertFront(x, ws);
      [x] + ws
    else
      var rest := Insert(x, ws[1..]);
      InsertLater(x, ws, rest);
      [ws[0]] + rest
  }

  /** A first entry that comes before every other keeps a sorted sequence
      sorted. */
  lemma SortedCons(h: Word, t: seq<Word>)
    requires SortedByWord(t) && forall j :: 0 <= j < |t| ==> WordLe(h.word, t[j].word)
    ensures SortedByWord([h] + t)
  {
    var r := [h] + t;
    forall i, j | 0 <= i < j < |r| ensures WordLe(r[i].word, r[j].word) {
      assert r[j] == t[j - 1];
      if i > 0 { assert r[i] == t[i - 1]; }
    }
  }

  lemma InsertFront(x: Word, ws: seq<Word>)
    requires ws != [] && SortedByWord(ws) && WordLe(x.word, ws[0].word)
    ensures SortedByWord([x] + ws) && multiset([x] + ws) == multiset(ws) + multiset{x}
    ensures Distinct(ws) && x !in ws ==> Distinct([x] + ws)
  {
    forall j | 0 <= j < |ws| ensures WordLe(x.word, ws[j].word) {
      if j > 0 { WordLeTrans(x.word, ws[0].word, ws[j].word); }
    }
    SortedCons(x, ws);
    DistinctCons([x] + ws);
    assert ([x] + ws)[1..] == ws;
  }

  lemma InsertLater(x: Word, ws: seq<Word>, rest: seq<Word>)
    requires ws != [] && SortedByWord(ws) && !WordLe(x.word, ws[0].word)
    requires SortedByWord(rest) && multiset(rest) == multiset(ws[1..]) + multiset{x}
    requires Distinct(ws[1..]) && x !in ws[1..] ==> Distinct(rest)
    ensures SortedByWord([ws[0]] + rest) && multiset([ws[0]] + rest) == multiset(ws) + multiset{x}
    ensures Distinct(ws) && x !in ws ==> Distinct([ws[0]] + rest)
  {
    WordLeTotal(x.word, ws[0].word);
    assert ws == [ws[0]] + ws[1..];
    forall j | 0 <= j < |rest| ensures WordLe(ws[0].word, rest[j].word) {
      assert rest[j] in multiset(rest);
      if rest[j] != x {
        assert rest[j] in multiset(ws[1..]);
        var k :| 0 <= k < |ws[1..]| && ws[1..][k] == rest[j];
        assert ws[k + 1] == rest[j];
      }
    }
    SortedCons(ws[0], rest);
    DistinctCons(ws);
    if Distinct(ws) && x !in ws {
      assert ws[0] !in multiset(rest);
      DistinctCons([ws[0]] + rest);
      assert ([ws[0]] + rest)[1..] == rest;
    }
  }

  /** An insertion sort by word. */
  function SortByWord(ws: seq<Word>): (r: seq<Word>)
    ensures SortedByWord(r) && multiset(r) == multiset(ws)
    ensures Distinct(ws) ==> Distinct(r)
  {
    if ws == [] then []
    else
      var rest := SortByWord(ws[1..]);
      SortStep(ws, rest);
      Insert(ws[0], rest)
  }

  lemma SortStep(ws: seq<Word>, rest: seq<Word>)
    requires ws != [] && multiset(rest) == multiset(ws[1..])
    ensures multiset(rest) + multiset{ws[0]} == multiset(ws)
    ensures Distinct(ws) ==> ws[0] !in rest
  {
    assert ws == [ws[0]] + ws[1..];
    DistinctCons(ws);
    assert ws[0] in rest <==> ws[0] in multiset(rest);
  }

  /** The rows linked to id `id`, of one language when a truthy one is
      given, in row order. */
  function LinkedRows(rows: seq<Word>, links: set<(nat, nat)>, id: nat, language: Option<string>): (r: seq<Word>)
    ensures forall x :: x in r <==> (x in rows && (id, x.id) in links
      && (Truthy(language) ==> x.language == language.value))
    ensures Distinct(rows) ==> Distinct(r)
  {
    if rows == [] then []
    else
      var rest := LinkedRows(rows[1..], links, id, language);
      assert forall x :: x in rows <==> x == rows[0] || x in rows[1..];
      if (id, rows[0].id) in links && (Truthy(language) ==> rows[0].language == language.value) then
        KeepHead(rows, rest);
        [rows[0]] + rest
      else
        TailDistinct(rows);
        rest
  }

  /** `word.get_synonyms(language)`: the linked rows, of one language when a
      truthy one is given, each once, ordered by word. */
  function Synonyms(db: Db, w: Word, language: Option<string>): (r: seq<Word>)
    ensures forall x :: x in r <==> (x in db.rows && (w.id, x.id) in db.links
      && (Truthy(language) ==> x.language == language.value))
    ensures SortedByWord(r)
    ensures Distinct(db.rows) ==> Distinct(r)
  {
    var linked := LinkedRows(db.rows, db.links, w.id, language);
    var r := SortByWord(linked);
    assert forall x :: x in r <==> x in multiset(linked);
    r
  }

  /** The relation is symmetric: each of two linked rows lists the other. */
  lemma SynonymsSymmetric(db: Db, a: Word, b: Word)
    requires Valid(db) && a in db.rows && b in db.rows
    ensures b in Synonyms(db, a, None) <==> a in Synonyms(db, b, None)
  {
    if b in Synonyms(db, a, None) {
      assert (a.id, b.id) in db.links;
    }
    if a in Synonyms(db, b, None) {
      assert (b.id, a.id) in db.links;
    }
  }

  /** Linking two stored words makes each a synonym of the other. */
  lemma LinkedBothWays(db: Db, a: Word, b: Word, now: int)
    requires Valid(db) && a in db.rows && b in db.rows && a.id != b.id
    ensures var o := CreateSynonym(db, a, b, now);
      o.error.None? ==> ((forall x :: x in o.db.rows && x.id == b.id ==> x in Synonyms(o.db, a, None))
        && forall x :: x in o.db.rows && x.id == a.id ==> x in Synonyms(o.db, b, None))
  {}
}
