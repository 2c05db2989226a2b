/**
 * The REST handlers under `/characters`. Each handler is a transition from the store before
 * the request to an HTTP response and the store after it. A request body first goes through
 * the model (`ParseCharacter`); a body the model rejects is answered with 422 before the
 * handler runs. `ioOk` stands for whether the service's file operation succeeds.
 */
module CharactersApi {
  import opened Wrappers
  import opened CharacterModel
  import opened CharacterService
  import Ascii

  /** Status 200 carrying a body, or an `HTTPException` with its status and detail. */
  datatype Response<T> = Ok(body: T) | HttpError(status: int, detail: string) {
    function StatusCode(): int {
      if Ok? then 200 else status
    }
  }

  datatype Transition<T> = Transition(response: Response<T>, store: Store)

  const NotFound := "Character not found"
  const AlreadyExists := "Character already exists"
  const NameMismatch := "Character name mismatch"
  const ValidationFailed := "Request body failed validation"

  /** `GET /characters/{name}`. */
  function GetCharacter(s: Store, name: string): (r: Response<Character>)
    ensures r.Ok? <==> LoadCharacter(s, name).Some?
    ensures r.Ok? ==> Some(r.body) == LoadCharacter(s, name)
    ensures r.HttpError? ==> r.status == 404 && r.detail == NotFound
  {
    match LoadCharacter(s, name)
    case None => HttpError(404, NotFound)
    case Some(c) => Ok(c)
  }

  /** `POST /characters/`: stores a character whose key is not yet taken. */
  function CreateCharacter(s: Store, body: CharacterBody, ioOk: bool): (r: Transition<bool>)
    ensures r.response.StatusCode() == 422 <==> ParseCharacter(body).None?
    ensures r.response.StatusCode() == 400 <==> ParseCharacter(body).Some? && GetCharacter(s, body.name).Ok?
    ensures r.response.StatusCode() == 400 ==> r.response.detail == AlreadyExists
    ensures r.response.Ok? <==> ParseCharacter(body).Some? && GetCharacter(s, body.name).HttpError? && ioOk
    ensures r.response.StatusCode() == 500 <==> ParseCharacter(body).Some? && GetCharacter(s, body.name).HttpError? && !ioOk
    ensures r.response.Ok? ==> r.response.body
    ensures r.response.Ok? ==> GetCharacter(r.store, body.name) == Ok(ParseCharacter(body).value)
    ensures r.response.Ok? ==> forall n :: Key(n) != Key(body.name) ==> GetCharacter(r.store, n) == GetCharacter(s, n)
    ensures !r.response.Ok? ==> r.store == s
    ensures r.response.StatusCode() in {200, 400, 422, 500}
  {
    match ParseCharacter(body)
    case None => Transition(HttpError(422, ValidationFailed), s)
    case Some(c) =>
      if LoadCharacter(s, c.name).Some? then Transition(HttpError(400, AlreadyExists), s)
      else
        var w := SaveCharacter(s, c, ioOk);
        if !w.ok then Transition(HttpError(500, "Failed to save character"), s)
        else Transition(Ok(w.ok), w.store)
  }

  /** `GET /characters/`: the service's list, passed through. */
  method ListCharactersEndpoint(s: Store) returns (r: Response<seq<string>>)
    ensures r.Ok?
    ensures |r.body| == |ListedKeys(s)|
    ensures forall k :: k in s && InDirectory(k) ==> s[k].name in r.body
    ensures forall i :: 0 <= i < |r.body| ==> exists k :: k in ListedKeys(s) && s[k].name == r.body[i]
    ensures WellFormed(s) ==> forall i :: 0 <= i < |r.body| ==>
      GetCharacter(s, r.body[i]).Ok? && GetCharacter(s, r.body[i]).body.name == r.body[i]
    ensures WellFormed(s) ==> forall i, j :: 0 <= i < j < |r.body| ==> r.body[i] != r.body[j]
    ensures WellFormed(s) ==> forall k :: k in s && !InDirectory(k) ==> s[k].name !in r.body
    ensures s == map[] ==> r.body == []
  {
    var names, order := ListCharacters(s);
    if WellFormed(s) {
      ListedNamesLoad(s, names, order);
    }
    r := Ok(names);
  }

  /**
   * `PUT /characters/{path}`: replaces the record found under `path`, provided the body's
   * name equals `path` up to letter case (spaces and underscores are not folded here).
   */
  function UpdateCharacter(s: Store, path: string, body: CharacterBody, ioOk: bool): (r: Transition<bool>)
    ensures r.response.StatusCode() == 422 <==> ParseCharacter(body).None?
    ensures r.response.StatusCode() == 404 <==> ParseCharacter(body).Some? && GetCharacter(s, path).HttpError?
    ensures r.response.StatusCode() == 400 <==>
      ParseCharacter(body).Some? && GetCharacter(s, path).Ok? && Ascii.Lower(path) != Ascii.Lower(body.name)
    ensures r.response.Ok? <==>
      ParseCharacter(body).Some? && GetCharacter(s, path).Ok? && Ascii.Lower(path) == Ascii.Lower(body.name) && ioOk
    ensures r.response.StatusCode() == 500 <==>
      ParseCharacter(body).Some? && GetCharacter(s, path).Ok? && Ascii.Lower(path) == Ascii.Lower(body.name) && !ioOk
    ensures r.response.Ok? ==> r.response.body && r.store.Keys == s.Keys
    ensures r.response.Ok? ==> GetCharacter(r.store, path) == Ok(ParseCharacter(body).value)
    ensures r.response.Ok? ==> forall n :: Key(n) != Key(path) ==> GetCharacter(r.store, n) == GetCharacter(s, n)
    ensures !r.response.Ok? ==> r.store == s
  {
    match ParseCharacter(body)
    case None => Transition(HttpError(422, ValidationFailed), s)
    case Some(c) =>
      if LoadCharacter(s, path).None? then Transition(HttpError(404, NotFound), s)
      else if Ascii.Lower(path) != Ascii.Lower(c.name) then Transition(HttpError(400, NameMismatch), s)
      else
        SameLowerSameKey(path, c.name);
        var w := SaveCharacter(s, c, ioOk);
        if !w.ok then Transition(HttpError(500, "Failed to update character"), s)
        else Transition(Ok(w.ok), w.store)
  }

  /** `DELETE /characters/{path}`. */
  function DeleteCharacterEndpoint(s: Store, path: string, ioOk: bool): (r: Transition<bool>)
    ensures r.response.StatusCode() == 404 <==> GetCharacter(s, path).HttpError?
    ensures r.response.StatusCode() == 500 <==> GetCharacter(s, path).Ok? && !ioOk
    ensures r.response.Ok? <==> GetCharacter(s, path).Ok? && ioOk
    ensures r.response.Ok? ==> r.response.body && GetCharacter(r.store, path).HttpError?
    ensures r.response.Ok? ==> forall n :: Key(n) != Key(path) ==> GetCharacter(r.store, n) == GetCharacter(s, n)
    ensures !r.response.Ok? ==> r.store == s
  {
    if LoadCharacter(s, path).None? then Transition(HttpError(404, NotFound), s)
    else
      var w := DeleteCharacter(s, path, ioOk);
      if !w.ok then Transition(HttpError(500, "Failed to delete character"), s)
      else Transition(Ok(w.ok), w.store)
  }

  /** Every handler keeps the store well formed. */
  lemma HandlersPreserveWellFormed(s: Store, path: string, body: CharacterBody, ioOk: bool)
    requires WellFormed(s)
    ensures WellFormed(CreateCharacter(s, body, ioOk).store)
    ensures WellFormed(UpdateCharacter(s, path, body, ioOk).store)
    ensures WellFormed(DeleteCharacterEndpoint(s, path, ioOk).store)
  {
  }

  /** A second create of the same character, after the first succeeded, is refused with 400. */
  lemma CreateTwiceRejected(s: Store, body: CharacterBody, ioOk: bool, ioOk2: bool)
    requires CreateCharacter(s, body, ioOk).response.Ok?
    ensures var s1 := CreateCharacter(s, body, ioOk).store;
            CreateCharacter(s1, body, ioOk2) == Transition(HttpError(400, AlreadyExists), s1)
  {
  }

  /** A create that succeeds is visible to a later get under any name with the same key. */
  lemma CreateThenGet(s: Store, body: CharacterBody, name: string)
    requires CreateCharacter(s, body, true).response.Ok?
    requires Key(name) == Key(body.name)
    ensures GetCharacter(CreateCharacter(s, body, true).store, name) == Ok(ParseCharacter(body).value)
  {
  }

  /** Update checks existence before names: a missing record answers 404 whatever the body's name. */
  lemma UpdateMissingIs404(s: Store, path: string, body: CharacterBody, ioOk: bool)
    requires GetCharacter(s, path).HttpError? && ParseCharacter(body).Some?
    ensures UpdateCharacter(s, path, body, ioOk).response == HttpError(404, NotFound)
  {
  }

  /** A delete that succeeds makes a later get answer 404. */
  lemma DeleteThenGet(s: Store, path: string)
    requires GetCharacter(s, path).Ok?
    ensures DeleteCharacterEndpoint(s, path, true).response == Ok(true)
    ensures GetCharacter(DeleteCharacterEndpoint(s, path, true).store, path) == HttpError(404, NotFound)
  {
  }

  /**
   * The name check folds case only, the key folds case and spaces. So for a name with a
   * space, its key as the path reaches the record, yet an update through that path with
   * the name itself is refused with 400 and changes nothing.
   */
  lemma UnderscorePathRejected(s: Store, body: CharacterBody, ioOk: bool)
    requires ParseCharacter(body).Some? && Key(body.name) in s
    requires exists i :: 0 <= i < |body.name| && body.name[i] == ' '
    ensures GetCharacter(s, Key(body.name)).Ok?
    ensures UpdateCharacter(s, Key(body.name), body, ioOk) == Transition(HttpError(400, NameMismatch), s)
  {
    KeyIdempotent(body.name);
    var i :| 0 <= i < |body.name| && body.name[i] == ' ';
    assert Ascii.Lower(Key(body.name))[i] == '_' && Ascii.Lower(body.name)[i] == ' ';
  }
}
