/**
 * How the frontend's actions meet the backend's handlers: a submitted form is stored and
 * read back unchanged; a listed name is edited through its edit route, which the edit page
 * decodes twice; a confirmed delete sends the name unencoded in the request path.
 */
module Flows {
  import opened Wrappers
  import opened CharacterModel
  import opened CharacterService
  import opened CharactersApi
  import CharacterForm
  import CharacterList
  import Uri
  import Ascii
  import ApiClient

  /**
   * A form that passes its schema, with no negative quantity, creates the character when
   * its name is free; fetching it afterwards gives back exactly the submitted values.
   */
  lemma SubmitCreateGet(s: Store, values: Character)
    requires CharacterForm.Submit(values).Some?
    requires ValidInventory(values.inventory)
    requires GetCharacter(s, values.name).HttpError?
    ensures var t := CreateCharacter(s, ToBody(values), true);
            t.response == Ok(true) && GetCharacter(t.store, values.name) == Ok(values)
  {
    CharacterForm.FormValidImpliesBackendValid(values);
  }

  /**
   * The `name` route parameter React Router hands the edit page for a path segment: the
   * segment percent-decoded, or kept as it is when it does not decode.
   */
  function RouteParam(segment: string): string {
    match Uri.DecodeURIComponent(segment)
    case Some(d) => d
    case None => segment
  }

  /**
   * The name `EditCharacterPage` loads and saves under: its route parameter decoded a second
   * time. `None` is the URIError `decodeURIComponent` throws, after which no request is sent.
   */
  function PageName(param: string): (r: Option<string>)
    ensures r.Some? ==> |r.value| <= |param|
    ensures r.Some? && (exists i :: 0 <= i < |param| && param[i] == '%') ==> |r.value| < |param|
    ensures (forall i :: 0 <= i < |param| ==> param[i] != '%') ==> r == Some(param)
  {
    assert (forall i :: 0 <= i < |param| ==> param[i] != '%') ==> Uri.DecodeURIComponent(param) == Some(param) by {
      if forall i :: 0 <= i < |param| ==> param[i] != '%' {
        Uri.DecodeWithoutPercent(param);
      }
    }
    assert Uri.DecodeURIComponent(param).Some? ==>
      |Uri.DecodeURIComponent(param).value| <= |param|
      && ((exists i :: 0 <= i < |param| && param[i] == '%') ==> |Uri.DecodeURIComponent(param).value| < |param|) by {
      if Uri.DecodeURIComponent(param).Some? {
        Uri.DecodeShrinks(param);
      }
    }
    Uri.DecodeURIComponent(param)
  }

  /**
   * The name the backend receives when the edit page of `name`, opened from the list, loads
   * the character or saves it; `None` when no such request reaches a character route.
   */
  function EditRequestName(name: string): Option<string> {
    match PageName(RouteParam(CharacterList.EditPath(name)[6..]))
    case None => None
    case Some(n) => ApiClient.ReceivedName(n)
  }

  /**
   * Editing a listed character whose name reaches the backend unchanged (`PathSafe`)
   * succeeds: the page loads it under its own name, and saving it with the name kept
   * replaces it.
   */
  lemma EditListedCharacter(s: Store, k: string, edited: Character)
    requires WellFormed(s) && k in s
    requires ApiClient.PathSafe(s[k].name)
    requires edited.name == s[k].name && ValidBackend(edited)
    ensures EditRequestName(s[k].name) == Some(s[k].name)
    ensures GetCharacter(s, s[k].name) == Ok(s[k])
    ensures var t := UpdateCharacter(s, s[k].name, ToBody(edited), true);
            t.response == Ok(true) && GetCharacter(t.store, s[k].name) == Ok(edited)
  {
    Uri.DecodeWithoutPercent(s[k].name);
    ParseToBody(edited);
  }

  /**
   * The edit page of a name holding a '%' never reaches that name's record: its second
   * decode either throws or shortens the name, so its requests go to another key. Whatever
   * values the page then saves, the record of the name itself is left as it was.
   */
  lemma EditPercentNameFails(s: Store, name: string, edited: Character, ioOk: bool)
    requires exists i :: 0 <= i < |name| && name[i] == '%'
    ensures EditRequestName(name).None? || Key(EditRequestName(name).value) != Key(name)
    ensures EditRequestName(name).Some? ==>
      LoadCharacter(UpdateCharacter(s, EditRequestName(name).value, ToBody(edited), ioOk).store, name)
      == LoadCharacter(s, name)
  {
    assert RouteParam(CharacterList.EditPath(name)[6..]) == name;
    if PageName(name).Some? {
      Uri.DecodeShrinks(name);
      var r := EditRequestName(name);
      if r.Some? {
        assert |Key(r.value)| < |Key(name)|;
      }
    }
  }

  /** The edit page of a name ending in '%', such as "100%", throws before any request. */
  lemma EditTrailingPercentFails(p: string)
    requires forall i :: 0 <= i < |p| ==> p[i] != '%'
    ensures EditRequestName(p + "%") == None
  {
    assert RouteParam(CharacterList.EditPath(p + "%")[6..]) == p + "%";
    Uri.DecodeTrailingPercent(p);
  }

  /** Confirming the delete of a listed name that reaches the backend unchanged removes exactly that character. */
  lemma ConfirmDeleteListed(s: Store, k: string, d: CharacterList.Dialog)
    requires WellFormed(s) && k in s && ApiClient.PathSafe(s[k].name)
    ensures var name := s[k].name;
            var step := CharacterList.DeleteConfirm(CharacterList.DeleteClick(d, name).dialog, true, true);
            && step.deleteCalls == [name]
            && ApiClient.ReceivedName(name) == Some(name)
            && var t := DeleteCharacterEndpoint(s, ApiClient.ReceivedName(step.deleteCalls[0]).value, true);
               t.response == Ok(true) && t.store.Keys == s.Keys - {k}
  {
  }

  /**
   * A confirmed delete of a name the URL parser changes (one holding '/', '?', '#', '\', a
   * tab or a line break, or ending in a space) asks the backend about another name, or none.
   */
  lemma ConfirmDeleteMisrouted(d: CharacterList.Dialog, name: string)
    requires ApiClient.Misrouted(name)
    ensures var step := CharacterList.DeleteConfirm(CharacterList.DeleteClick(d, name).dialog, true, true);
            step.deleteCalls == [name] && ApiClient.ReceivedName(step.deleteCalls[0]) != Some(name)
  {
    ApiClient.MisroutedNames(name);
  }
}
