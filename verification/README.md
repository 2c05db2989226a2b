# D&D character manager — a Dafny model of its core

The application stores Dungeons & Dragons characters. A FastAPI backend keeps one JSON file
per character and serves them under `/characters`. A React frontend offers a create/edit
form, a list with a confirm-before-delete dialog, and a read-only character sheet.

This project models the parts of that core that have precise rules:

- **Character model** (`character.dfy`, module `CharacterModel`). The shared `Character`,
  `AbilityScores` and `InventoryItem` shapes. The backend's field constraints as
  `ValidBackend` and `BackendViolations`. `ParseCharacter` is the step that turns a request
  body into the model: it fills in the defaults, checks the constraints, and stands for the
  framework's 422 answer when they fail.
- **Character store** (`service.dfy`, `CharacterService`). The directory is a
  `map<string, Character>` keyed by `Key(name)`: the name lower-cased with spaces turned into
  underscores. It has save, load, delete and list operations. A failing write or unlink is
  an `ioOk` parameter.
- **REST handlers** (`api.dfy`, `CharactersApi`). Create, get, list, update and delete are
  transitions from a store to an HTTP response plus a new store.
- **Form** (`form.dfy`, `CharacterForm`). The validation schema as `ValidForm` and as the
  displayed error map `FormErrors`. Also the default values, adding and removing inventory
  rows, and submission.
- **List** (`list.dfy`, `CharacterList`). The empty state, the edit route, and the delete
  dialog as a two-field state machine.
- **Sheet** (`sheet.dfy`, `CharacterSheet`). The signed-modifier formatter and the display
  rules: the temp-HP line, the empty-inventory message, dividers and item labels.
- **API client** (`api_client.dfy`, `ApiClient`). The name written unencoded into the request
  URL, and the path parameter the backend receives for it.
- **Flows** (`flows.dfy`, `Flows`). Lemmas linking the frontend's actions to the handlers,
  including the edit page's decoding of its route parameter.
- **Helpers.** `ascii.dfy` is Python's `lower()` on ASCII and `replace(' ', '_')`.
  `decimal.dfy` is the decimal form of integers and its parse. `uri.dfy` is
  `encodeURIComponent` over UTF-8 and its inverse. `wrappers.dfy` holds `Option`.

Facts about the code that the model makes explicit:

- Only the form schema rejects an empty `name`, `race` or `character_class`; the backend
  accepts them.
- Names are unique per key, not per name. Names that differ only in letter case, or in a
  space against an underscore, address the same record.
- Only the form leaves inventory quantities unchecked; the backend rejects a negative one.
- The edit page decodes its route parameter a second time, after the router already has.
  A name holding '%' therefore cannot be edited. "100%" or "50%off" makes the page throw
  before any request. Other such names reach the backend shortened, so the page loads and
  saves whatever record the shorter name finds.
- The API client writes names into request URLs without encoding them. The browser's URL
  parser then changes some names. A name holding '/', '?', '#', '\', a tab or a line break,
  or ending in a space, reaches the backend as a different name, or reaches no character
  route. For example, "Bob " arrives as "Bob". The parser also resolves "." and ".."
  segments, so "./Bob", ".\Bob" and "x/../Bob" all arrive as "Bob".
- A key holding '/' is used as a path. When that path does not name a file directly in the
  directory, such as "../x" or "a/b", the record can be saved and loaded but is never listed.

## Model

| member | source | states |
|---|---|---|
| CharacterModel.BackendViolations | backend/app/models/character.py:4-25 | The set of rejected fields is empty exactly when every ability score and the level lie in [1,20], max HP ≥ 1, current HP ≥ 0 and every quantity ≥ 0. The three strings are never rejected. |
| CharacterModel.ParseCharacter | backend/app/models/character.py:15-25 | Building the model from a body succeeds exactly when every score and the level lie in [1,20], max HP ≥ 1, current HP ≥ 0 and every quantity ≥ 0. The result keeps every field of the body, and a missing inventory becomes the empty list. |
| CharacterModel.MissingInventoryDefaults | backend/app/models/character.py:25 | A valid character sent without its `inventory` field is accepted as that character with an empty inventory. |
| CharacterModel.ParseToBody | backend/app/models/character.py:17-25 | A character sent as a body comes back unchanged exactly when it is backend-valid; otherwise it is rejected. |
| CharacterModel.ScoreBounds | backend/app/models/character.py:5-21 | The score and level bounds are tight: 1 and 20 are accepted, 0 and 21 rejected. |
| CharacterModel.OneBadScoreRejects | backend/app/models/character.py:5-10 | Any single ability score outside [1,20] rejects the character and is reported against that ability. |
| CharacterModel.OneBadItemRejects | backend/app/models/character.py:14 | One item with a negative quantity rejects the character and is reported at its index. |
| CharacterModel.BackendAcceptsLenientValues | backend/app/models/character.py:18-24 | The backend accepts empty strings, current HP above max HP, and an item with an empty name and no description. |
| CharacterService.SaveCharacter | backend/app/services/character_service.py:12-29 | A save returns the I/O outcome. On success the record sits under its name's key and all other keys are untouched. On failure the store is unchanged. Saving a valid character keeps the store well formed. |
| CharacterService.LoadCharacter | backend/app/services/character_service.py:31-51 | A load finds a record exactly when the name's key is stored. In a well-formed store the record found has a name with the same key. |
| CharacterService.DeleteCharacter | backend/app/services/character_service.py:74-93 | A delete returns true exactly when the key exists and the unlink succeeds; only that key is then gone. An absent key gives false and no change. |
| CharacterService.ListCharacters | backend/app/services/character_service.py:53-72 | The list holds one stored `name` per file directly in the directory, in some enumeration order of the distinct keys. Every record whose key has no '/' appears, and no other. |
| CharacterService.Key | backend/app/services/character_service.py:23 | The file stem has the name's length, and each of its characters is the name's character lower-cased, or '_' where the name has a space. |
| CharacterService.KeyCollisions | backend/app/services/character_service.py:23 | "Test Character", "test_character" and "TEST CHARACTER" all map to the file stem `test_character`. |
| CharacterService.KeyIdempotent | backend/app/services/character_service.py:42 | A name's key, used as a name, reaches the same record. |
| CharacterService.SameLowerSameKey | backend/app/services/character_service.py:42 | Two names that are equal after lower-casing share a key. |
| CharacterService.SaveThenLoad | backend/app/services/character_service.py:22-26 | Loading after a successful save, under any name with the same key, returns the saved character. |
| CharacterService.SaveLeavesOthers | backend/app/services/character_service.py:23-25 | A save does not change what any other key loads. |
| CharacterService.DeleteThenLoad | backend/app/services/character_service.py:85-90 | A delete succeeds exactly when the key was stored. Afterwards no name with that key loads anything. |
| CharacterService.DeleteAbsent | backend/app/services/character_service.py:86-87 | Deleting a name that does not load returns false and leaves the store as it was. |
| CharacterService.ListedNamesLoad | backend/app/services/character_service.py:53-69 | In a well-formed store the listed names are pairwise distinct, and each loads the record it was read from. |
| CharactersApi.GetCharacter | backend/app/api/characters.py:23-28 | Get returns the stored record when the key exists, otherwise 404 "Character not found". |
| CharactersApi.CreateCharacter | backend/app/api/characters.py:10-20 | Create answers 422 exactly for an invalid body, 400 exactly when the name already reaches a record, and 500 exactly when the write of a new valid record fails. Otherwise it answers `true`, and get then returns the new character while other names are unaffected. Any failure leaves the store unchanged. |
| CharactersApi.ListCharactersEndpoint | backend/app/api/characters.py:31-33 | List always answers 200 with one name per record in the directory, covering every such record. In a well-formed store each name is distinct and fetchable, and a record whose key holds '/' is not listed. An empty store lists nothing. |
| CharactersApi.UpdateCharacter | backend/app/api/characters.py:36-50 | After body validation (422), a missing record answers 404. A path that differs from the body's name after lower-casing answers 400. A failed write answers 500, and only then. Otherwise the record found is replaced, no key is added, other names are unaffected and get reflects the new fields. Failures change nothing. |
| CharactersApi.DeleteCharacterEndpoint | backend/app/api/characters.py:53-63 | Delete answers 404 when get would, 500 when the unlink fails, and otherwise `true`. Get then answers 404 and other names are unaffected. |
| CharactersApi.HandlersPreserveWellFormed | backend/app/api/characters.py:10-63 | Create, update and delete keep every record under its own name's key, and every stored record valid. |
| CharactersApi.CreateTwiceRejected | backend/app/api/characters.py:13-15 | After a successful create, creating the same character again answers 400 "Character already exists" and changes nothing. |
| CharactersApi.CreateThenGet | backend/app/api/characters.py:17-20 | After a successful create, get under any name with the same key returns the created character. |
| CharactersApi.UpdateMissingIs404 | backend/app/api/characters.py:39-41 | Update of a missing record answers 404 whatever the body's name, because existence is checked first. |
| CharactersApi.DeleteThenGet | backend/app/api/characters.py:56-63 | Deleting an existing record answers `true`, and a later get answers 404. |
| CharactersApi.UnderscorePathRejected | backend/app/api/characters.py:44-45 | For any valid body whose name holds a space, the name's key as the path reaches the stored record. Yet updating through that path with the name itself answers 400 "Character name mismatch" and changes nothing. |
| CharacterForm.FormViolations | frontend/src/components/CharacterForm.tsx:32-54 | The schema rejects a field exactly when its constraint fails: an empty string, a level outside [1,20], max HP < 1, current HP < 0, or an ability score outside [1,20]. Inventory is never looked at. |
| CharacterForm.FormErrors | frontend/src/components/CharacterForm.tsx:32-54 | The error map is empty exactly when the schema holds. Its keys are the rejected fields, each with its message. |
| CharacterForm.DefaultValuesErrors | frontend/src/components/CharacterForm.tsx:63-72 | A create form's initial values fail the schema on exactly name, race and class, with "Name is required", "Race is required" and "Class is required". The backend accepts them. |
| CharacterForm.DefaultsWithNamesValid | frontend/src/components/CharacterForm.tsx:63-72 | The defaults pass the schema once the three strings are filled in. |
| CharacterForm.AddInventoryItem | frontend/src/components/CharacterForm.tsx:79-84 | Adding keeps the existing items in order and appends exactly one `{name: '', quantity: 1, description: ''}`. It keeps the quantities non-negative. |
| CharacterForm.RemoveInventoryItem | frontend/src/components/CharacterForm.tsx:86-90 | `splice(index, 1)` starts at the index, counted from the end when negative, clamped to the list's bounds. When that start is inside the list, exactly that element is dropped and the others keep their order. A start at the end changes nothing. The result is a sub-multiset of the input, and a valid inventory stays valid. |
| CharacterForm.RemoveAtIndex | frontend/src/components/CharacterForm.tsx:88 | By case on the index: an in-range index cuts out that element; a negative one within the length cuts out the element that many places from the end; one before the start cuts out the first; one at or past the end changes nothing. |
| CharacterForm.AddThenRemove | frontend/src/components/CharacterForm.tsx:79-90 | Adding an item and then removing the last one (by index or by -1) restores the list. |
| CharacterForm.Submit | frontend/src/components/CharacterForm.tsx:74-76 | Submission hands on the values unchanged, and only when the error map is empty. |
| CharacterForm.FormValidImpliesBackendValid | frontend/src/components/CharacterForm.tsx:32-54 | Schema-valid values with no negative quantity are backend-valid and survive the trip through a request body. |
| CharacterForm.FormValidNotSufficient | frontend/src/components/CharacterForm.tsx:32-54 | A schema-valid character with one negative quantity is rejected by the backend. |
| CharacterForm.BackendValidNotFormValid | frontend/src/components/CharacterForm.tsx:33-35 | The default values are backend-valid yet fail the schema. |
| CharacterForm.ValidatorsAgreeOnNumbers | frontend/src/components/CharacterForm.tsx:36-53 | Apart from the strings (form only) and the quantities (backend only), the two validators reject exactly the same fields. |
| CharacterList.EditPath | frontend/src/components/CharacterList.tsx:31-33 | The edit route is "/edit/" followed by one path segment with no '/', '?' or '#'. That segment decodes back to the name. |
| CharacterList.EditPathInjective | frontend/src/components/CharacterList.tsx:31-33 | Distinct names have distinct edit routes. |
| CharacterList.EditPathPlainName | frontend/src/components/CharacterList.tsx:32 | A name made only of unreserved characters, such as "Gandalf", appears in its edit route as it is: "/edit/Gandalf". |
| CharacterList.Render | frontend/src/components/CharacterList.tsx:67-97 | An empty list renders only the empty-state message. Otherwise there is one row per name, in order, with that name's edit route. |
| CharacterList.ButtonsMatchNames | frontend/src/components/CharacterList.tsx:67-97 | The number of edit/delete button pairs equals the number of names, so there are none for an empty list. |
| CharacterList.DeleteClick | frontend/src/components/CharacterList.tsx:35-38 | Clicking delete opens the dialog with that name pending, and makes no request. |
| CharacterList.DeleteConfirm | frontend/src/components/CharacterList.tsx:40-54 | With no (or an empty) pending name, confirm does nothing. Otherwise it issues exactly one delete for the pending name. Success closes and clears the dialog and fires the callback once if there is one. Failure keeps the dialog and fires nothing. |
| CharacterList.DeleteCancel | frontend/src/components/CharacterList.tsx:56-59 | Cancel closes the dialog and clears the pending name, with no request. |
| CharacterList.HandlersKeepConsistent | frontend/src/components/CharacterList.tsx:28-59 | The dialog starts closed, and every handler keeps it open exactly while a name is pending. |
| CharacterList.ClickThenConfirm | frontend/src/components/CharacterList.tsx:35-52 | Click then confirm deletes exactly the clicked name. On success the dialog closes with one callback; on failure it stays as it was. |
| CharacterList.ClickThenCancel | frontend/src/components/CharacterList.tsx:35-59 | Click then cancel makes no request and ends closed. |
| CharacterList.EmptyNameNeverDeleted | frontend/src/components/CharacterList.tsx:41 | A character whose name is empty cannot be deleted from the list: confirming does nothing and the dialog stays open. |
| CharacterSheet.FormatModifier | frontend/src/components/CharacterSheet.tsx:86 | The output starts with '+' exactly when m ≥ 0, followed by m's decimal digits. A negative m gives its plain decimal form with '-'. |
| CharacterSheet.FormatModifierRoundTrip | frontend/src/components/CharacterSheet.tsx:86 | Parsing a formatted modifier gives back m. |
| CharacterSheet.FormatModifierInjective | frontend/src/components/CharacterSheet.tsx:86 | Different modifiers never format the same. |
| CharacterSheet.FormatModifierExamples | frontend/src/components/CharacterSheet.tsx:86 | 3 → "+3", 2 → "+2", 0 → "+0", -1 → "-1". |
| CharacterSheet.ItemLabelQuantity | frontend/src/components/CharacterSheet.tsx:171 | The `name (quantity)` label determines the quantity for a given name. |
| CharacterSheet.InventoryRows | frontend/src/components/CharacterSheet.tsx:166-177 | There is one row per item, in order, labelled `name (quantity)` with the description underneath. Every row except the last has a divider. |
| CharacterSheet.DividerCount | frontend/src/components/CharacterSheet.tsx:167 | n rows with the divider rule show n − 1 dividers, and none for an empty list. |
| CharacterSheet.Render | frontend/src/components/CharacterSheet.tsx:86-188 | The temp-HP line appears exactly when temp HP > 0. The empty-inventory message appears exactly when the inventory is empty. Modifiers and the proficiency bonus are shown signed. The inventory rows are those of `InventoryRows`, with their labels, descriptions and dividers. |
| CharacterSheet.RenderExampleHeader | frontend/src/components/CharacterSheet.tsx:96-148 | For a level-4 human fighter: "Level 4 Human Fighter", "30 / 35", "Temp HP: 5", and proficiency "+2". |
| CharacterSheet.RenderExampleAbility | frontend/src/components/CharacterSheet.tsx:105-117 | Strength 16 with modifier 3 is shown as "16" and "+3". |
| CharacterSheet.RenderExampleInventory | frontend/src/components/CharacterSheet.tsx:166-188 | One longsword shows as "Longsword (1)" with no divider and no empty message. |
| Decimal.DigitsValueOfNatToString | frontend/src/components/CharacterSheet.tsx:86 | The decimal digits of a natural number read back as that number. |
| Decimal.IntToStringRoundTrip | frontend/src/components/CharacterSheet.tsx:86 | The decimal form of any integer parses back to it. |
| Uri.EncodeURIComponent | frontend/src/components/CharacterList.tsx:32 | The encoded name has only unreserved characters and '%'. A name made only of unreserved characters is unchanged. |
| Uri.EncodeDecodeRoundTrip | frontend/src/components/CharacterList.tsx:32 | Decoding an encoded name gives back the name, as the router does for the edit route's segment. |
| Uri.DecodeShrinks | frontend/src/pages/EditCharacterPage.tsx:17 | Decoding never lengthens text, and strictly shortens text holding a '%'. |
| Uri.DecodeTrailingPercent | frontend/src/pages/EditCharacterPage.tsx:38 | Decoding text whose only '%' is its last character throws. |
| Uri.EncodeInjective | frontend/src/components/CharacterList.tsx:32 | Distinct names have distinct encodings. |
| ApiClient.ReceivedName | frontend/src/services/api.ts:12-30 | The path parameter the backend receives is never longer than the name sent, and never empty. It is the name itself when the name is not empty, ".", or "..", does not end in a space or control character, and holds none of '/', '?', '#', '%', '\', tab, line feed or carriage return. |
| ApiClient.RoutedName | frontend/src/services/api.ts:13 | After "." and ".." segments are resolved, the route's parameter is never longer than the path and never empty. When it equals the path, the path holds no '/' or '\'. A plain segment is received as itself. |
| ApiClient.SegmentsJoin | frontend/src/services/api.ts:13 | A '/' ends a segment: the segments of `a/b` are `a` followed by those of `b`. |
| ApiClient.PlainSegment | frontend/src/services/api.ts:13 | A segment without '/', '\' or '%' is a dot segment only when it is "." or "..". |
| ApiClient.DotSegmentResolved | frontend/src/services/api.ts:13 | Any path-safe name behind "./" or ".\" reaches the backend as the name alone. |
| ApiClient.ParentSegmentResolved | frontend/src/services/api.ts:13 | Any path-safe name behind `x/../`, for a plain segment `x`, reaches the backend as the name alone. |
| ApiClient.MisroutedNames | frontend/src/services/api.ts:28 | A name holding '/', '?', '#', '\', a tab or a line break, or ending in a space or control character, never reaches the backend as itself. |
| ApiClient.TrailingSpaceTrimmed | frontend/src/services/api.ts:28 | A request for "Bob " reaches the backend as "Bob". |
| ApiClient.QuestionMarkEndsName | frontend/src/services/api.ts:28 | A request for "Who?" reaches the backend as "Who". |
| Flows.SubmitCreateGet | backend/app/api/characters.py:10-28 | A submitted form with no negative quantity and a free name is created, then fetched back equal to what was entered. |
| Flows.EditListedCharacter | frontend/src/pages/EditCharacterPage.tsx:15-44 | For a stored name that reaches the backend unchanged (`ApiClient.PathSafe`), the edit page loads and saves under that very name. Loading returns the record, and saving the edit with the name kept succeeds and is read back. |
| Flows.PageName | frontend/src/pages/EditCharacterPage.tsx:17-38 | The edit page's second decode never lengthens the name, shortens any name holding '%', and leaves a name without '%' as it is. |
| Flows.EditPercentNameFails | frontend/src/pages/EditCharacterPage.tsx:15-44 | For a name holding '%', the edit page throws or sends its requests to a different key. Whatever values it then saves, the record of the name itself is left as it was. |
| Flows.EditTrailingPercentFails | frontend/src/pages/EditCharacterPage.tsx:17 | The edit page of a name whose only '%' is its last character, such as "100%", throws before any request. |
| Flows.ConfirmDeleteListed | frontend/src/components/CharacterList.tsx:40-48 | Confirming the delete of a stored name that reaches the backend unchanged (`ApiClient.PathSafe`) sends that name, the backend receives it as sent, and exactly its record is removed. |
| Flows.ConfirmDeleteMisrouted | frontend/src/services/api.ts:27-29 | A confirmed delete of a name the URL parser changes ('/', '?', '#', '\', a tab or a line break, or a trailing space) sends the name, but the backend receives another name or none. |

## Left out

- File I/O and JSON encoding. The directory is a map. A failed write or unlink is the
  `ioOk` parameter and leaves the store as it was; a partly written file is not modelled.
- Unreadable files. A file that fails to load (`load_character` answering `None`) or to
  list (skipped) is not modelled: every stored record is readable.
- Non-ASCII case folding. `Ascii.Lower` folds only 'A'–'Z', while Python's `lower()` also
  folds other scripts.
- FastAPI's 422 response carries a list of error objects. `CreateCharacter` and
  `UpdateCharacter` model it as status 422 with a fixed detail string.
- Type coercion by the validation libraries, absent numeric fields and non-integral numbers.
  All numeric fields are `int`.
- Export, import and the sheet endpoint. Their handlers are not in `characters.py`, so the
  backend's modifier and proficiency arithmetic is not modelled either; the sheet takes
  those numbers as given.
- The HTTP transport in `services/api.ts` beyond the URL it builds, the page components'
  loading and error states, the theme, `App.tsx` beyond its edit route, and `main.py` setup.
- Concurrency in the delete dialog. `DeleteConfirm` treats the request as atomic: a cancel
  that lands while the request is pending is not modelled.
- Flows.RouteParam: React Router's parameter decoding is modelled as `decodeURIComponent`
  with the segment kept when decoding fails. For the segments the list's edit button builds,
  decoding always succeeds.
- CharacterForm.FormErrors: its contract gives each rejected field's message through
  `ErrorMessage` rather than listing the texts. The ability-score texts are the validation
  library's default wording, which the schema does not spell out.
- CharacterSheet.FormatModifier: `Decimal.IntToString` gives the plain decimal digits of
  every integer. JavaScript writes integers of magnitude 10^21 or more in exponential form
  ("1e+21"), which the model does not.
- ApiClient.ReceivedName: when a path's escapes do not all decode as UTF-8, the model keeps
  the whole path as it is. The server decodes the valid escapes and puts U+FFFD for bad
  bytes. The URL parser's trimming of leading controls (none reach the path) and the
  browser's own escaping of inner spaces and non-ASCII characters are not modelled; the
  server undoes the latter.
- ApiClient.ReceivedName: a path that resolves to one name followed by a trailing '/', such
  as "Bob/" or "Bob/.", reaches no route in the model. The server's default slash redirect
  sends the browser on to "/characters/Bob", so in the program such a name reaches "Bob".
  The model gives `None` for it; both differ from the name sent, so `MisroutedNames` holds
  either way.
- CharacterService.ListCharacters: keys holding '/' are all treated as leaving the directory.
  A key whose path resolves back into it, such as "./bob" or "../characters/bob", names the
  file `bob.json`, which the program lists and which `load_character("Bob")` reads. The model
  keeps such a key as its own map entry, separate from "bob", and does not list it.
- Flows.SubmitCreateGet: states the create and get handlers' effects on the body's name. The
  frontend's later fetch of that name goes through `ApiClient.ReceivedName`, as the edit and
  delete flows show.
