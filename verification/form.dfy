/**
 * The create/edit form: its validation schema, its initial values, inventory editing and
 * submission. Formik calls the submit handler only when the schema reports no error.
 */
module CharacterForm {
  import opened Wrappers
  import opened CharacterModel

  /** The schema's constraints, field by field. Inventory is not looked at. */
  predicate ValidForm(c: Character) {
    && c.name != ""
    && c.race != ""
    && c.characterClass != ""
    && LevelInRange(c.level)
    && c.maxHp >= 1
    && c.currentHp >= 0
    && ValidScores(c.abilityScores)
  }

  function AbilityName(a: Ability): string {
    match a
    case Strength => "strength"
    case Dexterity => "dexterity"
    case Constitution => "constitution"
    case Intelligence => "intelligence"
    case Wisdom => "wisdom"
    case Charisma => "charisma"
  }

  /**
   * The message the schema shows for one ability score, or `None`. The ability scores carry
   * no custom messages, so these are the validation library's default wording.
   */
  function ScoreError(a: Ability, v: int): Option<string> {
    if v < 1 then Some("ability_scores." + AbilityName(a) + " must be greater than or equal to 1")
    else if v > 20 then Some("ability_scores." + AbilityName(a) + " must be less than or equal to 20")
    else None
  }

  /** The fields among the three strings that are empty. */
  function StringViolations(c: Character): (r: set<Field>)
    ensures Name in r <==> c.name == ""
    ensures Race in r <==> c.race == ""
    ensures CharacterClass in r <==> c.characterClass == ""
    ensures forall f :: f in r ==> f == Name || f == Race || f == CharacterClass
  {
    (if c.name == "" then {Name} else {})
    + (if c.race == "" then {Race} else {})
    + (if c.characterClass == "" then {CharacterClass} else {})
  }

  /** The ability scores out of [1, 20]. */
  function ScoreViolations(a: AbilityScores): (r: set<Field>)
    ensures forall f :: f in r <==> f.AbilityScore? && !ScoreInRange(a.Score(f.ability))
  {
    AllAbilities();
    set w | w in Abilities && !ScoreInRange(a.Score(w)) :: AbilityScore(w)
  }

  /** Level and hit points out of their ranges. */
  function StatViolations(c: Character): (r: set<Field>)
    ensures Level in r <==> !LevelInRange(c.level)
    ensures MaxHp in r <==> c.maxHp < 1
    ensures CurrentHp in r <==> c.currentHp < 0
    ensures forall f :: f in r ==> f == Level || f == MaxHp || f == CurrentHp
  {
    (if LevelInRange(c.level) then {} else {Level})
    + (if c.maxHp < 1 then {MaxHp} else {})
    + (if c.currentHp < 0 then {CurrentHp} else {})
  }

  /** The fields the schema rejects. */
  function FormViolations(c: Character): (r: set<Field>)
    ensures r == {} <==> ValidForm(c)
    ensures Name in r <==> c.name == ""
    ensures Race in r <==> c.race == ""
    ensures CharacterClass in r <==> c.characterClass == ""
    ensures Level in r <==> !LevelInRange(c.level)
    ensures MaxHp in r <==> c.maxHp < 1
    ensures CurrentHp in r <==> c.currentHp < 0
    ensures forall w :: AbilityScore(w) in r <==> !ScoreInRange(c.abilityScores.Score(w))
    ensures forall f :: f in r ==> !f.ItemQuantity?
  {
    var r := StringViolations(c) + StatViolations(c) + ScoreViolations(c.abilityScores);
    InvalidFormHasViolation(c);
    r
  }

  lemma InvalidFormHasViolation(c: Character)
    ensures !ValidForm(c) ==> StringViolations(c) + StatViolations(c) + ScoreViolations(c.abilityScores) != {}
  {
    var r := StringViolations(c) + StatViolations(c) + ScoreViolations(c.abilityScores);
    if !ValidScores(c.abilityScores) {
      var w :| !ScoreInRange(c.abilityScores.Score(w));
      assert AbilityScore(w) in r;
    }
    if !LevelInRange(c.level) { assert Level in r; }
    if c.maxHp < 1 { assert MaxHp in r; }
    if c.currentHp < 0 { assert CurrentHp in r; }
    if c.name == "" { assert Name in r; }
    if c.race == "" { assert Race in r; }
    if c.characterClass == "" { assert CharacterClass in r; }
  }

  /** The message the schema shows for a rejected field. */
  function ErrorMessage(c: Character, f: Field): string {
    match f
    case Name => "Name is required"
    case Race => "Race is required"
    case CharacterClass => "Class is required"
    case Level => if c.level < 1 then "Level must be at least 1" else "Level cannot exceed 20"
    case MaxHp => "Max HP must be at least 1"
    case CurrentHp => "Current HP cannot be negative"
    case AbilityScore(w) => ScoreError(w, c.abilityScores.Score(w)).GetOr("")
    case ItemQuantity(_) => ""
  }

  /**
   * The form's error map: each rejected field with its first failing message. The form shows
   * an entry once its field has been touched.
   */
  function FormErrors(c: Character): (r: map<Field, string>)
    ensures r.Keys == FormViolations(c)
    ensures r == map[] <==> ValidForm(c)
    ensures forall f :: f in r ==> r[f] == ErrorMessage(c, f)
  {
    var fields := FormViolations(c);
    var r := map f | f in fields :: ErrorMessage(c, f);
    assert r.Keys == fields;
    assert r == map[] <==> fields == {} by {
      if fields != {} {
        var f :| f in fields;
        assert f in r;
      }
    }
    r
  }

  const InitialAbilityScores := AbilityScores(10, 10, 10, 10, 10, 10)

  /** What the form starts with when it is not editing an existing character. */
  const DefaultValues := Character("", "", "", 1, InitialAbilityScores, 1, 1, [])

  /** The item the add button appends. */
  const NewItem := InventoryItem("", 1, Some(""))

  /** The form's initial values: the character being edited, or the defaults. */
  function InitialValues(editing: Option<Character>): Character {
    editing.GetOr(DefaultValues)
  }

  /** A create form starts with values that fail the schema on exactly the three empty strings. */
  lemma DefaultValuesErrors()
    ensures FormErrors(InitialValues(None)).Keys == {Name, Race, CharacterClass}
    ensures FormErrors(InitialValues(None))[Name] == "Name is required"
    ensures FormErrors(InitialValues(None))[Race] == "Race is required"
    ensures FormErrors(InitialValues(None))[CharacterClass] == "Class is required"
    ensures ValidBackend(InitialValues(None))
  {
    var d := InitialValues(None);
    AllAbilities();
    assert forall a :: ScoreError(a, d.abilityScores.Score(a)).None?;
  }

  /** Filling in the three strings is all the defaults need to pass the schema. */
  lemma DefaultsWithNamesValid(name: string, race: string, characterClass: string)
    requires name != "" && race != "" && characterClass != ""
    ensures ValidForm(DefaultValues.(name := name, race := race, characterClass := characterClass))
  {
  }

  /** `addInventoryItem`: one fresh default item after the existing ones. */
  function AddInventoryItem(items: seq<InventoryItem>): (r: seq<InventoryItem>)
    ensures |r| == |items| + 1
    ensures r[..|items|] == items
    ensures r[|items|] == NewItem
    ensures ValidInventory(items) ==> ValidInventory(r)
  {
    items + [NewItem]
  }

  /**
   * Where `splice(index, 1)` starts on a list of length `len`: a negative index counts from
   * the end, and the start is clamped into [0, len].
   */
  function SpliceStart(len: nat, index: int): (p: nat)
    ensures p <= len
    ensures 0 <= index <= len ==> p == index
    ensures index > len ==> p == len
    ensures index < 0 && len + index >= 0 ==> p == len + index
    ensures len + index < 0 ==> p == 0
  {
    if index >= 0 then (if index <= len then index else len)
    else if len + index < 0 then 0 else len + index
  }

  /**
   * `removeInventoryItem(index)`: a copy with `splice(index, 1)` applied. A negative index
   * counts from the end (clamped at 0); a start past the end removes nothing.
   */
  function RemoveInventoryItem(items: seq<InventoryItem>, index: int): (r: seq<InventoryItem>)
    ensures var p := SpliceStart(|items|, index);
            p < |items| ==> && |r| == |items| - 1
                            && (forall j :: 0 <= j < p ==> r[j] == items[j])
                            && (forall j :: p <= j < |r| ==> r[j] == items[j + 1])
    ensures SpliceStart(|items|, index) >= |items| ==> r == items
    ensures multiset(r) <= multiset(items)
    ensures ValidInventory(items) ==> ValidInventory(r)
  {
    var p := SpliceStart(|items|, index);
    if p >= |items| then items
    else
      assert items == items[..p] + [items[p]] + items[p + 1..];
      items[..p] + items[p + 1..]
  }

  /**
   * What removing at `index` leaves, by case: the element at an in-range index is cut out;
   * a negative index counts from the end, and one before the start cuts the first element;
   * an index at or past the end changes nothing.
   */
  lemma RemoveAtIndex(items: seq<InventoryItem>, index: int)
    ensures 0 <= index < |items| ==> RemoveInventoryItem(items, index) == items[..index] + items[index + 1..]
    ensures -|items| <= index < 0 ==>
      RemoveInventoryItem(items, index) == items[..|items| + index] + items[|items| + index + 1..]
    ensures index < -|items| && |items| > 0 ==> RemoveInventoryItem(items, index) == items[1..]
    ensures index >= |items| ==> RemoveInventoryItem(items, index) == items
  {
    var r, p := RemoveInventoryItem(items, index), SpliceStart(|items|, index);
    assert p < |items| ==> r == items[..p] + items[p + 1..];
  }

  /** Adding an item and then removing the last one gives back the list unchanged. */
  lemma AddThenRemove(items: seq<InventoryItem>)
    ensures RemoveInventoryItem(AddInventoryItem(items), |items|) == items
    ensures RemoveInventoryItem(AddInventoryItem(items), -1) == items
  {
  }

  /** Formik's submit: the values are handed on unchanged, and only when the schema passes. */
  function Submit(values: Character): (r: Option<Character>)
    ensures r.Some? <==> FormErrors(values) == map[]
    ensures r.Some? ==> r.value == values
  {
    if ValidForm(values) then Some(values) else None
  }

  /** Schema-valid values with no negative quantity are accepted by the backend model. */
  lemma FormValidImpliesBackendValid(c: Character)
    requires ValidForm(c) && ValidInventory(c.inventory)
    ensures ValidBackend(c)
    ensures ParseCharacter(ToBody(c)) == Some(c)
  {
  }

  /** The schema alone is not enough: one negative quantity is accepted by the form only. */
  lemma FormValidNotSufficient()
    ensures var c := DefaultValues.(name := "A", race := "B", characterClass := "C",
                                    inventory := [InventoryItem("Arrow", -1, None)]);
            ValidForm(c) && !ValidBackend(c) && ParseCharacter(ToBody(c)) == None
  {
    var c := DefaultValues.(name := "A", race := "B", characterClass := "C",
                            inventory := [InventoryItem("Arrow", -1, None)]);
    OneBadItemRejects(c, 0);
  }

  /** Nor does the backend's check imply the form's: it accepts empty strings. */
  lemma BackendValidNotFormValid()
    ensures ValidBackend(DefaultValues) && !ValidForm(DefaultValues)
  {
  }

  /** The two validators judge an ability score alike. */
  lemma ValidatorsAgreeOnScore(c: Character, w: Ability)
    ensures AbilityScore(w) in FormErrors(c) <==> AbilityScore(w) in BackendViolations(c)
  {
    AllAbilities();
  }

  /** The two validators judge level and hit points alike. */
  lemma ValidatorsAgreeOnStats(c: Character)
    ensures Level in FormErrors(c) <==> Level in BackendViolations(c)
    ensures MaxHp in FormErrors(c) <==> MaxHp in BackendViolations(c)
    ensures CurrentHp in FormErrors(c) <==> CurrentHp in BackendViolations(c)
  {
  }

  /** Level, the hit points and the ability scores. */
  predicate NumericField(f: Field) {
    f.Level? || f.MaxHp? || f.CurrentHp? || f.AbilityScore?
  }

  /**
   * The two validators agree exactly on the numeric fields; they differ only in that the
   * form alone checks the three strings and the backend alone checks item quantities.
   */
  lemma ValidatorsAgreeOnNumbers(c: Character)
    ensures forall f :: NumericField(f) ==> (f in FormErrors(c) <==> f in BackendViolations(c))
  {
    forall f | NumericField(f)
      ensures f in FormErrors(c) <==> f in BackendViolations(c)
    {
      match f
      case AbilityScore(w) => ValidatorsAgreeOnScore(c, w);
      case _ => ValidatorsAgreeOnStats(c);
    }
  }
}
