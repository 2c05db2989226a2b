/**
 * The shared character shape and the backend's field constraints (the Pydantic models).
 * The same datatype stands for the frontend's TypeScript interfaces, which have the
 * identical shape; the frontend's own constraints live in module CharacterForm.
 */
module CharacterModel {
  import opened Wrappers

  datatype Ability = Strength | Dexterity | Constitution | Intelligence | Wisdom | Charisma

  const Abilities: set<Ability> := {Strength, Dexterity, Constitution, Intelligence, Wisdom, Charisma}

  datatype AbilityScores = AbilityScores(
    strength: int,
    dexterity: int,
    constitution: int,
    intelligence: int,
    wisdom: int,
    charisma: int)
  {
    function Score(which: Ability): int {
      match which
      case Strength => strength
      case Dexterity => dexterity
      case Constitution => constitution
      case Intelligence => intelligence
      case Wisdom => wisdom
      case Charisma => charisma
    }
  }

  datatype InventoryItem = InventoryItem(name: string, quantity: int, description: Option<string>)

  datatype Character = Character(
    name: string,
    race: string,
    characterClass: string,
    level: int,
    abilityScores: AbilityScores,
    maxHp: int,
    currentHp: int,
    inventory: seq<InventoryItem>)

  /** The path of a field that a validator can reject. */
  datatype Field =
    | Name
    | Race
    | CharacterClass
    | Level
    | MaxHp
    | CurrentHp
    | AbilityScore(ability: Ability)
    | ItemQuantity(index: nat)

  const MinScore := 1
  const MaxScore := 20
  const MinLevel := 1
  const MaxLevel := 20
  const MinMaxHp := 1
  const MinCurrentHp := 0
  const MinQuantity := 0

  predicate ScoreInRange(v: int) {
    MinScore <= v <= MaxScore
  }

  predicate LevelInRange(v: int) {
    MinLevel <= v <= MaxLevel
  }

  /** Every one of the six ability scores lies in [1, 20]. */
  predicate ValidScores(a: AbilityScores) {
    forall which: Ability :: ScoreInRange(a.Score(which))
  }

  predicate ValidItem(item: InventoryItem) {
    item.quantity >= MinQuantity
  }

  predicate ValidInventory(items: seq<InventoryItem>) {
    forall i :: 0 <= i < |items| ==> ValidItem(items[i])
  }

  /**
   * The constraints the backend model puts on a character. There are none on the three
   * strings, none on an item's name or description, and none relating `currentHp` to `maxHp`.
   */
  predicate ValidBackend(c: Character) {
    && ValidScores(c.abilityScores)
    && LevelInRange(c.level)
    && c.maxHp >= MinMaxHp
    && c.currentHp >= MinCurrentHp
    && ValidInventory(c.inventory)
  }

  lemma AllAbilities()
    ensures forall a: Ability :: a in Abilities
  {
    forall a: Ability ensures a in Abilities {
      match a
      case Strength =>
      case Dexterity =>
      case Constitution =>
      case Intelligence =>
      case Wisdom =>
      case Charisma =>
    }
  }

  /** The fields the backend model rejects, one entry per failed constraint. */
  function BackendViolations(c: Character): (r: set<Field>)
    ensures r == {} <==> ValidBackend(c)
    ensures forall f :: f in r ==> f !in {Name, Race, CharacterClass}
  {
    var scores := set a | a in Abilities && !ScoreInRange(c.abilityScores.Score(a)) :: AbilityScore(a);
    var items := set i | 0 <= i < |c.inventory| && !ValidItem(c.inventory[i]) :: ItemQuantity(i);
    AllAbilities();
    assert !ValidScores(c.abilityScores) ==> exists a :: a in Abilities && AbilityScore(a) in scores;
    assert !ValidInventory(c.inventory) ==> exists i :: 0 <= i < |c.inventory| && ItemQuantity(i) in items by {
      if !ValidInventory(c.inventory) {
        var i :| 0 <= i < |c.inventory| && !ValidItem(c.inventory[i]);
        assert ItemQuantity(i) in items;
      }
    }
    (if LevelInRange(c.level) then {} else {Level})
    + (if c.maxHp >= MinMaxHp then {} else {MaxHp})
    + (if c.currentHp >= MinCurrentHp then {} else {CurrentHp})
    + scores
    + items
  }

  /**
   * A request body as the client sends it. `inventory` may be absent, and then the model
   * fills in the empty list; an item's `description` is optional in both layers.
   */
  datatype CharacterBody = CharacterBody(
    name: string,
    race: string,
    characterClass: string,
    level: int,
    abilityScores: AbilityScores,
    maxHp: int,
    currentHp: int,
    inventory: Option<seq<InventoryItem>>)

  /** The body a client sends for a character it holds: every field present. */
  function ToBody(c: Character): CharacterBody {
    CharacterBody(c.name, c.race, c.characterClass, c.level, c.abilityScores, c.maxHp, c.currentHp, Some(c.inventory))
  }

  /**
   * Building the model from a request body: defaults filled in, then every field constraint
   * checked. `None` is the validation error the framework answers with status 422.
   */
  function ParseCharacter(b: CharacterBody): (r: Option<Character>)
    ensures r.Some? <==>
      && ValidScores(b.abilityScores) && LevelInRange(b.level)
      && b.maxHp >= MinMaxHp && b.currentHp >= MinCurrentHp
      && ValidInventory(b.inventory.GetOr([]))
    ensures r.Some? ==> ValidBackend(r.value)
    ensures r.Some? ==> r.value.name == b.name && r.value.race == b.race
                        && r.value.characterClass == b.characterClass && r.value.level == b.level
                        && r.value.abilityScores == b.abilityScores
                        && r.value.maxHp == b.maxHp && r.value.currentHp == b.currentHp
    ensures r.Some? ==> r.value.inventory == b.inventory.GetOr([])
    ensures b.inventory.None? && r.Some? ==> r.value.inventory == []
  {
    var c := Character(b.name, b.race, b.characterClass, b.level, b.abilityScores, b.maxHp, b.currentHp,
                       b.inventory.GetOr([]));
    if ValidBackend(c) then Some(c) else None
  }

  /** A character survives the trip through a request body exactly when it is backend-valid. */
  lemma ParseToBody(c: Character)
    ensures ValidBackend(c) ==> ParseCharacter(ToBody(c)) == Some(c)
    ensures !ValidBackend(c) ==> ParseCharacter(ToBody(c)) == None
  {
  }

  /** A body without `inventory` is accepted as the character with an empty inventory. */
  lemma MissingInventoryDefaults(c: Character)
    requires ValidBackend(c) && c.inventory == []
    ensures ParseCharacter(ToBody(c).(inventory := None)) == Some(c)
  {
  }

  /** Each bound is tight: 1 and 20 are accepted, 0 and 21 are not. */
  lemma ScoreBounds()
    ensures ScoreInRange(1) && ScoreInRange(20)
    ensures !ScoreInRange(0) && !ScoreInRange(21)
    ensures LevelInRange(1) && LevelInRange(20) && !LevelInRange(0) && !LevelInRange(21)
  {
  }

  /** One score out of range makes the whole character invalid, whichever score it is. */
  lemma OneBadScoreRejects(c: Character, which: Ability)
    requires !ScoreInRange(c.abilityScores.Score(which))
    ensures !ValidBackend(c)
    ensures AbilityScore(which) in BackendViolations(c)
  {
    assert which in Abilities;
  }

  /** One item with a negative quantity makes the whole character invalid. */
  lemma OneBadItemRejects(c: Character, i: nat)
    requires i < |c.inventory| && c.inventory[i].quantity < 0
    ensures !ValidBackend(c)
    ensures ItemQuantity(i) in BackendViolations(c)
  {
  }

  /**
   * The backend is lenient where the source leaves things open: empty strings, current
   * hit points above the maximum, an item with an empty name and no description.
   */
  lemma BackendAcceptsLenientValues()
    ensures ValidBackend(Character("", "", "", 1, AbilityScores(10, 10, 10, 10, 10, 10), 1, 99,
                                   [InventoryItem("", 0, None)]))
  {
  }
}
