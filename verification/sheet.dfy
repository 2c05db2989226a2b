/**
 * The read-only character sheet: the signed-modifier formatter and the rules deciding
 * what the sheet shows. All numbers arrive precomputed from the backend.
 */
module CharacterSheet {
  import opened Wrappers
  import Decimal

  datatype BasicInfo = BasicInfo(name: string, race: string, className: string, level: int)
  datatype Health = Health(maxHp: int, currentHp: int, tempHp: int)
  datatype AbilityEntry = AbilityEntry(ability: string, score: int, modifier: int)
  datatype SheetItem = SheetItem(name: string, quantity: int, description: Option<string>)

  /** The sheet data as the backend sends it; ability entries in the object's key order. */
  datatype SheetData = SheetData(
    basicInfo: BasicInfo,
    health: Health,
    abilityScores: seq<AbilityEntry>,
    proficiencyBonus: int,
    inventory: seq<SheetItem>)

  /** `formatModifier`: a '+' before non-negative values, the plain decimal form otherwise. */
  function FormatModifier(m: int): (r: string)
    ensures |r| >= 2
    ensures r[0] == '+' <==> m >= 0
    ensures r[0] == '-' <==> m < 0
    ensures m >= 0 ==> r[1..] == Decimal.NatToString(m)
    ensures m < 0 ==> r == Decimal.IntToString(m)
  {
    if m >= 0 then "+" + Decimal.IntToString(m) else Decimal.IntToString(m)
  }

  /** Reading a formatted modifier back gives the original value. */
  lemma FormatModifierRoundTrip(m: int)
    ensures Decimal.ParseInt(FormatModifier(m)) == Some(m)
  {
    Decimal.IntToStringRoundTrip(m);
    if m >= 0 {
      var r := FormatModifier(m);
      assert r[1..] == Decimal.IntToString(m);
      Decimal.DigitsValueOfNatToString(m);
    }
  }

  /** Different modifiers never look the same on the sheet. */
  lemma FormatModifierInjective(m: int, n: int)
    requires FormatModifier(m) == FormatModifier(n)
    ensures m == n
  {
    FormatModifierRoundTrip(m);
    FormatModifierRoundTrip(n);
  }

  lemma FormatModifierExamples()
    ensures FormatModifier(3) == "+3"
    ensures FormatModifier(2) == "+2"
    ensures FormatModifier(0) == "+0"
    ensures FormatModifier(-1) == "-1"
  {
  }

  /** An inventory row's primary text: `name (quantity)`. */
  function ItemLabel(item: SheetItem): string {
    item.name + " (" + Decimal.IntToString(item.quantity) + ")"
  }

  /** The quantity can be read back from a label, given the item's name. */
  lemma ItemLabelQuantity(name: string, q1: int, q2: int)
    requires ItemLabel(SheetItem(name, q1, None)) == ItemLabel(SheetItem(name, q2, None))
    ensures q1 == q2
  {
    var l1, l2 := ItemLabel(SheetItem(name, q1, None)), ItemLabel(SheetItem(name, q2, None));
    var s1, s2 := Decimal.IntToString(q1), Decimal.IntToString(q2);
    assert |s1| == |s2|;
    assert l1[|name| + 2..|l1| - 1] == s1;
    assert l2[|name| + 2..|l2| - 1] == s2;
    Decimal.IntToStringInjective(q1, q2);
  }

  datatype InventoryRow = InventoryRow(primary: string, secondary: Option<string>, divider: bool)

  /** The inventory list: one row per item, a divider under every row but the last. */
  function InventoryRows(items: seq<SheetItem>): (rows: seq<InventoryRow>)
    ensures |rows| == |items|
    ensures forall i :: 0 <= i < |items| ==> rows[i].primary == ItemLabel(items[i])
    ensures forall i :: 0 <= i < |items| ==> rows[i].secondary == items[i].description
    ensures forall i :: 0 <= i < |items| ==> (rows[i].divider <==> i < |items| - 1)
  {
    seq(|items|, i requires 0 <= i < |items| =>
      InventoryRow(ItemLabel(items[i]), items[i].description, i != |items| - 1))
  }

  function CountDividers(rows: seq<InventoryRow>): nat {
    if |rows| == 0 then 0 else (if rows[0].divider then 1 else 0) + CountDividers(rows[1..])
  }

  /** A list of n items shows n - 1 dividers (none for an empty list). */
  lemma {:induction false} DividerCount(rows: seq<InventoryRow>)
    requires |rows| > 0 ==> !rows[|rows| - 1].divider
    requires forall i :: 0 <= i < |rows| - 1 ==> rows[i].divider
    ensures CountDividers(rows) == if |rows| == 0 then 0 else |rows| - 1
    decreases |rows|
  {
    if |rows| > 0 {
      DividerCount(rows[1..]);
    }
  }

  /** The whole rendered sheet, reduced to the text and the conditional parts it shows. */
  datatype SheetView = SheetView(
    title: string,
    subtitle: string,
    abilities: seq<(string, string, string)>,
    hitPoints: string,
    tempHpLine: Option<string>,
    proficiency: string,
    inventoryRows: seq<InventoryRow>,
    emptyInventoryMessage: Option<string>)

  function Render(data: SheetData): (v: SheetView)
    ensures v.tempHpLine.Some? <==> data.health.tempHp > 0
    ensures v.tempHpLine.Some? ==> v.tempHpLine.value == "Temp HP: " + Decimal.IntToString(data.health.tempHp)
    ensures v.emptyInventoryMessage.Some? <==> |data.inventory| == 0
    ensures v.emptyInventoryMessage.Some? <==> |v.inventoryRows| == 0
    ensures |v.abilities| == |data.abilityScores|
    ensures forall i :: 0 <= i < |v.abilities| ==>
      v.abilities[i].2 == FormatModifier(data.abilityScores[i].modifier) && (v.abilities[i].2[0] == '+' <==> data.abilityScores[i].modifier >= 0)
    ensures v.proficiency == FormatModifier(data.proficiencyBonus)
    ensures v.inventoryRows == InventoryRows(data.inventory)
    ensures CountDividers(v.inventoryRows) == if |data.inventory| == 0 then 0 else |data.inventory| - 1
  {
    var b, h := data.basicInfo, data.health;
    var rows := InventoryRows(data.inventory);
    DividerCount(rows);
    SheetView(
      b.name,
      "Level " + Decimal.IntToString(b.level) + " " + b.race + " " + b.className,
      seq(|data.abilityScores|, i requires 0 <= i < |data.abilityScores| =>
        var e := data.abilityScores[i];
        (e.ability, Decimal.IntToString(e.score), FormatModifier(e.modifier))),
      Decimal.IntToString(h.currentHp) + " / " + Decimal.IntToString(h.maxHp),
      if h.tempHp > 0 then Some("Temp HP: " + Decimal.IntToString(h.tempHp)) else None,
      FormatModifier(data.proficiencyBonus),
      rows,
      if |data.inventory| == 0 then Some("No items in inventory") else None)
  }

  /** A level-4 human fighter with one longsword, as in the sheet's own examples. */
  const ExampleData := SheetData(
    BasicInfo("Test Character", "Human", "Fighter", 4),
    Health(35, 30, 5),
    [AbilityEntry("strength", 16, 3)],
    2,
    [SheetItem("Longsword", 1, Some("A standard longsword"))])

  lemma RenderExampleHeader()
    ensures Render(ExampleData).subtitle == "Level 4 Human Fighter"
    ensures Render(ExampleData).hitPoints == "30 / 35"
    ensures Render(ExampleData).tempHpLine == Some("Temp HP: 5")
    ensures Render(ExampleData).proficiency == "+2"
  {
    assert Decimal.IntToString(5) == "5";
    assert "Temp HP: " + "5" == "Temp HP: 5";
  }

  lemma RenderExampleAbility()
    ensures Render(ExampleData).abilities[0] == ("strength", "16", "+3")
  {
    var v := Render(ExampleData);
    assert Decimal.IntToString(16) == "16" by {
      assert Decimal.NatToString(16) == Decimal.NatToString(1) + [Decimal.DigitChar(6)];
    }
    assert FormatModifier(3) == "+3";
    assert v.abilities[0] == ("strength", Decimal.IntToString(16), FormatModifier(3));
  }

  lemma RenderExampleInventory()
    ensures Render(ExampleData).inventoryRows == [InventoryRow("Longsword (1)", Some("A standard longsword"), false)]
    ensures Render(ExampleData).emptyInventoryMessage == None
  {
    assert Decimal.IntToString(1) == "1";
    assert "Longsword" + " (" + "1" + ")" == "Longsword (1)";
  }
}
