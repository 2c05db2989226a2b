/**
 * The character store: one JSON file per character in one directory, the file named by the
 * character's key. The directory is a map from key to stored character; a failed write or
 * unlink is the `ioOk` oracle.
 */
module CharacterService {
  import opened Wrappers
  import opened CharacterModel
  import Ascii

  type Store = map<string, Character>

  /** The file stem a name is stored under: lower-cased, spaces turned into underscores. */
  function Key(name: string): (k: string)
    ensures |k| == |name|
    ensures forall i :: 0 <= i < |name| ==> k[i] == (if name[i] == ' ' then '_' else Ascii.LowerChar(name[i]))
  {
    Ascii.SpacesToUnderscores(Ascii.Lower(name))
  }

  /**
   * What every store the service builds satisfies: each record sits under the key of its
   * own name, and the model's constraints held when it was written.
   */
  predicate WellFormed(s: Store) {
    forall k :: k in s ==> Key(s[k].name) == k && ValidBackend(s[k])
  }

  /** The outcome of a write: the boolean the service returns and the directory afterwards. */
  datatype Written = Written(ok: bool, store: Store)

  /** `save_character`: writes the record under its key, replacing whatever was there. */
  function SaveCharacter(s: Store, c: Character, ioOk: bool): (r: Written)
    ensures r.ok == ioOk
    ensures r.ok ==> Key(c.name) in r.store && r.store[Key(c.name)] == c
    ensures r.ok ==> r.store.Keys == s.Keys + {Key(c.name)}
    ensures r.ok ==> forall k :: k in s && k != Key(c.name) ==> r.store[k] == s[k]
    ensures !r.ok ==> r.store == s
    ensures WellFormed(s) && ValidBackend(c) ==> WellFormed(r.store)
  {
    if ioOk then Written(true, s[Key(c.name) := c]) else Written(false, s)
  }

  /** `load_character`: the record stored under the name's key, if there is one. */
  function LoadCharacter(s: Store, name: string): (r: Option<Character>)
    ensures r.Some? <==> Key(name) in s
    ensures r.Some? ==> r.value == s[Key(name)]
    ensures WellFormed(s) && r.Some? ==> Key(r.value.name) == Key(name) && ValidBackend(r.value)
  {
    if Key(name) in s then Some(s[Key(name)]) else None
  }

  /** `delete_character`: removes the file for the name's key; false when there is none. */
  function DeleteCharacter(s: Store, name: string, ioOk: bool): (r: Written)
    ensures r.ok <==> Key(name) in s && ioOk
    ensures r.ok ==> r.store.Keys == s.Keys - {Key(name)}
    ensures r.ok ==> forall k :: k in r.store ==> r.store[k] == s[k]
    ensures !r.ok ==> r.store == s
    ensures WellFormed(s) ==> WellFormed(r.store)
  {
    if Key(name) in s && ioOk then Written(true, s - {Key(name)}) else Written(false, s)
  }

  /**
   * Whether the file of key `k` lies in the directory itself. The key is used as a path:
   * a '/' in it names a file in a subdirectory or, through "..", outside the directory.
   */
  predicate InDirectory(k: string) {
    forall i :: 0 <= i < |k| ==> k[i] != '/'
  }

  /** The records `list_characters` can see: `glob('*.json')` does not descend into subdirectories. */
  function ListedKeys(s: Store): (ks: set<string>)
    ensures forall k :: k in ks <==> k in s && InDirectory(k)
  {
    set k | k in s && InDirectory(k)
  }

  /**
   * `list_characters`: the `name` field of every record in the directory, one per file, in
   * the unspecified order the directory is enumerated in (`order` is that enumeration).
   */
  method ListCharacters(s: Store) returns (names: seq<string>, ghost order: seq<string>)
    ensures |names| == |order| == |ListedKeys(s)|
    ensures forall i :: 0 <= i < |order| ==> order[i] in ListedKeys(s) && names[i] == s[order[i]].name
    ensures forall i, j :: 0 <= i < j < |order| ==> order[i] != order[j]
    ensures forall k :: k in ListedKeys(s) ==> k in order
    ensures forall i :: 0 <= i < |names| ==> exists k :: k in ListedKeys(s) && s[k].name == names[i]
  {
    names, order := [], [];
    var remaining := ListedKeys(s);
    while remaining != {}
      invariant remaining <= ListedKeys(s)
      invariant |names| == |order|
      invariant |order| + |remaining| == |ListedKeys(s)|
      invariant forall i :: 0 <= i < |order| ==>
        order[i] in ListedKeys(s) && order[i] !in remaining && names[i] == s[order[i]].name
      invariant forall i, j :: 0 <= i < j < |order| ==> order[i] != order[j]
      invariant forall k :: k in ListedKeys(s) && k !in remaining ==> k in order && s[k].name in names
      decreases remaining
    {
      var k :| k in remaining;
      names := names + [s[k].name];
      order := order + [k];
      remaining := remaining - {k};
    }
    forall i | 0 <= i < |names|
      ensures exists k :: k in ListedKeys(s) && s[k].name == names[i]
    {
      assert order[i] in ListedKeys(s) && s[order[i]].name == names[i];
    }
  }

  lemma KeyOfMixedCase()
    ensures Key("Test Character") == "test_character"
  {
    assert Ascii.Lower("Test Character") == "test character";
  }

  lemma KeyOfUpperCase()
    ensures Key("TEST CHARACTER") == "test_character"
  {
    assert Ascii.Lower("TEST CHARACTER") == "test character";
  }

  lemma KeyOfUnderscored()
    ensures Key("test_character") == "test_character"
  {
    assert Ascii.Lower("test_character") == "test_character";
  }

  /** Names that differ only in letter case, or in space against underscore, share one record. */
  lemma KeyCollisions()
    ensures Key("Test Character") == Key("TEST CHARACTER") == Key("test_character") == "test_character"
  {
    KeyOfMixedCase();
    KeyOfUpperCase();
    KeyOfUnderscored();
  }

  /** A key is its own key: the lower-cased, underscored name reaches the same record. */
  lemma {:induction false} KeyIdempotent(name: string)
    ensures Key(Key(name)) == Key(name)
  {
    var k := Key(name);
    assert forall i :: 0 <= i < |k| ==> k[i] != ' ' && !Ascii.IsUpper(k[i]);
    assert Ascii.Lower(k) == k;
    assert Ascii.SpacesToUnderscores(k) == k;
  }

  /** Lower-case equality of two names is enough for them to share a key. */
  lemma {:induction false} SameLowerSameKey(a: string, b: string)
    requires Ascii.Lower(a) == Ascii.Lower(b)
    ensures Key(a) == Key(b)
  {
    var la, lb := Ascii.Lower(a), Ascii.Lower(b);
    assert Key(a) == Ascii.SpacesToUnderscores(la);
    assert Key(b) == Ascii.SpacesToUnderscores(lb);
  }

  /** Saving then loading under any name with the same key gives back the saved character. */
  lemma SaveThenLoad(s: Store, c: Character, name: string)
    requires Key(name) == Key(c.name)
    ensures LoadCharacter(SaveCharacter(s, c, true).store, name) == Some(c)
  {
  }

  /** A save leaves every other key's load result as it was. */
  lemma SaveLeavesOthers(s: Store, c: Character, ioOk: bool, name: string)
    requires Key(name) != Key(c.name)
    ensures LoadCharacter(SaveCharacter(s, c, ioOk).store, name) == LoadCharacter(s, name)
  {
  }

  /** A successful delete makes the record unreachable under every name with that key. */
  lemma DeleteThenLoad(s: Store, name: string, other: string)
    requires Key(other) == Key(name)
    ensures DeleteCharacter(s, name, true).ok == (Key(name) in s)
    ensures LoadCharacter(DeleteCharacter(s, name, true).store, other) == None
  {
  }

  /** Deleting an absent name reports false and changes nothing, whatever the file system does. */
  lemma DeleteAbsent(s: Store, name: string, ioOk: bool)
    requires LoadCharacter(s, name) == None
    ensures DeleteCharacter(s, name, ioOk) == Written(false, s)
  {
  }

  /**
   * In a well-formed store the listed names are pairwise distinct, and each of them loads
   * back the record it was read from.
   */
  lemma ListedNamesLoad(s: Store, names: seq<string>, order: seq<string>)
    requires WellFormed(s)
    requires |names| == |order|
    requires forall i :: 0 <= i < |order| ==> order[i] in s && names[i] == s[order[i]].name
    requires forall i, j :: 0 <= i < j < |order| ==> order[i] != order[j]
    ensures forall i :: 0 <= i < |names| ==> LoadCharacter(s, names[i]) == Some(s[order[i]])
    ensures forall i, j :: 0 <= i < j < |names| ==> names[i] != names[j]
  {
    forall i, j | 0 <= i < j < |names|
      ensures names[i] != names[j]
    {
      assert Key(names[i]) == order[i] && Key(names[j]) == order[j];
    }
  }
}
