/** What the skill says for one garage and for all of them: the lookup of
    `get_specific_garage_data`, the sentence of `get_all_garage_data_as_string`,
    and the reply of the specific-garage intent handler. */
module Speech {
  import opened Errors
  import opened PyStr
  import opened Snapshot
  import opened Extraction

  // ----- One garage -----

  /** `data[name]`: the stored percentage, or KeyError when `name` is not a key. */
  function Lookup(data: Snapshot, name: string): (r: Result<string>)
    ensures r.Ok? <==> name in Keys(data)
    ensures r.Ok? ==> Get(data, name) == Some(r.value)
    ensures r.Err? ==> r.error == KeyError(name)
  {
    match Get(data, name)
    case None => Err(KeyError(name))
    case Some(pct) => Ok(pct)
  }

  /** `get_specific_garage_data(name)`: the table is read, then the key looked
      up; a failure of the row loop comes out unchanged. */
  method GetSpecificGarageData(rows: seq<Row>, name: string) returns (r: Result<string>)
    ensures r == match GarageData(rows)
                 case Err(e) => Err(e)
                 case Ok(data) => Lookup(data, name)
    ensures r.Ok? ==> ValidPct(r.value)
  {
    var data := GetGarageData(rows);
    if data.Err? {
      return Err(data.error);
    }
    r := Lookup(data.value, name);
    if r.Ok? {
      ValidLookup(data.value, name);
    }
  }

  /** A value read from a dictionary the row loop built is a valid percentage. */
  lemma ValidLookup(data: Snapshot, name: string)
    requires ValidSnapshot(data) && name in Keys(data)
    ensures ValidPct(Lookup(data, name).value)
  {
    var i := IndexOf(data, name);
    assert Lookup(data, name).value == data[i].pct;
  }

  /** The dictionary key asked for by the spoken slot value: dots removed,
      upper-cased. */
  function SlotKey(slot: string): string
  {
    Upper(Remove(slot, '.'))
  }

  /** The reply when the key is missing; it repeats the slot as heard. */
  function Apology(slot: string): string
  {
    "Garage " + slot + " either does not exist or is not available to see how full it is."
  }

  /** The reply of the specific-garage handler on a dictionary, lines 145-155:
      a missing key gives the apology; a found one is spoken as "Garage X is
      at P percent capacity.", except that a slot that reads "LIBRA" once its
      dots are gone is spoken as "Libra Garage is at P percent capacity.".
      `str.replace('.', '')` is Remove (ReplaceCharIsRemove). */
  function SpecificGarageSpeech(data: Snapshot, slot: string): string
  {
    match Lookup(data, SlotKey(slot))
    case Err(_) => Apology(slot)
    case Ok(pct) =>
      if Remove(slot, '.') != "LIBRA" then
        "Garage " + Remove(Capitalize(slot), '.') + " is at " + pct + " percent capacity."
      else
        Remove(Capitalize(slot), '.') + " Garage is at " + pct + " percent capacity."
  }

  /** `SpecificGarageIntentHandler.handle`: only the KeyError of the lookup is
      caught and turned into the apology; a failure of the row loop escapes. */
  method HandleSpecificGarage(rows: seq<Row>, slot: string) returns (r: Result<string>)
    ensures r == match GarageData(rows)
                 case Err(e) => Err(e)
                 case Ok(data) => Ok(SpecificGarageSpeech(data, slot))
  {
    var percentage := GetSpecificGarageData(rows, SlotKey(slot));
    GarageDataErrors(rows);
    match percentage
    case Err(e) =>
      if e.KeyError? {
        return Ok(Apology(slot));
      }
      return Err(e);
    case Ok(pct) =>
      if Remove(slot, '.') != "LIBRA" {
        return Ok("Garage " + Remove(Capitalize(slot), '.') + " is at " + pct + " percent capacity.");
      } else {
        return Ok(Remove(Capitalize(slot), '.') + " Garage is at " + pct + " percent capacity.");
      }
  }

  /** A garage that is not in the dictionary gets the apology, which repeats
      the slot exactly as heard. */
  lemma SpecificMissing(data: Snapshot, slot: string)
    requires SlotKey(slot) !in Keys(data)
    ensures SpecificGarageSpeech(data, slot) == Apology(slot)
    ensures SpecificGarageSpeech(data, slot)[7..7 + |slot|] == slot
  {
  }

  /** A found garage whose slot is not "LIBRA" is announced by its slot with
      the dots removed, and with the stored percentage. The slot is
      capitalised before its dots go, so a slot that starts with a dot keeps
      its first letter in lower case. */
  lemma SpecificFound(data: Snapshot, slot: string)
    requires SlotKey(slot) in Keys(data) && Remove(slot, '.') != "LIBRA"
    ensures (slot == [] || slot[0] != '.') ==>
      SpecificGarageSpeech(data, slot) ==
        "Garage " + Capitalize(Remove(slot, '.')) + " is at " + Get(data, SlotKey(slot)).value
        + " percent capacity."
    ensures (slot != [] && slot[0] == '.') ==>
      SpecificGarageSpeech(data, slot) ==
        "Garage " + Lower(Remove(slot, '.')) + " is at " + Get(data, SlotKey(slot)).value
        + " percent capacity."
  {
    if slot == [] || slot[0] != '.' {
      RemoveCapitalize(slot, '.');
    } else {
      LeadingDot(slot);
    }
  }

  /** With a leading dot, capitalising changes only the dot, and removing the
      dots leaves the rest lower-cased. */
  lemma LeadingDot(slot: string)
    requires slot != [] && slot[0] == '.'
    ensures Remove(Capitalize(slot), '.') == Lower(Remove(slot, '.'))
  {
    var rest := slot[1..];
    assert slot == ['.'] + rest;
    assert Capitalize(slot) == ['.'] + Lower(rest);
    RemoveAppend(['.'], Lower(rest), '.');
    RemoveAppend(['.'], rest, '.');
    assert Remove(['.'], '.') == [];
    RemoveLower(rest, '.');
  }

  /** The slot ".a" finds the key "A" but is spoken "Garage a". */
  lemma LeadingDotExample()
    ensures SpecificGarageSpeech([Entry("A", "5")], ".a") == "Garage " + "a" + " is at " + "5" + " percent capacity."
  {
    LeadingDot(".a");
    assert Remove(".a", '.') == "a" by {
      assert ".a" == ['.'] + "a";
      RemoveAppend(['.'], "a", '.');
      assert Remove(['.'], '.') == [];
      assert Remove("a", '.') == "a";
    }
    assert Upper("a") == "A";
    assert Lower("a") == "a";
    assert Keys([Entry("A", "5")])[0] == "A";
    assert Lookup([Entry("A", "5")], "A") == Ok("5");
  }

  /** The slot "LIBRA" (dots allowed after its first letter) is announced as
      "Libra Garage", with the stored percentage. */
  lemma SpecificLibra(data: Snapshot, slot: string)
    requires "LIBRA" in Keys(data) && Remove(slot, '.') == "LIBRA"
    requires slot[0] != '.'
    ensures SpecificGarageSpeech(data, slot) ==
      "Libra" + " Garage is at " + Get(data, "LIBRA").value + " percent capacity."
  {
    RemoveCapitalize(slot, '.');
    LibraCases();
    assert SlotKey(slot) == "LIBRA";
    assert Remove(Capitalize(slot), '.') == "Libra";
    assert Lookup(data, SlotKey(slot)) == Ok(Get(data, "LIBRA").value);
  }

  /** The key "LIBRA" is its own upper case and capitalises to "Libra". */
  lemma LibraCases()
    ensures Upper("LIBRA") == "LIBRA" && Capitalize("LIBRA") == "Libra"
  {
    UpperSpec("LIBRA");
    assert Lower("IBRA") == "ibra" by {
      assert Lower("A") == "a";
      assert Lower("RA") == "ra";
      assert Lower("BRA") == "bra";
    }
  }

  /** The word order depends on the slot as heard, not on the key: a slot
      "libra" finds the LIBRA item but is spoken "Garage Libra". */
  lemma LowercaseLibra(data: Snapshot)
    requires "LIBRA" in Keys(data)
    ensures SpecificGarageSpeech(data, "libra") ==
      "Garage " + "Libra" + " is at " + Get(data, "LIBRA").value + " percent capacity."
  {
    LibraNoDots();
    LibraUpper();
    LibraCapitalized();
    assert SlotKey("libra") == "LIBRA";
  }

  lemma LibraNoDots()
    ensures Remove("libra", '.') == "libra" && Remove("Libra", '.') == "Libra"
  {
    RemoveSpec("libra", '.');
    RemoveSpec("Libra", '.');
  }

  lemma LibraUpper()
    ensures Upper("libra") == "LIBRA"
  {
    UpperSpec("libra");
  }

  lemma LibraCapitalized()
    ensures Capitalize("libra") == "Libra"
  {
    assert Lower("ibra") == "ibra" by {
      assert Lower("a") == "a";
      assert Lower("ra") == "ra";
      assert Lower("bra") == "bra";
    }
  }

  /** The lookup does not depend on how the slot was cased: "libra", "Libra"
      and "LIBRA" ask for the same key. */
  lemma SlotKeyIgnoresCase(slot: string)
    ensures SlotKey(Lower(slot)) == SlotKey(slot)
    ensures SlotKey(Upper(slot)) == SlotKey(slot)
  {
    RemoveLower(slot, '.');
    UpperLower(Remove(slot, '.'));
    RemoveUpper(slot, '.');
    UpperUpper(Remove(slot, '.'));
  }

  // ----- All garages -----

  /** The words for one dictionary item (lines 73-76): a LIBRA item closes
      the sentence with "and ... .", any other adds a clause ending in ", ". */
  function Clause(e: Entry): string
  {
    if e.name != "LIBRA" then
      "Garage " + Capitalize(e.name) + " is at " + e.pct + " percent capacity, "
    else
      "and " + Capitalize(e.name) + " Garage is at " + e.pct + " percent capacity."
  }

  /** The clauses of the items, in the dictionary's order. */
  function AllGaragesText(data: Snapshot): string
  {
    if data == [] then "" else AllGaragesText(data[..|data| - 1]) + Clause(data[|data| - 1])
  }

  /** The loop of `get_all_garage_data_as_string` over an existing dictionary. */
  method AllGaragesSentence(data: Snapshot) returns (text: string)
    requires DistinctKeys(data)
    ensures text == AllGaragesText(data)
  {
    text := "";
    for i := 0 to |data|
      invariant text == AllGaragesText(data[..i])
    {
      var key := data[i].name;
      GetAt(data, i);
      var pct := Get(data, key).value;
      ClauseNext(data, i);
      if key != "LIBRA" {
        text := text + ("Garage " + Capitalize(key) + " is at " + pct + " percent capacity, ");
      } else {
        text := text + ("and " + Capitalize(key) + " Garage is at " + pct + " percent capacity.");
      }
    }
    assert data[..|data|] == data;
  }

  lemma ClauseNext(data: Snapshot, i: nat)
    requires i < |data|
    ensures AllGaragesText(data[..i + 1]) == AllGaragesText(data[..i]) + Clause(data[i])
  {
    assert data[..i + 1][..i] == data[..i];
  }

  /** `get_all_garage_data_as_string`, lines 68-78. */
  method GetAllGarageDataAsString(rows: seq<Row>) returns (r: Result<string>)
    ensures r == match GarageData(rows)
                 case Err(e) => Err(e)
                 case Ok(data) => Ok(AllGaragesText(data))
  {
    var dictionary := GetGarageData(rows);
    if dictionary.Err? {
      return Err(dictionary.error);
    }
    var text := AllGaragesSentence(dictionary.value);
    return Ok(text);
  }

  /** The sentence for two dictionaries one after the other is the two
      sentences one after the other. */
  lemma {:induction false} AllGaragesAppend(a: Snapshot, b: Snapshot)
    ensures AllGaragesText(a + b) == AllGaragesText(a) + AllGaragesText(b)
  {
    if b != [] {
      var init := b[..|b| - 1];
      assert (a + b)[..|a + b| - 1] == a + init;
      AllGaragesAppend(a, init);
    } else {
      assert a + b == a;
    }
  }

  /** Every item is spoken exactly at its own position: the clauses before
      it, its clause, the clauses after it. A LIBRA item in the middle is
      spoken in the middle, not at the end. */
  lemma AllGaragesClauseAt(data: Snapshot, i: nat)
    requires i < |data|
    ensures AllGaragesText(data) ==
      AllGaragesText(data[..i]) + Clause(data[i]) + AllGaragesText(data[i + 1..])
  {
    var a, b := data[..i], data[i + 1..];
    SplitAround(data, i);
    AllGaragesAppend(a, [data[i]] + b);
    AllGaragesAppend([data[i]], b);
    AllGaragesOne(data[i]);
    Associate(AllGaragesText(a), Clause(data[i]), AllGaragesText(b));
  }

  lemma SplitAround<T>(s: seq<T>, i: nat)
    requires i < |s|
    ensures s == s[..i] + ([s[i]] + s[i + 1..])
  {
  }

  lemma Associate(a: string, b: string, c: string)
    ensures a + (b + c) == a + b + c
  {
  }

  lemma AllGaragesOne(e: Entry)
    ensures AllGaragesText([e]) == Clause(e)
  {
    assert [e][..0] == [];
  }

  /** The sentence is empty exactly when the dictionary is. */
  lemma AllGaragesEmpty(data: Snapshot)
    ensures AllGaragesText(data) == "" <==> data == []
  {
  }

  /** The sentence ends with a full stop exactly when the last key is LIBRA;
      otherwise it ends with the ", " of a clause. */
  lemma AllGaragesEnding(data: Snapshot)
    requires data != []
    ensures var t := AllGaragesText(data);
      (data[|data| - 1].name == "LIBRA" ==> t[|t| - 1] == '.')
      && (data[|data| - 1].name != "LIBRA" ==> t[|t| - 2..] == ", ")
  {
  }

  /** The clause of the LIBRA item reads "and Libra Garage is at P percent
      capacity.". */
  lemma LibraClause(pct: string)
    ensures Clause(Entry("LIBRA", pct)) == "and Libra Garage is at " + pct + " percent capacity."
  {
    LibraCases();
  }
}
