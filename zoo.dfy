/**
 * The matching engine (`Zoo`): the species catalogue, the enclosure
 * inventory and `analisaRecintos`, which validates a request, lists a
 * description of every enclosure that can take it and sorts that list as
 * text.
 */
module RecintosZoo {
  import opened Text
  import opened Ordering
  import opened Animals
  import opened Enclosures

  /** The three ways a request can fail, each shown to the user as a fixed message. */
  datatype Error = InvalidAnimal | InvalidQuantity | NoViableEnclosure
  {
    function Message(): string
    {
      match this
      case InvalidAnimal => "Animal inválido"
      case InvalidQuantity => "Quantidade inválida"
      case NoViableEnclosure => "Não há recinto viável"
    }
  }

  /** The outcome of a request: exactly one error, or the sorted list of viable enclosures. */
  datatype Outcome = Failure(error: Error) | Success(viable: seq<string>)

  /** The six-species table the zoo is seeded with. */
  function SeedCatalog(): map<string, SpeciesInfo>
  {
    map[
      "LEAO" := SpeciesInfo(3, ["savana"]),
      "LEOPARDO" := SpeciesInfo(2, ["savana"]),
      "CROCODILO" := SpeciesInfo(3, ["rio"]),
      "MACACO" := SpeciesInfo(1, ["savana", "floresta"]),
      "GAZELA" := SpeciesInfo(2, ["savana"]),
      "HIPOPOTAMO" := SpeciesInfo(4, ["savana", "rio"])
    ]
  }

  /** The seed table knows six species, each with a positive size and at least one biome. */
  lemma SeedCatalogShape()
    ensures SeedCatalog().Keys == {"LEAO", "LEOPARDO", "CROCODILO", "MACACO", "GAZELA", "HIPOPOTAMO"}
    ensures forall s :: s in SeedCatalog() ==> SeedCatalog()[s].size > 0 && |SeedCatalog()[s].biomes| > 0
    ensures forall s :: s in SeedCatalog() && IsCarnivore(s) <==> s in Carnivores
  {
  }

  /** The text listed for a viable enclosure: its number, the free space left and its total size. */
  function Descriptor(number: int, free: int, total: int): string
  {
    "Recinto " + IntToString(number) + " (espaço livre: " + IntToString(free) + ", total: " + IntToString(total) + ")"
  }

  /** The text with its concatenations grouped from the right. */
  lemma DescriptorNested(n: int, f: int, t: int)
    ensures Descriptor(n, f, t) ==
      "Recinto " + (IntToString(n) + (" (espaço livre: " + (IntToString(f) + (", total: " + (IntToString(t) + ")")))))
  {
  }

  lemma PrefixCancel(p: string, x: string, y: string)
    requires p + x == p + y
    ensures x == y
  {
    assert x == (p + x)[|p|..];
    assert y == (p + y)[|p|..];
  }

  /** Distinct (number, free space, total) triples are listed as distinct texts. */
  lemma DescriptorInjective(n: int, f: int, t: int, n': int, f': int, t': int)
    requires Descriptor(n, f, t) == Descriptor(n', f', t')
    ensures n == n' && f == f' && t == t'
  {
    var a, b, c := IntToString(n), IntToString(f), IntToString(t);
    var a', b', c' := IntToString(n'), IntToString(f'), IntToString(t');
    var p2, p3 := " (espaço livre: ", ", total: ";
    var tail2, tail2' := p3 + (c + ")"), p3 + (c' + ")");
    var tail1, tail1' := p2 + (b + tail2), p2 + (b' + tail2');
    DescriptorNested(n, f, t);
    DescriptorNested(n', f', t');
    PrefixCancel("Recinto ", a + tail1, a' + tail1');
    IntToStringHasNoSeparator(n, ' ');
    IntToStringHasNoSeparator(n', ' ');
    SplitAtSeparator(a, tail1, a', tail1', ' ');
    PrefixCancel(p2, b + tail2, b' + tail2');
    IntToStringHasNoSeparator(f, ',');
    IntToStringHasNoSeparator(f', ',');
    SplitAtSeparator(b, tail2, b', tail2', ',');
    PrefixCancel(p3, c + ")", c' + ")");
    IntToStringHasNoSeparator(t, ')');
    IntToStringHasNoSeparator(t', ')');
    SplitAtSeparator(c, ")", c', ")", ')');
    IntToStringInjective(n, n');
    IntToStringInjective(f, f');
    IntToStringInjective(t, t');
  }

  /**
   * The free space shown for an accepted enclosure: the free space less the
   * animals' size, less one more unit when the species is not resident and
   * the enclosure is occupied.
   */
  function DisplayedFree(e: Enclosure, species: string, quantity: int, size: int): int
  {
    var free := FreeSpace(e) - quantity * size;
    if species !in e.occupants && |e.occupants| > 0 then free - 1 else free
  }

  /**
   * The penalty shown for display is the one the capacity check charged, so
   * an accepted enclosure shows its free space less the required space,
   * which is never negative.
   */
  lemma DisplayedFreeIsRemainingSpace(e: Enclosure, species: string, quantity: int, size: int, biomes: seq<string>)
    requires Compatible(e, species, quantity, size, biomes)
    ensures DisplayedFree(e, species, quantity, size) == FreeSpace(e) - RequiredSpace(e, species, quantity, size)
    ensures DisplayedFree(e, species, quantity, size) >= 0
  {
  }

  /** The listed text for enclosure `e` under a request. */
  function Describe(e: Enclosure, species: string, quantity: int, info: SpeciesInfo): string
  {
    Descriptor(e.number, DisplayedFree(e, species, quantity, info.size), e.totalSize)
  }

  /** `compativel` called with a species' table entry, as `analisaRecintos` calls it. */
  predicate IsViable(e: Enclosure, species: string, quantity: int, info: SpeciesInfo)
  {
    Compatible(e, species, quantity, info.size, info.biomes)
  }

  /** The descriptions of the viable enclosures, in inventory order (before sorting). */
  function ViableDescriptors(inventory: seq<Enclosure>, species: string, quantity: int, info: SpeciesInfo): seq<string>
    decreases |inventory|
  {
    if inventory == [] then []
    else
      var last := inventory[|inventory| - 1];
      var earlier := ViableDescriptors(inventory[..|inventory| - 1], species, quantity, info);
      if IsViable(last, species, quantity, info) then earlier + [Describe(last, species, quantity, info)] else earlier
  }

  /** A text is listed exactly when it describes some viable enclosure of the inventory. */
  lemma {:induction false} ViableDescriptorsMembership(
    inventory: seq<Enclosure>, species: string, quantity: int, info: SpeciesInfo, d: string)
    ensures d in ViableDescriptors(inventory, species, quantity, info) <==>
      exists i :: 0 <= i < |inventory| && IsViable(inventory[i], species, quantity, info)
                  && d == Describe(inventory[i], species, quantity, info)
    decreases |inventory|
  {
    if inventory != [] {
      var n := |inventory| - 1;
      var earlier := inventory[..n];
      ViableDescriptorsMembership(earlier, species, quantity, info, d);
      if d in ViableDescriptors(inventory, species, quantity, info) {
        if d in ViableDescriptors(earlier, species, quantity, info) {
          var i :| 0 <= i < |earlier| && IsViable(earlier[i], species, quantity, info)
                   && d == Describe(earlier[i], species, quantity, info);
          assert inventory[i] == earlier[i];
        } else {
          assert IsViable(inventory[n], species, quantity, info) && d == Describe(inventory[n], species, quantity, info);
        }
      }
      forall i | 0 <= i < |inventory| && IsViable(inventory[i], species, quantity, info)
                 && d == Describe(inventory[i], species, quantity, info)
        ensures d in ViableDescriptors(inventory, species, quantity, info)
      {
        if i < n {
          assert earlier[i] == inventory[i];
        }
      }
    }
  }

  /** The indices of the viable enclosures. */
  function ViableIndices(inventory: seq<Enclosure>, species: string, quantity: int, info: SpeciesInfo): set<int>
  {
    set i | 0 <= i < |inventory| && IsViable(inventory[i], species, quantity, info)
  }

  /** One text is listed per viable enclosure. */
  lemma {:induction false} ViableDescriptorsCount(
    inventory: seq<Enclosure>, species: string, quantity: int, info: SpeciesInfo)
    ensures |ViableDescriptors(inventory, species, quantity, info)| == |ViableIndices(inventory, species, quantity, info)|
    decreases |inventory|
  {
    if inventory != [] {
      var n := |inventory| - 1;
      var earlier := inventory[..n];
      ViableDescriptorsCount(earlier, species, quantity, info);
      var before := ViableIndices(earlier, species, quantity, info);
      var all := ViableIndices(inventory, species, quantity, info);
      if IsViable(inventory[n], species, quantity, info) {
        assert all == before + {n};
        assert n !in before;
      } else {
        assert all == before;
      }
    }
  }

  /** Nothing is listed exactly when no enclosure of the inventory is viable. */
  lemma ViableDescriptorsEmpty(inventory: seq<Enclosure>, species: string, quantity: int, info: SpeciesInfo)
    ensures ViableDescriptors(inventory, species, quantity, info) == [] <==>
      forall i :: 0 <= i < |inventory| ==> !IsViable(inventory[i], species, quantity, info)
  {
    ViableDescriptorsCount(inventory, species, quantity, info);
    var ids := ViableIndices(inventory, species, quantity, info);
    if ViableDescriptors(inventory, species, quantity, info) == [] {
      assert ids == {};
    } else {
      assert ids != {};
      var i :| i in ids;
    }
  }

  /**
   * `analisaRecintos` as a function of the catalogue and the inventory: an
   * unknown species first, then a non-positive quantity, before any
   * enclosure is looked at; then no viable enclosure, or the sorted list.
   */
  function Analyze(animals: map<string, SpeciesInfo>, inventory: seq<Enclosure>, species: string, quantity: int): Outcome
  {
    if species !in animals then Failure(InvalidAnimal)
    else if quantity <= 0 then Failure(InvalidQuantity)
    else
      var viable := ViableDescriptors(inventory, species, quantity, animals[species]);
      if |viable| == 0 then Failure(NoViableEnclosure) else Success(Sort(viable))
  }

  /**
   * An unknown species is reported whatever the quantity; a known species
   * with a quantity of zero or less is reported as an invalid quantity; and
   * in neither case does the inventory matter.
   */
  lemma ValidationOrder(
    animals: map<string, SpeciesInfo>, inventory: seq<Enclosure>, other: seq<Enclosure>, species: string, quantity: int)
    ensures species !in animals ==> Analyze(animals, inventory, species, quantity) == Failure(InvalidAnimal)
    ensures species in animals && quantity <= 0 ==>
      Analyze(animals, inventory, species, quantity) == Failure(InvalidQuantity)
    ensures species !in animals || quantity <= 0 ==>
      Analyze(animals, inventory, species, quantity) == Analyze(animals, other, species, quantity)
  {
  }

  /** For a valid request, "no viable enclosure" is reported exactly when no enclosure is viable. */
  lemma NoViableEnclosureIff(animals: map<string, SpeciesInfo>, inventory: seq<Enclosure>, species: string, quantity: int)
    requires species in animals && quantity > 0
    ensures Analyze(animals, inventory, species, quantity) == Failure(NoViableEnclosure) <==>
      forall i :: 0 <= i < |inventory| ==> !IsViable(inventory[i], species, quantity, animals[species])
  {
    ViableDescriptorsEmpty(inventory, species, quantity, animals[species]);
  }

  /**
   * A listing comes only from a valid request; it is sorted as text, is a
   * permutation of the descriptions in inventory order, holds one text per
   * viable enclosure, and holds a text exactly when it describes a viable
   * enclosure, with its free space never negative.
   */
  lemma ListingIsExactAndSorted(
    animals: map<string, SpeciesInfo>, inventory: seq<Enclosure>, species: string, quantity: int, listing: seq<string>)
    requires Analyze(animals, inventory, species, quantity) == Success(listing)
    ensures species in animals && quantity > 0 && |listing| > 0
    ensures Sorted(listing)
    ensures multiset(listing) == multiset(ViableDescriptors(inventory, species, quantity, animals[species]))
    ensures |listing| == |ViableIndices(inventory, species, quantity, animals[species])|
    ensures forall d :: d in listing <==>
      exists i :: 0 <= i < |inventory| && IsViable(inventory[i], species, quantity, animals[species])
                  && d == Describe(inventory[i], species, quantity, animals[species])
  {
    var info := animals[species];
    var viable := ViableDescriptors(inventory, species, quantity, info);
    SortSorted(viable);
    SortPermutation(viable);
    ViableDescriptorsCount(inventory, species, quantity, info);
    assert |listing| == |multiset(listing)| == |multiset(viable)| == |viable|;
    forall d ensures d in listing <==> d in viable {
      assert d in listing <==> d in multiset(listing);
      assert d in viable <==> d in multiset(viable);
    }
    forall d ensures d in listing <==>
      exists i :: 0 <= i < |inventory| && IsViable(inventory[i], species, quantity, info)
                  && d == Describe(inventory[i], species, quantity, info)
    {
      ViableDescriptorsMembership(inventory, species, quantity, info, d);
    }
  }

  /** Every listed text shows a viable enclosure's number, its free space after the move (never negative) and its total. */
  lemma ListedFreeSpace(
    animals: map<string, SpeciesInfo>, inventory: seq<Enclosure>, species: string, quantity: int, listing: seq<string>, d: string)
    requires Analyze(animals, inventory, species, quantity) == Success(listing)
    requires d in listing
    ensures species in animals
    ensures exists i ::
      && 0 <= i < |inventory|
      && IsViable(inventory[i], species, quantity, animals[species])
      && FreeSpace(inventory[i]) - RequiredSpace(inventory[i], species, quantity, animals[species].size) >= 0
      && d == Descriptor(inventory[i].number,
                         FreeSpace(inventory[i]) - RequiredSpace(inventory[i], species, quantity, animals[species].size),
                         inventory[i].totalSize)
  {
    ListingIsExactAndSorted(animals, inventory, species, quantity, listing);
    var info := animals[species];
    var i :| 0 <= i < |inventory| && IsViable(inventory[i], species, quantity, info)
             && d == Describe(inventory[i], species, quantity, info);
    var e := inventory[i];
    DisplayedFreeIsRemainingSpace(e, species, quantity, info.size, info.biomes);
    var free := FreeSpace(e) - RequiredSpace(e, species, quantity, info.size);
    assert free >= 0 && d == Descriptor(e.number, free, e.totalSize);
  }

  /** With the seed table, a hippo request never yields a listing, whatever the inventory. */
  lemma HippoNeverListed(inventory: seq<Enclosure>, quantity: int)
    ensures !Analyze(SeedCatalog(), inventory, "HIPOPOTAMO", quantity).Success?
  {
    if quantity > 0 {
      var info := SeedCatalog()["HIPOPOTAMO"];
      forall i | 0 <= i < |inventory| ensures !IsViable(inventory[i], "HIPOPOTAMO", quantity, info) {
        HippoNeverCompatibleWithSeedBiomes(inventory[i], quantity);
      }
      ViableDescriptorsEmpty(inventory, "HIPOPOTAMO", quantity, info);
    }
  }

  /** How the descriptor of enclosure 1 with one unit free out of ten reads. */
  lemma DescriptorExample()
    ensures Descriptor(1, 1, 10) == "Recinto 1 (espaço livre: 1, total: 10)"
  {
    assert NatToString(10) == NatToString(1) + [DigitChar(0)];
    assert IntToString(10) == "10";
    assert IntToString(1) == "1";
  }

  /** Three lions fit an empty savanna enclosure of size 10, leaving one unit free. */
  lemma ThreeLionsInEmptySavanna()
    ensures Analyze(SeedCatalog(), [Enclosure(1, "savana", 10, [], 0)], "LEAO", 3)
            == Success(["Recinto 1 (espaço livre: 1, total: 10)"])
  {
    var e := Enclosure(1, "savana", 10, [], 0);
    var info := SpeciesInfo(3, ["savana"]);
    assert SeedCatalog()["LEAO"] == info;
    assert IsViable(e, "LEAO", 3, info);
    var d := Describe(e, "LEAO", 3, info);
    assert d == Descriptor(1, 1, 10);
    DescriptorExample();
    assert [e][..0] == [];
    assert ViableDescriptors([e], "LEAO", 3, info) == [d];
    assert Sort([d]) == [d];
  }

  /** One monkey is refused by the same empty savanna enclosure. */
  lemma LoneMonkeyInEmptySavanna()
    ensures Analyze(SeedCatalog(), [Enclosure(1, "savana", 10, [], 0)], "MACACO", 1) == Failure(NoViableEnclosure)
  {
    var e := Enclosure(1, "savana", 10, [], 0);
    MonkeyNeedsCompany(e, 1, 1, ["savana", "floresta"]);
    assert ViableDescriptors([e], "MACACO", 1, SeedCatalog()["MACACO"]) == [];
  }

  /** The zoo: the species table and the enclosure inventory it matches requests against. */
  class Zoo {
    var animals: map<string, SpeciesInfo>
    var enclosures: seq<Enclosure>

    /** A new zoo knows no species and has no enclosures. */
    constructor()
      ensures animals == map[] && enclosures == []
    {
      animals := map[];
      enclosures := [];
    }

    /** `iniciarAnimais`: enters the six seed species into the table. */
    method InitAnimals()
      modifies this`animals
      ensures animals == old(animals) + SeedCatalog()
    {
      animals := animals["LEAO" := SpeciesInfo(3, ["savana"])];
      animals := animals["LEOPARDO" := SpeciesInfo(2, ["savana"])];
      animals := animals["CROCODILO" := SpeciesInfo(3, ["rio"])];
      animals := animals["MACACO" := SpeciesInfo(1, ["savana", "floresta"])];
      animals := animals["GAZELA" := SpeciesInfo(2, ["savana"])];
      animals := animals["HIPOPOTAMO" := SpeciesInfo(4, ["savana", "rio"])];
    }

    /**
     * `analisaRecintos`: checks the species, then the quantity; walks the
     * inventory collecting a text for each compatible enclosure; reports
     * that none is viable, or sorts the texts in place and returns them.
     */
    method AnalyzeEnclosures(species: string, quantity: int) returns (r: Outcome)
      ensures r == Analyze(animals, enclosures, species, quantity)
      ensures r.Success? ==> Sorted(r.viable)
    {
      if species !in animals {
        return Failure(InvalidAnimal);
      }
      if quantity <= 0 {
        return Failure(InvalidQuantity);
      }
      var info := animals[species];
      var viable: seq<string> := [];
      for i := 0 to |enclosures|
        invariant viable == ViableDescriptors(enclosures[..i], species, quantity, info)
      {
        var e := enclosures[i];
        if Compatible(e, species, quantity, info.size, info.biomes) {
          var free := FreeSpace(e) - quantity * info.size;
          if species !in e.occupants && |e.occupants| > 0 {
            free := free - 1;
          }
          viable := viable + [Descriptor(e.number, free, e.totalSize)];
        }
        assert enclosures[..i + 1][..i] == enclosures[..i];
      }
      assert enclosures[..|enclosures|] == enclosures;
      if |viable| == 0 {
        return Failure(NoViableEnclosure);
      }
      var sorted := new string[|viable|](k requires 0 <= k < |viable| => viable[k]);
      assert sorted[..] == viable;
      SortInPlace(sorted);
      r := Success(sorted[..]);
    }
  }
}
