/**
 * An enclosure (`Recinto`) and the rule that decides whether it can take a
 * number of animals of one species. The rule is a chain of checks that
 * stops at the first failure: the biome, carnivore exclusivity, the hippo
 * case, the monkey case, and last the free space, which charges one extra
 * unit when a new species joins an occupied enclosure.
 */
module Enclosures {
  import opened Text
  import opened Animals

  /** An enclosure: its number, biome label, total size, resident species and occupied space. */
  datatype Enclosure = Enclosure(
    number: int,
    biome: string,
    totalSize: int,
    occupants: seq<string>,
    occupied: int)

  /** Space not yet taken. */
  function FreeSpace(e: Enclosure): int
  {
    e.totalSize - e.occupied
  }

  /** `names.every(n => n === species)`: holds of the empty list. */
  function Every(names: seq<string>, species: string): (r: bool)
    ensures r <==> forall i :: 0 <= i < |names| ==> names[i] == species
    ensures names == [] ==> r
  {
    if names == [] then true
    else names[0] == species && Every(names[1..], species)
  }

  /** Every resident belongs to `species`; true of an empty enclosure. */
  function OnlySameSpecies(e: Enclosure, species: string): bool
  {
    Every(e.occupants, species)
  }

  /**
   * Space the request needs: the animals' own size, plus one unit when the
   * enclosure is occupied and the species is not among its residents.
   */
  function RequiredSpace(e: Enclosure, species: string, quantity: int, size: int): int
  {
    var needed := quantity * size;
    if |e.occupants| > 0 && species !in e.occupants then needed + 1 else needed
  }

  /** The enclosure's biome label is one of the species' biomes (exact list membership). */
  predicate BiomeRule(e: Enclosure, biomes: seq<string>)
  {
    e.biome in biomes
  }

  /** A carnivore only joins an empty enclosure or one that holds its own species alone. */
  predicate CarnivoreRule(e: Enclosure, species: string)
  {
    IsCarnivore(species) && |e.occupants| > 0 ==>
      forall i :: 0 <= i < |e.occupants| ==> e.occupants[i] == species
  }

  /** A hippo needs a biome label containing both "savana" and "rio" as substrings. */
  predicate HippoRule(e: Enclosure, species: string)
  {
    species == "HIPOPOTAMO" ==> Contains(e.biome, "savana") && Contains(e.biome, "rio")
  }

  /** A monkey never goes into an empty enclosure. */
  predicate MonkeyRule(e: Enclosure, species: string)
  {
    species == "MACACO" ==> |e.occupants| > 0
  }

  /** The free space covers the required space. */
  predicate CapacityRule(e: Enclosure, species: string, quantity: int, size: int)
  {
    FreeSpace(e) >= RequiredSpace(e, species, quantity, size)
  }

  /**
   * `Recinto.compativel`: the checks in the source's order, each returning
   * false as soon as it fails. The outcome is the conjunction of the five
   * independently stated rules.
   */
  predicate Compatible(e: Enclosure, species: string, quantity: int, size: int, biomes: seq<string>)
    ensures Compatible(e, species, quantity, size, biomes) <==>
      && BiomeRule(e, biomes)
      && CarnivoreRule(e, species)
      && HippoRule(e, species)
      && MonkeyRule(e, species)
      && CapacityRule(e, species, quantity, size)
  {
    if e.biome !in biomes then false
    else if |e.occupants| > 0 && IsCarnivore(species) && !OnlySameSpecies(e, species) then false
    else if species == "HIPOPOTAMO" && !(Contains(e.biome, "savana") && Contains(e.biome, "rio")) then false
    else if species == "MACACO" && |e.occupants| == 0 then false
    else
      FreeSpace(e) >= RequiredSpace(e, species, quantity, size)
  }

  /**
   * With no residents, or with the species already resident, the capacity
   * check passes exactly when the free space covers the animals' own size:
   * equality passes, one unit less fails.
   */
  lemma CapacityBoundaryWithoutPenalty(e: Enclosure, species: string, quantity: int, size: int)
    requires e.occupants == [] || species in e.occupants
    ensures CapacityRule(e, species, quantity, size) <==> FreeSpace(e) >= quantity * size
    ensures FreeSpace(e) == quantity * size ==> CapacityRule(e, species, quantity, size)
    ensures FreeSpace(e) == quantity * size - 1 ==> !CapacityRule(e, species, quantity, size)
  {
  }

  /**
   * When another species already lives there, one more unit is needed:
   * the animals' size plus one passes, the animals' size alone fails.
   */
  lemma CapacityBoundaryWithPenalty(e: Enclosure, species: string, quantity: int, size: int)
    requires |e.occupants| > 0 && species !in e.occupants
    ensures CapacityRule(e, species, quantity, size) <==> FreeSpace(e) >= quantity * size + 1
    ensures FreeSpace(e) == quantity * size + 1 ==> CapacityRule(e, species, quantity, size)
    ensures FreeSpace(e) == quantity * size ==> !CapacityRule(e, species, quantity, size)
  {
  }

  /** A carnivore is refused by an enclosure where any resident is of another species. */
  lemma CarnivoreNeverJoinsOtherSpecies(
    e: Enclosure, species: string, quantity: int, size: int, biomes: seq<string>, i: nat)
    requires IsCarnivore(species)
    requires i < |e.occupants| && e.occupants[i] != species
    ensures !Compatible(e, species, quantity, size, biomes)
  {
  }

  /** An empty enclosure never trips the carnivore check, whatever the species. */
  lemma EmptyEnclosurePassesCarnivoreRule(e: Enclosure, species: string)
    requires e.occupants == []
    ensures OnlySameSpecies(e, species) && CarnivoreRule(e, species)
  {
  }

  /** A lion is refused by any enclosure that already holds a gazelle. */
  lemma LionRefusedWithGazelle(e: Enclosure, quantity: int, size: int, biomes: seq<string>)
    requires "GAZELA" in e.occupants
    ensures !Compatible(e, "LEAO", quantity, size, biomes)
  {
    var i :| 0 <= i < |e.occupants| && e.occupants[i] == "GAZELA";
    CarnivoreNeverJoinsOtherSpecies(e, "LEAO", quantity, size, biomes, i);
  }

  /** Lions join a savanna enclosure that holds only lions whenever the space suffices. */
  lemma LionJoinsLions(e: Enclosure, quantity: int)
    requires e.biome == "savana" && |e.occupants| > 0
    requires forall i :: 0 <= i < |e.occupants| ==> e.occupants[i] == "LEAO"
    requires FreeSpace(e) >= quantity * 3
    ensures Compatible(e, "LEAO", quantity, 3, ["savana"])
  {
    assert e.occupants[0] == "LEAO";
  }

  /** A monkey is never placed in an enclosure without residents. */
  lemma MonkeyNeedsCompany(e: Enclosure, quantity: int, size: int, biomes: seq<string>)
    requires e.occupants == []
    ensures !Compatible(e, "MACACO", quantity, size, biomes)
  {
  }

  /** A hippo is refused by any enclosure whose biome label lacks "savana" or "rio". */
  lemma HippoNeedsBothBiomes(e: Enclosure, quantity: int, size: int, biomes: seq<string>)
    requires !Contains(e.biome, "savana") || !Contains(e.biome, "rio")
    ensures !Compatible(e, "HIPOPOTAMO", quantity, size, biomes)
  {
  }

  /**
   * With the hippo's catalogue biomes ["savana", "rio"], no enclosure fits:
   * the biome check demands the label be exactly one of the two words, and
   * the hippo check demands it contain both, which neither word does.
   */
  lemma HippoNeverCompatibleWithSeedBiomes(e: Enclosure, quantity: int)
    ensures !Compatible(e, "HIPOPOTAMO", quantity, 4, ["savana", "rio"])
  {
    if e.biome == "savana" {
      assert 'r' !in "savana";
      NoOccurrenceWithoutFirstChar("savana", "rio");
    } else if e.biome == "rio" {
      assert 's' !in "rio";
      NoOccurrenceWithoutFirstChar("rio", "savana");
    }
  }

  /** The hippo check itself is satisfiable: a composite label passes it. */
  lemma CompositeBiomePassesHippoRule(e: Enclosure)
    requires e.biome == "savana e rio"
    ensures HippoRule(e, "HIPOPOTAMO")
  {
    assert OccursAt(e.biome, "savana", 0);
    OccurrenceIsContained(e.biome, "savana", 0);
    assert OccursAt(e.biome, "rio", 9);
    OccurrenceIsContained(e.biome, "rio", 9);
  }
}
