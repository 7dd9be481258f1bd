/**
 * What the zoo knows about a species (the `Animais` records of the seed
 * table) and which species are carnivores.
 */
module Animals {

  /** A species' catalogue entry: the space one individual takes and the biomes it tolerates. */
  datatype SpeciesInfo = SpeciesInfo(size: int, biomes: seq<string>)

  /** The fixed list of carnivorous species. */
  const Carnivores: seq<string> := ["LEAO", "LEOPARDO", "CROCODILO"]

  /** A species is a carnivore when its name is in the fixed list; nothing is stored per species. */
  predicate IsCarnivore(species: string)
  {
    species in Carnivores
  }
}
