# Recintos do Zoo — a Dafny model of the enclosure matcher

The system answers one question. Given a species name and a headcount, which enclosures
(`recintos`) of the zoo can take those animals? The answer comes from a species table, a
chain of per-enclosure compatibility rules and a capacity rule. This project models that
engine and proves what it promises.

- `Text` (text.dfy) covers two JavaScript string operations the engine uses.
  `Contains` is `String.prototype.includes`, a substring search, proved equal to the
  positional definition of an occurrence. Its only needles are the ASCII words "savana"
  and "rio", and for an ASCII needle a search by UTF-16 code unit and a search by character
  agree on every label. `IntToString` is how a template literal prints an
  integer of ordinary size, in plain decimal; a parse-back inverse shows that this
  rendering loses no information.
- `Animals` (animals.dfy) holds a species' table entry (`Animais`: `tamanho`, `bioma`) as
  the datatype `SpeciesInfo`. The carnivore test `Animais.carnivoro` is the pure predicate
  `IsCarnivore`, membership in the fixed list LEAO, LEOPARDO, CROCODILO.
- `Enclosures` (enclosures.dfy) holds an enclosure (`Recinto`) as the datatype `Enclosure`.
  Its free space `espaco` is `FreeSpace`, and `soMesmaEspecie` is `OnlySameSpecies`, built
  on `Every`, which like JavaScript's `every` is true of an empty list. `compativel` is
  `Compatible`. It keeps the source's chain of early exits in the source's order: biome,
  carnivore exclusivity, hippo, monkey, capacity. Its contract equates it with the
  conjunction of five independently stated rules.
  - The biome gate is exact membership of the enclosure's label in the species' biome list.
  - The hippo check is a substring test on the label.
- `Ordering` (ordering.dfy) models the default `Array.prototype.sort` on the descriptor
  strings, which hold only ASCII characters and "ç": the character-by-character order `LexLe`, with a proper prefix first. It also gives a
  reference insertion sort `Sort` and an in-place sort of an array, `SortInPlace`. That
  method is proved to produce exactly `Sort` of its input, and `Sort` is proved sorted and
  a permutation.
- `RecintosZoo` (zoo.dfy) is the `Zoo` class.
  - Its fields are the species table `animals` (a map) and the enclosure inventory
    `enclosures`.
  - `InitAnimals` (`iniciarAnimais`) seeds the six species.
  - `AnalyzeEnclosures` (`analisaRecintos`) is written as the source's loop plus an
    in-place sort. It is proved equal to the specification function `Analyze`. That method
    has no `modifies` clause, so a query never changes the zoo, and two identical queries
    give identical answers.
  - The result is the datatype `Outcome`: exactly one `Error`, or a list of descriptors.
    An error and a list are never both present.

With the seed table, no hippo request ever succeeds (`HippoNeverCompatibleWithSeedBiomes`,
`HippoNeverListed`). The biome gate accepts only the labels "savana" and "rio". The hippo
check then needs one label to contain both words, and neither label does. This disagrees
with the comment at src/recintos-zoo.js:113, which describes a rule about a hippo sharing an
enclosure with other animals. The code at line 114 refuses a hippo even in an empty
enclosure. `HippoNeverListed` records the behaviour as the code is written.

The inventory is empty after construction, just as `this.recintos` is in the source. The
model never invents enclosures: lemmas take any inventory as a parameter, and the `Zoo`
field may hold any sequence. The two worked examples (`ThreeLionsInEmptySavanna`,
`LoneMonkeyInEmptySavanna`) each use one explicit enclosure, given in the lemma itself.

## Model

| member | source | states |
|---|---|---|
| `Animals.IsCarnivore` | src/recintos-zoo.js:76-78 | `carnivoro`: membership of the species name in the fixed list LEAO, LEOPARDO, CROCODILO |
| `Enclosures.FreeSpace` | src/recintos-zoo.js:92-94 | `espaco`: total size minus occupied space |
| `Enclosures.OnlySameSpecies` | src/recintos-zoo.js:97-99 | `soMesmaEspecie`: `Every` over the enclosure's residents, so it holds for an empty enclosure |
| `Enclosures.RequiredSpace` | src/recintos-zoo.js:124-127 | the space `compativel` demands: q·size, plus one when the enclosure is occupied and the species is not resident |
| `Enclosures.Every` | src/recintos-zoo.js:97-99 | `every` holds exactly when each occupant equals the species, so it holds for an empty list |
| `Enclosures.Compatible` | src/recintos-zoo.js:102-130 | the early-exit chain accepts exactly when the biome, carnivore, hippo, monkey and capacity rules all hold |
| `Enclosures.CapacityBoundaryWithoutPenalty` | src/recintos-zoo.js:124-129 | with no occupants, or with the species already present, capacity passes iff free space ≥ q·size; equality passes and one less fails |
| `Enclosures.CapacityBoundaryWithPenalty` | src/recintos-zoo.js:124-129 | with other species present, capacity passes iff free space ≥ q·size + 1; exactly q·size fails |
| `Enclosures.CarnivoreNeverJoinsOtherSpecies` | src/recintos-zoo.js:109-111 | a carnivore is refused by any enclosure holding a resident of another species |
| `Enclosures.EmptyEnclosurePassesCarnivoreRule` | src/recintos-zoo.js:97-111 | an empty enclosure satisfies `soMesmaEspecie` and never trips the carnivore check |
| `Enclosures.LionRefusedWithGazelle` | src/recintos-zoo.js:109-111 | LEAO is never compatible with an enclosure that holds GAZELA |
| `Enclosures.LionJoinsLions` | src/recintos-zoo.js:102-130 | LEAO joins a savanna enclosure holding only lions whenever the free space covers 3·q |
| `Enclosures.MonkeyNeedsCompany` | src/recintos-zoo.js:119-121 | MACACO is never compatible with an enclosure that has no occupants |
| `Enclosures.HippoNeedsBothBiomes` | src/recintos-zoo.js:114-116 | HIPOPOTAMO is refused unless the biome label contains both "savana" and "rio" |
| `Enclosures.HippoNeverCompatibleWithSeedBiomes` | src/recintos-zoo.js:104-116 | with the hippo's seeded biomes ["savana", "rio"], no enclosure is compatible |
| `Enclosures.CompositeBiomePassesHippoRule` | src/recintos-zoo.js:114 | the label "savana e rio" does pass the hippo substring check on its own |
| `Text.Contains` | src/recintos-zoo.js:114 | `String.prototype.includes` as a recursive substring search (partner: `ContainsIff`) |
| `Text.IntToString` | src/recintos-zoo.js:52 | an integer printed in a template literal: optional minus sign, then decimal digits (partner: `IntToStringRoundTrip`) |
| `Text.ContainsIff` | src/recintos-zoo.js:114 | the substring search succeeds exactly when the needle occurs at some index |
| `Text.NoOccurrenceWithoutFirstChar` | src/recintos-zoo.js:114 | a string lacking the needle's first character does not contain the needle |
| `Text.NatToStringRoundTrip` | src/recintos-zoo.js:52 | a rendered natural number is a non-empty digit string that reads back as the number, with no leading zero |
| `Text.IntToStringRoundTrip` | src/recintos-zoo.js:52 | a rendered integer reads back as that integer, starts with '-' exactly when negative, and its digits have no leading zero |
| `Text.IntToStringInjective` | src/recintos-zoo.js:52 | distinct integers are rendered as distinct strings |
| `RecintosZoo.Descriptor` | src/recintos-zoo.js:52 | the text "Recinto N (espaço livre: F, total: T)" (partner: `DescriptorInjective`) |
| `RecintosZoo.DescriptorInjective` | src/recintos-zoo.js:52 | distinct (number, free space, total) triples give distinct descriptor texts |
| `RecintosZoo.DescriptorExample` | src/recintos-zoo.js:52 | the descriptor for enclosure 1 with 1 free of 10 reads "Recinto 1 (espaço livre: 1, total: 10)" |
| `Ordering.LexLe` | src/recintos-zoo.js:60 | the default sort's comparison of strings: first differing character decides, a proper prefix comes first (partners: the four order lemmas below) |
| `Ordering.Sort` | src/recintos-zoo.js:60 | the reference sorted result (partners: `SortSorted`, `SortPermutation`, `SortIsTheSortedPermutation`) |
| `Ordering.LexLeReflexive` | src/recintos-zoo.js:60 | every string comes no later than itself in the sort order |
| `Ordering.LexLeAntisymmetric` | src/recintos-zoo.js:60 | two strings each no later than the other are equal |
| `Ordering.LexLeTransitive` | src/recintos-zoo.js:60 | the sort order is transitive |
| `Ordering.LexLeTotal` | src/recintos-zoo.js:60 | any two strings are comparable |
| `Ordering.SortSorted` | src/recintos-zoo.js:60 | the reference sort returns a sorted sequence |
| `Ordering.SortPermutation` | src/recintos-zoo.js:60 | the reference sort returns a permutation of its input |
| `Ordering.SortedUnique` | src/recintos-zoo.js:60 | two sorted permutations of the same strings are identical |
| `Ordering.SortIsTheSortedPermutation` | src/recintos-zoo.js:60 | any sorted permutation of a sequence is its reference sort |
| `Ordering.SortInPlace` | src/recintos-zoo.js:60 | the in-place sort leaves the array sorted, a permutation of its old contents, and equal to the reference sort |
| `RecintosZoo.DisplayedFree` | src/recintos-zoo.js:48-51 | the free space shown: free space minus q·size, minus one more when the species is not resident and the enclosure is occupied (partner: `DisplayedFreeIsRemainingSpace`) |
| `RecintosZoo.DisplayedFreeIsRemainingSpace` | src/recintos-zoo.js:48-50 | for an accepted enclosure the displayed free space is free space minus the space `compativel` required, and it is ≥ 0 |
| `RecintosZoo.IsViable` | src/recintos-zoo.js:47 | `compativel` called with the species' table entry |
| `RecintosZoo.Describe` | src/recintos-zoo.js:48-52 | the text pushed for one accepted enclosure |
| `RecintosZoo.ViableDescriptors` | src/recintos-zoo.js:46-54 | the texts pushed into `recintosViaveis`, in inventory order, one per compatible enclosure (partners: the three `ViableDescriptors…` lemmas) |
| `RecintosZoo.ViableDescriptorsMembership` | src/recintos-zoo.js:46-54 | a text is collected iff it describes some compatible enclosure of the inventory |
| `RecintosZoo.ViableDescriptorsCount` | src/recintos-zoo.js:46-54 | one text is collected per compatible enclosure |
| `RecintosZoo.ViableDescriptorsEmpty` | src/recintos-zoo.js:46-57 | nothing is collected iff no enclosure is compatible |
| `RecintosZoo.SeedCatalog` | src/recintos-zoo.js:17-24 | the six seeded species with their sizes and biome lists (partner: `SeedCatalogShape`) |
| `RecintosZoo.SeedCatalogShape` | src/recintos-zoo.js:17-24 | the seed table has exactly the six species, each with positive size and a non-empty biome list |
| `RecintosZoo.Error.Message` | src/recintos-zoo.js:31-58 | the three fixed error texts "Animal inválido", "Quantidade inválida" and "Não há recinto viável" |
| `RecintosZoo.Analyze` | src/recintos-zoo.js:27-65 | `analisaRecintos` as a function of the table, the inventory and the request (partners: the lemmas below and `Zoo.AnalyzeEnclosures`) |
| `RecintosZoo.ValidationOrder` | src/recintos-zoo.js:31-40 | an unknown species gives only "Animal inválido" whatever the quantity; a known species with quantity ≤ 0 gives only "Quantidade inválida"; neither depends on the inventory |
| `RecintosZoo.NoViableEnclosureIff` | src/recintos-zoo.js:57-58 | for a valid request, "Não há recinto viável" is returned iff no enclosure is compatible |
| `RecintosZoo.ListingIsExactAndSorted` | src/recintos-zoo.js:46-62 | a listing comes only from a valid request, is sorted, is a permutation of the in-order descriptors, and has one entry for exactly each compatible enclosure |
| `RecintosZoo.ListedFreeSpace` | src/recintos-zoo.js:47-52 | each listed text names a compatible enclosure and shows its free space minus the required space (≥ 0) and its total |
| `RecintosZoo.HippoNeverListed` | src/recintos-zoo.js:23 | with the seed table, a hippo request never yields a listing, for any inventory |
| `RecintosZoo.ThreeLionsInEmptySavanna` | src/recintos-zoo.js:27-65 | "LEAO", 3 against one empty savanna enclosure of size 10 lists "Recinto 1 (espaço livre: 1, total: 10)" |
| `RecintosZoo.LoneMonkeyInEmptySavanna` | src/recintos-zoo.js:27-65 | "MACACO", 1 against that enclosure gives "Não há recinto viável" |
| `RecintosZoo.Zoo.constructor` | src/recintos-zoo.js:11-14 | a new zoo has an empty species table and an empty inventory |
| `RecintosZoo.Zoo.InitAnimals` | src/recintos-zoo.js:17-24 | the species table becomes the old table overwritten by the six seed entries |
| `RecintosZoo.Zoo.AnalyzeEnclosures` | src/recintos-zoo.js:27-65 | the loop-and-sort result equals `Analyze` on the zoo's table and inventory, so every property above applies to it |

## Left out

- The console front end (the `readline` interface, the `rl.question` callback, splitting
  "species,quantity", `parseInt`, `toUpperCase` and printing). The engine receives an
  already parsed species string and integer quantity.
- JavaScript number semantics. Quantities, sizes and capacities are unbounded integers.
  `parseInt` (src/recintos-zoo.js:140) truncates a fractional quantity to an integer, and the
  front end rejects NaN (src/recintos-zoo.js:143).
- JavaScript `Map` and the property bag `resultado`. The species table is a Dafny `map`,
  and the result is the datatype `Outcome` (an error or a list).
- The throwaway `new Animais()` allocated only to call `carnivoro`. `IsCarnivore` is a pure
  predicate on the species name.
- A seed inventory of enclosures. The source never fills `this.recintos`, so the inventory
  is whatever sequence the `enclosures` field holds.
- UTF-16 code units. `LexLe` compares Unicode scalar values, whereas JavaScript's sort
  compares UTF-16 code units. The two orders differ only for characters outside the Basic
  Multilingual Plane, which descriptors (ASCII characters and "ç") never contain. This
  caveat concerns only the sort order of descriptors.
- Exponent notation. `IntToString` is plain decimal at every size, while JavaScript prints
  numbers from 1e21 upward as "1e+21" and so on.
- Stability of the sort. Equal descriptor strings are identical, so the order among them
  cannot be observed.
