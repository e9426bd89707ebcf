/**
 * `RecipeDTO` of VlxAPI/RecipeDTO.cs: a recipe as the VeloxDB API carries
 * it, every reference property nullable, and `Valid`, which asks that the
 * six properties a stored recipe needs are present.
 */
module RecipeDtos {
  import opened Wrappers

  /** A `RecipeDTO`; `None` is a null property. */
  datatype RecipeDto = RecipeDto(
    id: int,
    title: Option<string>,
    ingredientsJson: Option<string>,
    directionsJson: Option<string>,
    nerJson: Option<string>,
    link: Option<string>,
    source: Option<string>,
    ingredientEmbedding: Option<seq<real>>)

  /** `Valid()`: the six properties other than `Id` and `Title` are non-null. */
  predicate Valid(d: RecipeDto) {
    d.ingredientsJson != None && d.directionsJson != None &&
    d.nerJson != None && d.link != None && d.source != None &&
    d.ingredientEmbedding != None
  }

  /** The properties of a `RecipeDTO`. */
  datatype Property = Id | Title | IngredientsJson | DirectionsJson | NerJson | Link | Source | IngredientEmbedding

  /** Whether a property holds a value; a `long` is never null. */
  predicate Present(d: RecipeDto, p: Property) {
    match p
    case Id => true
    case Title => d.title.Some?
    case IngredientsJson => d.ingredientsJson.Some?
    case DirectionsJson => d.directionsJson.Some?
    case NerJson => d.nerJson.Some?
    case Link => d.link.Some?
    case Source => d.source.Some?
    case IngredientEmbedding => d.ingredientEmbedding.Some?
  }

  /** The properties a valid recipe must have. */
  predicate Required(p: Property) {
    p != Id && p != Title
  }

  /** The null properties among the required ones, in declaration order. */
  function Missing(d: RecipeDto): (r: seq<Property>)
    ensures forall p :: p in r <==> Required(p) && !Present(d, p)
  {
    (if d.ingredientsJson.None? then [IngredientsJson] else []) +
    (if d.directionsJson.None? then [DirectionsJson] else []) +
    (if d.nerJson.None? then [NerJson] else []) +
    (if d.link.None? then [Link] else []) +
    (if d.source.None? then [Source] else []) +
    (if d.ingredientEmbedding.None? then [IngredientEmbedding] else [])
  }

  /** A recipe is valid exactly when every required property is present, and so when none is missing. */
  lemma ValidIffPresent(d: RecipeDto)
    ensures Valid(d) <==> forall p :: Required(p) ==> Present(d, p)
    ensures Valid(d) <==> Missing(d) == []
  {
    if forall p :: Required(p) ==> Present(d, p) {
      assert Present(d, IngredientsJson) && Present(d, DirectionsJson) && Present(d, NerJson);
      assert Present(d, Link) && Present(d, Source) && Present(d, IngredientEmbedding);
    }
    if Missing(d) != [] {
      assert Missing(d)[0] in Missing(d);
    }
  }

  /** `Id` and `Title` play no part in validity. */
  lemma IdTitleIrrelevant(d: RecipeDto, id: int, title: Option<string>)
    ensures Valid(d.(id := id, title := title)) == Valid(d)
  {
  }

  /** Only nullness is checked: empty strings and an empty embedding are valid, whatever the title. */
  lemma EmptyIsValid(id: int, title: Option<string>)
    ensures Valid(RecipeDto(id, title, Some(""), Some(""), Some(""), Some(""), Some(""), Some([])))
  {
  }
}
