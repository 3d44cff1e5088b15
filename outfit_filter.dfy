/** The deterministic part of the outfit flow: narrowing the clothing catalog
    (`prendas`) to the items whose temperature tags suit the requested
    temperature and whose style list names the requested style. */
module OutfitFilter {
  import opened Text
  import opened ArrayFilter

  /** One catalog record, with the fields the flow hands to its prompt. */
  datatype ClothingItem = ClothingItem(
    id: string,
    nombre: string,
    categoria: string,
    material: string,
    color: string,
    talla: string,
    estilos: seq<string>,
    temperaturaAdecuada: seq<string>,
    imagenUrl: string,
    descripcionAdicional: string)

  /** The flow's input: a temperature in degrees Celsius and a style label. */
  datatype GenerateOutfitInput = GenerateOutfitInput(temperatureCelsius: real, style: string)

  /** The three temperature bands the filter's if-chain distinguishes. */
  datatype Band = Cold | Mild | Hot

  /** The band a temperature falls in; 10 and 25 belong to the lower band. */
  function Classify(t: real): Band
  {
    if t <= 10.0 then Cold else if t <= 25.0 then Mild else Hot
  }

  /** The rank of a band, coldest first. */
  function Rank(b: Band): nat
  {
    match b
    case Cold => 0
    case Mild => 1
    case Hot => 2
  }

  /** A warmer temperature never lands in a colder band. */
  lemma ClassifyMonotone(t: real, u: real)
    requires t <= u
    ensures Rank(Classify(t)) <= Rank(Classify(u))
  {
  }

  /** The lower-case keyword a tag must contain to suit a band. */
  function Keyword(b: Band): string
  {
    match b
    case Cold => "frío"
    case Mild => "templado"
    case Hot => "calor"
  }

  /** The callback given to `temperatura_adecuada.some`: the tag, lower-cased,
      must contain the keyword of the band the temperature picks (for the cold
      band, either of two keywords). */
  predicate TagMatches(temperatureCelsius: real, temp: string)
  {
    if temperatureCelsius <= 10.0 then
      Contains(ToLower(temp), "frío") || Contains(ToLower(temp), "muy frío")
    else if temperatureCelsius <= 25.0 then
      Contains(ToLower(temp), "templado")
    else
      Contains(ToLower(temp), "calor")
  }

  /** `"muy frío"` contains `"frío"`, at index 4. */
  lemma MuyFrioContainsFrio()
    ensures Contains("muy frío", "frío")
  {
    assert "muy frío"[4..8] == "frío";
    OccursAtContains("muy frío", "frío", 4);
  }

  /** The tag test, band by band: the `"muy frío"` alternative adds nothing, so a tag
      suits a temperature exactly when its lower-case form contains its band's keyword. */
  lemma TagMatchesKeyword(t: real, tag: string)
    ensures t <= 10.0 ==> (TagMatches(t, tag) <==> Contains(ToLower(tag), "frío"))
    ensures 10.0 < t <= 25.0 ==> (TagMatches(t, tag) <==> Contains(ToLower(tag), "templado"))
    ensures 25.0 < t ==> (TagMatches(t, tag) <==> Contains(ToLower(tag), "calor"))
    ensures TagMatches(t, tag) <==> Contains(ToLower(tag), Keyword(Classify(t)))
  {
    if t <= 10.0 && Contains(ToLower(tag), "muy frío") {
      MuyFrioContainsFrio();
      ContainsTransitive(ToLower(tag), "muy frío", "frío");
    }
  }

  /** The tag test ignores case: a tag and its lower-case form suit the same temperatures. */
  lemma TagMatchesIgnoresCase(t: real, tag: string)
    ensures TagMatches(t, tag) == TagMatches(t, ToLower(tag))
  {
    ToLowerIdempotent(tag);
  }

  /** `tags.some(temp => TagMatches(t, temp))`: false on an empty list. */
  function SomeTagMatches(t: real, tags: seq<string>): (r: bool)
    ensures r <==> exists i :: 0 <= i < |tags| && TagMatches(t, tags[i])
    decreases |tags|
  {
    if tags == [] then false else TagMatches(t, tags[0]) || SomeTagMatches(t, tags[1..])
  }

  /** `xs.includes(x)` on strings: exact, case-sensitive element equality. */
  function Includes(xs: seq<string>, x: string): (r: bool)
    ensures r <==> x in xs
    decreases |xs|
  {
    if xs == [] then false else xs[0] == x || Includes(xs[1..], x)
  }

  /** The predicate given to `prendas.filter`: temperature test and style test. */
  predicate Keep(input: GenerateOutfitInput, item: ClothingItem)
  {
    SomeTagMatches(input.temperatureCelsius, item.temperaturaAdecuada)
    && Includes(item.estilos, input.style)
  }

  /** An item is kept exactly when the requested style is one of its styles and some
      lower-cased tag contains the keyword of the requested temperature's band. */
  lemma KeepIff(input: GenerateOutfitInput, item: ClothingItem)
    ensures Keep(input, item) <==>
      input.style in item.estilos
      && exists i :: 0 <= i < |item.temperaturaAdecuada|
           && Contains(ToLower(item.temperaturaAdecuada[i]), Keyword(Classify(input.temperatureCelsius)))
  {
    forall i | 0 <= i < |item.temperaturaAdecuada|
      ensures TagMatches(input.temperatureCelsius, item.temperaturaAdecuada[i])
        <==> Contains(ToLower(item.temperaturaAdecuada[i]), Keyword(Classify(input.temperatureCelsius)))
    {
      TagMatchesKeyword(input.temperatureCelsius, item.temperaturaAdecuada[i]);
    }
  }

  /** An item without temperature tags, or without styles, is never kept. */
  lemma EmptyListsNeverKept(input: GenerateOutfitInput, item: ClothingItem)
    requires item.temperaturaAdecuada == [] || item.estilos == []
    ensures !Keep(input, item)
  {
  }

  /** `prendas.filter(item => Keep(input, item))`. */
  function FilterClothingItems(prendas: seq<ClothingItem>, input: GenerateOutfitInput): (r: seq<ClothingItem>)
    ensures |r| <= |prendas|
  {
    Filter(prendas, item => Keep(input, item))
  }

  /** An item is in the result exactly when it is in the catalog and passes both
      tests; in particular every returned item carries the requested style verbatim
      among its styles and a tag whose lower-case form contains its band's keyword. */
  lemma FilterClothingItemsMembers(prendas: seq<ClothingItem>, input: GenerateOutfitInput)
    ensures forall x :: x in FilterClothingItems(prendas, input) <==> x in prendas && Keep(input, x)
    ensures forall x :: x in FilterClothingItems(prendas, input) ==>
      input.style in x.estilos
      && exists i :: 0 <= i < |x.temperaturaAdecuada|
           && Contains(ToLower(x.temperaturaAdecuada[i]), Keyword(Classify(input.temperatureCelsius)))
  {
    FilterMembers(prendas, item => Keep(input, item));
    forall x | x in FilterClothingItems(prendas, input)
      ensures input.style in x.estilos
      && exists i :: 0 <= i < |x.temperaturaAdecuada|
           && Contains(ToLower(x.temperaturaAdecuada[i]), Keyword(Classify(input.temperatureCelsius)))
    {
      KeepIff(input, x);
    }
  }

  /** The result is a subsequence of the catalog in catalog order: `idx` lists, in
      increasing order, the positions of the kept items, and every position left
      out holds an item that fails a test. */
  lemma FilterClothingItemsInOrder(prendas: seq<ClothingItem>, input: GenerateOutfitInput) returns (idx: seq<int>)
    ensures |idx| == |FilterClothingItems(prendas, input)|
    ensures forall k :: 0 <= k < |idx| ==>
      0 <= idx[k] < |prendas| && prendas[idx[k]] == FilterClothingItems(prendas, input)[k]
    ensures forall k, l :: 0 <= k < l < |idx| ==> idx[k] < idx[l]
    ensures forall j :: 0 <= j < |prendas| ==> (j in idx <==> Keep(input, prendas[j]))
  {
    idx := FilterSelectsIndices(prendas, item => Keep(input, item));
  }

  /** Filtering the result again changes nothing; an empty catalog gives nothing;
      filtering two catalogs joined gives their two results joined. */
  lemma FilterClothingItemsIdempotent(prendas: seq<ClothingItem>, more: seq<ClothingItem>, input: GenerateOutfitInput)
    ensures FilterClothingItems(FilterClothingItems(prendas, input), input) == FilterClothingItems(prendas, input)
    ensures FilterClothingItems([], input) == []
    ensures FilterClothingItems(prendas + more, input)
         == FilterClothingItems(prendas, input) + FilterClothingItems(more, input)
  {
    FilterIdempotent(prendas, item => Keep(input, item));
    FilterAppend(prendas, more, item => Keep(input, item));
  }

  /** A tag written with capitals suits the cold band at its upper boundary. */
  lemma CapitalisedColdTagsMatch()
    ensures TagMatches(10.0, "Frío")
    ensures TagMatches(10.0, "FRÍO")
  {
    assert ToLower("Frío") == "frío" by {
      assert LowerChar('F') == 'f';
      assert LowerChar('\U{ED}') == '\U{ED}';
    }
    assert ToLower("FRÍO") == "frío" by {
      assert LowerChar('F') == 'f' && LowerChar('R') == 'r' && LowerChar('O') == 'o';
      assert LowerChar('\U{CD}') == '\U{ED}';
    }
    assert "frío" <= "frío";
  }

  /** The style test does not ignore case: `"trabajo"` does not select an item
      styled `"Trabajo"`, which `"Trabajo"` itself selects. */
  lemma StyleIsCaseSensitive()
    ensures var item := ClothingItem("1", "Abrigo", "abrigo", "lana", "gris", "M",
                                     ["Trabajo"], ["frío"], "", "");
            Keep(GenerateOutfitInput(5.0, "Trabajo"), item)
            && !Keep(GenerateOutfitInput(5.0, "trabajo"), item)
  {
    var item := ClothingItem("1", "Abrigo", "abrigo", "lana", "gris", "M",
                             ["Trabajo"], ["frío"], "", "");
    ToLowerOfLower("frío");
    assert "frío" <= "frío";
    assert TagMatches(5.0, item.temperaturaAdecuada[0]);
    assert "trabajo" != "Trabajo" by { assert "trabajo"[0] != "Trabajo"[0]; }
  }
}
