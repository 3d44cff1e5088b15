# Outfit catalog filter: a Dafny model

The program suggests clothes for today and tomorrow from the temperature and a
chosen style ("Trabajo", "Casa", "Deporte", ...). Its deterministic core is one
filter over the clothing catalog (`prendas`). An item is kept when two tests pass:

- **Temperature.** One of its temperature tags (`temperatura_adecuada`), lower-cased,
  contains the keyword of the band the temperature falls in. The keyword is
  `frío` or `muy frío` up to 10 °C, `templado` up to 25 °C, and `calor` above that.
- **Style.** Its style list (`estilos`) holds the requested style exactly.

The filtered list then goes to a text-generation service, which picks the outfit
and writes the justification. The model stops at the filter.

Next to the filter, the home page has a few pure helpers, also modelled here:

- the error text shown to the user;
- the `frio` / `templado` / `calor` label next to the temperature slider;
- the `temperatureRanges` table;
- tomorrow's temperature, taken as the mean of the forecast maximum and minimum;
- the guards that skip a request while a temperature is still unknown.

Files:

- `text.dfy` (module `Text`) has the substring test that JavaScript's `includes`
  performs, with a positional characterisation. It also has `toLowerCase` for the
  letters the tags use.
- `array_filter.dfy` (module `ArrayFilter`) has `Array.prototype.filter` over any
  predicate. It proves the facts that hold whatever the predicate is: membership,
  order, concatenation and idempotence.
- `outfit_filter.dfy` (module `OutfitFilter`) has the catalog record, the flow's
  input, the tag test, `some`, `includes`, the filter predicate, the filter itself
  and the lemmas about them.
- `page.dfy` (module `Page`) has the page helpers.

Field names follow the catalog's own Spanish names in camel case, so
`temperatura_adecuada` is `temperaturaAdecuada`. Temperatures are `real`: the
slider gives whole degrees, while the weather data and tomorrow's mean need not be
whole. The catalog file is not part of this model, so the catalog is a parameter
(`prendas: seq<ClothingItem>`).

The code has no outfit-composition step. No code groups items by category or picks
one item per category. The text-generation service chooses from the filtered list
itself, so the model has no composer either. The code also differs from a plain
set-membership reading of the band test: the tag is matched by substring after
lower-casing, and the style by exact element. The model follows the code.

## Model

| member | source | states |
|---|---|---|
| Text.ContainsIffOccurs | src/ai/flows/generate-outfit-with-data.ts:87-91 | the recursive `includes` test holds exactly when the keyword occurs at some index of the tag (both directions) |
| Text.OccursAtContains | src/ai/flows/generate-outfit-with-data.ts:87-91 | an occurrence at any index makes `includes` true |
| Text.ContainsOccurs | src/ai/flows/generate-outfit-with-data.ts:87-91 | when `includes` is true it yields the index of an actual occurrence |
| Text.ContainsTransitive | src/ai/flows/generate-outfit-with-data.ts:87 | a string containing `t` contains every substring of `t` |
| Text.LowerChar | src/ai/flows/generate-outfit-with-data.ts:87 | the folded character is never upper-case; a character is unchanged exactly when it is not upper-case; an upper-case letter moves 32 code points up |
| Text.ToLower | src/ai/flows/generate-outfit-with-data.ts:87-91 | `toLowerCase` keeps the length, folds each character on its own and leaves no upper-case letter |
| Text.ToLowerIdempotent | src/ai/flows/generate-outfit-with-data.ts:87-91 | lower-casing twice equals lower-casing once |
| Text.ToLowerOfLower | src/ai/flows/generate-outfit-with-data.ts:87-91 | a string without upper-case letters is unchanged by `toLowerCase` |
| OutfitFilter.ClassifyMonotone | src/ai/flows/generate-outfit-with-data.ts:86-91 | a higher temperature never falls in a colder band |
| OutfitFilter.MuyFrioContainsFrio | src/ai/flows/generate-outfit-with-data.ts:87 | `"muy frío"` contains `"frío"` |
| OutfitFilter.TagMatchesKeyword | src/ai/flows/generate-outfit-with-data.ts:86-92 | for t <= 10 (10 included) a tag passes iff its lower-case form contains `frío`, so the `muy frío` alternative is redundant; for 10 < t <= 25 (25 included) iff it contains `templado`; for t > 25 iff it contains `calor` |
| OutfitFilter.TagMatchesIgnoresCase | src/ai/flows/generate-outfit-with-data.ts:87-91 | a tag and its lower-case form pass the same temperature tests |
| OutfitFilter.CapitalisedColdTagsMatch | src/ai/flows/generate-outfit-with-data.ts:86-87 | the tags `Frío` and `FRÍO` both pass the cold test at exactly 10 °C |
| OutfitFilter.SomeTagMatches | src/ai/flows/generate-outfit-with-data.ts:85-93 | `some` is true iff at least one tag passes, so it is false on an empty tag list |
| OutfitFilter.Includes | src/ai/flows/generate-outfit-with-data.ts:94 | `includes` on the style list is exact, case-sensitive membership |
| OutfitFilter.StyleIsCaseSensitive | src/ai/flows/generate-outfit-with-data.ts:94 | an item styled `Trabajo` is kept for style `Trabajo` and dropped for style `trabajo` |
| OutfitFilter.KeepIff | src/ai/flows/generate-outfit-with-data.ts:84-95 | an item is kept iff the style is one of its styles and some lower-cased tag contains the keyword of the temperature's band |
| OutfitFilter.EmptyListsNeverKept | src/ai/flows/generate-outfit-with-data.ts:85-94 | an item with no temperature tags or no styles is never kept |
| OutfitFilter.FilterClothingItems | src/ai/flows/generate-outfit-with-data.ts:84-96 | `prendas.filter(...)` with the predicate above; the result is never longer than the catalog |
| OutfitFilter.FilterClothingItemsMembers | src/ai/flows/generate-outfit-with-data.ts:84-96 | an item is in the result iff it is in the catalog and passes both tests; every returned item has the requested style verbatim among its styles and a tag containing its band's keyword |
| OutfitFilter.FilterClothingItemsInOrder | src/ai/flows/generate-outfit-with-data.ts:84-96 | the result is a subsequence of the catalog in catalog order: strictly increasing positions pick it out, and a position is picked iff its item passes |
| OutfitFilter.FilterClothingItemsIdempotent | src/ai/flows/generate-outfit-with-data.ts:84-96 | filtering the result again changes nothing, an empty catalog gives an empty result, and filtering joined catalogs joins their results |
| ArrayFilter.Filter | src/ai/flows/generate-outfit-with-data.ts:84-96 | `Array.prototype.filter` never returns more elements than it was given |
| ArrayFilter.FilterMembers | src/ai/flows/generate-outfit-with-data.ts:84-96 | an element is in the result iff it is in the input and passes, for any predicate |
| ArrayFilter.FilterAppend | src/ai/flows/generate-outfit-with-data.ts:84-96 | filtering a concatenation is the concatenation of the filtered parts |
| ArrayFilter.FilterAllKept | src/ai/flows/generate-outfit-with-data.ts:84-96 | an input whose elements all pass comes back unchanged |
| ArrayFilter.FilterIdempotent | src/ai/flows/generate-outfit-with-data.ts:84-96 | filtering twice with the same predicate equals filtering once |
| ArrayFilter.FilterSelectsIndices | src/ai/flows/generate-outfit-with-data.ts:84-96 | the result is the passing elements at strictly increasing input positions, and every position left out fails |
| Page.HandleApiError | src/app/page.tsx:96-101 | the result is the busy message iff the error message contains `429 Too Many Requests`; otherwise it is `"Error: "` followed by the message |
| Page.LabelAgreesWithFilterBand | src/app/page.tsx:216-221 | a known temperature gets exactly the label of the band the filter uses (`frio` up to 10, `templado` up to 25, `calor` above); the label is empty iff the temperature is unknown |
| Page.LabelNamesItsRange | src/app/page.tsx:26-30 | for whole degrees from -10 to 40, the slider label is a key of `temperatureRanges` whose range holds the temperature, and no other range holds it |
| Page.RangesPartitionScale | src/app/page.tsx:26-30 | the table's integer ranges are pairwise disjoint and cover -10..40 with no gap |
| Page.TomorrowAverage | src/app/page.tsx:141 | tomorrow's mean lies between the forecast minimum and maximum, at equal distance from both, and equals them when they are equal |
| Page.TodayRequest | src/app/page.tsx:103-110 | no outfit is requested iff the current temperature is unknown; otherwise the request carries that temperature and the selected style |
| Page.TomorrowRequest | src/app/page.tsx:137-147 | no outfit is requested iff either forecast value is unknown; otherwise the request carries their mean and the selected style |
| Page.TomorrowBandBetween | src/app/page.tsx:138-147 | tomorrow's band is never colder than that of the lower forecast value and never warmer than that of the higher one |

## Left out

- Text.ToLower: folds only ASCII `A`-`Z` and the Latin-1 capitals U+00C0 to U+00DE, except U+00D7. Every other character is left as it is, so this is weaker than full Unicode `toLowerCase`. For example, Greek and Cyrillic capitals are not folded, and `İ` (U+0130) is not expanded to two characters. The catalog's keywords need nothing beyond `Í`→`í`.
- Text.LowerChar: has the same character coverage as `Text.ToLower`, for the same reason.
- The call to the text-generation prompt, and returning its output (src/ai/flows/generate-outfit-with-data.ts:98-103). This is a foreign, nondeterministic service, so the model ends at the filtered list.
- The whole of src/ai/flows/explain-outfit-choice.ts, for the same reason.
- The weather fetch and the check of its response (src/app/page.tsx:49-87). This is network I/O. The forecast values enter the model as `Option<real>` parameters. src/services/open-meteo.ts is not part of this model.
- The state setters, toasts, `document.title`, the style buttons (`stylesArr`) and all rendering in src/app/page.tsx. This is UI plumbing. The two guards are modelled as functions that return the request to make, or none. "None" means the flow is not called, so no setter runs.
- The `useEffect` that starts both generations only when today's temperature is known (src/app/page.tsx:89-94). This is also where the tomorrow run is skipped while today's temperature is `null`.
- Ordering between the concurrent today and tomorrow runs, and the shared error slot that both overwrite. This is asynchronous UI state.
- IEEE-754 arithmetic and comparison. Temperatures are exact reals, so the mean is exact.
- `handleApiError` on an error that has no `message` (which would throw). The model takes the message string itself.
- `temperatureRanges` is declared in the source and never read. Its ranges cover only whole degrees in -10..40. A reading such as 10.5, or one outside -10..40, lies in no range, although the slider label and the filter still give it a band. The model states the table's properties for whole degrees only.
- The catalog file `prendas.json` is not part of this model. The catalog is a parameter.
