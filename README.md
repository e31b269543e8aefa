# Gift ranking engine — a Dafny model

This project models the ranking engine of a small gift-lookup page (`app.py`).
The page is for a game in which characters react to gifts with one of three
effects: 中 (medium), 大 (large) or 特大 (huge). The engine works in four steps.
It takes an in-memory relation of (character, gift, effect) rows and a map from
gift name to rarity. Given a selection of characters, it:

- normalises the parsed gift table. It collects the character and gift universes
  and drops rows whose effect is not one of the three tiers (`load_data`);
- lists the selected characters' rows. They are ordered by how many selected
  rows mention the gift, then by effect, then by name (`find_best_gifts`);
- builds an entry per selected character (`get_optimal_gifts_per_character`):
  - every gift keeps only the rows at its peak effect among the selected rows;
  - the number of distinct characters at that peak is the gift's competition;
  - each character's surviving gifts are split into `unique` (competition 1) and
    `shared` (competition above 1);
  - each list has its own multi-key order, with rarity defaulting to 0;
- lists the gifts of the universe that no selected character wants. They are
  split into the rare tier (rarity exactly 1), sorted by name, and the rest,
  sorted by rarity descending and then name.

Modules, in dependency order:

- `Order` (`order.dfy`): the lexicographic order on integer sequences. A proper
  prefix comes first, as in Python's tuple and string comparison. Every sort key
  of the engine is a list of integer columns (descending ones negated) followed
  by the code points of a name.
- `Seqs` (`seqs.dfy`): row filters (boolean indexing), column projection, and
  "no element twice".
- `Sorting` (`sorting.dfy`): a stable sort by key, like pandas' multi-column
  `sort_values` and Python's `sorted`. It comes with its permutation and
  sortedness guarantees and the fact that a sorted order is unique under an
  injective key.
- `Catalog` (`catalog.dfy`): effects, rows, `load_data`, and the rarity lookup.
- `BestGifts` (`best_gifts.dfy`): `find_best_gifts` and the column-less result
  frame.
- `OptimalGifts` (`optimal_gifts.dfy`): `get_optimal_gifts_per_character`.
  - It is a method whose loop builds the result map, one entry per selected
    character.
  - Each entry is proved to meet `BucketsSpec`, a declarative statement of what
    the two lists must hold and in which order.
  - Lemmas derive what the lists then mean.
- `UselessGifts` (`useless_gifts.dfy`): the icon border, the favourite gifts, and
  the useless-gift split.

## Model

| member | source | states |
|---|---|---|
| Catalog.ParseEffect | app.py:54-55 | an effect cell is kept exactly when it holds 中, 大 or 特大 |
| Catalog.ParseEffectName | app.py:57-58 | the three tiers and their cell texts correspond one to one |
| Catalog.ValidRowsExact | app.py:54-58 | the validated relation, written back, is exactly the parsed rows with a valid effect, in order and with repeats |
| Catalog.ValidRows | app.py:54-58 | the effect filter with the effect parsed; no longer than its input, and exactly the valid-effect rows in order, as `Catalog.ValidRowsExact` states |
| Catalog.FirstOccurrences | app.py:51 | `unique`: the same names, each once |
| Catalog.LoadData | app.py:51-58 | characters are exactly the non-empty names of any parsed row, distinct and sorted by code point; gifts are exactly the non-empty gift names of any parsed row, taken before the effect filter; the rows are the valid-effect rows |
| Catalog.UniverseIncludesDroppedRows | app.py:52-55 | a gift whose rows are all dropped is still in the universe, and a dropped row is not in the relation |
| Catalog.CharactersStrictlyIncreasing | app.py:51 | the character list rises strictly in Python's string order |
| Catalog.Rarity | app.py:32 | a gift missing from the lookup has rarity 0, and a listed gift has its listed rarity |
| Catalog.IsRareExact | app.py:273-274 | the rare tier is exactly the gifts listed with rarity 1 |
| Catalog.IsRare | app.py:273-274 | the rarity-1 test with the default 0; `Catalog.IsRareExact` states that it holds exactly for gifts listed with rarity 1 |
| UselessGifts.BorderStyle | app.py:31-36 | the violet border is used exactly for a gift listed with rarity 1 |
| UselessGifts.UnlistedGiftsLookCommon | app.py:32-36 | a gift missing from the lookup gets the amber border, as it would with rarity 0 listed |
| BestGifts.SelectRows | app.py:69 | exactly the rows of selected characters, each as often as in the relation |
| BestGifts.RowsForGift | app.py:72 | a gift's count is positive exactly when a selected row mentions it, and never exceeds the number of selected rows |
| BestGifts.RowsForGiftCountsRows | app.py:72 | the count grows by one with every further row for the gift, even a repeated row of a character already counted (`count`, not `nunique`) |
| BestGifts.FindBestGifts | app.py:65-78 | the column-less frame exactly when the relation or the selection is empty; otherwise a permutation of the selected rows, sorted by (count desc, effect desc, gift asc) |
| BestGifts.BestGiftsOrder | app.py:73-77 | the sort key (count desc, effect desc, gift asc); `BestGifts.BestGiftsOrderSpelledOut` states what sortedness by it means column by column |
| BestGifts.BestGiftsOrderSpelledOut | app.py:72-77 | in a list sorted as `find_best_gifts` sorts, an earlier row's gift has at least as many rows; on ties its effect is at least as strong; on ties again its name is not greater |
| BestGifts.FindBestGiftsEmpty | app.py:66-67 | an empty relation or selection gives the column-less frame |
| OptimalGifts.PeakRank | app.py:88 | the group maximum: no row for the gift has a higher effect rank, and some row reaches it unless the gift has no row |
| OptimalGifts.PeakRowExact | app.py:88-89 | the `x == x.max()` filter keeps a row exactly when no selected row for its gift has a stronger effect |
| OptimalGifts.BestUse | app.py:88-89 | `best_use_df`; by `OptimalGifts.PeakRowExact` it keeps exactly the rows that no row for the same gift beats |
| OptimalGifts.BestUseCharacters | app.py:91 | `nunique` over the best-use rows counts exactly the characters that reach the gift's peak |
| OptimalGifts.CharactersFor | app.py:91 | the characters `nunique` counts; over the best-use rows they are exactly the contenders, as `OptimalGifts.BestUseCharacters` states |
| OptimalGifts.CandidateRarityAndPeak | app.py:92-99 | a peak row's candidate carries the gift's rarity, defaulting to 0, and the gift's peak effect |
| OptimalGifts.CandidateCompetition | app.py:91-92 | a candidate's competition is the number of characters at its gift's peak |
| OptimalGifts.ToCandidate | app.py:92-99 | a row with its `competition` and `rarity` columns; `OptimalGifts.CandidateRarityAndPeak` and `OptimalGifts.CandidateCompetition` state what those columns hold |
| OptimalGifts.CandidatesAreRows | app.py:96-102 | a character's `competition == 1` (or `> 1`) candidates are exactly its peak rows of that competition, in relation order |
| OptimalGifts.CharacterTable | app.py:96-99 | `char_gifts_df`; by `OptimalGifts.CandidatesAreRows` its `competition == 1` and `> 1` parts are the character's peak rows of that kind |
| OptimalGifts.KeysAgree | app.py:104-112 | the two sort keys of a peak row's candidate are the keys its gift has in the declarative unique and shared orders |
| OptimalGifts.UniqueListMeetsSpec | app.py:101-115 | the computed `unique` list is the gifts of the character's exclusive peak rows, sorted by (rarity desc, effect desc, name asc) |
| OptimalGifts.UniqueList | app.py:101-115 | the sorted gift column of the `competition == 1` part; `OptimalGifts.UniqueListMeetsSpec` states which gifts and which order |
| OptimalGifts.SharedListMeetsSpec | app.py:102-116 | the computed `shared` list is the gifts of the character's shared peak rows, sorted by (rarity desc, competition asc, effect desc, name asc) |
| OptimalGifts.SharedList | app.py:102-116 | the sorted gift column of the `competition > 1` part; `OptimalGifts.SharedListMeetsSpec` states which gifts and which order |
| OptimalGifts.EntryMeetsSpec | app.py:96-119 | the entry stored for a character meets `BucketsSpec` on both branches of the loop body |
| OptimalGifts.NoRowsNoGifts | app.py:84-86 | with no selected row, the empty entry is the right one for every character |
| OptimalGifts.OptimalGiftsPerCharacter | app.py:80-121 | no entry for an empty relation or selection; otherwise one entry for every selected character and no other key, each meeting `BucketsSpec` for the selected rows |
| OptimalGifts.CharacterEntries | app.py:94-121 | the loop stores one entry per selected character, each meeting `BucketsSpec` |
| OptimalGifts.UniqueMembership | app.py:88-101 | a gift is in a character's `unique` list exactly when the character reaches its peak and no other character does |
| OptimalGifts.SharedMembership | app.py:88-102 | a gift is in a character's `shared` list exactly when the character and at least one other reach its peak |
| OptimalGifts.BucketsDisjoint | app.py:101-102 | no gift is in both of a character's lists |
| OptimalGifts.PeakGiftsListed | app.py:88-102 | every gift whose peak a character reaches is in one of its lists |
| OptimalGifts.TwoContenders | app.py:91 | two different characters at a gift's peak make its competition at least 2 |
| OptimalGifts.UniqueGiftIsExclusive | app.py:91-102 | a character's unique gift is in no list of any other character |
| OptimalGifts.SharedGiftListedForEveryContender | app.py:91-102 | a shared gift is in the `shared` list of every character that reaches its peak |
| OptimalGifts.ContendersAfterJoin | app.py:84-91 | when a character's rows join the selected rows and reach a gift's peak without passing it, the contenders are the old ones plus that character |
| OptimalGifts.JoiningContenderSharesGift | app.py:84-102 | when a character who reaches a unique gift's peak joins the selection, the gift leaves its owner's `unique` list and is in both characters' `shared` lists, with competition 2 |
| OptimalGifts.OrdersSeparateNames | app.py:104-112 | both list orders give different gifts different keys |
| OptimalGifts.BucketsDetermined | app.py:104-117 | `BucketsSpec` fixes both lists, order included |
| OptimalGifts.ScenarioPeakRows | app.py:88-102 | with rows (A, X, 大), (B, X, 特大) and (A, Y, 中), A's only peak row is (A, Y), B's only one is (B, X), and neither has a shared one |
| OptimalGifts.PeakScenario | app.py:88-117 | in that case A's lists are [Y] and [], and B's lists are [X] and [] |
| UselessGifts.FavoriteGiftsAsWritten | app.py:270 | the code as written: the gift column of a table, and an error (`KeyError`) on the column-less frame |
| UselessGifts.FavoriteGifts | app.py:270 | the corrected reading: the gift column of a table, and no gifts for the column-less frame |
| UselessGifts.FavoriteGiftsAgree | app.py:270 | wherever the code as written does not raise, both readings agree |
| UselessGifts.FavoritesOfSelection | app.py:69-270 | the favourites are exactly the gifts of the selected characters' valid rows |
| UselessGifts.NoValidRowRaises | app.py:66-270 | with a selection and no valid-effect row, the code as written raises at the favourite-gift expression |
| UselessGifts.EmptyEffectCellRaises | app.py:51-270 | one row with an empty effect cell offers its character for selection, and selecting it raises |
| UselessGifts.SplitUseless | app.py:271-302 | the common list holds exactly the non-rare useless gifts, sorted by (rarity desc, name asc); the rare list holds exactly the rare ones, sorted by name; each gift once when the enumeration has no repeats |
| UselessGifts.CommonOrder | app.py:276-277 | the `(-rarity, name)` key; `UselessGifts.SplitUseless` sorts the common list by it and `UselessGifts.UselessOrdersSeparateNames` shows it tells different gifts apart |
| UselessGifts.UselessGiftsMeetSpec | app.py:270-302 | for any enumeration of universe minus favourites, the two lists partition that set by the rarity-1 test, without repeats, in their orders |
| UselessGifts.UselessListsDetermined | app.py:276-302 | those properties fix both lists, order included |
| UselessGifts.UselessIndependentOfOrder | app.py:271 | the lists are the same whatever order `list(set)` yields |
| UselessGifts.UselessMeansUnwanted | app.py:270-274 | a gift is in one of the useless lists exactly when it is in the universe and no row of a selected character mentions it; the rare list holds rarity-1 gifts only, and the common list none |

## Left out

- CSV reading, header and cell stripping, `fillna`/`astype`, the error display and the `@st.cache_data` memoisation (app.py:8-29, 39-49, 61-63).
  - These are file I/O and framework caching.
  - `LoadData` takes rows that are already parsed and stripped.
  - The rarity lookup is a parameter.
- Image lookup, base64 encoding and all Streamlit and HTML output, including the pixel-width arithmetic (app.py:123-321).
  - These are filesystem, library and rendering work.
  - `BorderStyle` keeps only the choice between the two border styles, not the CSS text.
- The rarity column's CSV type, which pandas may read as float or NaN. Rarity is modelled as an `int` that defaults to 0, as every lookup in the code does.
- OptimalGifts.OptimalGiftsPerCharacter: the result is a `map`, so the insertion order of the Python dict (the selection order) is not modelled.
- BestGifts.FindBestGifts: the order among rows with equal count, effect and gift (rows of different characters) is not stated. The model's sort is stable, like pandas' multi-column sort, but the contract does not promise it.
- BestGifts.FindBestGifts: the in-place sort of a copied frame (app.py:69, 73-77) is modelled on values. The frame is a fresh copy, so there is no aliasing to lose.
- UselessGifts.SplitUseless: the order that `list(set)` yields is a parameter (an enumeration without repeats). `UselessIndependentOfOrder` shows that the result does not depend on it.
- The selection is a list, as the multiselect returns it. It is meant as a set: a repeated name matches the same rows and only rewrites the same entry.

## Findings

| source | as written | input that shows it | evidently intended | confidence | as-written member | corrected member |
|---|---|---|---|---|---|---|
| app.py:270 | `find_best_gifts` returns the column-less `pd.DataFrame()` for an empty relation (app.py:66-67), and the page then reads `result_df['gift']`, which raises `KeyError` | a gift table whose only row is (A, X, empty effect cell), with A selected: A is offered for selection (app.py:51), every row is dropped by the effect filter (app.py:55), and the search raises | an empty relation yields no favourite gifts, so every gift of the universe is useless; an empty relation should give empty results, never an error | not executed | UselessGifts.FavoriteGiftsAsWritten (shown by UselessGifts.EmptyEffectCellRaises) | UselessGifts.FavoriteGifts (with UselessGifts.FavoritesOfSelection) |
