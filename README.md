# MealApp core in Dafny

A model of the two pieces of logic in the MealApp React Native app that do
more than render: the category search on the categories screen, and the
favorites list of the meals screen, which is kept in component state and
written through to the device's key-value store (AsyncStorage).

- `seqs.dfy` (module `Seqs`): JavaScript's `Array.prototype.filter`, used by
  both the search and the toggle, with an index-level reference description
  of what it keeps, and the "no id twice" property.
- `text.dfy` (module `Text`): `toLowerCase` with ASCII case folding, and
  `includes` as a substring test, proved equal to "occurs at some position".
- `categories.dfy` (module `Categories`): `filteredCategories` and its
  properties — exact membership, order, case-insensitivity, the empty term,
  narrowing as the user types, and the shipped categories searched for
  "ital", "ASIAN" and "xyz".
- `meals.dfy` (module `Meals`): the `displayedMeals` lookup; `ToggleSeq`,
  the list computation of `toggleFavorite`, with its lemmas; and the class
  `MealsScreen`, whose `favorites` field is the React state and whose
  `storage` field is the key-value store. `LoadFavorites` and
  `ToggleFavorite` change those fields as `loadFavorites` and
  `toggleFavorite` do. `Mount` and `ToggleThenRemount` chain them as the
  screen's mount effect does and show that a toggle survives a re-mount.

Storage is modelled as `map<string, seq<string>>`: the JSON encoding that
`JSON.stringify`/`JSON.parse` apply on the way in and out is taken as the
identity, and "a value is stored under `favorites`" stands for the
truthiness test of `loadFavorites`.

Three behaviours of the code are worth stating plainly:
- Toggling an id twice restores the list only when the id was absent, or
  occurred exactly once, as the last element (`Meals.ToggleTwiceRestores`).
  Otherwise the id moves to the end and any extra copies are lost: the list
  keeps the same ids but may change order (`Meals.TogglePresentTwice`,
  `Meals.ToggleTwiceReorders`: `["1", "2"]` becomes `["2", "1"]`).
- `toggleFavorite` updates the state and writes the store in one step.
  `ToggleFavorite` does the same, and `ToggleSeq` is its pure part.
- The code does not enforce a duplicate-free list: a stored list is loaded
  as it is. Toggle preserves the property (`Meals.ToggleKeepsNoDuplicates`)
  and removes every copy of a present id.

## Model

| member | source | states |
|---|---|---|
| `Seqs.Filter` | App.js:40-42 | `filter` returns at most as many elements as its input; an element is in the result iff it is in the input and the callback accepts it |
| `Seqs.KeptIndicesFrom` | App.js:40-42 | reference description of what `filter` keeps: strictly increasing input positions, each holding an accepted element |
| `Seqs.FilterSelectsKeptIndices` | App.js:40-42 | the result of `filter` is the input read at those positions, in that order: nothing added or reordered |
| `Seqs.KeptIndicesExact` | App.js:40-42 | a position is selected iff the callback accepts its element: no accepted element is skipped |
| `Seqs.FilterCounts` | App.js:96 | `filter` keeps every copy of an accepted element and drops every copy of a rejected one |
| `Seqs.FilterKeepsNoDuplicates` | App.js:96 | filtering a duplicate-free list gives a duplicate-free list |
| `Text.LowerChar` | App.js:41 | one character lower-cased: never an upper-case ASCII letter; upper-case letters move to their lower-case counterpart and every other character is unchanged |
| `Text.ToLower` | App.js:41 | `toLowerCase` keeps the length and lower-cases each character in place |
| `Text.ToLowerIdempotent` | App.js:41 | lower-casing twice is the same as lower-casing once |
| `Text.ToLowerConcat` | App.js:41 | lower-casing distributes over concatenation |
| `Text.SameIgnoringCaseIffSameLower` | App.js:41 | two strings differ only in letter case iff their lower-cased forms are equal |
| `Text.Contains` | App.js:41 | `includes` is true iff the term occurs as a contiguous substring at some position |
| `Text.ContainsEmpty` | App.js:41 | every string includes the empty string |
| `Text.ContainsPrefix` | App.js:41 | a string that includes `t + u` includes `t` |
| `Categories.Matches` | App.js:41 | the filter callback holds iff the lower-cased search term occurs in the lower-cased title at some position |
| `Categories.FilterCategories` | App.js:40-42 | a category is in `filteredCategories` iff it is in `categories` and its lower-cased title contains the lower-cased search term as a contiguous substring |
| `Categories.FilterCategoriesKeepsOrder` | App.js:40-42 | the result is the input read at strictly increasing positions, each holding a matching category: input order kept, nothing added or reordered |
| `Categories.FilterCategoriesPositions` | App.js:40-42 | those positions are exactly the positions of matching categories: no match is dropped |
| `Categories.FilterCategoriesCounts` | App.js:40-42 | a matching category appears as often as in the input; a non-matching one not at all |
| `Categories.EmptySearchShowsAll` | App.js:37-42 | with the initial empty search term the whole list is returned unchanged |
| `Categories.SearchIgnoresCase` | App.js:41 | search terms that differ only in letter case give the same result |
| `Categories.LongerSearchNarrows` | App.js:40-42 | filtering the current result by a longer term gives what filtering the full list by that term gives |
| `Categories.AppCategories` | App.js:18-21 | the two shipped categories, Italian with id "1" and Asian with id "2" |
| `Categories.SearchItalFindsItalian` | App.js:18-21 | the shipped categories searched for "ital" give Italian only |
| `Categories.SearchUpperAsianFindsAsian` | App.js:18-21 | the shipped categories searched for "ASIAN" give Asian only |
| `Categories.SearchXyzFindsNothing` | App.js:18-21 | the shipped categories searched for "xyz" give nothing |
| `Meals.DisplayedMeals` | App.js:79 | the meals of a known category are its list, an unknown category gives `[]`, and every displayed meal belongs to some category |
| `Meals.AppMeals` | App.js:24-33 | the shipped meals table: category "1" holds Spaghetti Bolognese and Lasagna, category "2" Sushi and Pho |
| `Meals.AppMealsDisplayed` | App.js:24-33 | categories "1" and "2" show their two shipped meals; any other id shows none |
| `Meals.IsNot` | App.js:96 | the callback `id => id !== mealId` accepts exactly the ids other than `mealId` |
| `Meals.ToggleSeq` | App.js:93-99 | after a toggle `mealId` is in the list iff it was not before; membership of every other id is unchanged |
| `Meals.ToggleShape` | App.js:94-99 | an absent id is appended at the end; a present id loses every copy, all other elements keep their multiplicity, and the result is the input read at the strictly increasing positions of the other ids |
| `Meals.ToggleKeepsNoDuplicates` | App.js:94-99 | toggling a duplicate-free list gives a duplicate-free list |
| `Meals.ToggleAbsentTwice` | App.js:94-99 | toggling an absent id twice restores the list exactly |
| `Meals.ToggleTwiceRestores` | App.js:94-99 | toggling twice gives the list back iff the id was absent, or occurred exactly once as the last element |
| `Meals.TogglePresentTwice` | App.js:94-99 | toggling a present id twice gives the list without that id, then the id once at the end: the same ids as before |
| `Meals.ToggleTwiceReorders` | App.js:96-98 | `["1", "2"]` toggled twice at "1" is `["2", "1"]`, so double toggling is not the identity on lists |
| `Meals.FavoritesKey` | App.js:87 | the storage key `'favorites'` that both the load and the toggle use |
| `Meals.MealsScreen.constructor` | App.js:80 | a mounted screen starts with an empty favorites list and the store as it was |
| `Meals.MealsScreen.LoadFavorites` | App.js:86-91 | with a stored list the state becomes that list (and agrees with the store); without one the state is unchanged |
| `Meals.MealsScreen.ToggleFavorite` | App.js:93-102 | the state becomes the toggled list; membership of `mealId` flips and of other ids is kept; no duplicates are introduced; the stored `favorites` equals the new state and no other key changes |
| `Meals.Mount` | App.js:80-91 | after mounting and the mount effect, the state is the stored list, or `[]` when nothing is stored |
| `Meals.ToggleThenRemount` | App.js:86-102 | a toggled list written to the store is exactly what a re-mounted screen loads |

## Left out

- Rendering, navigation, the onboarding swiper and the style sheets (App.js:46-74, 104-244): user interface with no logic to state. This includes the heart icon's `favorites.includes(item.id)` test.
- The splash-screen sequencing around `appIsReady` (App.js:13, 143-164): plumbing over the `expo-splash-screen` library.
- The dark-mode switch (App.js:38, 44): a boolean flip used only for styling.
- Asynchrony: AsyncStorage calls are modelled as immediate reads and writes of the `storage` map, and `Mount` lets the mount effect's load finish before anything else runs. Two interleavings are therefore not modelled. A tap that arrives before the mount effect's `getItem` resolves (App.js:82-84, 93-101) toggles the initial `[]` and overwrites the stored list with `[mealId]`, losing the earlier favorites. Two toggles that run before React re-renders both read the same stale `favorites`.
- JSON encoding: `JSON.stringify` and `JSON.parse` are taken as the identity on lists of strings. A stored value that is not valid JSON makes `JSON.parse` throw, and the code does not handle that; the model has no such value. A failing `setItem` rejects the awaited promise after the state has already changed; this failure is not modelled either.
- Meals.MealsScreen.LoadFavorites: tests "a value is stored" where the code tests JavaScript truthiness, so a stored empty string is not told apart from a missing one. `JSON.stringify` never writes an empty string.
- Meals.DisplayedMeals: models the meals table as a map. A plain JavaScript object would also answer inherited property names such as `constructor` with a truthy non-list.
- Text.ToLower: folds only the ASCII letters A-Z. `toLowerCase` applies full Unicode case mapping, which can change a string's length.
