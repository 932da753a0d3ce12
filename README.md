# Quote generator and to-do list: a Dafny model

This project models the data logic of two small browser scripts.

- **The dynamic quote generator** (`Documents/alx_fe_javascript/dom-manipulation/script.js`).
  It keeps a global list of `{text, category}` quotes that starts with four defaults.
  It shows a random quote of the selected category, or a fixed message when that category has none.
  Its add form appends a quote built from the trimmed inputs, but only when both are non-empty.
  JSON import appends the parsed quotes.
  A category dropdown holds "all" followed by the distinct categories in order of first appearance.
  Two browser storage slots are kept: `"quotes"` (the collection) and `"selectedCategory"` (the filter preference, which defaults to "all").
- **The to-do list** (`dynamic-to-do-list-js/script.js`).
  Task strings live in the storage slot `"tasks"`, which reads as an empty list when absent.
  They are also shown as list items, each with a Remove button.
  Adding appends to both the display and storage. Loading at start-up adds one item per stored task without saving it again.
  A Remove click deletes that one item from the display, but deletes every stored entry with the same text.

Modules:

- `Wrappers` holds `Option`. A storage slot that holds nothing is `None`.
- `Sequences` holds `Filter` (JavaScript's `Array.prototype.filter`) and `Distinct` (`Array.from(new Set(xs))`, which keeps first appearances in insertion order). It also holds the order-preserving subsequence relation, `FirstIndex`, and their lemmas.
- `Text` holds `Trim` (`String.prototype.trim`). It strips the white space and line terminators that ECMA-262 defines, in its sections "White Space" and "Line Terminators".
- `QuoteGenerator`: the `Quote` record, the category filter, the category list, and the class `QuoteApp`. The class holds the `quotes` field and the two storage slots.
- `TodoList`: value removal, and the class `TaskList`. The class holds the `stored` slot and the `displayed` item texts.

Storage is modelled as slots that hold already-parsed values. `JSON.stringify` followed by `JSON.parse` is taken to return the same collection.

What the scripts do, stated plainly:
- The scripts' quotes have only `text` and `category`; there is no `id` or time stamp.
- `loadQuotes` keeps the in-memory defaults when the slot is empty, and does not write them back.
- Import appends every parsed element. It does no validation and no duplicate check.
- Nothing in these two scripts synchronises with a server.

## Model

| member | source | states |
|---|---|---|
| `QuoteGenerator.QuoteApp.constructor` | Documents/alx_fe_javascript/dom-manipulation/script.js:4-9 | the collection starts as the four default quotes; the storage slots hold whatever the browser already had |
| `QuoteGenerator.QuoteApp.SaveQuotes` | Documents/alx_fe_javascript/dom-manipulation/script.js:12-14 | afterwards the "quotes" slot holds exactly the collection; nothing else changes |
| `QuoteGenerator.QuoteApp.LoadQuotes` | Documents/alx_fe_javascript/dom-manipulation/script.js:16-19 | a stored collection replaces the in-memory one; with the slot empty the collection is unchanged; storage is not written |
| `QuoteGenerator.QuoteApp.SaveSelectedCategory` | Documents/alx_fe_javascript/dom-manipulation/script.js:21-23 | the "selectedCategory" slot holds the given value; the collection and the quotes slot are unchanged |
| `QuoteGenerator.QuoteApp.LoadSelectedCategory` | Documents/alx_fe_javascript/dom-manipulation/script.js:25-27 | the stored value when it is present and non-empty, and "all" when it is absent or empty; never the empty string |
| `QuoteGenerator.SaveThenLoadCategory` | Documents/alx_fe_javascript/dom-manipulation/script.js:21-27 | saving a non-empty category and then loading the preference returns that category |
| `QuoteGenerator.SaveThenLoadQuotes` | Documents/alx_fe_javascript/dom-manipulation/script.js:12-19 | saving and then loading leaves the collection as it was, and storage equals it |
| `QuoteGenerator.StartWithEmptyStorage` | Documents/alx_fe_javascript/dom-manipulation/script.js:4-19 | on a page whose "quotes" slot is empty, loading leaves the 4 default quotes in place and storage empty |
| `QuoteGenerator.FilteredSpec` | Documents/alx_fe_javascript/dom-manipulation/script.js:32 | "all" gives the whole collection in order; any other filter gives an order-preserving subsequence in which every quote has exactly that category, and every quote of that category appears as often as in the collection |
| `Sequences.Filter` | Documents/alx_fe_javascript/dom-manipulation/script.js:32 | the result is no longer than the input; an element is in the result exactly when it is in the input and satisfies the predicate |
| `Sequences.FilterUnique` | Documents/alx_fe_javascript/dom-manipulation/script.js:32 | any order-preserving subsequence that keeps only elements satisfying the predicate, each as often as it occurs in the input, equals `Filter`; so the properties in `FilteredSpec` determine the filtered list completely |
| `QuoteGenerator.FilteredAppend` | Documents/alx_fe_javascript/dom-manipulation/script.js:32 | filtering a concatenation is the concatenation of the filtered parts, so added or imported quotes of a category appear after the earlier ones |
| `QuoteGenerator.QuoteApp.DisplayRandomQuote` | Documents/alx_fe_javascript/dom-manipulation/script.js:30-47 | with no quote passing the filter the panel shows "No quotes available in this category." and an empty caption; otherwise, for the chosen index, it shows that filtered quote's text and "Category: " followed by its category, and that quote is in the collection and has the filter's category unless the filter is "all" |
| `QuoteGenerator.QuoteApp.AddQuote` | Documents/alx_fe_javascript/dom-manipulation/script.js:49-63 | it adds exactly when both trimmed inputs are non-empty; then the collection is the old one with one quote of the trimmed values appended, and storage equals the collection; otherwise the collection and storage are unchanged |
| `QuoteGenerator.UniqueCategoriesSpec` | Documents/alx_fe_javascript/dom-manipulation/script.js:68 | the category list has no duplicates; each entry is the category of some quote; every quote's category is in it; entries are ordered by the first position at which a quote of that category occurs |
| `Sequences.Distinct` | Documents/alx_fe_javascript/dom-manipulation/script.js:68 | the result has no duplicates and holds exactly the elements of the input |
| `Sequences.DistinctFirstAppearanceOrder` | Documents/alx_fe_javascript/dom-manipulation/script.js:68 | distinct elements are listed in increasing order of their first occurrence in the input |
| `QuoteGenerator.UniqueCategoriesAddOne` | Documents/alx_fe_javascript/dom-manipulation/script.js:53-56 | after one quote is appended, the category list is unchanged if its category was already present, and otherwise has that category added at the end |
| `QuoteGenerator.UniqueCategoriesGrow` | Documents/alx_fe_javascript/dom-manipulation/script.js:104-107 | the category list before an append is a prefix of the list after it |
| `Sequences.DistinctPrefix` | Documents/alx_fe_javascript/dom-manipulation/script.js:68 | the distinct elements of a sequence are a prefix of the distinct elements of any extension of it |
| `QuoteGenerator.QuoteApp.PopulateCategories` | Documents/alx_fe_javascript/dom-manipulation/script.js:66-80 | the options are "all" followed by the unique category list, one option appended per category; the selection restored is the saved preference, or "all" |
| `QuoteGenerator.QuoteApp.FilterQuote` | Documents/alx_fe_javascript/dom-manipulation/script.js:83-87 | the chosen category is saved and the panel shows what `DisplayRandomQuote` shows for it; the collection and the quotes slot are unchanged |
| `QuoteGenerator.QuoteApp.ImportQuotes` | Documents/alx_fe_javascript/dom-manipulation/script.js:104-106 | the collection is the old one followed by every imported quote, with no de-duplication, and storage equals the combined collection |
| `Text.TrimStart` | Documents/alx_fe_javascript/dom-manipulation/script.js:50-51 | the result is a suffix of the input, everything removed is white space, and the result does not start with white space |
| `Text.TrimEnd` | Documents/alx_fe_javascript/dom-manipulation/script.js:50-51 | the result is a prefix of the input, everything removed is white space, and the result does not end with white space |
| `Text.TrimSlice` | Documents/alx_fe_javascript/dom-manipulation/script.js:50-51 | the trimmed string is a contiguous piece of the input that follows only the leading white space |
| `Text.TrimCutsTrailing` | Documents/alx_fe_javascript/dom-manipulation/script.js:50-51 | everything after the trimmed piece is white space |
| `Text.TrimBoundaries` | Documents/alx_fe_javascript/dom-manipulation/script.js:50-51 | a non-empty trimmed string neither starts nor ends with white space |
| `Text.TrimEmptyIff` | dynamic-to-do-list-js/script.js:48-49 | the trimmed input is empty exactly when every character of the input is white space |
| `Text.TrimKeeps` | dynamic-to-do-list-js/script.js:48 | a string that neither starts nor ends with white space is left unchanged by trimming |
| `Text.TrimIdempotent` | dynamic-to-do-list-js/script.js:48 | trimming an already trimmed string changes nothing |
| `TodoList.StoredTasks` | dynamic-to-do-list-js/script.js:8 | an absent "tasks" slot reads as the empty list, and a present one as its contents |
| `TodoList.TaskList.constructor` | dynamic-to-do-list-js/script.js:1-4 | the page starts with no displayed items, over whatever the browser has stored |
| `TodoList.TaskList.AddTask` | dynamic-to-do-list-js/script.js:13-34 | one item with the text is appended to the display; with `save` the stored list becomes the old stored list (empty if absent) with the text appended; without `save` storage is untouched |
| `TodoList.TaskList.LoadTasks` | dynamic-to-do-list-js/script.js:7-10 | the stored tasks are appended to the display in order and storage is unchanged; starting from an empty display, the display then equals the stored list |
| `TodoList.RemoveAllSpec` | dynamic-to-do-list-js/script.js:39 | removal by value leaves no entry equal to the text, keeps every other entry as often as it occurred, and keeps the survivors in their relative order |
| `TodoList.TaskList.RemoveTaskFromStorage` | dynamic-to-do-list-js/script.js:37-41 | storage is overwritten with the stored list (empty if absent) minus every entry equal to the text; the display is unchanged |
| `TodoList.RemoveAllIsRemoveAtIff` | dynamic-to-do-list-js/script.js:20-22 | removing the item at one position and removing every entry with its text give the same list exactly when that text occurs once |
| `TodoList.TaskList.ClickRemove` | dynamic-to-do-list-js/script.js:20-23 | exactly the clicked item leaves the display, while storage loses every entry equal to its text; a display that matched storage still matches it exactly when that text occurred once |
| `TodoList.TaskList.ClickAdd` | dynamic-to-do-list-js/script.js:47-53 | it adds exactly when the trimmed input is non-empty; the displayed and stored value is the trimmed text; otherwise nothing changes; a display that matched storage still matches it |

## Left out

- DOM work is not modelled: element lookup and creation, `innerHTML`, option elements, event listener registration, `DOMContentLoaded` and `alert`. Only their data effects are. The panel is the `Shown` value, the dropdown is the options list, and the to-do items are their texts.
- `Math.random` and `Math.floor` are not modelled. They are floating point; the random pick is an index argument, required to be within the filtered list when that list is non-empty.
- `JSON.stringify`, `JSON.parse` and `localStorage` are not modelled. Each slot holds already-parsed data. Malformed JSON and the exceptions it raises are not modelled. Nor is a slot holding the empty string, which the scripts treat like an absent value in `if (stored)` and `|| '[]'`.
- `exportToJsonFile` is not modelled: it is file output through Blob, URL and an anchor click.
- The `FileReader` part of `importFromJsonFile` is file input. `ImportQuotes` takes the already-parsed quotes. Parsed input that is not a list of quotes is not modelled: a JSON string, whose characters a spread would append one by one; a number, boolean, null or non-array object, which would make `push(...)` throw; and an array whose elements are not records with string `text` and `category`, which the script would append unvalidated.
- After a successful add, `addQuote` also runs `populateCategories` and `displayRandomQuote` and clears the two input fields. After an import, `importFromJsonFile` runs only `populateCategories`, then an `alert`. The model keeps these redraws as the separate operations `PopulateCategories` and `DisplayRandomQuote`. Clearing the input fields is DOM work.
- Setting a `select` element's value to something that is not among its options selects nothing. That is browser behaviour, not script logic. `PopulateCategories` returns the restored preference as it is.
- Strings are Dafny `string`s, so their characters are Unicode scalar values. JavaScript strings are UTF-16 code units; surrogate pairs are not modelled.
- A synchronisation or merge with a server is not modelled. These scripts contain none.
