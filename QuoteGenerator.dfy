/**
 * The dynamic quote generator: an in-memory list of quotes, filtered by
 * category for display, extended by the add form and by JSON import, and
 * mirrored to two browser storage slots ("quotes" and "selectedCategory").
 */
module QuoteGenerator {
  import opened Wrappers
  import opened Sequences
  import Text

  datatype Quote = Quote(text: string, category: string)

  /** The two lines of the display panel: the quote text and its category caption. */
  datatype Shown = Shown(text: string, caption: string)

  /** The filter value that selects every category. */
  const All: string := "all"

  const NoQuotesMessage: string := "No quotes available in this category."

  const CaptionPrefix: string := "Category: "

  /** The quotes the page starts with. */
  const DefaultQuotes: seq<Quote> := [
    Quote("Knowledge is power.", "Wisdom"),
    Quote("Simplicity is the soul of efficiency.", "Productivity"),
    Quote("Believe you can and you\U{2019}re halfway there.", "Motivation"),
    Quote("Code is like humor. When you have to explain it, it\U{2019}s bad.", "Programming")
  ]

  /** The category of every quote, in order. */
  function Categories(qs: seq<Quote>): (cs: seq<string>)
  {
    seq(|qs|, i requires 0 <= i < |qs| => qs[i].category)
  }

  /** Holds of a quote whose category is exactly `c`. */
  function InCategory(c: string): (p: Quote -> bool)
  {
    (q: Quote) => q.category == c
  }

  /** The quotes the display picks from: all of them for "all", else those of exactly that category. */
  function Filtered(qs: seq<Quote>, filter: string): (r: seq<Quote>)
  {
    if filter == All then qs else Filter(qs, InCategory(filter))
  }

  /** The categories of the dropdown after the "all" entry, in first-appearance order. */
  function UniqueCategories(qs: seq<Quote>): (cs: seq<string>)
  {
    Distinct(Categories(qs))
  }

  // ---------------------------------------------------------------------
  // Properties of the pure parts

  /**
   * Filtering with "all" is the whole collection in order; any other filter
   * is the order-preserving subsequence of the quotes whose category equals
   * it exactly, each kept as often as it occurs.
   */
  lemma FilteredSpec(qs: seq<Quote>, filter: string)
    ensures filter == All ==> Filtered(qs, filter) == qs
    ensures filter != All ==>
      && IsSubsequence(Filtered(qs, filter), qs)
      && (forall i :: 0 <= i < |Filtered(qs, filter)| ==> Filtered(qs, filter)[i].category == filter)
      && (forall q :: multiset(Filtered(qs, filter))[q] == if q.category == filter then multiset(qs)[q] else 0)
  {
    if filter != All {
      var p := InCategory(filter);
      FilterIsSubsequence(qs, p);
      forall q ensures multiset(Filter(qs, p))[q] == if q.category == filter then multiset(qs)[q] else 0 {
        FilterCount(qs, p, q);
      }
    }
  }

  /** Filtering distributes over appending, so new quotes show up after the old ones. */
  lemma FilteredAppend(a: seq<Quote>, b: seq<Quote>, filter: string)
    ensures Filtered(a + b, filter) == Filtered(a, filter) + Filtered(b, filter)
  {
    if filter != All {
      FilterAppend(a, b, InCategory(filter));
    }
  }

  /**
   * The unique category list has no duplicates, holds exactly the categories
   * of the quotes, and lists them in order of first appearance.
   */
  lemma UniqueCategoriesSpec(qs: seq<Quote>)
    ensures NoDuplicates(UniqueCategories(qs))
    ensures forall i :: 0 <= i < |UniqueCategories(qs)| ==>
      exists k :: 0 <= k < |qs| && qs[k].category == UniqueCategories(qs)[i]
    ensures forall k :: 0 <= k < |qs| ==> qs[k].category in UniqueCategories(qs)
    ensures forall i, j :: 0 <= i < j < |UniqueCategories(qs)| ==>
      FirstIndex(Categories(qs), UniqueCategories(qs)[i]) < FirstIndex(Categories(qs), UniqueCategories(qs)[j])
  {
    var cs := Categories(qs);
    DistinctFirstAppearanceOrder(cs);
    forall i | 0 <= i < |UniqueCategories(qs)|
      ensures exists k :: 0 <= k < |qs| && qs[k].category == UniqueCategories(qs)[i]
    {
      var k := FirstIndex(cs, UniqueCategories(qs)[i]);
      assert qs[k].category == cs[k];
    }
    forall k | 0 <= k < |qs| ensures qs[k].category in UniqueCategories(qs) {
      assert cs[k] == qs[k].category;
    }
  }

  /** Adding quotes keeps the categories already listed, in place, at the front. */
  lemma UniqueCategoriesGrow(a: seq<Quote>, b: seq<Quote>)
    ensures UniqueCategories(a) <= UniqueCategories(a + b)
  {
    assert Categories(a + b) == Categories(a) + Categories(b);
    DistinctPrefix(Categories(a), Categories(b));
  }

  /** Appending one quote adds its category at the end of the list when it is new, and nothing otherwise. */
  lemma UniqueCategoriesAddOne(qs: seq<Quote>, q: Quote)
    ensures UniqueCategories(qs + [q]) ==
      if q.category in Categories(qs) then UniqueCategories(qs) else UniqueCategories(qs) + [q.category]
  {
    assert Categories(qs + [q]) == Categories(qs) + [q.category];
    DistinctSnoc(Categories(qs), q.category);
  }

  // ---------------------------------------------------------------------
  // The page state

  class QuoteApp {
    /** The global `quotes` array. */
    var quotes: seq<Quote>
    /** The "quotes" storage slot, holding a serialised collection or nothing. */
    var storedQuotes: Option<seq<Quote>>
    /** The "selectedCategory" storage slot. */
    var storedCategory: Option<string>

    /** The script starts with the default quotes over whatever storage already holds. */
    constructor (quotesSlot: Option<seq<Quote>>, categorySlot: Option<string>)
      ensures quotes == DefaultQuotes
      ensures storedQuotes == quotesSlot && storedCategory == categorySlot
    {
      quotes := DefaultQuotes;
      storedQuotes := quotesSlot;
      storedCategory := categorySlot;
    }

    /** `saveQuotes`: the storage slot now holds the collection. */
    method SaveQuotes()
      modifies this
      ensures storedQuotes == Some(quotes)
      ensures quotes == old(quotes) && storedCategory == old(storedCategory)
    {
      storedQuotes := Some(quotes);
    }

    /** `loadQuotes`: a stored collection replaces the in-memory one; an empty slot changes nothing. */
    method LoadQuotes()
      modifies this
      ensures quotes == old(storedQuotes).GetOr(old(quotes))
      ensures storedQuotes == old(storedQuotes) && storedCategory == old(storedCategory)
    {
      if storedQuotes.Some? {
        quotes := storedQuotes.value;
      }
    }

    /** `saveSelectedCategory`. */
    method SaveSelectedCategory(cat: string)
      modifies this
      ensures storedCategory == Some(cat)
      ensures quotes == old(quotes) && storedQuotes == old(storedQuotes)
    {
      storedCategory := Some(cat);
    }

    /** `loadSelectedCategory`: the stored value when present and non-empty, else "all". */
    method LoadSelectedCategory() returns (cat: string)
      ensures storedCategory.Some? && storedCategory.value != "" ==> cat == storedCategory.value
      ensures storedCategory.None? || storedCategory.value == "" ==> cat == All
      ensures cat != ""
    {
      if storedCategory.Some? && storedCategory.value != "" {
        cat := storedCategory.value;
      } else {
        cat := All;
      }
    }

    /**
     * `displayRandomQuote` with the random pick given as the index `i` into
     * the filtered list: the empty-category message, or a quote of the
     * collection that passes the filter.
     */
    method DisplayRandomQuote(filter: string, i: nat) returns (shown: Shown)
      requires Filtered(quotes, filter) != [] ==> i < |Filtered(quotes, filter)|
      ensures Filtered(quotes, filter) == [] ==> shown == Shown(NoQuotesMessage, "")
      ensures Filtered(quotes, filter) != [] ==>
        exists q :: q in quotes && (filter == All || q.category == filter)
          && shown == Shown(q.text, CaptionPrefix + q.category)
      ensures Filtered(quotes, filter) != [] ==>
        var q := Filtered(quotes, filter)[i];
        shown == Shown(q.text, CaptionPrefix + q.category)
    {
      var filtered := if filter == All then quotes else Filter(quotes, InCategory(filter));
      if |filtered| == 0 {
        shown := Shown(NoQuotesMessage, "");
        return;
      }
      var q := filtered[i];
      assert q in quotes && (filter == All || q.category == filter);
      shown := Shown(q.text, CaptionPrefix + q.category);
    }

    /**
     * `addQuote`: with both trimmed fields non-empty, one quote built from the
     * trimmed values is appended and the collection saved; otherwise nothing
     * changes.
     */
    method AddQuote(rawText: string, rawCategory: string) returns (added: bool)
      modifies this
      ensures added <==> Text.Trim(rawText) != "" && Text.Trim(rawCategory) != ""
      ensures added ==> quotes == old(quotes) + [Quote(Text.Trim(rawText), Text.Trim(rawCategory))]
      ensures added ==> storedQuotes == Some(quotes)
      ensures !added ==> quotes == old(quotes) && storedQuotes == old(storedQuotes)
      ensures storedCategory == old(storedCategory)
    {
      var text := Text.Trim(rawText);
      var category := Text.Trim(rawCategory);
      added := text != "" && category != "";
      if added {
        quotes := quotes + [Quote(text, category)];
        SaveQuotes();
      }
    }

    /**
     * `populateCategories`: the dropdown options are "all" followed by the
     * unique categories, one option appended per category; the selection
     * restored is the saved preference.
     */
    method PopulateCategories() returns (options: seq<string>, selected: string)
      ensures options == [All] + UniqueCategories(quotes)
      ensures selected != ""
      ensures storedCategory.Some? && storedCategory.value != "" ==> selected == storedCategory.value
      ensures storedCategory.None? || storedCategory.value == "" ==> selected == All
    {
      var unique := UniqueCategories(quotes);
      options := [All];
      var n := 0;
      while n < |unique|
        invariant 0 <= n <= |unique|
        invariant options == [All] + unique[..n]
      {
        options := options + [unique[n]];
        n := n + 1;
      }
      assert unique[..n] == unique;
      selected := LoadSelectedCategory();
    }

    /** `filterQuote`: the chosen category is saved, then a quote of it is shown. */
    method FilterQuote(selected: string, i: nat) returns (shown: Shown)
      requires Filtered(quotes, selected) != [] ==> i < |Filtered(quotes, selected)|
      modifies this
      ensures storedCategory == Some(selected)
      ensures quotes == old(quotes) && storedQuotes == old(storedQuotes)
      ensures Filtered(quotes, selected) == [] ==> shown == Shown(NoQuotesMessage, "")
      ensures Filtered(quotes, selected) != [] ==>
        var q := Filtered(quotes, selected)[i];
        shown == Shown(q.text, CaptionPrefix + q.category)
    {
      SaveSelectedCategory(selected);
      shown := DisplayRandomQuote(selected, i);
    }

    /**
     * The data effect of `importFromJsonFile`: every parsed quote is appended
     * after the existing ones, unvalidated and without de-duplication, and the
     * combined collection is saved.
     */
    method ImportQuotes(imported: seq<Quote>)
      modifies this
      ensures quotes == old(quotes) + imported
      ensures storedQuotes == Some(quotes)
      ensures storedCategory == old(storedCategory)
    {
      quotes := quotes + imported;
      SaveQuotes();
    }
  }

  // ---------------------------------------------------------------------
  // Storage round trips

  /** Saving the collection and loading it back leaves the collection as it was. */
  method SaveThenLoadQuotes(app: QuoteApp)
    modifies app
    ensures app.quotes == old(app.quotes) && app.storedQuotes == Some(app.quotes)
  {
    app.SaveQuotes();
    app.LoadQuotes();
  }

  /** On a page whose "quotes" slot is empty, loading keeps the four default quotes. */
  method StartWithEmptyStorage(categorySlot: Option<string>) returns (app: QuoteApp)
    ensures app.quotes == DefaultQuotes && |app.quotes| == 4
    ensures app.storedQuotes == None
  {
    app := new QuoteApp(None, categorySlot);
    app.LoadQuotes();
  }

  /** Saving a non-empty category preference and loading it back returns it. */
  method SaveThenLoadCategory(app: QuoteApp, cat: string) returns (restored: string)
    requires cat != ""
    modifies app
    ensures restored == cat
  {
    app.SaveSelectedCategory(cat);
    restored := app.LoadSelectedCategory();
  }
}
