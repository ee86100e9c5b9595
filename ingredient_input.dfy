/**
 * The ingredient chip list of the home page: the text being typed and the
 * list of ingredients added so far, which `addIngredient`, `removeIngredient`
 * and `clearAll` replace through their state setters.
 */
module IngredientInput {
  import opened Strings
  import opened Seqs

  /**
   * The list the component keeps: no duplicates, no empty entries, and each
   * entry already trimmed.
   */
  ghost predicate ChipList(items: seq<string>)
  {
    && NoDuplicates(items)
    && forall k :: 0 <= k < |items| ==> items[k] != "" && Trimmed(items[k])
  }

  /** The filter `removeIngredient(item)` applies: keep every entry other than `item`. */
  function Other(item: string): string -> bool
  {
    (x: string) => x != item
  }

  /** Appending a non-empty, trimmed entry not yet listed keeps the chip list well formed. */
  lemma AddKeepsChipList(items: seq<string>, entry: string)
    requires ChipList(items)
    requires entry != "" && Trimmed(entry) && entry !in items
    ensures ChipList(items + [entry])
  {
    var r := items + [entry];
    forall i, j | 0 <= i < j < |r| ensures r[i] != r[j] {
      if j == |items| {
        assert r[i] == items[i];
      }
    }
  }

  /** Removing an absent item leaves the list as it was. */
  lemma RemoveAbsent(items: seq<string>, item: string)
    requires item !in items
    ensures Filter(items, Other(item)) == items
  {
    FilterKeepsAll(items, Other(item));
  }

  /** Removing an item keeps a well-formed chip list well formed. */
  lemma RemoveKeepsChipList(items: seq<string>, item: string)
    requires ChipList(items)
    ensures ChipList(Filter(items, Other(item)))
  {
    FilterNoDuplicates(items, Other(item));
  }

  class ChipInput {
    var input: string
    var ingredients: seq<string>

    ghost predicate Valid()
      reads this
    {
      ChipList(ingredients)
    }

    /** The home page starts with nothing typed and no ingredients. */
    constructor ()
      ensures Valid() && input == "" && ingredients == []
    {
      input, ingredients := "", [];
    }

    /** The text field's `onChange`. */
    method SetInput(value: string)
      requires Valid()
      modifies this`input
      ensures Valid()
      ensures input == value
    {
      input := value;
    }

    /** The Add button is disabled exactly when the typed text is only white space. */
    function AddDisabled(): (disabled: bool)
      reads this
      ensures disabled <==> AllSpace(input)
    {
      TrimEmptyIff(input);
      Trim(input) == ""
    }

    /**
     * `addIngredient`: appends the trimmed text and clears the field when that
     * text is not empty and not listed yet; otherwise changes nothing.
     */
    method AddIngredient()
      requires Valid()
      modifies this
      ensures Valid()
      ensures var t := Trim(old(input));
        if t != "" && t !in old(ingredients) then ingredients == old(ingredients) + [t] && input == ""
        else ingredients == old(ingredients) && input == old(input)
    {
      var t := Trim(input);
      if t != "" && t !in ingredients {
        AddKeepsChipList(ingredients, t);
        ingredients := ingredients + [t];
        input := "";
      }
    }

    /** `handleKeyPress`: Enter adds like the button; any other key does nothing. */
    method HandleKeyPress(key: string)
      requires Valid()
      modifies this
      ensures Valid()
      ensures key == "Enter" ==>
        var t := Trim(old(input));
        if t != "" && t !in old(ingredients) then ingredients == old(ingredients) + [t] && input == ""
        else ingredients == old(ingredients) && input == old(input)
      ensures key != "Enter" ==> ingredients == old(ingredients) && input == old(input)
    {
      if key == "Enter" {
        AddIngredient();
      }
    }

    /** `removeIngredient(item)`: drops every entry equal to `item`, the others keep their order. */
    method RemoveIngredient(item: string)
      requires Valid()
      modifies this`ingredients
      ensures Valid()
      ensures ingredients == Filter(old(ingredients), Other(item))
      ensures item !in ingredients
      ensures forall x :: x in ingredients <==> x in old(ingredients) && x != item
    {
      RemoveKeepsChipList(ingredients, item);
      ingredients := Filter(ingredients, Other(item));
    }

    /** `clearAll`: the list becomes empty; the typed text stays. */
    method ClearAll()
      modifies this`ingredients
      ensures Valid()
      ensures ingredients == []
    {
      ingredients := [];
    }
  }
}
