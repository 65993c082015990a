/**
 * The data of Cookbook.py and the logic of its handlers that is not console
 * I/O: the `Ingredient` and `Recipe` classes, `Recipe.numberedSteps`, the
 * `isEmpty` helper, the choice between a name given as argument 1 and a
 * prompted one, and the find-or-create-and-add step of `newStockCommand`.
 * Every value the program reads with `input()` is a parameter here.
 */
module Cookbook {
  import opened Wrappers
  import opened Strings

  /** `isEmpty`: the text is blank once `strip()` has removed whitespace from both ends. */
  predicate IsEmpty(s: string)
    ensures IsEmpty(s) <==> AllSpace(s)
  {
    Strip(s) == []
  }

  /** An ingredient with an amount; handlers add to `amount` in place. */
  class Ingredient {
    const name: string
    const unit: string
    var amount: real

    constructor (name: string, unit: string, amount: real)
      ensures this.name == name && this.unit == unit && this.amount == amount
    {
      this.name := name;
      this.unit := unit;
      this.amount := amount;
    }
  }

  /** The value an ingredient object holds at one moment. */
  datatype Stocked = Stocked(name: string, unit: string, amount: real)

  /** A recipe: a name, its ingredients and its steps, never changed once built. */
  datatype Recipe = Recipe(name: string, ingredients: seq<Ingredient>, steps: seq<string>) {

    /** `numberedSteps`: one line `"{i + 1}. {step}\n"` per step, in order. */
    method NumberedSteps() returns (result: string)
      ensures result == StepList(steps)
    {
      result := "";
      for i := 0 to |steps|
        invariant result == StepList(steps[..i])
      {
        assert steps[..i + 1][..i] == steps[..i];
        result := result + StepLine(i + 1, steps[i]);
      }
      assert steps[..|steps|] == steps;
    }
  }

  /** The line for step number `n`, newline included. */
  function StepLine(n: nat, step: string): string
  {
    Decimal(n) + ". " + step + "\n"
  }

  /**
   * The numbered steps, the first one numbered 1. Every step ends with a
   * newline, so steps without newlines of their own give one line each.
   */
  function StepList(steps: seq<string>): (r: string)
    ensures steps == [] <==> r == []
    ensures steps != [] ==> r[|r| - 1] == '\n'
    ensures (forall k :: 0 <= k < |steps| ==> '\n' !in steps[k]) ==> Count(r, '\n') == |steps|
  {
    if steps == [] then ""
    else
      var n := |steps|;
      var init := StepList(steps[..n - 1]);
      var line := Decimal(n) + ". " + steps[n - 1];
      assert StepLine(n, steps[n - 1]) == line + "\n";
      CountConcat(init, line + "\n", '\n');
      CountConcat(line, "\n", '\n');
      CountAbsent(line, '\n');
      if '\n' !in steps[n - 1] then
        LineHasNoNewline(n, steps[n - 1]);
        init + StepLine(n, steps[n - 1])
      else
        init + StepLine(n, steps[n - 1])
  }

  /** The numbered lines, without their newlines. */
  function Lines(steps: seq<string>): seq<string>
  {
    seq(|steps|, k requires 0 <= k < |steps| => Decimal(k + 1) + ". " + steps[k])
  }

  /**
   * When no step holds a newline, the text splits on newlines into exactly
   * one line `"{k + 1}. {steps[k]}"` per step, followed by the empty text
   * after the final newline.
   */
  lemma StepListLines(steps: seq<string>)
    requires forall k :: 0 <= k < |steps| ==> '\n' !in steps[k]
    ensures Split(StepList(steps), '\n') == Lines(steps) + [""]
  {
    if steps != [] {
      var lines := Lines(steps);
      StepListJoin(steps);
      SplitTerminated(Join(lines, '\n'), '\n');
      LinesWithoutNewline(steps);
      SplitJoin(lines, '\n');
    }
  }

  lemma LinesWithoutNewline(steps: seq<string>)
    requires forall k :: 0 <= k < |steps| ==> '\n' !in steps[k]
    ensures forall k :: 0 <= k < |Lines(steps)| ==> '\n' !in Lines(steps)[k]
  {
    forall k | 0 <= k < |steps| ensures '\n' !in Lines(steps)[k] {
      LineHasNoNewline(k + 1, steps[k]);
    }
  }

  /** The numbered steps are their lines joined by newlines, with a final newline. */
  lemma {:induction false} StepListJoin(steps: seq<string>)
    requires steps != []
    ensures StepList(steps) == Join(Lines(steps), '\n') + ['\n']
  {
    var n := |steps|;
    var init := steps[..n - 1];
    var line := Decimal(n) + ". " + steps[n - 1];
    assert StepLine(n, steps[n - 1]) == line + ['\n'];
    assert Lines(steps) == Lines(init) + [line];
    if init == [] {
      assert Lines(steps) == [line];
    } else {
      StepListJoin(init);
      JoinAppend(Lines(init), [line], '\n');
      assert Join([line], '\n') == line;
    }
  }

  lemma LineHasNoNewline(n: nat, step: string)
    requires '\n' !in step
    ensures '\n' !in Decimal(n) + ". " + step
  {
    assert forall c :: c in Decimal(n) ==> '0' <= c <= '9';
  }

  /** Text ending in the separator splits into its fragments before it and one empty fragment. */
  lemma SplitTerminated(p: string, sep: char)
    ensures Split(p + [sep], sep) == Split(p, sep) + [""]
  {
    assert p + [sep] == p + [sep] + "";
    SplitConcat(p, "", sep);
  }

  /** The first entry named `name`, if any. */
  function FirstNamed(items: seq<Stocked>, name: string): (r: Option<nat>)
    ensures r.Some? ==> r.value < |items| && items[r.value].name == name
    ensures r.Some? ==> forall j :: 0 <= j < r.value ==> items[j].name != name
    ensures r.None? ==> forall j :: 0 <= j < |items| ==> items[j].name != name
  {
    if items == [] then None
    else if items[0].name == name then Some(0)
    else match FirstNamed(items[1..], name)
      case None => None
      case Some(k) => Some(k + 1)
  }

  /**
   * The stock after adding `amount` of `name`. An ingredient already in stock
   * is updated in place: the stock keeps its length, and only the first entry
   * of that name changes, by `amount`. A new ingredient is appended once, as
   * `(name, unit, amount)`.
   */
  function AddToStock(items: seq<Stocked>, name: string, unit: string, amount: real): (r: seq<Stocked>)
    ensures FirstNamed(items, name).Some? ==>
      var k := FirstNamed(items, name).value;
      && |r| == |items|
      && r[k] == Stocked(items[k].name, items[k].unit, items[k].amount + amount)
      && forall j :: 0 <= j < |items| && j != k ==> r[j] == items[j]
    ensures FirstNamed(items, name).None? ==> r == items + [Stocked(name, unit, amount)]
  {
    match FirstNamed(items, name)
    case Some(k) => items[k := items[k].(amount := items[k].amount + amount)]
    case None => items + [Stocked(name, unit, 0.0 + amount)]
  }

  /** How much of `name` the stock holds, over all its entries of that name. */
  function Total(items: seq<Stocked>, name: string): real
  {
    if items == [] then 0.0
    else Total(items[..|items| - 1], name)
         + (if items[|items| - 1].name == name then items[|items| - 1].amount else 0.0)
  }

  lemma {:induction false} TotalUpdate(items: seq<Stocked>, k: nat, v: Stocked, name: string)
    requires k < |items| && v.name == items[k].name
    ensures Total(items[k := v], name)
         == Total(items, name) + (if v.name == name then v.amount - items[k].amount else 0.0)
  {
    var n := |items|;
    var updated := items[k := v];
    if k < n - 1 {
      assert updated[..n - 1] == items[..n - 1][k := v];
      TotalUpdate(items[..n - 1], k, v, name);
    } else {
      assert updated[..n - 1] == items[..n - 1];
    }
  }

  /**
   * Adding stock raises the total of that ingredient by the amount added and
   * leaves the total of every other ingredient as it was.
   */
  lemma AddToStockTotal(items: seq<Stocked>, name: string, unit: string, amount: real, other: string)
    ensures Total(AddToStock(items, name, unit, amount), other)
         == Total(items, other) + (if other == name then amount else 0.0)
  {
    match FirstNamed(items, name)
    case Some(k) =>
      TotalUpdate(items, k, items[k].(amount := items[k].amount + amount), other);
    case None =>
      var r := items + [Stocked(name, unit, 0.0 + amount)];
      assert r[..|r| - 1] == items;
  }

  /** After an addition the stock always holds an entry of that name. */
  lemma AddToStockFinds(items: seq<Stocked>, name: string, unit: string, amount: real)
    ensures var r := AddToStock(items, name, unit, amount);
      FirstNamed(r, name) == Some(if FirstNamed(items, name).Some? then FirstNamed(items, name).value else |items|)
  {
    var r := AddToStock(items, name, unit, amount);
    match FirstNamed(items, name)
    case Some(k) =>
      FirstNamedAt(r, name, k);
    case None =>
      FirstNamedAt(r, name, |items|);
  }

  lemma FirstNamedAt(items: seq<Stocked>, name: string, k: nat)
    requires k < |items| && items[k].name == name
    requires forall j :: 0 <= j < k ==> items[j].name != name
    ensures FirstNamed(items, name) == Some(k)
  {
  }

  /** Two additions to the same ingredient amount to one addition of their sum. */
  lemma AddToStockTwice(items: seq<Stocked>, name: string, unit: string, unit2: string, a: real, b: real)
    ensures AddToStock(AddToStock(items, name, unit, a), name, unit2, b) == AddToStock(items, name, unit, a + b)
  {
    AddToStockFinds(items, name, unit, a);
  }

  /**
   * The index of the first answer that is not blank, or nothing when every
   * answer given is blank.
   */
  function FirstNonBlank(answers: seq<string>): (r: Option<nat>)
    ensures r.Some? ==> r.value < |answers| && !IsEmpty(answers[r.value])
    ensures r.Some? ==> forall j :: 0 <= j < r.value ==> IsEmpty(answers[j])
    ensures r.None? ==> forall j :: 0 <= j < |answers| ==> IsEmpty(answers[j])
  {
    if answers == [] then None
    else if !IsEmpty(answers[0]) then Some(0)
    else match FirstNonBlank(answers[1..])
      case None => None
      case Some(k) => Some(k + 1)
  }

  /**
   * The name `newRecipeCommand` and `newStockCommand` work with, given the
   * answers typed at the name prompt: argument 1 when it is there and not
   * blank, otherwise the first answer that is not blank. `None` stands for
   * the input ending before such an answer, where `input()` raises `EOFError`.
   */
  function ChosenName(args: seq<string>, answers: seq<string>): (name: Option<string>)
    ensures name.Some? ==> !IsEmpty(name.value)
    ensures |args| >= 2 && !IsEmpty(args[1]) ==> name == Some(args[1])
    ensures (|args| < 2 || IsEmpty(args[1])) && name.Some? ==>
      exists k :: 0 <= k < |answers| && answers[k] == name.value
                  && forall j :: 0 <= j < k ==> IsEmpty(answers[j])
    ensures (|args| < 2 || IsEmpty(args[1])) && name.None? ==>
      forall j :: 0 <= j < |answers| ==> IsEmpty(answers[j])
  {
    if |args| >= 2 && !IsEmpty(args[1]) then Some(args[1])
    else match FirstNonBlank(answers)
      case Some(k) => Some(answers[k])
      case None => None
  }

  /**
   * The name step of both handlers: argument 1 when it is not blank,
   * otherwise the name prompt, asked again after every blank answer.
   */
  method AskName(args: seq<string>, answers: seq<string>) returns (name: Option<string>)
    ensures name == ChosenName(args, answers)
  {
    if |args| >= 2 && !IsEmpty(args[1]) {
      return Some(args[1]);
    }
    var i := 0;
    while i < |answers|
      invariant i <= |answers|
      invariant forall j :: 0 <= j < i ==> IsEmpty(answers[j])
    {
      if !IsEmpty(answers[i]) {
        return Some(answers[i]);
      }
      i := i + 1;
    }
    return None;
  }

  /** The program's user data: its recipes and its stock of ingredient objects. */
  class UserData {
    var recipes: seq<Recipe>
    var stock: seq<Ingredient>

    /** Each ingredient object is in the stock once. */
    ghost predicate Valid()
      reads this
    {
      forall i, j :: 0 <= i < j < |stock| ==> stock[i] != stock[j]
    }

    /** The values of the stock's ingredients, in order. */
    ghost function Stock(): seq<Stocked>
      reads this, stock
    {
      seq(|stock|, k requires 0 <= k < |stock| reads this, stock =>
        Stocked(stock[k].name, stock[k].unit, stock[k].amount))
    }

    constructor ()
      ensures Valid() && recipes == [] && stock == []
    {
      recipes := [];
      stock := [];
    }

    /** The search loop of `newStockCommand`: the first ingredient named `name`. */
    method Find(name: string) returns (found: Option<nat>)
      ensures found == FirstNamed(Stock(), name)
    {
      var k := 0;
      while k < |stock|
        invariant 0 <= k <= |stock|
        invariant forall j :: 0 <= j < k ==> stock[j].name != name
      {
        if stock[k].name == name {
          FirstNamedAt(Stock(), name, k);
          return Some(k);
        }
        k := k + 1;
      }
      return None;
    }

    /**
     * `newRecipeCommand` with its prompts answered: the name from argument 1
     * or the name prompt, then the new recipe at the end of the list. When the
     * input ends before a name is given, nothing is created.
     */
    method NewRecipe(args: seq<string>, answers: seq<string>, ingredients: seq<Ingredient>, steps: seq<string>)
      returns (created: bool)
      modifies this
      ensures created <==> ChosenName(args, answers).Some?
      ensures recipes == old(recipes)
        + (if created then [Recipe(ChosenName(args, answers).value, ingredients, steps)] else [])
      ensures RecipeNames() == old(RecipeNames()) + (if created then [ChosenName(args, answers).value] else [])
      ensures stock == old(stock)
    {
      var name := AskName(args, answers);
      created := name.Some?;
      if created {
        recipes := recipes + [Recipe(name.value, ingredients, steps)];
      }
    }

    /** `recipesCommand`: the recipe names, in the order they were created. */
    function RecipeNames(): (names: seq<string>)
      reads this
      ensures |names| == |recipes|
      ensures forall k :: 0 <= k < |recipes| ==> names[k] == recipes[k].name
    {
      seq(|recipes|, k requires 0 <= k < |recipes| reads this => recipes[k].name)
    }

    /**
     * Steps 2 and 3 of `newStockCommand`: load the ingredient named `name`,
     * or create it with `unit` and amount 0 and append it, then add `amount`
     * to it in place.
     */
    method AddStock(name: string, unit: string, amount: real) returns (ingredient: Ingredient)
      requires Valid()
      modifies this, stock
      ensures Valid()
      ensures Stock() == AddToStock(old(Stock()), name, unit, amount)
      ensures recipes == old(recipes)
      ensures ingredient in stock && ingredient.name == name
    {
      var found := Find(name);
      var k: nat;
      match found {
        case Some(i) =>
          k := i;
        case None =>
          var created := new Ingredient(name, unit, 0.0);
          Append(created);
          k := |stock| - 1;
      }
      ingredient := stock[k];
      Increase(k, amount);
    }

    /** Appending a new ingredient object adds its value at the end of the stock. */
    method Append(ingredient: Ingredient)
      requires Valid() && ingredient !in stock
      modifies this
      ensures Valid() && stock == old(stock) + [ingredient] && recipes == old(recipes)
      ensures Stock() == old(Stock()) + [Stocked(ingredient.name, ingredient.unit, ingredient.amount)]
    {
      stock := stock + [ingredient];
    }

    /** `ingredient.amount += amount` on the ingredient at index `k`: only its amount changes. */
    method Increase(k: nat, amount: real)
      requires Valid() && k < |stock|
      modifies stock[k]
      ensures Stock() == old(Stock())[k := old(Stock())[k].(amount := old(Stock())[k].amount + amount)]
    {
      stock[k].amount := stock[k].amount + amount;
      assert forall j :: 0 <= j < |stock| && j != k ==> stock[j] != stock[k];
    }

    /**
     * `newStockCommand` with its prompts answered: the name from argument 1
     * or the name prompt, the unit for a new ingredient, and the amount to
     * add. When the input ends before a name is given, nothing changes.
     */
    method NewStockCommand(args: seq<string>, answers: seq<string>, unit: string, amount: real)
      returns (ingredient: Option<Ingredient>)
      requires Valid()
      modifies this, stock
      ensures Valid()
      ensures ingredient.Some? <==> ChosenName(args, answers).Some?
      ensures Stock() == if ingredient.Some?
        then AddToStock(old(Stock()), ChosenName(args, answers).value, unit, amount)
        else old(Stock())
      ensures recipes == old(recipes)
      ensures ingredient.Some? ==> ingredient.value in stock && ingredient.value.name == ChosenName(args, answers).value
    {
      var name := AskName(args, answers);
      if name.Some? {
        var added := AddStock(name.value, unit, amount);
        ingredient := Some(added);
      } else {
        ingredient := None;
      }
    }
  }
}
