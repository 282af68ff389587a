/** The pure part of the recipe client: turning the meal records a search
    returns into the records the recipe page shows, and combining the
    per-letter searches of `getAllRecipes`. The HTTP requests themselves are
    not modelled; their decoded `meals` fields are the inputs. */
module Recipes {
  import opened Wrappers
  import Text
  import Seqs

  /** The numbered ingredient/measure slots a meal record carries. */
  const SlotCount := 20

  /** The first letters `getAllRecipes` searches, in the order it searches them. */
  const Letters: seq<char> := ['a', 'b', 'c', 'd', 'e']

  /** How many recipes `getAllRecipes` keeps. */
  const ResultLimit := 50

  /** A meal record as the recipe API sends it. `ingredients[i - 1]` and
      `measures[i - 1]` are the fields `strIngredient<i>` and `strMeasure<i>`;
      `None` is a `null` field, and a slot past the end of the sequence is a
      field the record does not have. */
  datatype Recipe = Recipe(
    idMeal: string,
    strMeal: string,
    strCategory: string,
    strArea: string,
    strInstructions: string,
    strMealThumb: string,
    ingredients: seq<Option<string>>,
    measures: seq<Option<string>>)

  /** A recipe as the page shows it. */
  datatype ProcessedRecipe = ProcessedRecipe(
    id: string,
    name: string,
    category: string,
    area: string,
    instructions: string,
    image: string,
    ingredients: seq<string>)

  /* ---- getMapIngredients ---- */

  /** The value of numbered slot `i` (counting from 1). */
  function Slot(fields: seq<Option<string>>, i: int): Option<string> {
    if 1 <= i <= |fields| then fields[i - 1] else None
  }

  /** `x && x.trim()` is truthy: the field is there and not blank. */
  predicate Present(v: Option<string>) {
    v.Some? && Text.Trim(v.value) != []
  }

  /** Slot `i` yields an ingredient line. */
  predicate Contributes(r: Recipe, i: int) {
    Present(Slot(r.ingredients, i))
  }

  /** The line of a present ingredient: the trimmed measure, a space and the
      trimmed ingredient, or the trimmed ingredient alone when the measure is
      missing or blank. */
  function Line(ingredient: string, measure: Option<string>): string {
    if Present(measure) then Text.Trim(measure.value) + " " + Text.Trim(ingredient)
    else Text.Trim(ingredient)
  }

  /** The line slot `i` yields. */
  function Entry(r: Recipe, i: int): string
    requires Contributes(r, i)
  {
    Line(Slot(r.ingredients, i).value, Slot(r.measures, i))
  }

  /** A line ends with the trimmed ingredient, is longer than it exactly when
      the measure is present, and has no surrounding white space. */
  lemma EntryShape(r: Recipe, i: int)
    requires Contributes(r, i)
    ensures var e := Entry(r, i);
      var ingredient := Text.Trim(Slot(r.ingredients, i).value);
      && 0 < |ingredient| <= |e| && e[|e| - |ingredient|..] == ingredient
      && !Text.IsSpace(e[0]) && !Text.IsSpace(e[|e| - 1])
      && (Present(Slot(r.measures, i)) <==> |e| > |ingredient|)
  {
  }

  /** The numbers among 1 .. n - 1 that pass `p`, in increasing order. */
  function Selected(p: int -> bool, n: int): (s: seq<int>)
    requires 1 <= n
    ensures |s| < n
    ensures forall k :: 0 <= k < |s| ==> 1 <= s[k] < n && p(s[k])
    ensures forall i :: 1 <= i < n && p(i) ==> i in s
    ensures forall a, b :: 0 <= a < b < |s| ==> s[a] < s[b]
    decreases n
  {
    if n == 1 then []
    else Selected(p, n - 1) + (if p(n - 1) then [n - 1] else [])
  }

  function SlotTest(r: Recipe): int -> bool {
    i => Contributes(r, i)
  }

  /** The contributing slots among 1 .. n - 1, in increasing order. */
  function SlotsBelow(r: Recipe, n: int): (s: seq<int>)
    requires 1 <= n
    ensures |s| < n
    ensures forall k :: 0 <= k < |s| ==> 1 <= s[k] < n && Contributes(r, s[k])
    ensures forall i :: 1 <= i < n && Contributes(r, i) ==> i in s
    ensures forall a, b :: 0 <= a < b < |s| ==> s[a] < s[b]
  {
    Selected(SlotTest(r), n)
  }

  /** Every slot `getMapIngredients` looks at that yields a line. */
  function ContributingSlots(r: Recipe): seq<int> {
    SlotsBelow(r, SlotCount + 1)
  }

  /** The line of each slot of `slots`, in order. */
  function LinesOf(r: Recipe, slots: seq<int>): seq<string>
    requires forall k :: 0 <= k < |slots| ==> Contributes(r, slots[k])
  {
    seq(|slots|, k requires 0 <= k < |slots| => Entry(r, slots[k]))
  }

  /** `getMapIngredients`, as a function of the record: the line of every
      contributing slot, in slot order. */
  function MapIngredients(r: Recipe): seq<string> {
    LinesOf(r, ContributingSlots(r))
  }

  lemma LinesExtend(r: Recipe, slots: seq<int>, i: int)
    requires forall k :: 0 <= k < |slots| ==> Contributes(r, slots[k])
    requires Contributes(r, i)
    ensures LinesOf(r, slots + [i]) == LinesOf(r, slots) + [Entry(r, i)]
  {
  }

  /** `getMapIngredients`: the loop over slots 1 to 20. */
  method GetMapIngredients(r: Recipe) returns (out: seq<string>)
    ensures out == MapIngredients(r)
    ensures |out| <= SlotCount
  {
    out := [];
    var i := 1;
    while i <= SlotCount
      invariant 1 <= i <= SlotCount + 1
      invariant out == LinesOf(r, SlotsBelow(r, i))
    {
      var ingredient := Slot(r.ingredients, i);
      var measure := Slot(r.measures, i);
      SlotsStep(r, i);
      if Present(ingredient) {
        var line := Line(ingredient.value, measure);
        LinesExtend(r, SlotsBelow(r, i), i);
        out := out + [line];
      }
      i := i + 1;
    }
  }

  /** One line per contributing slot, so at most twenty, in slot order. */
  lemma MapIngredientsShape(r: Recipe)
    ensures |MapIngredients(r)| == |ContributingSlots(r)| <= SlotCount
    ensures forall k :: 0 <= k < |MapIngredients(r)| ==> MapIngredients(r)[k] == Entry(r, ContributingSlots(r)[k])
  {
  }

  lemma SlotsStep(r: Recipe, i: int)
    requires 1 <= i
    ensures SlotsBelow(r, i + 1) == SlotsBelow(r, i) + (if Contributes(r, i) then [i] else [])
  {
    assert SlotTest(r)(i) == Contributes(r, i);
  }

  /** A slot yields a line exactly when its ingredient is not blank after
      trimming; the measure alone never does. */
  lemma SlotContributesIff(r: Recipe, i: int)
    requires 1 <= i <= SlotCount
    ensures i in ContributingSlots(r) <==>
      i <= |r.ingredients| && r.ingredients[i - 1].Some? && !Text.IsBlank(r.ingredients[i - 1].value)
  {
  }

  /** A record has no ingredient lines exactly when each of its first twenty
      ingredient fields is missing or blank. */
  lemma NoLinesIff(r: Recipe)
    ensures MapIngredients(r) == [] <==>
      forall i :: 0 <= i < |r.ingredients| && i < SlotCount ==>
        r.ingredients[i].None? || Text.IsBlank(r.ingredients[i].value)
  {
    var slots := ContributingSlots(r);
    assert |MapIngredients(r)| == |slots|;
    if slots == [] {
      forall i | 0 <= i < |r.ingredients| && i < SlotCount
        ensures r.ingredients[i].None? || Text.IsBlank(r.ingredients[i].value)
      {
        SlotContributesIff(r, i + 1);
      }
    } else {
      SlotContributesIff(r, slots[0]);
    }
  }

  /** Slots after the twentieth are never read. */
  lemma LaterSlotsIgnored(r: Recipe, extra: seq<Option<string>>, extraMeasures: seq<Option<string>>)
    requires |r.ingredients| == SlotCount && |r.measures| == SlotCount
    ensures MapIngredients(r.(ingredients := r.ingredients + extra, measures := r.measures + extraMeasures))
         == MapIngredients(r)
  {
    var r' := r.(ingredients := r.ingredients + extra, measures := r.measures + extraMeasures);
    SameSlots(r, r', SlotCount + 1);
    var a := MapIngredients(r);
    var b := MapIngredients(r');
    forall k | 0 <= k < |a| ensures a[k] == b[k] {
      var i := ContributingSlots(r)[k];
      assert Slot(r.ingredients, i) == Slot(r'.ingredients, i);
      assert Slot(r.measures, i) == Slot(r'.measures, i);
    }
  }

  /** Records that agree on slots 1 .. n - 1 have the same contributing slots there. */
  lemma SameSlots(r: Recipe, r': Recipe, n: int)
    requires 1 <= n
    requires forall i :: 1 <= i < n ==> Slot(r.ingredients, i) == Slot(r'.ingredients, i)
    ensures SlotsBelow(r, n) == SlotsBelow(r', n)
  {
    forall i | 1 <= i < n ensures SlotTest(r)(i) == SlotTest(r')(i) {
      assert Contributes(r, i) == Contributes(r', i);
    }
    SameSelection(SlotTest(r), SlotTest(r'), n);
  }

  lemma {:induction false} SameSelection(p: int -> bool, q: int -> bool, n: int)
    requires 1 <= n
    requires forall i :: 1 <= i < n ==> p(i) == q(i)
    ensures Selected(p, n) == Selected(q, n)
    decreases n
  {
    if n > 1 {
      SameSelection(p, q, n - 1);
    }
  }

  /* ---- formatRecipes ---- */

  /** One record of `formatRecipes`. */
  function FormatRecipe(r: Recipe): ProcessedRecipe {
    ProcessedRecipe(r.idMeal, r.strMeal, r.strCategory, r.strArea, r.strInstructions,
                    r.strMealThumb, MapIngredients(r))
  }

  /** `formatRecipes`: one processed record per meal, in the same order. */
  function FormatRecipes(rs: seq<Recipe>): (ps: seq<ProcessedRecipe>)
    ensures |ps| == |rs|
    ensures forall i :: 0 <= i < |rs| ==>
      && ps[i].id == rs[i].idMeal
      && ps[i].name == rs[i].strMeal
      && ps[i].category == rs[i].strCategory
      && ps[i].area == rs[i].strArea
      && ps[i].instructions == rs[i].strInstructions
      && ps[i].image == rs[i].strMealThumb
      && ps[i].ingredients == MapIngredients(rs[i])
  {
    seq(|rs|, i requires 0 <= i < |rs| => FormatRecipe(rs[i]))
  }

  /** Formatting works record by record, so it distributes over concatenation. */
  lemma FormatConcat(a: seq<Recipe>, b: seq<Recipe>)
    ensures FormatRecipes(a + b) == FormatRecipes(a) + FormatRecipes(b)
  {
  }

  /** Formatting the first `n` records is the first `n` formatted records. */
  lemma FormatTake(rs: seq<Recipe>, n: nat)
    ensures FormatRecipes(Seqs.Take(rs, n)) == Seqs.Take(FormatRecipes(rs), n)
  {
  }

  /** The meals of one response, `[]` for a `null` field. */
  function MealsOf(meals: Option<seq<Recipe>>): seq<Recipe> {
    meals.GetOr([])
  }

  /** The records of one search response, by name or by first letter:
      `formatRecipes(data.meals || [])`. */
  function FromResponse(meals: Option<seq<Recipe>>): (ps: seq<ProcessedRecipe>)
    ensures meals.None? ==> ps == []
    ensures meals.Some? ==> ps == FormatRecipes(meals.value)
  {
    FormatRecipes(MealsOf(meals))
  }

  /* ---- getAllRecipes ---- */

  /** The processed records of the five responses, in letter order. */
  function InLetterOrder(pages: seq<Option<seq<Recipe>>>): seq<ProcessedRecipe>
    requires |pages| == |Letters|
  {
    FromResponse(pages[0]) + FromResponse(pages[1]) + FromResponse(pages[2])
    + FromResponse(pages[3]) + FromResponse(pages[4])
  }

  /** `getAllRecipes`, given the responses of the searches for a, b, c, d and
      e in that order: the per-letter results flattened and cut by
      `slice(0, 50)`. The result is the first fifty of the five results in
      letter order, or all of them when there are fewer. */
  function GetAllRecipes(pages: seq<Option<seq<Recipe>>>): (ps: seq<ProcessedRecipe>)
    requires |pages| == |Letters|
    ensures ps <= InLetterOrder(pages)
    ensures |ps| == if |InLetterOrder(pages)| < ResultLimit then |InLetterOrder(pages)| else ResultLimit
  {
    var results := seq(|pages|, i requires 0 <= i < |pages| => FromResponse(pages[i]));
    FlattenFive(results);
    Seqs.Take(Seqs.Flatten(results), ResultLimit)
  }

  lemma FlattenFive<T(!new)>(ss: seq<seq<T>>)
    requires |ss| == 5
    ensures Seqs.Flatten(ss) == ss[0] + ss[1] + ss[2] + ss[3] + ss[4]
  {
    assert ss[4..][1..] == [];
    assert Seqs.Flatten(ss[4..]) == ss[4];
    assert Seqs.Flatten(ss[3..]) == ss[3] + ss[4] by { assert ss[3..][1..] == ss[4..]; }
    assert Seqs.Flatten(ss[2..]) == ss[2] + (ss[3] + ss[4]) by { assert ss[2..][1..] == ss[3..]; }
    assert Seqs.Flatten(ss[1..]) == ss[1] + (ss[2] + ss[3] + ss[4]) by { assert ss[1..][1..] == ss[2..]; }
  }

  /** Formatting and truncating commute: the combined list is the first
      fifty of all meals of the five responses, each formatted. */
  lemma AllRecipesAreFirstFifty(pages: seq<Option<seq<Recipe>>>)
    requires |pages| == |Letters|
    ensures GetAllRecipes(pages) == FormatRecipes(Seqs.Take(
      MealsOf(pages[0]) + MealsOf(pages[1]) + MealsOf(pages[2]) + MealsOf(pages[3]) + MealsOf(pages[4]),
      ResultLimit))
  {
    var all := MealsOf(pages[0]) + MealsOf(pages[1]) + MealsOf(pages[2]) + MealsOf(pages[3]) + MealsOf(pages[4]);
    FormatConcat(MealsOf(pages[0]), MealsOf(pages[1]));
    FormatConcat(MealsOf(pages[0]) + MealsOf(pages[1]), MealsOf(pages[2]));
    FormatConcat(MealsOf(pages[0]) + MealsOf(pages[1]) + MealsOf(pages[2]), MealsOf(pages[3]));
    FormatConcat(MealsOf(pages[0]) + MealsOf(pages[1]) + MealsOf(pages[2]) + MealsOf(pages[3]), MealsOf(pages[4]));
    FormatTake(all, ResultLimit);
  }

  /** Once the search for a returns fifty or more meals, the other four
      searches do not change the result. */
  lemma FirstLetterFillsResult(pages: seq<Option<seq<Recipe>>>, other: seq<Option<seq<Recipe>>>)
    requires |pages| == |Letters| && |other| == |Letters|
    requires other[0] == pages[0]
    requires |MealsOf(pages[0])| >= ResultLimit
    ensures GetAllRecipes(pages) == GetAllRecipes(other)
    ensures GetAllRecipes(pages) == FormatRecipes(MealsOf(pages[0])[..ResultLimit])
  {
    var first := FromResponse(pages[0]);
    var a := GetAllRecipes(pages);
    var b := GetAllRecipes(other);
    assert |first| >= ResultLimit;
    assert a == first[..ResultLimit];
    assert b == first[..ResultLimit];
  }
}
