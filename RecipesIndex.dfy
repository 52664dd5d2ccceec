/**
 * The recipe list page: the tag and effort filters, their toggles, the
 * quick-filter buttons and the image-loaded flags on the cards.
 */
module RecipesIndex {
  import opened JsText
  import opened Lists
  import opened Choices

  /** A card of the list; a recipe's tag and effort links may be missing. */
  datatype RecipePreview = RecipePreview(
    id: string,
    title: string,
    imageLoaded: bool,
    tagIds: Option<seq<string>>,
    effortIds: Option<seq<string>>)

  /** `links?.some(l => selected.includes(l))`: false when the links are missing. */
  predicate SomeSelected(links: Option<seq<string>>, selected: seq<string>) {
    links.Some? && exists k :: 0 <= k < |links.value| && links.value[k] in selected
  }

  function TagTest(tags: seq<string>): RecipePreview -> bool {
    (r: RecipePreview) => SomeSelected(r.tagIds, tags)
  }

  function EffortTest(efforts: seq<string>): RecipePreview -> bool {
    (r: RecipePreview) => SomeSelected(r.effortIds, efforts)
  }

  /** `applyFilters`: the tag filter when tags are selected, then the effort filter when efforts are. */
  function ApplyFilters(recipes: seq<RecipePreview>, tags: seq<string>, efforts: seq<string>): seq<RecipePreview> {
    var byTag := if |tags| > 0 then Filter(recipes, TagTest(tags)) else recipes;
    if |efforts| > 0 then Filter(byTag, EffortTest(efforts)) else byTag
  }

  /**
   * Whether a recipe passes: some tag selected when tags are selected (any
   * of them will do), and likewise for efforts, both kinds at once.
   */
  predicate Passes(r: RecipePreview, tags: seq<string>, efforts: seq<string>) {
    && (|tags| == 0 || SomeSelected(r.tagIds, tags))
    && (|efforts| == 0 || SomeSelected(r.effortIds, efforts))
  }

  /**
   * The filtered list keeps the passing recipes in their order and drops
   * the others; with nothing selected it is the whole list.
   */
  lemma FiltersKeepOrder(recipes: seq<RecipePreview>, tags: seq<string>, efforts: seq<string>)
    ensures IsSubsequence(ApplyFilters(recipes, tags, efforts), recipes)
    ensures forall r :: r in ApplyFilters(recipes, tags, efforts) <==> r in recipes && Passes(r, tags, efforts)
    ensures |tags| == 0 && |efforts| == 0 ==> ApplyFilters(recipes, tags, efforts) == recipes
  {
    var byTag := if |tags| > 0 then Filter(recipes, TagTest(tags)) else recipes;
    if |tags| > 0 {
      FilterSubsequence(recipes, TagTest(tags));
    } else {
      SubsequenceRefl(recipes);
    }
    if |efforts| > 0 {
      FilterSubsequence(byTag, EffortTest(efforts));
      SubsequenceTrans(Filter(byTag, EffortTest(efforts)), byTag, recipes);
    }
    forall r ensures r in ApplyFilters(recipes, tags, efforts) <==> r in recipes && Passes(r, tags, efforts) {
      if |tags| > 0 {
        FilterMembers(recipes, TagTest(tags), r);
      }
      if |efforts| > 0 {
        FilterMembers(byTag, EffortTest(efforts), r);
      }
    }
  }

  /** `allTags.find(t => t.name.toLowerCase() === name.toLowerCase())`. */
  function FindByName(all: seq<Choice>, name: string): (r: Option<Choice>)
    ensures r.Some? ==> r.value in all && Lower(r.value.name) == Lower(name)
    ensures r.None? <==> forall t :: t in all ==> Lower(t.name) != Lower(name)
  {
    if |all| == 0 then None
    else if Lower(all[0].name) == Lower(name) then Some(all[0])
    else FindByName(all[1..], name)
  }

  /** The tag found is the first one whose name matches. */
  lemma {:induction false} FindByNameFirst(all: seq<Choice>, name: string)
    requires FindByName(all, name).Some?
    ensures exists k :: 0 <= k < |all| && all[k] == FindByName(all, name).value &&
                        forall j :: 0 <= j < k ==> Lower(all[j].name) != Lower(name)
  {
    if Lower(all[0].name) != Lower(name) {
      FindByNameFirst(all[1..], name);
      var k :| 0 <= k < |all[1..]| && all[1..][k] == FindByName(all, name).value &&
               forall j :: 0 <= j < k ==> Lower(all[1..][j].name) != Lower(name);
      assert all[k + 1] == FindByName(all, name).value;
      forall j | 0 <= j < k + 1 ensures Lower(all[j].name) != Lower(name) {
        if j > 0 { assert all[j] == all[1..][j - 1]; }
      }
    } else {
      assert all[0] == FindByName(all, name).value;
    }
  }

  /** A quick-filter button is lit while the tag of its name is selected. */
  predicate QuickFilterActive(all: seq<Choice>, selected: seq<string>, name: string) {
    var tag := FindByName(all, name);
    tag.Some? && tag.value.id in selected
  }

  /**
   * Pressing a quick filter whose tag exists turns its button from lit to
   * unlit or back, and leaves every button of another tag as it was; a
   * button without a tag is never lit.
   */
  lemma PresetFlipsButton(all: seq<Choice>, selected: seq<string>, name: string, other: string)
    ensures FindByName(all, name).None? ==> !QuickFilterActive(all, selected, name)
    ensures FindByName(all, name).Some? ==>
      var flipped := Toggle(selected, FindByName(all, name).value.id);
      && QuickFilterActive(all, flipped, name) == !QuickFilterActive(all, selected, name)
      && (FindByName(all, other).Some? && FindByName(all, other).value.id != FindByName(all, name).value.id ==>
            QuickFilterActive(all, flipped, other) == QuickFilterActive(all, selected, other))
  {
    if FindByName(all, name).Some? {
      ToggleMembers(selected, FindByName(all, name).value.id);
    }
  }

  /** The card `r` with its image marked as not yet loaded. */
  function Unloaded(r: RecipePreview): RecipePreview {
    r.(imageLoaded := false)
  }

  /** The same cards in the same order, whatever their images' loaded flags. */
  predicate SameCards(a: seq<RecipePreview>, b: seq<RecipePreview>) {
    |a| == |b| && forall k :: 0 <= k < |a| ==> Unloaded(a[k]) == Unloaded(b[k])
  }

  /** The image-load handler: the card with the matching id is marked loaded. */
  function MarkLoaded(rs: seq<RecipePreview>, id: string): seq<RecipePreview> {
    seq(|rs|, k requires 0 <= k < |rs| => if rs[k].id == id then rs[k].(imageLoaded := true) else rs[k])
  }

  /**
   * Marking an image loaded sets the flag on the cards with that id alone;
   * every card, the order and every other flag stay as they were.
   */
  lemma MarkLoadedOnly(rs: seq<RecipePreview>, id: string)
    ensures SameCards(MarkLoaded(rs, id), rs)
    ensures forall k :: 0 <= k < |rs| ==>
      MarkLoaded(rs, id)[k].imageLoaded == (rs[k].imageLoaded || rs[k].id == id)
  {
  }

  /** The page's state once the recipes and the filter choices have loaded. */
  class RecipesIndexPage {
    var recipes: seq<RecipePreview>
    var filteredRecipes: seq<RecipePreview>
    var selectedTags: seq<string>
    var selectedEfforts: seq<string>
    var allTags: seq<Choice>

    /** The cards shown are the filtered recipes, up to which images have loaded. */
    ghost predicate Valid()
      reads this
    {
      SameCards(filteredRecipes, ApplyFilters(recipes, selectedTags, selectedEfforts))
    }

    predicate HasActiveFilters()
      reads this
    {
      |selectedTags| > 0 || |selectedEfforts| > 0
    }

    /** The state after `fetchRecipes` and `loadFilters` have answered. */
    constructor (recipes: seq<RecipePreview>, allTags: seq<Choice>)
      ensures this.recipes == recipes && this.allTags == allTags
      ensures filteredRecipes == recipes && selectedTags == [] && selectedEfforts == []
      ensures Valid() && !HasActiveFilters()
    {
      this.recipes := recipes;
      this.allTags := allTags;
      filteredRecipes := recipes;
      selectedTags := [];
      selectedEfforts := [];
    }

    /** The effect that recomputes the list whenever the recipes or a selection change. */
    method Refilter()
      modifies this
      ensures filteredRecipes == ApplyFilters(recipes, selectedTags, selectedEfforts)
      ensures recipes == old(recipes) && selectedTags == old(selectedTags)
      ensures selectedEfforts == old(selectedEfforts) && allTags == old(allTags)
      ensures Valid()
    {
      filteredRecipes := ApplyFilters(recipes, selectedTags, selectedEfforts);
    }

    method ToggleTag(id: string)
      modifies this
      ensures selectedTags == Toggle(old(selectedTags), id)
      ensures selectedEfforts == old(selectedEfforts) && recipes == old(recipes) && allTags == old(allTags)
      ensures filteredRecipes == ApplyFilters(recipes, selectedTags, selectedEfforts)
      ensures Valid()
    {
      selectedTags := Toggle(selectedTags, id);
      Refilter();
    }

    method ToggleEffort(id: string)
      modifies this
      ensures selectedEfforts == Toggle(old(selectedEfforts), id)
      ensures selectedTags == old(selectedTags) && recipes == old(recipes) && allTags == old(allTags)
      ensures filteredRecipes == ApplyFilters(recipes, selectedTags, selectedEfforts)
      ensures Valid()
    {
      selectedEfforts := Toggle(selectedEfforts, id);
      Refilter();
    }

    /**
     * A quick-filter button: the tag of that name, compared case-blind,
     * is toggled and the effort selection emptied; no such tag, no change.
     */
    method SetPresetFilter(name: string)
      requires Valid()
      modifies this
      ensures recipes == old(recipes) && allTags == old(allTags)
      ensures FindByName(allTags, name).None? ==>
        && selectedTags == old(selectedTags) && selectedEfforts == old(selectedEfforts)
        && filteredRecipes == old(filteredRecipes)
      ensures FindByName(allTags, name).Some? ==>
        && selectedTags == Toggle(old(selectedTags), FindByName(allTags, name).value.id)
        && selectedEfforts == []
        && filteredRecipes == ApplyFilters(recipes, selectedTags, selectedEfforts)
      ensures Valid()
    {
      var tag := FindByName(allTags, name);
      if tag.Some? {
        selectedTags := Toggle(selectedTags, tag.value.id);
        selectedEfforts := [];
        Refilter();
      }
    }

    /** Clearing the filters empties both selections and shows every recipe again. */
    method ClearFilters()
      modifies this
      ensures selectedTags == [] && selectedEfforts == []
      ensures recipes == old(recipes) && allTags == old(allTags)
      ensures filteredRecipes == recipes
      ensures !HasActiveFilters() && Valid()
    {
      selectedTags := [];
      selectedEfforts := [];
      Refilter();
      FiltersKeepOrder(recipes, [], []);
    }

    /** A card's image finished loading. */
    method ImageLoaded(id: string)
      requires Valid()
      modifies this
      ensures filteredRecipes == MarkLoaded(old(filteredRecipes), id)
      ensures recipes == old(recipes) && selectedTags == old(selectedTags)
      ensures selectedEfforts == old(selectedEfforts) && allTags == old(allTags)
      ensures Valid()
    {
      MarkLoadedOnly(filteredRecipes, id);
      filteredRecipes := MarkLoaded(filteredRecipes, id);
    }
  }
}
