/**
 * The public menu page: its state (the two fetched item lists and the
 * loading flag), the load that settles that state from the two backend
 * queries, and the render that groups each list by category once loading
 * is over.
 */
module Menu {
  import opened Wrappers
  import opened Backend
  import opened Grouping

  /** A row of the beverage table. Prices are kept as the numbers the backend returns. */
  datatype AlcoholItem = AlcoholItem(
    id: string,
    name: string,
    category: string,
    brand: string,
    price30ml: real,
    price60ml: real,
    price90ml: real,
    price180ml: real,
    priceBottle: real,
    available: bool)

  /** A row of the food table. */
  datatype FoodItem = FoodItem(
    id: string,
    name: string,
    category: string,
    description: string,
    price: real,
    vegetarian: bool,
    available: bool)

  function AlcoholCategory(item: AlcoholItem): (c: string) { item.category }

  function FoodCategory(item: FoodItem): (c: string) { item.category }

  const LoadFailedToast: string := "Failed to load menu"

  /** What the page shows: the loading spinner, or both menus grouped by category. */
  datatype MenuView =
    | Spinner
    | Body(beverages: Groups<AlcoholItem>, food: Groups<FoodItem>)

  /** The backend's side of the query contract: only rows with `available = true` come back. */
  ghost predicate ServesAvailableAlcohol(res: Response<seq<AlcoholItem>>)
  {
    res.data.Some? ==> forall i :: 0 <= i < |res.data.value| ==> res.data.value[i].available
  }

  ghost predicate ServesAvailableFood(res: Response<seq<FoodItem>>)
  {
    res.data.Some? ==> forall i :: 0 <= i < |res.data.value| ==> res.data.value[i].available
  }

  class MenuPage {
    var alcoholItems: seq<AlcoholItem>
    var foodItems: seq<FoodItem>
    var loading: bool

    /** Every record the page holds is available. */
    ghost predicate Valid()
      reads this
    {
      && (forall i :: 0 <= i < |alcoholItems| ==> alcoholItems[i].available)
      && (forall i :: 0 <= i < |foodItems| ==> foodItems[i].available)
    }

    /** The state hooks' initial values: two empty lists, loading. */
    constructor ()
      ensures Valid()
      ensures alcoholItems == [] && foodItems == [] && loading
    {
      alcoholItems := [];
      foodItems := [];
      loading := true;
    }

    /**
     * Settles the page from the two query results. Both error fields are
     * checked before either list is assigned, so a failure leaves both
     * lists as they were and raises the failure toast; `loading` is cleared
     * on both paths.
     */
    method FetchMenuData(alcoholRes: Response<seq<AlcoholItem>>, foodRes: Response<seq<FoodItem>>)
      returns (toast: Option<string>)
      requires Valid()
      requires ServesAvailableAlcohol(alcoholRes) && ServesAvailableFood(foodRes)
      modifies this
      ensures Valid() && !loading
      ensures alcoholRes.error.Some? || foodRes.error.Some? ==>
                && alcoholItems == old(alcoholItems)
                && foodItems == old(foodItems)
                && toast == Some(LoadFailedToast)
      // `data || []`: a null payload becomes the empty list, a present one is taken as is
      ensures alcoholRes.error.None? && foodRes.error.None? ==>
                && (alcoholRes.data.None? ==> alcoholItems == [])
                && (alcoholRes.data.Some? ==> alcoholItems == alcoholRes.data.value)
                && (foodRes.data.None? ==> foodItems == [])
                && (foodRes.data.Some? ==> foodItems == foodRes.data.value)
                && toast == None
    {
      var thrown := false;
      // try
      if alcoholRes.error.Some? {
        thrown := true;
      } else if foodRes.error.Some? {
        thrown := true;
      } else {
        alcoholItems := OrEmpty(alcoholRes.data);
        foodItems := OrEmpty(foodRes.data);
      }
      // catch
      toast := if thrown then Some(LoadFailedToast) else None;
      // finally
      loading := false;
    }

    /**
     * Groups both lists, then shows the spinner while loading and the two
     * grouped menus otherwise. Every record in every bucket is available.
     */
    method Render() returns (view: MenuView)
      requires Valid()
      ensures view.Spinner? <==> loading
      ensures view.Body? ==>
                && view.beverages.buckets == Grouped(alcoholItems, AlcoholCategory)
                && view.beverages.keys == FirstSeen(alcoholItems, AlcoholCategory)
                && view.food.buckets == Grouped(foodItems, FoodCategory)
                && view.food.keys == FirstSeen(foodItems, FoodCategory)
      ensures view.Body? ==>
                && (forall c, k | c in view.beverages.buckets && 0 <= k < |view.beverages.buckets[c]| ::
                      view.beverages.buckets[c][k].available)
                && (forall c, k | c in view.food.buckets && 0 <= k < |view.food.buckets[c]| ::
                      view.food.buckets[c][k].available)
    {
      var beverages := GroupByCategory(alcoholItems, AlcoholCategory);
      var food := GroupByCategory(foodItems, FoodCategory);
      if loading {
        view := Spinner;
      } else {
        view := Body(beverages, food);
        forall c | c in beverages.buckets
          ensures forall k | 0 <= k < |beverages.buckets[c]| :: beverages.buckets[c][k].available
        {
          BucketDrawnFromInput(alcoholItems, AlcoholCategory, c);
        }
        forall c | c in food.buckets
          ensures forall k | 0 <= k < |food.buckets[c]| :: food.buckets[c][k].available
        {
          BucketDrawnFromInput(foodItems, FoodCategory, c);
        }
      }
    }
  }

  /**
   * The page's lifetime: created loading, rendered once (spinner), loaded,
   * rendered again. A failed query never yields a partial menu: the second
   * render shows two empty menus.
   */
  method MountMenu(alcoholRes: Response<seq<AlcoholItem>>, foodRes: Response<seq<FoodItem>>)
    returns (first: MenuView, toast: Option<string>, settled: MenuView)
    requires ServesAvailableAlcohol(alcoholRes) && ServesAvailableFood(foodRes)
    ensures first == Spinner
    ensures settled.Body?
    ensures alcoholRes.error.Some? || foodRes.error.Some? ==>
              && toast == Some(LoadFailedToast)
              && settled == Body(Groups([], map[]), Groups([], map[]))
    ensures alcoholRes.error.None? && foodRes.error.None? ==>
              && toast == None
              && settled.beverages.buckets == Grouped(OrEmpty(alcoholRes.data), AlcoholCategory)
              && settled.beverages.keys == FirstSeen(OrEmpty(alcoholRes.data), AlcoholCategory)
              && settled.food.buckets == Grouped(OrEmpty(foodRes.data), FoodCategory)
              && settled.food.keys == FirstSeen(OrEmpty(foodRes.data), FoodCategory)
  {
    var page := new MenuPage();
    first := page.Render();
    toast := page.FetchMenuData(alcoholRes, foodRes);
    settled := page.Render();
    if alcoholRes.error.Some? || foodRes.error.Some? {
      assert page.alcoholItems == [] && page.foodItems == [];
      assert settled.beverages.buckets == map[] && settled.beverages.keys == [];
      assert settled.food.buckets == map[] && settled.food.keys == [];
    }
  }
}
