/** The meals screen: the meals of the chosen category, and the list of
    favorite meal ids kept in component state and mirrored under the
    `favorites` key of the device's key-value store. */
module Meals {
  import opened Seqs

  datatype Meal = Meal(id: string, title: string)

  /** The meals the app ships with, by category id. */
  const AppMeals: map<string, seq<Meal>> := map[
    "1" := [Meal("1", "Spaghetti Bolognese"), Meal("2", "Lasagna")],
    "2" := [Meal("3", "Sushi"), Meal("4", "Pho")]
  ]

  /** `displayedMeals`: the meals of `categoryId`, or none for an unknown
      category. */
  function DisplayedMeals(meals: map<string, seq<Meal>>, categoryId: string): (r: seq<Meal>)
    ensures categoryId in meals ==> r == meals[categoryId]
    ensures categoryId !in meals ==> r == []
    ensures forall m :: m in r ==> exists k :: k in meals && m in meals[k]
  {
    if categoryId in meals then meals[categoryId] else []
  }

  /** Every category of the app lists its own two meals; any other id lists
      none. */
  lemma AppMealsDisplayed(categoryId: string)
    ensures categoryId == "1" ==> DisplayedMeals(AppMeals, categoryId) == [Meal("1", "Spaghetti Bolognese"), Meal("2", "Lasagna")]
    ensures categoryId == "2" ==> DisplayedMeals(AppMeals, categoryId) == [Meal("3", "Sushi"), Meal("4", "Pho")]
    ensures categoryId != "1" && categoryId != "2" ==> DisplayedMeals(AppMeals, categoryId) == []
  {
  }

  /** The key the favorites list is stored under. */
  const FavoritesKey := "favorites"

  /** The callback `id => id !== mealId`. */
  function IsNot(mealId: string): (keep: string -> bool)
    ensures forall id :: keep(id) <==> id != mealId
  {
    id => id != mealId
  }

  /** What `toggleFavorite` computes from the current list: every occurrence
      of `mealId` removed if it is there, `mealId` appended otherwise. */
  function ToggleSeq(favorites: seq<string>, mealId: string): (r: seq<string>)
    ensures mealId in r <==> mealId !in favorites
    ensures forall id :: id != mealId ==> (id in r <==> id in favorites)
  {
    if mealId in favorites then Filter(favorites, IsNot(mealId)) else favorites + [mealId]
  }

  /** The two shapes of a toggle: an absent id goes on the end; a present id
      loses every copy while every other element keeps its multiplicity and
      its relative order. */
  lemma ToggleShape(favorites: seq<string>, mealId: string)
    ensures mealId !in favorites ==> ToggleSeq(favorites, mealId) == favorites + [mealId]
    ensures mealId in favorites ==>
      var r, idx := ToggleSeq(favorites, mealId), KeptIndicesFrom(favorites, IsNot(mealId), 0);
      && multiset(r) == multiset(favorites)[mealId := 0]
      && |r| == |idx|
      && (forall k :: 0 <= k < |r| ==> r[k] == favorites[idx[k]])
      && (forall i :: 0 <= i < |favorites| ==> (favorites[i] != mealId <==> i in idx))
  {
    if mealId in favorites {
      var r := ToggleSeq(favorites, mealId);
      forall x ensures multiset(r)[x] == multiset(favorites)[mealId := 0][x] {
        FilterCounts(favorites, IsNot(mealId), x);
      }
      assert multiset(r) == multiset(favorites)[mealId := 0];
      FilterSelectsKeptIndices(favorites, IsNot(mealId));
      KeptIndicesExact(favorites, IsNot(mealId));
    }
  }

  /** A list without duplicates stays without duplicates. */
  lemma ToggleKeepsNoDuplicates(favorites: seq<string>, mealId: string)
    requires NoDuplicates(favorites)
    ensures NoDuplicates(ToggleSeq(favorites, mealId))
  {
    if mealId in favorites {
      FilterKeepsNoDuplicates(favorites, IsNot(mealId));
    } else {
      AppendFreshKeepsNoDuplicates(favorites, mealId);
    }
  }

  /** Toggling an absent id twice restores the list exactly. */
  lemma ToggleAbsentTwice(favorites: seq<string>, mealId: string)
    requires mealId !in favorites
    ensures ToggleSeq(ToggleSeq(favorites, mealId), mealId) == favorites
  {
    FilterConcat(favorites, [mealId], IsNot(mealId));
    FilterKeepsAll(favorites, IsNot(mealId));
  }

  /** Toggling a present id twice keeps the same ids but moves that id to
      the end, once. */
  lemma TogglePresentTwice(favorites: seq<string>, mealId: string)
    requires mealId in favorites
    ensures ToggleSeq(ToggleSeq(favorites, mealId), mealId) == Filter(favorites, IsNot(mealId)) + [mealId]
    ensures forall id :: id in ToggleSeq(ToggleSeq(favorites, mealId), mealId) <==> id in favorites
  {
  }

  /** Toggling twice gives the list back exactly when the id was absent,
      or occurred exactly once, as the last element. */
  lemma ToggleTwiceRestores(favorites: seq<string>, mealId: string)
    ensures ToggleSeq(ToggleSeq(favorites, mealId), mealId) == favorites <==>
      mealId !in favorites ||
      (favorites[|favorites| - 1] == mealId && mealId !in favorites[..|favorites| - 1])
  {
    if mealId in favorites {
      var n := |favorites|;
      var front := favorites[..n - 1];
      assert favorites == front + [favorites[n - 1]];
      var twice := ToggleSeq(ToggleSeq(favorites, mealId), mealId);
      assert twice == Filter(favorites, IsNot(mealId)) + [mealId];
      if favorites[n - 1] == mealId && mealId !in front {
        assert favorites == front + [mealId];
        FilterConcat(front, [mealId], IsNot(mealId));
        FilterKeepsAll(front, IsNot(mealId));
        assert Filter([mealId], IsNot(mealId)) == [];
        assert Filter(favorites, IsNot(mealId)) == front;
        assert twice == favorites;
      }
      if twice == favorites {
        var kept := Filter(favorites, IsNot(mealId));
        assert |kept| == n - 1;
        assert favorites[n - 1] == twice[n - 1] == mealId;
        assert front == twice[..n - 1] == kept;
        assert mealId !in kept;
      }
    } else {
      ToggleAbsentTwice(favorites, mealId);
    }
  }

  /** So toggling twice is not the identity on lists: ["1", "2"] toggled
      twice at "1" is ["2", "1"]. */
  lemma ToggleTwiceReorders()
    ensures ToggleSeq(ToggleSeq(["1", "2"], "1"), "1") == ["2", "1"] != ["1", "2"]
  {
  }

  /** The favorites list in storage, or the empty list when none is stored. */
  function StoredOrEmpty(storage: map<string, seq<string>>): seq<string> {
    if FavoritesKey in storage then storage[FavoritesKey] else []
  }

  /** One mounted meals screen: its `favorites` state and the key-value
      store it writes through to. */
  class MealsScreen {
    var favorites: seq<string>
    var storage: map<string, seq<string>>

    /** Mounting: `useState([])`, with the store as it is on the device. */
    constructor (storage0: map<string, seq<string>>)
      ensures favorites == [] && storage == storage0
    {
      favorites := [];
      storage := storage0;
    }

    /** The state and the stored list agree. */
    ghost predicate Persisted()
      reads this
    {
      FavoritesKey in storage && storage[FavoritesKey] == favorites
    }

    /** `loadFavorites`: replaces the state by the stored list when there is
        one; otherwise the state is left as it was. */
    method LoadFavorites()
      modifies this`favorites
      ensures FavoritesKey in storage ==> favorites == storage[FavoritesKey] && Persisted()
      ensures FavoritesKey !in storage ==> favorites == old(favorites)
    {
      if FavoritesKey in storage {
        favorites := storage[FavoritesKey];
      }
    }

    /** `toggleFavorite`: flips `mealId` in a copy of the list, makes the copy
        the state and writes it to the store; no other key is touched. */
    method ToggleFavorite(mealId: string)
      modifies this
      ensures favorites == ToggleSeq(old(favorites), mealId)
      ensures mealId in favorites <==> mealId !in old(favorites)
      ensures forall id :: id != mealId ==> (id in favorites <==> id in old(favorites))
      ensures NoDuplicates(old(favorites)) ==> NoDuplicates(favorites)
      ensures Persisted()
      ensures forall k :: k != FavoritesKey ==>
        (k in storage <==> k in old(storage)) && (k in storage ==> storage[k] == old(storage)[k])
    {
      var updatedFavorites := favorites;
      if mealId in favorites {
        updatedFavorites := Filter(updatedFavorites, IsNot(mealId));
      } else {
        updatedFavorites := updatedFavorites + [mealId];
      }
      if NoDuplicates(favorites) {
        ToggleKeepsNoDuplicates(favorites, mealId);
      }
      favorites := updatedFavorites;
      storage := storage[FavoritesKey := updatedFavorites];
    }
  }

  /** Mounting the screen: construct it, then run the mount effect
      `loadFavorites`. With nothing stored, the list starts empty. */
  method Mount(storage0: map<string, seq<string>>) returns (screen: MealsScreen)
    ensures fresh(screen)
    ensures screen.storage == storage0
    ensures screen.favorites == StoredOrEmpty(storage0)
  {
    screen := new MealsScreen(storage0);
    screen.LoadFavorites();
  }

  /** Persistence round trip: a toggle survives leaving and re-mounting the
      screen; the re-mounted screen shows exactly the toggled list. */
  method ToggleThenRemount(storage0: map<string, seq<string>>, mealId: string)
    returns (shown: seq<string>, reloaded: seq<string>)
    ensures shown == ToggleSeq(StoredOrEmpty(storage0), mealId)
    ensures reloaded == shown
  {
    var screen := Mount(storage0);
    screen.ToggleFavorite(mealId);
    shown := screen.favorites;
    var again := Mount(screen.storage);
    reloaded := again.favorites;
  }
}
