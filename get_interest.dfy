/** `GetInterest` (princetonMenu.py, lines 99-115): the meals of one dining
    hall's menu with a recipe that fuzzily matches one of the interests. The
    similarity score (`fuzz.partial_ratio`) and lower-casing (`str.lower`) are
    library routines, so they are parameters here. */
module Interest {
  import opened OrderedMaps
  import opened MenuTree

  /** A recipe and an interest match when their score is above this. */
  const Threshold := 85

  /** The `interestList` argument: a bare string or a list of strings. */
  datatype Interests = One(term: string) | Many(terms: seq<string>)

  /** The list the loops run over: a bare string becomes a one-element list. */
  function Terms(x: Interests): seq<string> {
    match x
    case One(t) => [t]
    case Many(ts) => ts
  }

  /** The test inside the innermost loop. */
  predicate Hit(score: (string, string) -> int, lower: string -> string, recipe: string, interest: string) {
    score(lower(recipe), lower(interest)) > Threshold
  }

  ghost predicate RecipeMatches(score: (string, string) -> int, lower: string -> string,
                                recipe: string, terms: seq<string>) {
    exists k :: 0 <= k < |terms| && Hit(score, lower, recipe, terms[k])
  }

  ghost predicate GroupMatches(score: (string, string) -> int, lower: string -> string,
                               recipes: seq<string>, terms: seq<string>) {
    exists j :: 0 <= j < |recipes| && RecipeMatches(score, lower, recipes[j], terms)
  }

  /** Some recipe of some group of the meal matches some interest. */
  ghost predicate MealMatches(score: (string, string) -> int, lower: string -> string,
                              groups: Groups, terms: seq<string>) {
    exists g :: g in groups.entries && GroupMatches(score, lower, groups.entries[g], terms)
  }

  /** The meals of `meals` that match, in the order of `meals`. */
  ghost function Matching(score: (string, string) -> int, lower: string -> string,
                          menu: Menu, meals: seq<string>, terms: seq<string>): seq<string>
    requires forall m :: m in meals ==> m in menu.entries
  {
    if meals == [] then []
    else
      (if MealMatches(score, lower, menu.entries[meals[0]], terms) then [meals[0]] else [])
      + Matching(score, lower, menu, meals[1..], terms)
  }

  /** The loops of the source. The loops over groups, recipes and interests
      are the methods `ScanMeal` and `ScanGroup` below. */
  method GetInterest(hallMenu: Menu, interestList: Interests,
                     score: (string, string) -> int, lower: string -> string)
    returns (matchRes: seq<string>)
    requires WellFormed(hallMenu)
    ensures matchRes == Matching(score, lower, hallMenu, hallMenu.keys, Terms(interestList))
    // a bare string is searched exactly as a one-element list would be
    ensures interestList.One? ==> matchRes == Matching(score, lower, hallMenu, hallMenu.keys, [interestList.term])
    ensures interestList.Many? ==> matchRes == Matching(score, lower, hallMenu, hallMenu.keys, interestList.terms)
  {
    var terms := Terms(interestList);
    var meals := hallMenu.keys;
    matchRes := [];
    var mi := 0;
    while mi < |meals|
      invariant 0 <= mi <= |meals|
      invariant matchRes == Matching(score, lower, hallMenu, meals[..mi], terms)
    {
      var meal := meals[mi];
      MatchingMembers(score, lower, hallMenu, meals[..mi], terms);
      assert meal !in meals[..mi];
      matchRes := ScanMeal(meal, hallMenu.entries[meal], terms, score, lower, matchRes);
      assert meals[..mi + 1] == meals[..mi] + [meal];
      MatchingAppend(score, lower, hallMenu, meals[..mi], [meal], terms);
      mi := mi + 1;
    }
    assert meals[..mi] == meals;
  }

  /** The body of the loop over meals: scan the meal's groups in order and
      append `meal` at the first matching recipe, then stop. */
  method ScanMeal(meal: string, groups: Groups, terms: seq<string>,
                  score: (string, string) -> int, lower: string -> string, matchRes0: seq<string>)
    returns (matchRes: seq<string>)
    requires groups.Valid() && meal !in matchRes0
    ensures matchRes == matchRes0 + if MealMatches(score, lower, groups, terms) then [meal] else []
  {
    matchRes := matchRes0;
    var gi := 0;
    while gi < |groups.keys|
      invariant 0 <= gi <= |groups.keys|
      invariant matchRes == matchRes0
      invariant forall g :: g in groups.keys[..gi] ==> !GroupMatches(score, lower, groups.entries[g], terms)
    {
      var group := groups.keys[gi];
      matchRes := ScanGroup(meal, groups.entries[group], terms, score, lower, matchRes);
      if |matchRes| > 0 && matchRes[|matchRes| - 1] == meal {
        break;
      }
      assert groups.keys[..gi + 1] == groups.keys[..gi] + [group];
      gi := gi + 1;
    }
  }

  /** The body of the loop over groups: scan the recipes in order, each
      against every interest, and append `meal` at the first hit, then stop. */
  method ScanGroup(meal: string, items: seq<string>, terms: seq<string>,
                   score: (string, string) -> int, lower: string -> string, matchRes0: seq<string>)
    returns (matchRes: seq<string>)
    requires meal !in matchRes0
    ensures matchRes == matchRes0 + if GroupMatches(score, lower, items, terms) then [meal] else []
  {
    matchRes := matchRes0;
    var ii := 0;
    while ii < |items|
      invariant 0 <= ii <= |items|
      invariant matchRes == matchRes0
      invariant forall j :: 0 <= j < ii ==> !RecipeMatches(score, lower, items[j], terms)
    {
      var k := 0;
      while k < |terms|
        invariant 0 <= k <= |terms|
        invariant matchRes == matchRes0
        invariant forall t :: 0 <= t < k ==> !Hit(score, lower, items[ii], terms[t])
      {
        if Hit(score, lower, items[ii], terms[k]) {
          matchRes := matchRes + [meal];
          break;
        }
        k := k + 1;
      }
      if |matchRes| > 0 && matchRes[|matchRes| - 1] == meal {
        break;
      }
      ii := ii + 1;
    }
  }

  /** Matching distributes over concatenation of the meal list. */
  lemma {:induction false} MatchingAppend(score: (string, string) -> int, lower: string -> string,
                                          menu: Menu, a: seq<string>, b: seq<string>, terms: seq<string>)
    requires forall m :: m in a + b ==> m in menu.entries
    ensures Matching(score, lower, menu, a + b, terms)
            == Matching(score, lower, menu, a, terms) + Matching(score, lower, menu, b, terms)
  {
    if a == [] {
      assert a + b == b;
    } else {
      assert (a + b)[0] == a[0] && (a + b)[1..] == a[1..] + b;
      MatchingAppend(score, lower, menu, a[1..], b, terms);
    }
  }

  /** A meal is in the result exactly when it is one of the meals scanned and
      one of its recipes matches one of the interests. */
  lemma {:induction false} MatchingMembers(score: (string, string) -> int, lower: string -> string,
                                           menu: Menu, meals: seq<string>, terms: seq<string>)
    requires forall m :: m in meals ==> m in menu.entries
    ensures forall m :: m in Matching(score, lower, menu, meals, terms) <==>
              m in meals && MealMatches(score, lower, menu.entries[m], terms)
  {
    if meals != [] {
      MatchingMembers(score, lower, menu, meals[1..], terms);
      assert forall m :: m in meals <==> m == meals[0] || m in meals[1..];
    }
  }

  /** `a` is `b` with some elements left out, the rest in their order. */
  ghost predicate SubsequenceOf<T>(a: seq<T>, b: seq<T>)
    decreases |b|
  {
    if b == [] then a == []
    else (a != [] && a[0] == b[0] && SubsequenceOf(a[1..], b[1..])) || SubsequenceOf(a, b[1..])
  }

  /** The result lists the meals in the order they were scanned. */
  lemma {:induction false} MatchingInOrder(score: (string, string) -> int, lower: string -> string,
                                           menu: Menu, meals: seq<string>, terms: seq<string>)
    requires forall m :: m in meals ==> m in menu.entries
    ensures SubsequenceOf(Matching(score, lower, menu, meals, terms), meals)
  {
    if meals != [] {
      var rest := Matching(score, lower, menu, meals[1..], terms);
      MatchingInOrder(score, lower, menu, meals[1..], terms);
      var r := Matching(score, lower, menu, meals, terms);
      if MealMatches(score, lower, menu.entries[meals[0]], terms) {
        assert r[0] == meals[0] && r[1..] == rest;
      } else {
        assert r == rest;
      }
    }
  }

  /** Each meal is listed at most once, since the meals of a menu are distinct. */
  lemma {:induction false} MatchingDistinct(score: (string, string) -> int, lower: string -> string,
                                            menu: Menu, meals: seq<string>, terms: seq<string>)
    requires forall m :: m in meals ==> m in menu.entries
    requires Distinct(meals)
    ensures Distinct(Matching(score, lower, menu, meals, terms))
  {
    if meals != [] {
      var rest := Matching(score, lower, menu, meals[1..], terms);
      MatchingDistinct(score, lower, menu, meals[1..], terms);
      MatchingMembers(score, lower, menu, meals[1..], terms);
      assert meals[0] !in meals[1..];
      assert meals[0] !in rest;
      var r := Matching(score, lower, menu, meals, terms);
      if MealMatches(score, lower, menu.entries[meals[0]], terms) {
        assert r == [meals[0]] + rest;
        forall i, j | 0 <= i < j < |r| ensures r[i] != r[j] {
          assert r[j] == rest[j - 1];
          if i > 0 {
            assert r[i] == rest[i - 1];
          }
        }
      } else {
        assert r == rest;
      }
    }
  }

  /** No interests, or no meals, give no result. */
  lemma {:induction false} MatchingEmpty(score: (string, string) -> int, lower: string -> string,
                                         menu: Menu, meals: seq<string>, terms: seq<string>)
    requires forall m :: m in meals ==> m in menu.entries
    requires terms == [] || meals == []
    ensures Matching(score, lower, menu, meals, terms) == []
  {
    if meals != [] {
      assert !MealMatches(score, lower, menu.entries[meals[0]], terms);
      MatchingEmpty(score, lower, menu, meals[1..], terms);
    }
  }
}
