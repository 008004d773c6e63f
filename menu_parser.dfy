/** `MenuParser` (princetonMenu.py, lines 23-84) as an object whose callbacks
    update its fields in place. Each method is proved to leave the fields as
    the corresponding function of the parser's transition table says. */
module MenuParsing {
  import opened OrderedMaps
  import opened MenuTree
  import opened ParserState
  import GroupLabel

  /** What a callback reports: it returned normally, or raised. */
  datatype Status = Pass | Fail(fault: Fault)

  class MenuParser {
    var inMealCard: bool
    var divLevel: int
    var currentItem: Item
    var currentMeal: MealRef
    var currentGroup: GroupRef
    var menu: Menu
    /** The detached dict `currentMeal` is first set to. */
    var orphan: Groups

    /** All fields, as one value of the transition table. */
    ghost function Snapshot(): State
      reads this
    {
      State(inMealCard, divLevel, currentItem, currentMeal, currentGroup, menu, orphan)
    }

    ghost predicate Valid()
      reads this
    {
      Snapshot().Valid()
    }

    constructor ()
      ensures Valid() && Snapshot() == Initial()
    {
      inMealCard := false;
      currentItem := NoItem;
      currentMeal := Orphan;
      currentGroup := NoGroup;
      menu := Empty();
      divLevel := 0;
      orphan := Empty();
    }

    method HandleStartTag(tag: string, attrs: seq<Attr>)
      requires Valid()
      modifies this
      ensures Valid() && Snapshot() == StartStep(old(Snapshot()), tag, attrs)
    {
      if !inMealCard {
        if tag == "div" && CardMarker in attrs {
          inMealCard := true;
        }
      } else if tag == "div" {
        divLevel := divLevel + 1;
      } else if tag == "h5" && MealNameMarker in attrs {
        currentItem := MealItem;
      } else if tag == "li" && GroupMarker in attrs {
        currentItem := GroupItem;
      } else if tag == "li" && RecipeMarker in attrs {
        currentItem := RecipeItem;
      }
    }

    method HandleEndTag(tag: string)
      requires Valid()
      modifies this
      ensures Valid() && Snapshot() == EndStep(old(Snapshot()), tag)
    {
      if inMealCard {
        if tag == "div" {
          if divLevel == 0 {
            inMealCard := false;
          } else {
            divLevel := divLevel - 1;
          }
        } else if tag == "h5" && currentItem == MealItem {
          currentItem := NoItem;
        } else if tag == "li" {
          if currentItem == RecipeItem {
            currentItem := GroupItem;
          }
        }
      }
    }

    method SetMeal(mealName: string)
      requires Valid()
      modifies this
      ensures Valid() && Snapshot() == MealStep(old(Snapshot()), mealName)
    {
      if mealName !in menu.entries {
        menu := SetDefault(menu, mealName, Empty());
      }
      currentMeal := Meal(mealName);
    }

    method SetGroup(groupName: string)
      requires Valid()
      modifies this
      ensures Valid() && Snapshot() == GroupStep(old(Snapshot()), groupName)
    {
      var matched := GroupLabel.Match(groupName);
      if matched.Some? {
        var name := matched.value;
        match currentMeal {
          case Orphan =>
            if name !in orphan.entries {
              orphan := SetDefault(orphan, name, []);
            }
          case Meal(m) =>
            var groups := menu.entries[m];
            if name !in groups.entries {
              menu := Replace(menu, m, SetDefault(groups, name, []));
            }
        }
        currentGroup := Group(currentMeal, name);
      }
    }

    method SetRecipe(recipeName: string) returns (status: Status)
      requires Valid()
      modifies this
      ensures Valid()
      ensures match RecipeStep(old(Snapshot()), recipeName)
              case Ok(t) => status == Pass && Snapshot() == t
              case Err(f) => status == Fail(f) && Snapshot() == old(Snapshot())
    {
      match currentGroup
      case NoGroup =>
        status := Fail(RecipeOutsideGroup(recipeName));
      case Group(Orphan, g) =>
        orphan := Replace(orphan, g, orphan.entries[g] + [recipeName]);
        status := Pass;
      case Group(Meal(m), g) =>
        var groups := menu.entries[m];
        menu := Replace(menu, m, Replace(groups, g, groups.entries[g] + [recipeName]));
        status := Pass;
    }

    method HandleData(data: string) returns (status: Status)
      requires Valid()
      modifies this
      ensures Valid()
      ensures match DataStep(old(Snapshot()), data)
              case Ok(t) => status == Pass && Snapshot() == t
              case Err(f) => status == Fail(f) && Snapshot() == old(Snapshot())
    {
      status := Pass;
      match currentItem
      case NoItem =>
      case MealItem => SetMeal(data);
      case GroupItem => SetGroup(data);
      case RecipeItem => status := SetRecipe(data);
    }

    /** The tokenizer's call for one event. */
    method Handle(e: Event) returns (status: Status)
      requires Valid()
      modifies this
      ensures Valid()
      ensures match Step(old(Snapshot()), e)
              case Ok(t) => status == Pass && Snapshot() == t
              case Err(f) => status == Fail(f) && Snapshot() == old(Snapshot())
    {
      match e
      case StartTag(tag, attrs) =>
        HandleStartTag(tag, attrs);
        status := Pass;
      case EndTag(tag) =>
        HandleEndTag(tag);
        status := Pass;
      case Text(data) =>
        status := HandleData(data);
    }

    /** `feed` over a document already split into events: the callbacks in
        order, stopping at the first one that raises. */
    method Feed(events: seq<Event>) returns (status: Status)
      requires Valid()
      modifies this
      ensures Valid()
      ensures Run(old(Snapshot()), events) ==
              if status.Pass? then Done(Snapshot()) else Aborted(Snapshot(), status.fault)
    {
      var i := 0;
      status := Pass;
      while i < |events|
        invariant 0 <= i <= |events|
        invariant Valid() && status == Pass
        invariant Run(old(Snapshot()), events) == Run(Snapshot(), events[i..])
      {
        assert events[i..][0] == events[i] && events[i..][1..] == events[i + 1..];
        ghost var before := Snapshot();
        status := Handle(events[i]);
        if status.Fail? {
          assert Snapshot() == before;
          assert Run(before, events[i..]) == Aborted(before, status.fault);
          return;
        }
        i := i + 1;
      }
      assert events[i..] == [];
    }
  }
}
