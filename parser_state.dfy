/** The transition table of `MenuParser` (princetonMenu.py, lines 23-84) as
    functions on a value that holds all of the parser's fields. The markup
    tokenizer is replaced by a sequence of events, one per callback. */
module ParserState {
  import opened Options
  import opened OrderedMaps
  import opened MenuTree
  import GroupLabel

  /** One `(name, value)` pair of a start tag; the value is absent for a bare
      attribute such as `<li hidden>`. */
  datatype Attr = Attr(name: string, value: Option<string>)

  /** The three callbacks the tokenizer makes: `handle_starttag`,
      `handle_endtag` and `handle_data`. */
  datatype Event =
    | StartTag(tag: string, attrs: seq<Attr>)
    | EndTag(tag: string)
    | Text(data: string)

  /** `currentItem`: `""`, `"meal"`, `"group"` or `"recipe"`. */
  datatype Item = NoItem | MealItem | GroupItem | RecipeItem

  /** Where `currentMeal` points: the detached dict it starts as, or the groups
      of one meal of `menu`. */
  datatype MealRef = Orphan | Meal(name: string)

  /** Where `currentGroup` points: nowhere yet (the initial `{}`, which has no
      `append`), or the recipe list of group `name` inside the dict `meal`. */
  datatype GroupRef = NoGroup | Group(meal: MealRef, name: string)

  /** The one way the parser fails: a recipe text while no group was ever
      opened, where Python raises an AttributeError. */
  datatype Fault = RecipeOutsideGroup(recipe: string)

  datatype Result<T> = Ok(value: T) | Err(fault: Fault)

  const CardMarker := Attr("class", Some("card mealCard"))
  const MealNameMarker := Attr("class", Some("mealName"))
  const GroupMarker := Attr("class", Some("list-group-item"))
  const RecipeMarker := Attr("class", Some("recipe"))

  /** All fields of a `MenuParser`. `orphan` is the dict `currentMeal` starts
      as; it is never part of `menu`. */
  datatype State = State(
    inMealCard: bool,
    divLevel: int,
    currentItem: Item,
    currentMeal: MealRef,
    currentGroup: GroupRef,
    menu: Menu,
    orphan: Groups)
  {
    /** The handle designates a dict that exists. */
    predicate Resolves(h: MealRef) {
      h.Meal? ==> h.name in menu.entries
    }

    /** The groups dict a meal handle designates. */
    function GroupsAt(h: MealRef): Groups
      requires Resolves(h)
    {
      if h.Orphan? then orphan else menu.entries[h.name]
    }

    /** The state after the dict `h` designates has been updated in place to `g`. */
    function WithGroups(h: MealRef, g: Groups): (r: State)
      requires Resolves(h) && menu.Valid()
      ensures r.Resolves(h) && r.GroupsAt(h) == g
      ensures r == this.(menu := r.menu, orphan := r.orphan)
      ensures h.Meal? ==> r.orphan == orphan
      ensures r.menu.keys == menu.keys && r.menu.entries.Keys == menu.entries.Keys
      ensures forall m :: m in menu.entries && h != Meal(m) ==> r.menu.entries[m] == menu.entries[m]
    {
      if h.Orphan? then this.(orphan := g) else this.(menu := Replace(menu, h.name, g))
    }

    /** The parser's invariant: the depth is counted only inside a card, and
        both cursors designate a dict and a list that exist. */
    ghost predicate Valid() {
      && 0 <= divLevel
      && (!inMealCard ==> divLevel == 0)
      && WellFormed(menu)
      && orphan.Valid()
      && Resolves(currentMeal)
      && (currentGroup.Group? ==>
            Resolves(currentGroup.meal) && currentGroup.name in GroupsAt(currentGroup.meal).entries)
    }
  }

  /** Updating the dict a handle designates, by additions only, keeps the
      invariant and only grows the menu. */
  lemma UpdatePreservesValid(s: State, h: MealRef, g: Groups)
    requires s.Valid() && s.Resolves(h) && g.Valid()
    requires GroupsExtend(s.GroupsAt(h), g)
    ensures s.WithGroups(h, g).Valid()
    ensures MenuExtends(s.menu, s.WithGroups(h, g).menu)
    ensures h.Orphan? ==> s.WithGroups(h, g).menu == s.menu
  {
  }

  /** The fields as `__init__` sets them. */
  function Initial(): (s: State)
    ensures s.Valid()
  {
    State(false, 0, NoItem, Orphan, NoGroup, Empty(), Empty())
  }

  /** `handle_starttag`. */
  function StartStep(s: State, tag: string, attrs: seq<Attr>): (r: State)
    ensures s.Valid() ==> r.Valid()
    // outside a card, only the card's own `div` has an effect
    ensures !s.inMealCard && !(tag == "div" && CardMarker in attrs) ==> r == s
    ensures !s.inMealCard && tag == "div" && CardMarker in attrs ==> r == s.(inMealCard := true)
    ensures s.Valid() && !s.inMealCard ==> r.divLevel == 0
    // inside a card, every `div` deepens the nesting and nothing leaves the card
    ensures s.inMealCard ==> r.inMealCard && r.divLevel == s.divLevel + (if tag == "div" then 1 else 0)
    // only the item being read changes, and only on a marked `h5` or `li`
    ensures s.inMealCard && tag == "h5" && MealNameMarker in attrs ==> r.currentItem == MealItem
    ensures s.inMealCard && tag == "li" && GroupMarker in attrs ==> r.currentItem == GroupItem
    ensures s.inMealCard && tag == "li" && GroupMarker !in attrs && RecipeMarker in attrs ==>
              r.currentItem == RecipeItem
    ensures r.currentItem != s.currentItem ==>
              && s.inMealCard
              && (|| (tag == "h5" && MealNameMarker in attrs)
                  || (tag == "li" && (GroupMarker in attrs || RecipeMarker in attrs)))
    // start tags never touch the tree or the cursors
    ensures r.menu == s.menu && r.orphan == s.orphan
    ensures r.currentMeal == s.currentMeal && r.currentGroup == s.currentGroup
  {
    if !s.inMealCard then
      if tag == "div" && CardMarker in attrs then s.(inMealCard := true) else s
    else if tag == "div" then
      s.(divLevel := s.divLevel + 1)
    else if tag == "h5" && MealNameMarker in attrs then
      s.(currentItem := MealItem)
    else if tag == "li" && GroupMarker in attrs then
      s.(currentItem := GroupItem)
    else if tag == "li" && RecipeMarker in attrs then
      s.(currentItem := RecipeItem)
    else
      s
  }

  /** `handle_endtag`. */
  function EndStep(s: State, tag: string): (r: State)
    ensures s.Valid() ==> r.Valid()
    // outside a card, end tags are ignored
    ensures !s.inMealCard ==> r == s
    // the card ends at a `</div>` at depth 0; any other `</div>` undoes one `<div>`
    ensures s.inMealCard && tag == "div" ==>
              (r.inMealCard <==> s.divLevel != 0) && r.divLevel == if s.divLevel == 0 then 0 else s.divLevel - 1
    ensures s.inMealCard && tag != "div" ==> r.inMealCard && r.divLevel == s.divLevel
    // `</h5>` ends a meal heading; `</li>` turns a recipe back into its group
    ensures s.inMealCard && tag == "h5" && s.currentItem == MealItem ==> r.currentItem == NoItem
    ensures s.inMealCard && tag == "li" && s.currentItem == RecipeItem ==> r.currentItem == GroupItem
    ensures r.currentItem != s.currentItem ==>
              || (tag == "h5" && s.currentItem == MealItem && r.currentItem == NoItem)
              || (tag == "li" && s.currentItem == RecipeItem && r.currentItem == GroupItem)
    // end tags never touch the tree or the cursors
    ensures r.menu == s.menu && r.orphan == s.orphan
    ensures r.currentMeal == s.currentMeal && r.currentGroup == s.currentGroup
  {
    if !s.inMealCard then
      s
    else if tag == "div" then
      if s.divLevel == 0 then s.(inMealCard := false) else s.(divLevel := s.divLevel - 1)
    else if tag == "h5" && s.currentItem == MealItem then
      s.(currentItem := NoItem)
    else if tag == "li" then
      if s.currentItem == RecipeItem then s.(currentItem := GroupItem) else s
    else
      s
  }

  /** `setMeal`: open the meal `mealName`, merging with an earlier meal of the
      same name. */
  function MealStep(s: State, mealName: string): (r: State)
    requires s.Valid()
    ensures r.Valid()
    ensures r.currentMeal == Meal(mealName) && mealName in r.menu.entries
    ensures mealName in s.menu.entries ==> r.menu == s.menu
    ensures mealName !in s.menu.entries ==>
              r.menu.keys == s.menu.keys + [mealName] && r.menu.entries[mealName].keys == []
    ensures forall m :: m in s.menu.entries ==> m in r.menu.entries && r.menu.entries[m] == s.menu.entries[m]
    ensures forall m :: m in r.menu.entries ==> m in s.menu.entries || m == mealName
    ensures MenuExtends(s.menu, r.menu)
    // everything else, the group cursor included, stays as it was
    ensures r == s.(menu := r.menu, currentMeal := r.currentMeal)
  {
    s.(menu := SetDefault(s.menu, mealName, Empty()), currentMeal := Meal(mealName))
  }

  /** `setGroup`: on a label that matches, open that group of the current meal
      (which is the detached dict when no meal has been read). */
  function GroupStep(s: State, text: string): (r: State)
    requires s.Valid()
    ensures r.Valid()
    ensures GroupLabel.Match(text).None? ==> r == s
    ensures GroupLabel.Match(text).Some? ==>
              var h, g := s.currentMeal, GroupLabel.Match(text).value;
              && r.currentGroup == Group(h, g)
              && g in r.GroupsAt(h).entries
              && (g in s.GroupsAt(h).entries ==> r.GroupsAt(h) == s.GroupsAt(h))
              && (g !in s.GroupsAt(h).entries ==>
                    r.GroupsAt(h).keys == s.GroupsAt(h).keys + [g] && r.GroupsAt(h).entries[g] == [])
              && (forall g' :: g' in s.GroupsAt(h).entries ==>
                    g' in r.GroupsAt(h).entries && r.GroupsAt(h).entries[g'] == s.GroupsAt(h).entries[g'])
    // no meal other than the current one changes, and no meal is added
    ensures r.menu.keys == s.menu.keys
    ensures forall m :: m in s.menu.entries && s.currentMeal != Meal(m) ==> r.menu.entries[m] == s.menu.entries[m]
    ensures s.currentMeal.Orphan? ==> r.menu == s.menu
    ensures s.currentMeal.Meal? ==> r.orphan == s.orphan
    ensures MenuExtends(s.menu, r.menu)
    ensures r == s.(menu := r.menu, orphan := r.orphan, currentGroup := r.currentGroup)
  {
    match GroupLabel.Match(text)
    case None => s
    case Some(g) =>
      var h := s.currentMeal;
      var groups := SetDefault(s.GroupsAt(h), g, []);
      UpdatePreservesValid(s, h, groups);
      s.WithGroups(h, groups).(currentGroup := Group(h, g))
  }

  /** `setRecipe`: append the text to the list `currentGroup` designates. */
  function RecipeStep(s: State, text: string): (r: Result<State>)
    requires s.Valid()
    ensures r.Err? <==> s.currentGroup.NoGroup?
    ensures r.Err? ==> r.fault == RecipeOutsideGroup(text)
    ensures r.Ok? ==>
              var t, h, g := r.value, s.currentGroup.meal, s.currentGroup.name;
              && t == s.(menu := t.menu, orphan := t.orphan)
              && t.Valid()
              && t.GroupsAt(h).entries[g] == s.GroupsAt(h).entries[g] + [text]
              && t.GroupsAt(h).keys == s.GroupsAt(h).keys
              && (forall g' :: g' in s.GroupsAt(h).entries && g' != g ==>
                    g' in t.GroupsAt(h).entries && t.GroupsAt(h).entries[g'] == s.GroupsAt(h).entries[g'])
              && t.menu.keys == s.menu.keys
              && (forall m :: m in s.menu.entries && h != Meal(m) ==> t.menu.entries[m] == s.menu.entries[m])
              && (h.Orphan? ==> t.menu == s.menu)
              && (h.Meal? ==> t.orphan == s.orphan)
              && MenuExtends(s.menu, t.menu)
  {
    match s.currentGroup
    case NoGroup => Err(RecipeOutsideGroup(text))
    case Group(h, g) =>
      var groups := s.GroupsAt(h);
      var groups' := Replace(groups, g, groups.entries[g] + [text]);
      UpdatePreservesValid(s, h, groups');
      Ok(s.WithGroups(h, groups'))
  }

  /** `handle_data`: dispatch on `currentItem` alone. */
  function DataStep(s: State, data: string): (r: Result<State>)
    requires s.Valid()
    ensures r.Ok? ==> r.value.Valid() && MenuExtends(s.menu, r.value.menu)
    ensures s.currentItem == NoItem ==> r == Ok(s)
    ensures r.Err? <==> s.currentItem == RecipeItem && s.currentGroup.NoGroup?
    ensures r.Ok? ==>
              && r.value.inMealCard == s.inMealCard
              && r.value.divLevel == s.divLevel
              && r.value.currentItem == s.currentItem
  {
    match s.currentItem
    case NoItem => Ok(s)
    case MealItem => Ok(MealStep(s, data))
    case GroupItem => Ok(GroupStep(s, data))
    case RecipeItem => RecipeStep(s, data)
  }

  /** Text is handled the same whether or not a card is open: the result
      depends only on the item being read, the cursors and the tree. */
  lemma TextIgnoresCard(s: State, t: State, data: string)
    requires s.Valid() && t.Valid()
    requires s.(inMealCard := t.inMealCard, divLevel := t.divLevel) == t
    ensures DataStep(s, data).Ok? <==> DataStep(t, data).Ok?
    ensures DataStep(s, data).Ok? ==>
              DataStep(s, data).value.(inMealCard := t.inMealCard, divLevel := t.divLevel) == DataStep(t, data).value
  {
    match s.currentItem
    case NoItem =>
    case MealItem =>
      assert MealStep(s, data).(inMealCard := t.inMealCard, divLevel := t.divLevel) == MealStep(t, data);
    case GroupItem =>
      assert GroupStep(s, data).(inMealCard := t.inMealCard, divLevel := t.divLevel) == GroupStep(t, data);
    case RecipeItem =>
  }

  /** The change in `div` nesting an event makes inside a card. */
  function DivDelta(e: Event): int {
    match e
    case StartTag(tag, _) => if tag == "div" then 1 else 0
    case EndTag(tag) => if tag == "div" then -1 else 0
    case Text(_) => 0
  }

  /** The net change in `div` nesting over a run of events. */
  function Net(events: seq<Event>): int {
    if events == [] then 0 else DivDelta(events[0]) + Net(events[1..])
  }

  /** One callback. */
  function Step(s: State, e: Event): (r: Result<State>)
    requires s.Valid()
    ensures r.Ok? ==> r.value.Valid() && MenuExtends(s.menu, r.value.menu)
    ensures r.Err? ==> e.Text? && s.currentItem == RecipeItem && s.currentGroup.NoGroup?
    ensures r.Ok? && s.inMealCard ==> (r.value.inMealCard <==> !(e == EndTag("div") && s.divLevel == 0))
    ensures r.Ok? && s.inMealCard && r.value.inMealCard ==> r.value.divLevel == s.divLevel + DivDelta(e)
  {
    match e
    case StartTag(tag, attrs) => Ok(StartStep(s, tag, attrs))
    case EndTag(tag) => Ok(EndStep(s, tag))
    case Text(data) => DataStep(s, data)
  }

  /** How a run over a whole event sequence ends: having consumed every event,
      or at the first failing one, with the state as it was just before it. */
  datatype Outcome = Done(state: State) | Aborted(state: State, fault: Fault)

  /** `feed`: the callbacks in order, stopping at the first failure. */
  function Run(s: State, events: seq<Event>): (r: Outcome)
    requires s.Valid()
    ensures r.state.Valid()
    decreases |events|
  {
    if events == [] then
      Done(s)
    else
      match Step(s, events[0])
      case Err(f) => Aborted(s, f)
      case Ok(t) => Run(t, events[1..])
  }

  /** Running the events in two pieces is running them in one. */
  lemma {:induction false} RunAppend(s: State, a: seq<Event>, b: seq<Event>)
    requires s.Valid()
    ensures Run(s, a + b) == match Run(s, a)
                             case Done(t) => Run(t, b)
                             case Aborted(_, _) => Run(s, a)
    decreases |a|
  {
    if a != [] {
      assert (a + b)[0] == a[0];
      assert (a + b)[1..] == a[1..] + b;
      match Step(s, a[0])
      case Err(_) =>
      case Ok(t) => RunAppend(t, a[1..], b);
    } else {
      assert a + b == b;
    }
  }

  /** The menu only grows: whatever a run does, every meal, group and recipe
      already stored stays, in its place. */
  lemma {:induction false} RunGrowsMenu(s: State, events: seq<Event>)
    requires s.Valid()
    ensures MenuExtends(s.menu, Run(s, events).state.menu)
    decreases |events|
  {
    if events == [] {
      MenuExtendsReflexive(s.menu);
    } else {
      match Step(s, events[0])
      case Err(_) =>
        MenuExtendsReflexive(s.menu);
      case Ok(t) =>
        RunGrowsMenu(t, events[1..]);
        MenuExtendsTransitive(s.menu, t.menu, Run(t, events[1..]).state.menu);
    }
  }

  /** The event enters a card when read outside one. */
  predicate EntersCard(e: Event) {
    e.StartTag? && e.tag == "div" && CardMarker in e.attrs
  }

  /** Outside a card, tags other than the card's own `div` have no effect at all. */
  lemma {:induction false} TagsOutsideCardInert(s: State, events: seq<Event>)
    requires s.Valid() && !s.inMealCard
    requires forall i :: 0 <= i < |events| ==> !events[i].Text? && !EntersCard(events[i])
    ensures Run(s, events) == Done(s)
    decreases |events|
  {
    if events != [] {
      assert Step(s, events[0]) == Ok(s);
      TagsOutsideCardInert(s, events[1..]);
    }
  }

  /** Inside a card, a run of events whose `div` nesting never drops below the
      card's own level keeps the card open, and the depth follows the nesting. */
  lemma {:induction false} DivsKeepCardOpen(s: State, events: seq<Event>)
    requires s.Valid() && s.inMealCard
    requires forall k :: 0 <= k <= |events| ==> s.divLevel + Net(events[..k]) >= 0
    ensures Run(s, events).state.inMealCard
    ensures Run(s, events).Done? ==> Run(s, events).state.divLevel == s.divLevel + Net(events)
    decreases |events|
  {
    if events != [] {
      var e, rest := events[0], events[1..];
      assert events[..1] == [e];
      assert Net([e]) == DivDelta(e);
      match Step(s, e)
      case Err(_) =>
      case Ok(t) =>
        forall k | 0 <= k <= |rest|
          ensures t.divLevel + Net(rest[..k]) >= 0
        {
          assert events[..k + 1][0] == e;
          assert events[..k + 1][1..] == rest[..k];
          assert s.divLevel + Net(events[..k + 1]) >= 0;
        }
        DivsKeepCardOpen(t, rest);
    }
  }

  /** After the card's opening `div`, the card closes exactly at the `</div>`
      that balances it: no prefix of a balanced run closes it, and the next
      `</div>` does, unless a failure stopped the run before it. */
  lemma CardClosesAtMatchingDiv(s: State, events: seq<Event>)
    requires s.Valid() && s.inMealCard && s.divLevel == 0
    requires forall k :: 0 <= k <= |events| ==> Net(events[..k]) >= 0
    requires Net(events) == 0
    ensures forall k :: 0 <= k <= |events| ==> Run(s, events[..k]).state.inMealCard
    ensures !Run(s, events + [EndTag("div")]).state.inMealCard <==> Run(s, events).Done?
  {
    forall k | 0 <= k <= |events|
      ensures Run(s, events[..k]).state.inMealCard
    {
      forall j | 0 <= j <= k
        ensures s.divLevel + Net(events[..k][..j]) >= 0
      {
        assert events[..k][..j] == events[..j];
      }
      DivsKeepCardOpen(s, events[..k]);
    }
    assert events[..|events|] == events;
    DivsKeepCardOpen(s, events);
    RunAppend(s, events, [EndTag("div")]);
  }
}
