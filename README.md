# PrincetonDining menu parser and interest matcher, modelled in Dafny

This project models the core of `princetonMenu.py`, a scraper for a university's
dining-hall menu pages. There are two parts.

- **`MenuParser`**: an HTML callback parser. Each call updates its fields.
  It watches for the meal card (`<div class="card mealCard">`) and counts
  nested `div`s to find the card's closing tag. It reads meal headings
  (`h5.mealName`), group labels (`li.list-group-item`, text like `-- Entrees --`)
  and recipes (`li.recipe`). From these it builds a nested dict:
  meal -> group -> list of recipes.
- **`GetInterest`**: four nested loops over that dict. A meal is reported once
  as soon as one of its recipes scores above 85 against one of the interests.

Files and modules:

- `options.dfy` (`Options`): the optional value.
- `ordered_maps.dfy` (`OrderedMaps`): Python's insertion-ordered `dict`, as a key
  sequence plus a map. `SetDefault` is `if k not in d: d[k] = v`. `Replace` is
  `d[k] = v` for a key that is already there.
- `menu_tree.dfy` (`MenuTree`): the menu types. `MenuExtends` says that one
  menu is another with additions only.
- `group_label.dfy` (`GroupLabel`): `re.match(r"\s*-- (.*) --", text).group(1)`
  with Python's rules. The match is anchored at the start only. `\s` is the set
  of characters for which `str.isspace` holds. `.` is any character except a
  newline. Both `\s*` and `.*` are greedy.
- `parser_state.dfy` (`ParserState`): the parser's transition table as
  functions on a `State` value that holds all of its fields. This module also
  has the lemmas about runs of events.
- `menu_parser.dfy` (`MenuParsing`): the class `MenuParser`. It has the same
  fields and one method per callback. Each method is proved to leave the fields
  exactly as the matching `ParserState` function says.
- `get_interest.dfy` (`Interest`): `GetInterest` with its loops. It is proved
  equal to the reference function `Matching`, and lemmas about `Matching` follow.

The two cursors are handles, not aliases:

- `currentMeal` is `Orphan` or `Meal(name)`. `Orphan` is the detached `{}` set
  in `__init__`. It is kept in the field `orphan` and is never part of `menu`.
- `currentGroup` is `NoGroup` or `Group(meal, name)`. A recipe read while it is
  `NoGroup` is the source's `AttributeError` (`{}` has no `append`). The model
  reports it as `Fail(RecipeOutsideGroup(text))` and leaves the state unchanged.
  `Feed` stops at that event, as the exception would stop `feed`.

Two details of the code the model keeps:

- Entering the card does not reset `divLevel` (princetonMenu.py:37-38). The
  model does not reset it either. The level is 0 there anyway: `State.Valid`
  requires `divLevel == 0` whenever no card is open, every step keeps
  `State.Valid`, and `ParserState.StartStep` ensures the level is 0 on entry
  (`s.Valid() && !s.inMealCard ==> r.divLevel == 0`).
- A recipe read before any group raises `AttributeError` at
  princetonMenu.py:78, because `currentGroup` is still the `{}` set at line 30.
  The model reports `Fail(RecipeOutsideGroup(text))` and changes nothing.

## Model

| member | source | states |
|---|---|---|
| `MenuParsing.MenuParser.constructor` | princetonMenu.py:25-32 | the fields start as `__init__` sets them: outside a card, level 0, no item, the detached meal dict, no group, empty menu |
| `ParserState.Initial` | princetonMenu.py:25-32 | the initial fields satisfy the parser invariant |
| `ParserState.StartStep` | princetonMenu.py:34-48 | outside a card, only a `div` whose attributes contain exactly `("class","card mealCard")` changes anything, by setting `inMealCard`, and the level is then 0; inside a card each `div` adds one to the level and the card stays open; a marked `h5` selects the meal; only a marked `h5` or `li` inside a card changes the item; start tags never touch the tree or the cursors; the invariant is kept |
| `MenuParsing.MenuParser.HandleStartTag` | princetonMenu.py:34-48 | updates the fields in place exactly as `StartStep` says and keeps the invariant |
| `ParserState.EndStep` | princetonMenu.py:50-62 | outside a card nothing changes; `</div>` at level 0 closes the card, and at any other level takes one off; other end tags keep the card and the level; `</h5>` clears the item only when it is the meal; `</li>` turns a recipe into its group; no other item change happens; end tags never touch the tree or the cursors |
| `MenuParsing.MenuParser.HandleEndTag` | princetonMenu.py:50-62 | updates the fields in place exactly as `EndStep` says |
| `ParserState.MealStep` | princetonMenu.py:64-67 | afterwards the meal is a key of the menu and is the current meal; a meal already present leaves the menu unchanged (merge, not duplicate); a new meal is added last with no groups; every meal already stored keeps its groups; the group cursor and all other fields are untouched |
| `MenuParsing.MenuParser.SetMeal` | princetonMenu.py:64-67 | updates the fields in place exactly as `MealStep` says |
| `GroupLabel.Match` | princetonMenu.py:70 | a returned name is the capture of a real match: a whitespace run that `\s*` takes whole, then `-- `, then the name with no newline, then ` --` |
| `GroupLabel.MatchIsLeftmostGreedy` | princetonMenu.py:70 | whenever the pattern can match, `Match` succeeds, its whitespace run is the only possible one, and its capture is the longest possible, which is the match Python's backtracking returns |
| `GroupLabel.LabelRoundTrip` | princetonMenu.py:70-72 | whitespace + `-- ` + a one-line name + ` --` gives back exactly that name, even when the name itself contains ` --` |
| `GroupLabel.MatchIsGreedy` | princetonMenu.py:70-72 | `-- a -- b -- x` gives `a -- b`: the capture runs to the last marker and trailing text is ignored |
| `GroupLabel.MatchStopsAtNewline` | princetonMenu.py:70 | `-- a\nb --` does not match, because `.` does not cross a newline |
| `GroupLabel.MatchTrimsDecoration` | princetonMenu.py:70-72 | ` \t-- Entrees --` gives `Entrees` |
| `GroupLabel.LeadingSpace` | princetonMenu.py:70 | the greedy `\s*` takes the longest all-whitespace prefix |
| `ParserState.GroupStep` | princetonMenu.py:69-75 | text that does not match changes nothing; matching text makes the name a group of the current meal, which may be the detached dict; an existing list is kept as it is; a new group is added last with an empty list; the group cursor then designates it; no meal is added and no other meal changes; with the detached dict current, the menu is untouched, and with a stored meal current, the detached dict is untouched |
| `MenuParsing.MenuParser.SetGroup` | princetonMenu.py:69-75 | updates the fields in place exactly as `GroupStep` says |
| `ParserState.RecipeStep` | princetonMenu.py:77-78 | fails exactly when no group was ever opened; otherwise the text is appended as it is to the designated list, and no other group, meal or field changes |
| `MenuParsing.MenuParser.SetRecipe` | princetonMenu.py:77-78 | appends in place exactly as `RecipeStep` says, or reports the failure and changes nothing |
| `ParserState.DataStep` | princetonMenu.py:80-84 | dispatches on the item alone: with no item, nothing changes; it fails only for a recipe with no group; it never changes the card flag, the level or the item; the menu only grows |
| `ParserState.TextIgnoresCard` | princetonMenu.py:80-84 | text has the same effect whether or not a card is open, so text after a card closes can still open groups and add recipes |
| `MenuParsing.MenuParser.HandleData` | princetonMenu.py:80-84 | updates the fields in place exactly as `DataStep` says |
| `ParserState.Step` | princetonMenu.py:34-84 | one callback keeps the invariant and only grows the menu; only recipe text can fail; inside a card only a `</div>` at level 0 leaves the card, and otherwise the level follows the `div` nesting |
| `MenuParsing.MenuParser.Handle` | princetonMenu.py:34-84 | makes the callback an event calls for, exactly as `Step` says |
| `ParserState.Run` | princetonMenu.py:94 | a whole run of callbacks keeps the invariant |
| `MenuParsing.MenuParser.Feed` | princetonMenu.py:94 | runs the callbacks in order and stops at the first failure; the final fields and the status are those `Run` gives |
| `ParserState.RunAppend` | princetonMenu.py:94 | feeding two pieces one after the other is feeding their concatenation |
| `ParserState.RunGrowsMenu` | princetonMenu.py:64-78 | over any run, every stored meal, group and recipe stays in its place, and new ones are only added after them |
| `ParserState.TagsOutsideCardInert` | princetonMenu.py:35-51 | outside a card, any run of tags without the card marker leaves the state exactly as it was |
| `ParserState.DivsKeepCardOpen` | princetonMenu.py:39-57 | inside a card, a run whose `div` nesting never falls below the card's own level keeps the card open, and the level ends at the starting level plus the net nesting |
| `ParserState.CardClosesAtMatchingDiv` | princetonMenu.py:50-57 | after the card's opening `div`, no prefix of a balanced run closes the card, and the next `</div>` closes it exactly when no failure stopped the run |
| `OrderedMaps.SetDefault` | princetonMenu.py:65-66 | `if k not in d: d[k] = v`: the key is present afterwards; an existing key keeps its value and the order stays; a new key goes last with the given value; no other entry changes |
| `OrderedMaps.Replace` | princetonMenu.py:78 | an in-place update of an existing key's value leaves the key order and every other entry as they were |
| `Interest.GetInterest` | princetonMenu.py:99-115 | the result is the reference `Matching` over the menu's meals in dict order; a bare string interest is searched as the one-element list `[term]`, and a list as itself |
| `Interest.ScanMeal` | princetonMenu.py:104-114 | the loop over a meal's groups, with its break, appends the meal exactly once when some group has a match, and otherwise changes nothing |
| `Interest.ScanGroup` | princetonMenu.py:105-112 | the loops over a group's recipes and the interests, with their breaks, append the meal exactly once when some recipe scores above 85 against some interest, and otherwise change nothing |
| `Interest.MatchingMembers` | princetonMenu.py:103-115 | a meal is in the result exactly when it is in the menu and some recipe of some group, with some interest, scores strictly above 85 |
| `Interest.MatchingInOrder` | princetonMenu.py:103-115 | the result lists meals in menu order |
| `Interest.MatchingDistinct` | princetonMenu.py:109-114 | no meal is listed twice |
| `Interest.MatchingAppend` | princetonMenu.py:103 | scanning a list of meals in two parts gives the two results concatenated |
| `Interest.MatchingEmpty` | princetonMenu.py:102-115 | an empty interest list, or a menu without meals, gives `[]` |

## Left out

- `getDiningHall` (princetonMenu.py:12-20) and `AllPUDining` (princetonMenu.py:86-97) fetch pages over the network and decode bytes. They are I/O drivers, so they are not modelled. The parser is fed an event sequence directly, which stands for the bytes `AllPUDining` decodes and tokenizes.
- The HTML tokenizer inside `HTMLParser.feed` is a library routine. It is replaced by a sequence of `Event`s, one per callback. How it splits text, lower-cases tag names, expands character references or handles self-closing tags is not modelled.
- `fuzz.partial_ratio` and `str.lower` are library routines. They are function parameters (`score`, `lower`) of `GetInterest`, and nothing is assumed about them.
- The `__main__` block (princetonMenu.py:118-123) only prints, so it is not modelled.
- `Interest.GetInterest`: the source has one function with four nested loops. The model keeps every loop and every break test verbatim, including `matchRes[-1] == meal`. The two innermost levels are moved into `ScanGroup` and the group level into `ScanMeal`, to keep each proof small.
- `Interest.GetInterest`: only a `str` and a list of strings are modelled as `interestList`. Other iterables that Python would also accept are not.
- `MenuParsing.MenuParser.Feed`: when a recipe arrives with no group, the model returns a failure status instead of raising. The state left behind is the same as in the source, because the failing `append` changes nothing.
