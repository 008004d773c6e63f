/** The nested structure `MenuParser` builds: meal name -> group name ->
    recipe names in document order, each level an insertion-ordered dict. */
module MenuTree {
  import opened OrderedMaps

  /** One meal's groups: group name -> its recipes, in the order seen. */
  type Groups = OrdMap<string, seq<string>>

  /** The parser's `menu`: meal name -> that meal's groups. */
  type Menu = OrdMap<string, Groups>

  /** Both levels are proper dicts. */
  ghost predicate WellFormed(menu: Menu) {
    menu.Valid() && forall m :: m in menu.entries ==> menu.entries[m].Valid()
  }

  /** `b` is `a` after additions only: new groups after the old ones, and every
      old recipe list a prefix of its new value. */
  ghost predicate GroupsExtend(a: Groups, b: Groups) {
    && a.keys <= b.keys
    && forall g :: g in a.entries ==> g in b.entries && a.entries[g] <= b.entries[g]
  }

  /** `b` is `a` after additions only, at both levels. */
  ghost predicate MenuExtends(a: Menu, b: Menu) {
    && a.keys <= b.keys
    && forall m :: m in a.entries ==> m in b.entries && GroupsExtend(a.entries[m], b.entries[m])
  }

  lemma MenuExtendsReflexive(a: Menu)
    ensures MenuExtends(a, a)
  {
  }

  lemma MenuExtendsTransitive(a: Menu, b: Menu, c: Menu)
    requires MenuExtends(a, b) && MenuExtends(b, c)
    ensures MenuExtends(a, c)
  {
    forall m | m in a.entries
      ensures m in c.entries && GroupsExtend(a.entries[m], c.entries[m])
    {
      var ga, gb, gc := a.entries[m], b.entries[m], c.entries[m];
      assert GroupsExtend(ga, gb) && GroupsExtend(gb, gc);
      forall g | g in ga.entries
        ensures g in gc.entries && ga.entries[g] <= gc.entries[g]
      {
        assert ga.entries[g] <= gb.entries[g] <= gc.entries[g];
      }
    }
  }
}
