/** The shopping-list query of `download_shopping_cart`: the ingredient rows
    of every recipe in the user's cart, grouped by ingredient name and
    measurement unit with their amounts summed, ordered by name. */
module Shopping {
  import opened Seqs
  import opened Sorting
  import opened Text
  import opened Links
  import opened Models

  /** One ingredient row of a carted recipe, joined with its ingredient. */
  datatype Item = Item(name: string, unit: string, amount: int)

  /** One row of the grouped query: name, unit and the summed amount. */
  datatype Entry = Entry(name: string, unit: string, total: int)

  type Key = (string, string)

  function ItemKey(it: Item): Key { (it.name, it.unit) }

  function EntryKey(e: Entry): Key { (e.name, e.unit) }

  /** `IngredientRecipe.objects.filter(recipe__shopping_cart__user=user)`:
      the rows whose recipe the user has carted, in table order. */
  function CartRows(rows: seq<IngredientRecipe>, carts: seq<Link>, user: UserId): (r: seq<IngredientRecipe>)
    ensures forall row :: row in r <==> row in rows && Link(user, row.recipe) in carts
  {
    Filter(rows, (row: IngredientRecipe) => Exists(carts, user, row.recipe))
  }

  /** `.values('ingredient__name', 'ingredient__measurement_unit')` with the amount kept. */
  function Items(rows: seq<IngredientRecipe>, ingredients: map<IngredientId, Ingredient>): (r: seq<Item>)
    requires forall row :: row in rows ==> row.ingredient in ingredients
    ensures |r| == |rows|
    ensures forall i :: 0 <= i < |rows| ==>
              r[i] == Item(ingredients[rows[i].ingredient].name, ingredients[rows[i].ingredient].unit, rows[i].amount)
  {
    if rows == [] then []
    else [Item(ingredients[rows[0].ingredient].name, ingredients[rows[0].ingredient].unit, rows[0].amount)]
         + Items(rows[1..], ingredients)
  }

  /** The reference meaning of `Sum('amount')` for one group: the amounts of
      the items with key `k`, added up. */
  function Total(items: seq<Item>, k: Key): int {
    if items == [] then 0
    else Total(items[..|items| - 1], k) + (if ItemKey(items[|items| - 1]) == k then items[|items| - 1].amount else 0)
  }

  /** The total recorded for key `k` in a list of groups, 0 when absent. */
  function TotalOf(es: seq<Entry>, k: Key): int {
    if es == [] then 0
    else if EntryKey(es[0]) == k then es[0].total
    else TotalOf(es[1..], k)
  }

  predicate DistinctKeys(es: seq<Entry>) {
    forall i, j :: 0 <= i < j < |es| ==> EntryKey(es[i]) != EntryKey(es[j])
  }

  /** Adds one item to its group, or opens a new group at the end. */
  function AddItem(es: seq<Entry>, it: Item): seq<Entry> {
    if es == [] then [Entry(it.name, it.unit, it.amount)]
    else if EntryKey(es[0]) == ItemKey(it) then [es[0].(total := es[0].total + it.amount)] + es[1..]
    else [es[0]] + AddItem(es[1..], it)
  }

  /** GROUP BY (name, unit): groups in order of first appearance. */
  function Group(items: seq<Item>): seq<Entry> {
    if items == [] then [] else AddItem(Group(items[..|items| - 1]), items[|items| - 1])
  }

  /** ORDER BY name: code-point order, SQLite's default collation. */
  function NameLe(): (Entry, Entry) -> bool {
    (a: Entry, b: Entry) => LexLe(a.name, b.name)
  }

  /** The items the query reads for `user`. */
  function CartItems(t: Tables, user: UserId): seq<Item>
    requires t.Valid()
  {
    Items(CartRows(t.ingredientRows, t.carts, user), t.ingredients)
  }

  /** The whole query: join, group, sum, order. */
  function ShoppingList(t: Tables, user: UserId): seq<Entry>
    requires t.Valid()
  {
    SortBy(Group(CartItems(t, user)), NameLe())
  }

  /** The (name, unit) keys present in a list of groups or of items. */
  function KeySet(es: seq<Entry>): set<Key> {
    set e | e in es :: EntryKey(e)
  }

  function ItemKeySet(items: seq<Item>): set<Key> {
    set it | it in items :: ItemKey(it)
  }

  lemma {:induction false} AddItemKeys(es: seq<Entry>, it: Item)
    ensures KeySet(AddItem(es, it)) == KeySet(es) + {ItemKey(it)}
  {
    var r := AddItem(es, it);
    if es == [] {
      assert r[0] in r;
    } else if EntryKey(es[0]) != ItemKey(it) {
      AddItemKeys(es[1..], it);
      assert es == [es[0]] + es[1..];
      assert r == [es[0]] + AddItem(es[1..], it);
      forall k | k in KeySet(r) ensures k in KeySet(es) + {ItemKey(it)} {
        var e :| e in r && EntryKey(e) == k;
        if e != es[0] {
          assert e in AddItem(es[1..], it);
          assert k in KeySet(AddItem(es[1..], it));
        }
      }
      forall k | k in KeySet(es) + {ItemKey(it)} ensures k in KeySet(r) {
        if k == ItemKey(it) {
          assert k in KeySet(AddItem(es[1..], it));
          var e :| e in AddItem(es[1..], it) && EntryKey(e) == k;
          assert e in r;
        } else {
          var e :| e in es && EntryKey(e) == k;
          if e != es[0] {
            assert e in es[1..];
            assert k in KeySet(AddItem(es[1..], it));
            var d :| d in AddItem(es[1..], it) && EntryKey(d) == k;
            assert d in r;
          }
        }
      }
    } else {
      assert es == [es[0]] + es[1..] && r == [r[0]] + es[1..];
      forall k | k in KeySet(r) ensures k in KeySet(es) {
        var e :| e in r && EntryKey(e) == k;
        if e != r[0] {
          assert e in es;
        }
      }
      forall k | k in KeySet(es) ensures k in KeySet(r) {
        var e :| e in es && EntryKey(e) == k;
        if e != es[0] {
          assert e in r;
        } else {
          assert r[0] in r;
        }
      }
    }
  }

  /** The first entry's key occurs nowhere else in a list with distinct keys. */
  lemma HeadKeyUnique(es: seq<Entry>)
    requires DistinctKeys(es) && es != []
    ensures EntryKey(es[0]) !in KeySet(es[1..])
  {
    forall e | e in es[1..] ensures EntryKey(e) != EntryKey(es[0]) {
      var j :| 0 <= j < |es[1..]| && es[1..][j] == e;
      assert e == es[j + 1];
    }
  }

  lemma {:induction false} AddItemDistinct(es: seq<Entry>, it: Item)
    requires DistinctKeys(es)
    ensures DistinctKeys(AddItem(es, it))
  {
    var r := AddItem(es, it);
    if es != [] && EntryKey(es[0]) != ItemKey(it) {
      var rest := AddItem(es[1..], it);
      assert DistinctKeys(rest) by {
        AddItemDistinct(es[1..], it);
      }
      assert EntryKey(es[0]) !in KeySet(rest) by {
        AddItemKeys(es[1..], it);
        HeadKeyUnique(es);
      }
      assert r == [es[0]] + rest;
      forall i, j | 0 <= i < j < |r| ensures EntryKey(r[i]) != EntryKey(r[j]) {
        assert r[j] == rest[j - 1];
        if i == 0 {
          assert r[j] in rest;
        } else {
          assert r[i] == rest[i - 1];
        }
      }
    } else if es != [] {
      forall i, j | 0 <= i < j < |r| ensures EntryKey(r[i]) != EntryKey(r[j]) {
        assert EntryKey(r[i]) == EntryKey(es[i]) && EntryKey(r[j]) == EntryKey(es[j]);
      }
    }
  }

  lemma {:induction false} AddItemTotal(es: seq<Entry>, it: Item, k: Key)
    ensures TotalOf(AddItem(es, it), k) == TotalOf(es, k) + (if ItemKey(it) == k then it.amount else 0)
  {
    if es != [] && EntryKey(es[0]) != ItemKey(it) {
      AddItemTotal(es[1..], it, k);
    }
  }

  /** The grouped rows carry exactly the keys of the items, each once, each
      with the sum of its items' amounts. */
  lemma {:induction false} GroupSpec(items: seq<Item>)
    ensures DistinctKeys(Group(items))
    ensures forall k :: TotalOf(Group(items), k) == Total(items, k)
    ensures KeySet(Group(items)) == ItemKeySet(items)
  {
    if items != [] {
      var init, last := items[..|items| - 1], items[|items| - 1];
      var g := Group(init);
      GroupSpec(init);
      assert DistinctKeys(Group(items)) by {
        AddItemDistinct(g, last);
      }
      forall k ensures TotalOf(Group(items), k) == Total(items, k) {
        AddItemTotal(g, last, k);
      }
      assert KeySet(Group(items)) == ItemKeySet(items) by {
        AddItemKeys(g, last);
        assert items == init + [last];
        assert ItemKeySet(items) == ItemKeySet(init) + {ItemKey(last)};
      }
    }
  }

  /** With distinct keys, the total looked up by an entry's key is its own. */
  lemma {:induction false} TotalOfMember(es: seq<Entry>, i: nat)
    requires DistinctKeys(es) && i < |es|
    ensures TotalOf(es, EntryKey(es[i])) == es[i].total
  {
    if i > 0 {
      assert EntryKey(es[0]) != EntryKey(es[i]);
      TotalOfMember(es[1..], i - 1);
    }
  }

  /** Every group's sum is at least one item's amount, so at least 1. */
  lemma {:induction false} TotalPositive(items: seq<Item>, k: Key)
    requires forall it :: it in items ==> it.amount >= MinAmount
    requires k in ItemKeySet(items)
    ensures Total(items, k) >= MinAmount
  {
    var init, last := items[..|items| - 1], items[|items| - 1];
    assert items == init + [last];
    TotalNonNegative(init, k);
    if ItemKey(last) != k {
      var it :| it in items && ItemKey(it) == k;
      assert it in init;
      TotalPositive(init, k);
    }
  }

  lemma {:induction false} TotalNonNegative(items: seq<Item>, k: Key)
    requires forall it :: it in items ==> it.amount >= MinAmount
    ensures Total(items, k) >= 0
  {
    if items != [] {
      var init := items[..|items| - 1];
      assert forall it :: it in init ==> it in items;
      TotalNonNegative(init, k);
    }
  }

  lemma NameLeTotalPreorder()
    ensures TotalPreorder(NameLe())
  {
    forall a: Entry, b: Entry ensures NameLe()(a, b) || NameLe()(b, a) {
      LexTotal(a.name, b.name);
    }
    forall a: Entry, b: Entry, c: Entry | NameLe()(a, b) && NameLe()(b, c) ensures NameLe()(a, c) {
      LexTransitive(a.name, b.name, c.name);
    }
  }

  /** Every row read by the query has a positive amount. */
  lemma CartItemsPositive(t: Tables, user: UserId)
    requires t.Valid()
    ensures forall it :: it in CartItems(t, user) ==> it.amount >= MinAmount
  {
    var rows := CartRows(t.ingredientRows, t.carts, user);
    var items := CartItems(t, user);
    forall it | it in items ensures it.amount >= MinAmount {
      var i :| 0 <= i < |items| && items[i] == it;
      assert rows[i] in rows;
    }
  }

  /** A user with nothing in the cart reads no rows. */
  lemma EmptyCartItems(t: Tables, user: UserId)
    requires t.Valid()
    requires forall l :: l in t.carts ==> l.user != user
    ensures CartItems(t, user) == []
  {
    var inCart := (row: IngredientRecipe) => Exists(t.carts, user, row.recipe);
    FilterNone(t.ingredientRows, inCart);
  }

  /** Sorting keeps exactly the same groups. */
  lemma SortedGroupsSame(groups: seq<Entry>)
    ensures forall e :: e in SortBy(groups, NameLe()) <==> e in groups
  {
    SortPermutation(groups, NameLe());
    forall e ensures e in SortBy(groups, NameLe()) <==> e in groups {
      assert e in SortBy(groups, NameLe()) <==> e in multiset(SortBy(groups, NameLe()));
      assert e in groups <==> e in multiset(groups);
    }
  }

  /** The shopping list is ordered by name; each (name, unit) appears once;
      its keys are exactly those of the ingredient rows of the carted
      recipes; each total is the sum of those rows' amounts and is at
      least 1; an empty cart gives an empty list. */
  lemma ShoppingListSpec(t: Tables, user: UserId)
    requires t.Valid()
    ensures SortedBy(ShoppingList(t, user), NameLe())
    ensures DistinctKeys(ShoppingList(t, user))
    ensures forall e :: e in ShoppingList(t, user) ==>
              e.total == Total(CartItems(t, user), EntryKey(e)) && e.total >= MinAmount
    ensures KeySet(ShoppingList(t, user)) == ItemKeySet(CartItems(t, user))
    ensures (forall l :: l in t.carts ==> l.user != user) ==> ShoppingList(t, user) == []
  {
    var items := CartItems(t, user);
    var groups := Group(items);
    var list := ShoppingList(t, user);
    NameLeTotalPreorder();
    SortSorted(groups, NameLe());
    GroupSpec(items);
    SortKeepsDistinctKeys(groups, NameLe(), EntryKey);
    SortedGroupsSame(groups);
    assert KeySet(list) == KeySet(groups);
    CartItemsPositive(t, user);
    forall e | e in list ensures e.total == Total(items, EntryKey(e)) && e.total >= MinAmount {
      var i :| 0 <= i < |groups| && groups[i] == e;
      TotalOfMember(groups, i);
      TotalPositive(items, EntryKey(e));
    }
    if forall l :: l in t.carts ==> l.user != user {
      EmptyCartItems(t, user);
    }
  }
}
