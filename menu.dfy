/**
 * The category sidebar (`loadCategories` and its click listener): one menu
 * item per category label, a "selected" flag per item, and the placeholder
 * item shown when no category was found. Loading the products of a category
 * is returned to the caller as the label to load; the page itself is not
 * modelled.
 */
module Menu {
  import opened Wrappers

  /** `n` flags, only the one at index `k` raised (none when `k >= n`). */
  function OnlyAt(n: nat, k: nat): (flags: seq<bool>)
    ensures |flags| == n
    ensures forall i :: 0 <= i < n ==> (flags[i] <==> i == k)
  {
    seq(n, i => i == k)
  }

  /** The number of raised flags. */
  function CountRaised(flags: seq<bool>): (c: nat)
    ensures c <= |flags|
    ensures c == 0 <==> forall i :: 0 <= i < |flags| ==> !flags[i]
  {
    if flags == [] then 0
    else (if flags[0] then 1 else 0) + CountRaised(flags[1..])
  }

  /** A menu of `n` items with item `k` selected has exactly one selected
      item, and none when there is no item `k`. */
  lemma {:induction false} OnlyAtRaisesOne(n: nat, k: nat)
    ensures CountRaised(OnlyAt(n, k)) == if k < n then 1 else 0
    decreases n
  {
    if n == 0 {
    } else if k == 0 {
      assert OnlyAt(n, k)[1..] == OnlyAt(n - 1, n);
      OnlyAtRaisesOne(n - 1, n);
    } else {
      assert OnlyAt(n, k)[1..] == OnlyAt(n - 1, k - 1);
      OnlyAtRaisesOne(n - 1, k - 1);
    }
  }

  class CategoryMenu {
    /** The label of each menu item, in order. */
    var labels: seq<string>
    /** Whether each menu item carries the `selected` class. */
    var selected: array<bool>
    /** Whether the menu shows the "No categories found" item instead. */
    var placeholder: bool

    ghost predicate Valid()
      reads this, selected
    {
      && selected.Length == |labels|
      && CountRaised(selected[..]) <= 1
      && (placeholder ==> labels == [])
    }

    constructor()
      ensures Valid() && labels == [] && !placeholder
      ensures fresh(selected)
    {
      labels := [];
      selected := new bool[0];
      placeholder := false;
    }

    /** Fills the menu from the fetched category labels: an item per label,
        the first selected and loaded; the placeholder when there is none. */
    method Populate(categories: seq<string>) returns (load: Option<string>)
      modifies this
      ensures Valid() && fresh(selected)
      ensures labels == categories
      ensures selected[..] == OnlyAt(|categories|, 0)
      ensures placeholder <==> categories == []
      ensures load == if categories == [] then None else Some(categories[0])
    {
      load := None;
      if |categories| > 0 {
        placeholder := false;
        labels := [];
        var flags := new bool[|categories|];
        var i := 0;
        while i < |categories|
          invariant 0 <= i <= |categories|
          invariant labels == categories[..i] && !placeholder
          invariant forall j :: 0 <= j < i ==> (flags[j] <==> j == 0)
          invariant load == if i == 0 then None else Some(categories[0])
        {
          labels := labels + [categories[i]];
          flags[i] := i == 0;
          if i == 0 {
            load := Some(categories[i]);
          }
          i := i + 1;
        }
        assert labels == categories;
        selected := flags;
      } else {
        labels := [];
        selected := new bool[0];
        placeholder := true;
      }
      assert selected[..] == OnlyAt(|categories|, 0);
      OnlyAtRaisesOne(|categories|, 0);
    }

    /** A click on the menu. `target` is the index of the clicked anchor, or
        None when the click landed on anything else; only a click on an
        anchor moves the selection to its item and loads its category. */
    method Click(target: Option<nat>) returns (load: Option<string>)
      requires Valid()
      requires target.Some? ==> target.value < |labels|
      modifies selected
      ensures Valid()
      ensures target.None? ==> load == None && selected[..] == old(selected[..])
      ensures target.Some? ==> load == Some(labels[target.value])
                               && selected[..] == OnlyAt(|labels|, target.value)
    {
      if target.None? {
        return None;
      }
      var k := target.value;
      var j := 0;
      while j < selected.Length
        invariant 0 <= j <= selected.Length
        invariant forall i :: 0 <= i < j ==> !selected[i]
      {
        selected[j] := false;
        j := j + 1;
      }
      selected[k] := true;
      load := Some(labels[k]);
      assert selected[..] == OnlyAt(|labels|, k);
      OnlyAtRaisesOne(|labels|, k);
    }
  }

  /** A page session in the sidebar: the menu is built, filled from the
      fetched categories, and the anchor of item `k` is clicked. The click
      leaves item `k` as the only selected item and loads its label, whichever
      item `Populate` selected. */
  method ClickAfterPopulate(categories: seq<string>, k: nat) returns (flags: seq<bool>, load: Option<string>)
    requires k < |categories|
    ensures flags == OnlyAt(|categories|, k)
    ensures CountRaised(flags) == 1
    ensures load == Some(categories[k])
  {
    var menu := new CategoryMenu();
    var first := menu.Populate(categories);
    load := menu.Click(Some(k));
    flags := menu.selected[..];
    OnlyAtRaisesOne(|categories|, k);
  }
}
