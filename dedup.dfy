/** The session-wide filter that decides which products of a category load
    are rendered: a set of ids seen so far, kept at module level for the whole
    page session and never cleared. */
module Dedup {
  import opened Wrappers
  import opened Links
  import opened Extraction

  /** A product id as the JavaScript `Set` stores it; None is null, which the
      set stores like any other value. */
  type Id = Option<string>

  /** The ids of a sequence of products. */
  function Ids(ps: seq<Product>): set<Id> {
    set i | 0 <= i < |ps| :: ps[i].id
  }

  /** The products that survive the filter, starting from the seen set
      `seen`: each product whose id was not seen before is kept, and its id is
      seen from then on. */
  function Kept(seen: set<Id>, ps: seq<Product>): (r: seq<Product>)
    ensures |r| <= |ps|
    ensures forall p :: p in r ==> p in ps
    decreases |ps|
  {
    if ps == [] then []
    else if ps[0].id in seen then Kept(seen, ps[1..])
    else [ps[0]] + Kept(seen + {ps[0].id}, ps[1..])
  }

  /** `a` is obtained from `b` by deleting elements. */
  ghost predicate IsSubsequence(a: seq<Product>, b: seq<Product>)
    decreases |b|
  {
    if a == [] then true
    else if b == [] then false
    else (a[0] == b[0] && IsSubsequence(a[1..], b[1..])) || IsSubsequence(a, b[1..])
  }

  /** Rendered products keep their relative order: they are a subsequence of
      the extracted products. */
  lemma {:induction false} KeptIsSubsequence(seen: set<Id>, ps: seq<Product>)
    ensures IsSubsequence(Kept(seen, ps), ps)
    decreases |ps|
  {
    if ps != [] {
      if ps[0].id in seen {
        KeptIsSubsequence(seen, ps[1..]);
        var k := Kept(seen, ps[1..]);
        if k != [] { assert IsSubsequence(k, ps[1..]); }
      } else {
        KeptIsSubsequence(seen + {ps[0].id}, ps[1..]);
        var k := [ps[0]] + Kept(seen + {ps[0].id}, ps[1..]);
        assert k[1..] == Kept(seen + {ps[0].id}, ps[1..]);
      }
    }
  }

  /** No rendered id was seen before. */
  lemma {:induction false} KeptIdsFresh(seen: set<Id>, ps: seq<Product>)
    ensures forall p :: p in Kept(seen, ps) ==> p.id !in seen
    decreases |ps|
  {
    if ps != [] {
      if ps[0].id in seen {
        KeptIdsFresh(seen, ps[1..]);
      } else {
        KeptIdsFresh(seen + {ps[0].id}, ps[1..]);
      }
    }
  }

  /** No two products of `ps` share an id. */
  predicate DistinctIds(ps: seq<Product>) {
    forall i, j :: 0 <= i < j < |ps| ==> ps[i].id != ps[j].id
  }

  /** No id is rendered twice in one load, null included. */
  lemma {:induction false} KeptIdsDistinct(seen: set<Id>, ps: seq<Product>)
    ensures DistinctIds(Kept(seen, ps))
    decreases |ps|
  {
    if ps != [] {
      if ps[0].id in seen {
        KeptIdsDistinct(seen, ps[1..]);
        assert Kept(seen, ps) == Kept(seen, ps[1..]);
      } else {
        var tail := Kept(seen + {ps[0].id}, ps[1..]);
        KeptIdsDistinct(seen + {ps[0].id}, ps[1..]);
        KeptIdsFresh(seen + {ps[0].id}, ps[1..]);
        var k := [ps[0]] + tail;
        assert Kept(seen, ps) == k;
        assert DistinctIds(tail);
        forall i, j | 0 <= i < j < |k| ensures k[i].id != k[j].id {
          assert k[j] == tail[j - 1];
          assert tail[j - 1] in tail;
          assert tail[j - 1].id !in seen + {ps[0].id};
          if i > 0 {
            assert k[i] == tail[i - 1];
          } else {
            assert k[i] == ps[0];
          }
        }
      }
    }
  }

  /** The rendered ids are exactly the extracted ids that were not seen
      before. */
  lemma {:induction false} KeptIdsComplete(seen: set<Id>, ps: seq<Product>)
    ensures Ids(Kept(seen, ps)) == Ids(ps) - seen
    decreases |ps|
  {
    if ps == [] {
      assert Ids(ps) == {};
    } else {
      var rest := ps[1..];
      assert Ids(ps) == {ps[0].id} + Ids(rest) by {
        forall x | x in Ids(ps) ensures x in {ps[0].id} + Ids(rest) {
          var i :| 0 <= i < |ps| && ps[i].id == x;
          if i > 0 { assert rest[i - 1].id == x; }
        }
        forall x | x in Ids(rest) ensures x in Ids(ps) {
          var i :| 0 <= i < |rest| && rest[i].id == x;
          assert ps[i + 1].id == x;
        }
      }
      if ps[0].id in seen {
        KeptIdsComplete(seen, rest);
      } else {
        KeptIdsComplete(seen + {ps[0].id}, rest);
        var tail := Kept(seen + {ps[0].id}, rest);
        var k := [ps[0]] + tail;
        assert Ids(k) == {ps[0].id} + Ids(tail) by {
          forall x | x in Ids(k) ensures x in {ps[0].id} + Ids(tail) {
            var i :| 0 <= i < |k| && k[i].id == x;
            if i > 0 { assert tail[i - 1].id == x; }
          }
          forall x | x in Ids(tail) ensures x in Ids(k) {
            var i :| 0 <= i < |tail| && tail[i].id == x;
            assert k[i + 1].id == x;
          }
          assert k[0].id == ps[0].id;
        }
      }
    }
  }

  /** The first occurrence of every id not seen before is rendered. Together
      with the two lemmas above: for each such id exactly one product is
      rendered, the one at its first occurrence. */
  lemma {:induction false} KeptFirstOccurrence(seen: set<Id>, ps: seq<Product>, i: nat)
    requires i < |ps| && ps[i].id !in seen
    requires forall j :: 0 <= j < i ==> ps[j].id != ps[i].id
    ensures ps[i] in Kept(seen, ps)
    decreases |ps|
  {
    if i == 0 {
      assert Kept(seen, ps)[0] == ps[0];
    } else {
      var rest := ps[1..];
      var seen' := if ps[0].id in seen then seen else seen + {ps[0].id};
      assert rest[i - 1] == ps[i];
      KeptFirstOccurrence(seen', rest, i - 1);
      assert Kept(seen', rest) <= Kept(seen, ps) || Kept(seen, ps) == [ps[0]] + Kept(seen', rest);
    }
  }

  /** An independent, index-based reference for the filter: walking the
      products in order, the product at index `i` is rendered exactly when
      its id is neither in `seen` nor carried by a product before `i`. It is
      defined from the back, one index at a time. */
  function FirstFresh(seen: set<Id>, ps: seq<Product>): (r: seq<Product>)
    ensures |r| <= |ps|
    decreases |ps|
  {
    if ps == [] then []
    else
      var init, last := ps[..|ps| - 1], ps[|ps| - 1];
      FirstFresh(seen, init) + (if last.id in seen || last.id in Ids(init) then [] else [last])
  }

  /** The ids of a non-empty sequence: its head's id and the ids of its tail. */
  lemma IdsCons(ps: seq<Product>)
    requires ps != []
    ensures Ids(ps) == {ps[0].id} + Ids(ps[1..])
  {
    forall x | x in Ids(ps) ensures x in {ps[0].id} + Ids(ps[1..]) {
      var j :| 0 <= j < |ps| && ps[j].id == x;
      if j > 0 { assert ps[1..][j - 1].id == x; }
    }
    forall x | x in Ids(ps[1..]) ensures x in Ids(ps) {
      var j :| 0 <= j < |ps[1..]| && ps[1..][j].id == x;
      assert ps[j + 1].id == x;
    }
    assert ps[0].id in Ids(ps);
  }

  /** A product appended to a load is rendered exactly when its id is neither
      seen before the load nor carried by an earlier product of the load; the
      products before it render as they did without it. */
  lemma {:induction false} KeptAppend(seen: set<Id>, ps: seq<Product>, p: Product)
    ensures Kept(seen, ps + [p]) ==
            Kept(seen, ps) + (if p.id in seen || p.id in Ids(ps) then [] else [p])
    decreases |ps|
  {
    var a := ps + [p];
    if ps == [] {
      assert a == [p] && a[1..] == [];
      assert Ids(ps) == {};
    } else {
      assert a[0] == ps[0] && a[1..] == ps[1..] + [p];
      IdsCons(ps);
      var seen' := if ps[0].id in seen then seen else seen + {ps[0].id};
      KeptAppend(seen', ps[1..], p);
      assert (p.id in seen' || p.id in Ids(ps[1..])) == (p.id in seen || p.id in Ids(ps));
    }
  }

  /** The filter equals the index-based reference: every rendered product
      sits in the position of its first occurrence, in load order. */
  lemma {:induction false} KeptIsFirstFresh(seen: set<Id>, ps: seq<Product>)
    ensures Kept(seen, ps) == FirstFresh(seen, ps)
    decreases |ps|
  {
    if ps != [] {
      var init, last := ps[..|ps| - 1], ps[|ps| - 1];
      assert ps == init + [last];
      KeptAppend(seen, init, last);
      KeptIsFirstFresh(seen, init);
    }
  }

  /** A card listed twice, with another card in between, renders once, in
      the position of its first listing. */
  lemma RepeatKeepsFirstPosition(a: Product, b: Product)
    requires a.id != b.id
    ensures Kept({}, [a, b, a]) == [a, b]
  {
    KeptAppend({}, [a, b], a);
    KeptOfTwo(a, b);
    assert [a, b] + [a] == [a, b, a];
    assert a.id in Ids([a, b]) by { assert [a, b][0].id == a.id; }
  }

  /** A load whose products were all seen before renders nothing. */
  lemma AllSeenRendersNothing(seen: set<Id>, ps: seq<Product>)
    requires Ids(ps) <= seen
    ensures Kept(seen, ps) == []
  {
    KeptIdsComplete(seen, ps);
  }

  /** Because the seen set is never cleared, a later load never renders an id
      rendered by an earlier one: a product listed under two categories is
      shown only under the first one loaded. */
  lemma LaterLoadSkipsEarlierIds(seen: set<Id>, first: seq<Product>, second: seq<Product>)
    ensures Ids(Kept(seen, first)) !! Ids(Kept(seen + Ids(first), second))
  {
    KeptIdsComplete(seen, first);
    KeptIdsComplete(seen + Ids(first), second);
  }

  /** Every category URL requests the same store page, so a second load of
      that page, with the seen set the first load left, renders nothing. */
  lemma RepeatedPageRendersNothing(seen: set<Id>, fetched: Option<seq<Card>>)
    ensures var ps := ProductsForCategory(fetched);
            Kept(seen + Ids(ps), ps) == []
  {
    var ps := ProductsForCategory(fetched);
    AllSeenRendersNothing(seen + Ids(ps), ps);
  }

  /** The filter on two products from an empty seen set. */
  lemma KeptOfTwo(p1: Product, p2: Product)
    ensures Kept({}, [p1, p2]) == if p1.id == p2.id then [p1] else [p1, p2]
  {
    assert [p1, p2][1..] == [p2];
    assert [p2][1..] == [];
    var none: set<Id> := {};
    assert none + {p1.id} == {p1.id};
    assert Kept({}, [p1, p2]) == [p1] + Kept({p1.id}, [p2]);
    assert Kept({p1.id} + {p2.id}, []) == [];
    assert Kept({p1.id}, []) == [];
  }

  /** Two cards without an anchor both get the null id; the JavaScript `Set`
      holds null like any other value, so only the first of them is
      rendered. */
  lemma AnchorlessCardsRenderOnce(c1: Card, c2: Card)
    requires c1.anchorHref.None? && c2.anchorHref.None?
    ensures Kept({}, ProductsFromCards([c1, c2])) == [ProductFromCard(c1)]
  {
    var ps := ProductsFromCards([c1, c2]);
    assert ps == [ProductFromCard(c1), ProductFromCard(c2)];
    KeptOfTwo(ps[0], ps[1]);
  }

  /** Two cards of a listing that link to the same product, the second with
      a query string. */
  const FirstListed := Card(Some(StoreHost + "/l/" + "x1" + ""), None, Some("Kick Pack"), Some("$9"))
  const ListedAgain := Card(Some(StoreHost + "/l/" + "x1" + "?dup=1"), None, Some("Kick Pack Dup"), Some("$9"))

  lemma ListedCardsShareId()
    ensures ProductFromCard(FirstListed).id == ProductFromCard(ListedAgain).id == Some("x1")
  {
    IdAfterHost(StoreHost, "x1", "");
    IdAfterHost(StoreHost, "x1", "?dup=1");
  }

  /** Two cards that link to the same product id are rendered once: only the
      first, "Kick Pack" at "$9". */
  lemma DuplicateIdRenderedOnce()
    ensures var shown := Kept({}, ProductsFromCards([FirstListed, ListedAgain]));
            |shown| == 1 && shown[0].name == "Kick Pack" && shown[0].price == "$9"
  {
    var p1, p2 := ProductFromCard(FirstListed), ProductFromCard(ListedAgain);
    ListedCardsShareId();
    CardPrefersHeading(FirstListed);
    KeptOfTwo(p1, p2);
    assert ProductsFromCards([FirstListed, ListedAgain]) == [p1, p2];
  }

  /** Appending a product adds its id. */
  lemma IdsAppend(ps: seq<Product>, p: Product)
    ensures Ids(ps + [p]) == Ids(ps) + {p.id}
  {
    var a := ps + [p];
    forall x | x in Ids(a) ensures x in Ids(ps) + {p.id} {
      var j :| 0 <= j < |a| && a[j].id == x;
      if j < |ps| { assert ps[j].id == x; }
    }
    assert a[|ps|].id == p.id;
    forall x | x in Ids(ps) ensures x in Ids(a) {
      var j :| 0 <= j < |ps| && ps[j].id == x;
      assert a[j].id == x;
    }
  }

  /** One step of the filter, as the loop in `loadProducts` takes it. */
  lemma KeptStep(seen: set<Id>, ps: seq<Product>, i: nat)
    requires i < |ps|
    ensures Kept(seen, ps[i..]) == if ps[i].id in seen then Kept(seen, ps[i + 1..])
                                   else [ps[i]] + Kept(seen + {ps[i].id}, ps[i + 1..])
  {
    assert ps[i..][1..] == ps[i + 1..];
  }

  /** What `loadProducts` leaves in the product row. */
  datatype Row =
    | NoProductsMessage          // "No products available for this category."
    | Cards(shown: seq<Product>) // one rendered card per product, in order

  /** The page session: the set of product ids displayed so far. */
  class DisplaySession {
    var seen: set<Id>

    /** The page loads with nothing displayed. */
    constructor ()
      ensures seen == {}
    {
      seen := {};
    }

    /** `loadProducts`: given what the fetch of the category page returned,
        render the products not seen before, in order, and remember their
        ids. The message appears only when extraction found no product at
        all; a load whose products were all seen before leaves the row
        empty. */
    method LoadProducts(fetched: Option<seq<Card>>) returns (row: Row)
      modifies this
      ensures var ps := ProductsForCategory(fetched);
              && seen == old(seen) + Ids(ps)
              && row == (if ps == [] then NoProductsMessage else Cards(Kept(old(seen), ps)))
    {
      var products := ProductsForCategory(fetched);
      if |products| > 0 {
        var rendered := Screen(products);
        row := Cards(rendered);
      } else {
        row := NoProductsMessage;
      }
    }

    /** The `products.forEach` loop of `loadProducts`: skip a product whose id
        is in the seen set, otherwise add its id and render it. */
    method Screen(products: seq<Product>) returns (rendered: seq<Product>)
      modifies this
      ensures seen == old(seen) + Ids(products)
      ensures rendered == Kept(old(seen), products)
    {
      rendered := [];
      var i := 0;
      while i < |products|
        invariant 0 <= i <= |products|
        invariant seen == old(seen) + Ids(products[..i])
        invariant rendered + Kept(seen, products[i..]) == Kept(old(seen), products)
      {
        var product := products[i];
        assert products[..i + 1] == products[..i] + [product];
        IdsAppend(products[..i], product);
        KeptStep(seen, products, i);
        if product.id !in seen {
          ghost var rest := Kept(seen + {product.id}, products[i + 1..]);
          assert rendered + Kept(seen, products[i..]) == (rendered + [product]) + rest;
          seen := seen + {product.id};
          rendered := rendered + [product];
        }
        i := i + 1;
      }
      assert products[..i] == products;
    }
  }
}
