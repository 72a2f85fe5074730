/** The orders in which the hash maps of the structs yield their keys, and for which of them no struct
    below a given one loses an alias. */
module Orders {
  import opened Wrappers
  import opened Graph
  import opened Content
  import opened Inflation
  import opened Duplicates

  /** An order of the keys of every struct. */
  ghost predicate Ordered(f: Fields, orders: map<Id, seq<Key>>) {
    forall x :: x in f ==> x in orders && Enumerates(orders[x], f[x].Keys)
  }

  /** No struct reached from `s`, itself included, has a late visit in its order. */
  ghost predicate AllClean(f: Fields, orders: map<Id, seq<Key>>, s: Id)
    requires Ordered(f, orders)
  {
    forall x :: x in f && x in Reached(f, {s}) ==> Clean(f[x], orders[x])
  }

  ghost predicate CleanElem(f: Fields, orders: map<Id, seq<Key>>, e: Elem)
    requires Ordered(f, orders)
  {
    e.Ref? ==> AllClean(f, orders, e.id)
  }

  /** The keys of `m` below which nothing is lost. */
  ghost function CleanKeys(f: Fields, orders: map<Id, seq<Key>>, m: map<Key, Elem>): set<Key>
    requires Ordered(f, orders)
  {
    set k | k in m && CleanElem(f, orders, m[k])
  }

  lemma ReachedTrans(fields: Fields, s: Id, o: Id)
    requires o in Reached(fields, {s})
    ensures Reached(fields, {o}) <= Reached(fields, {s})
  {
    hide Reached;
    ReachedHoldsAll(fields, {s});
    ReachedLeast(fields, {o}, Reached(fields, {s}));
  }

  lemma HeldIsReached(fields: Fields, s: Id, k: Key)
    requires s in fields && k in fields[s] && fields[s][k].Ref?
    ensures fields[s][k].id in Reached(fields, {s})
  {
    hide Reached;
    ReachedHoldsAll(fields, {s});
    assert HeldFrom(fields, s, k, fields[s][k].id);
  }

  ghost predicate ReachedThrough(fields: Fields, s: Id, k: Key, o: Id) {
    s in fields && k in fields[s] && fields[s][k].Ref? && o in Reached(fields, {fields[s][k].id})
  }

  /** What is reached from a struct is the struct or reached from something it holds. */
  lemma ReachedSplit(fields: Fields, s: Id, o: Id)
    requires o in Reached(fields, {s}) && o != s
    ensures exists k :: ReachedThrough(fields, s, k, o)
  {
    hide Reached;
    var z := set x | x in Reached(fields, {s}) && (x == s || exists k :: ReachedThrough(fields, s, k, x));
    ReachedHoldsAll(fields, {s});
    forall x, j, y | x in z && HeldFrom(fields, x, j, y)
      ensures y in z
    {
      if x == s {
        ReachedHoldsAll(fields, {y});
        assert ReachedThrough(fields, s, j, y);
      } else {
        var k :| ReachedThrough(fields, s, k, x);
        ReachedHoldsAll(fields, {fields[s][k].id});
        assert ReachedThrough(fields, s, k, y);
      }
    }
    ReachedLeast(fields, {s}, z);
  }

  /** A struct is free of late visits when its own order is clean and everything it holds is. */
  lemma AllCleanSplit(f: Fields, orders: map<Id, seq<Key>>, s: Id)
    requires Ordered(f, orders) && s in f
    ensures AllClean(f, orders, s) <==> Clean(f[s], orders[s]) && f[s].Keys <= CleanKeys(f, orders, f[s])
  {
    hide Reached, Clean;
    ReachedHoldsAll(f, {s});
    if AllClean(f, orders, s) {
      forall k | k in f[s]
        ensures CleanElem(f, orders, f[s][k])
      {
        if f[s][k].Ref? {
          HeldIsReached(f, s, k);
          ReachedTrans(f, s, f[s][k].id);
        }
      }
    }
    if Clean(f[s], orders[s]) && f[s].Keys <= CleanKeys(f, orders, f[s]) {
      forall x | x in f && x in Reached(f, {s})
        ensures Clean(f[x], orders[x])
      {
        if x != s {
          ReachedSplit(f, s, x);
          var k :| ReachedThrough(f, s, k, x);
          assert CleanElem(f, orders, f[s][k]);
        }
      }
    }
  }

  /** A leaf holds nothing. */
  lemma LeafClean(f: Fields, orders: map<Id, seq<Key>>, o: Id)
    requires Ordered(f, orders) && o !in f
    ensures AllClean(f, orders, o)
  {
    hide Ordered, Clean;
    assert HeldBy(f, {o}) == {};
  }

  /** Every struct reached from `s` holds at most 16 objects or none twice. */
  ghost predicate AllGroupable(f: Fields, s: Id) {
    forall x :: x in f && x in Reached(f, {s}) ==> Groupable(f[x])
  }

  lemma GroupableIsClean(f: Fields, orders: map<Id, seq<Key>>, s: Id)
    requires Ordered(f, orders) && AllGroupable(f, s)
    ensures AllClean(f, orders, s)
  {
    hide Reached, Clean, Groupable;
    forall x | x in f && x in Reached(f, {s})
      ensures Clean(f[x], orders[x])
    {
      EveryOrderCleanIff(f[x]);
    }
  }

  lemma SomeOrders(f: Fields) returns (orders: map<Id, seq<Key>>)
    ensures Ordered(f, orders)
  {
    orders := map x | x in f :: Listing(f[x].Keys);
  }

  /** No order of the keys of the structs reached leads to a late visit exactly when each of these
      structs holds at most 16 objects or none twice. */
  lemma EveryOrderIff(f: Fields, s: Id)
    ensures (forall orders :: Ordered(f, orders) ==> AllClean(f, orders, s))
              <==> forall x :: x in f && x in Reached(f, {s}) ==> |Objects(f[x])| <= 16 || HeldOnce(f[x])
  {
    hide Reached, Clean, Objects, HeldOnce;
    if AllGroupable(f, s) {
      forall orders | Ordered(f, orders)
        ensures AllClean(f, orders, s)
      {
        GroupableIsClean(f, orders, s);
      }
    } else {
      var x :| x in f && x in Reached(f, {s}) && !Groupable(f[x]);
      EveryOrderCleanIff(f[x]);
      var order :| Enumerates(order, f[x].Keys) && !Clean(f[x], order);
      var some := SomeOrders(f);
      var orders := some[x := order];
      assert Ordered(f, orders) && !AllClean(f, orders, s);
    }
  }

  /** Orders of the keys of all structs. */
  method AnyOrders(f: Fields) returns (orders: map<Id, seq<Key>>)
    ensures Ordered(f, orders)
  {
    orders := map[];
    var rest := f.Keys;
    while rest != {}
      invariant rest <= f.Keys
      invariant forall x :: x in f && x !in rest ==> x in orders && Enumerates(orders[x], f[x].Keys)
      decreases rest
    {
      var x :| x in rest;
      var order := AnyOrder(f[x].Keys);
      orders, rest := orders[x := order], rest - {x};
    }
  }
}
