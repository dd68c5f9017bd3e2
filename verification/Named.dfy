/**
 Reconciling a set of named objects by adding first and dropping afterwards, where
 an object may be dropped under another name than it was added under. Adding a
 name that is taken, or dropping one that is not there, is illegal.
 */
module Named {
  import opened Prelude

  function AddAll<T>(nameOf: T -> string, xs: seq<T>, m: map<string, T>): Option<map<string, T>>
    decreases |xs|
  {
    if xs == [] then Some(m)
    else if nameOf(xs[0]) in m then None
    else AddAll(nameOf, xs[1..], m[nameOf(xs[0]) := xs[0]])
  }

  function DropAll<T>(names: seq<string>, m: map<string, T>): Option<map<string, T>>
    decreases |names|
  {
    if names == [] then Some(m)
    else if names[0] !in m then None
    else DropAll(names[1..], m - {names[0]})
  }

  function ByName<T>(nameOf: T -> string, xs: seq<T>): map<string, T> {
    if xs == [] then map[] else ByName(nameOf, xs[1..])[nameOf(xs[0]) := xs[0]]
  }

  function Reconcile<T>(nameOf: T -> string, dropOf: T -> string, added: seq<T>, dropped: seq<T>, m: map<string, T>)
    : Option<map<string, T>>
  {
    match AddAll(nameOf, added, m)
    case None => None
    case Some(m') => DropAll(Map(dropOf, dropped), m')
  }

  ghost predicate DistinctNames<T>(nameOf: T -> string, xs: seq<T>) {
    forall i, j :: 0 <= i < j < |xs| ==> nameOf(xs[i]) != nameOf(xs[j])
  }

  // m maps exactly the names of xs, each to its object.
  ghost predicate Indexes<T(!new)>(nameOf: T -> string, xs: seq<T>, m: map<string, T>) {
    && (forall x :: x in xs ==> nameOf(x) in m && m[nameOf(x)] == x)
    && (forall k :: k in m ==> m[k] in xs && nameOf(m[k]) == k)
  }

  lemma {:induction false} ByNameIndexes<T(!new)>(nameOf: T -> string, xs: seq<T>)
    requires DistinctNames(nameOf, xs)
    ensures Indexes(nameOf, xs, ByName(nameOf, xs))
  {
    if xs != [] {
      ByNameIndexes(nameOf, xs[1..]);
      assert forall x :: x in xs <==> x == xs[0] || x in xs[1..];
    }
  }

  lemma SameIndex<T(!new)>(nameOf: T -> string, xs: seq<T>, m: map<string, T>)
    requires DistinctNames(nameOf, xs) && Indexes(nameOf, xs, m)
    ensures m == ByName(nameOf, xs)
  {
    ByNameIndexes(nameOf, xs);
    var m' := ByName(nameOf, xs);
    forall k | k in m ensures k in m' && m'[k] == m[k] { assert m[k] in xs; }
    forall k | k in m' ensures k in m { assert m'[k] in xs; }
  }

  lemma UniqueByName<T>(nameOf: T -> string, xs: seq<T>, x: T, y: T)
    requires DistinctNames(nameOf, xs) && x in xs && y in xs && nameOf(x) == nameOf(y)
    ensures x == y
  {
    var i :| 0 <= i < |xs| && xs[i] == x;
    var j :| 0 <= j < |xs| && xs[j] == y;
    assert i == j || i < j || j < i;
  }

  lemma PutFirst<T>(m: map<string, T>, n: string, x: T, rest: map<string, T>)
    requires n !in rest
    ensures m[n := x] + rest == m + rest[n := x]
  {}

  // Adding objects with distinct names succeeds exactly when no name is taken.
  lemma {:induction false} AddAllIff<T(!new)>(nameOf: T -> string, xs: seq<T>, m: map<string, T>)
    requires DistinctNames(nameOf, xs)
    ensures AddAll(nameOf, xs, m).Some? <==> forall x :: x in xs ==> nameOf(x) !in m
    ensures AddAll(nameOf, xs, m).Some? ==> AddAll(nameOf, xs, m).value == m + ByName(nameOf, xs)
    decreases |xs|
  {
    if xs != [] {
      assert xs[0] in xs && forall x :: x in xs <==> x == xs[0] || x in xs[1..];
      var n := nameOf(xs[0]);
      if n !in m {
        AddAllIff(nameOf, xs[1..], m[n := xs[0]]);
        ByNameIndexes(nameOf, xs[1..]);
        PutFirst(m, n, xs[0], ByName(nameOf, xs[1..]));
        forall x | x in xs[1..] ensures nameOf(x) != n {
          var i :| 1 <= i < |xs| && xs[i] == x;
        }
      }
    }
  }

  // Dropping removes exactly the listed names, and succeeds exactly if they are
  // distinct and there.
  lemma {:induction false} DropAllRemoves<T>(names: seq<string>, m: map<string, T>)
    ensures DropAll(names, m).Some? ==> DropAll(names, m).value == m - (set n | n in names)
    ensures DropAll(names, m).Some? <==> Distinct(names) && (forall n :: n in names ==> n in m)
    decreases |names|
  {
    if names != [] {
      assert names[0] in names && forall n :: n in names <==> n == names[0] || n in names[1..];
      DropAllRemoves(names[1..], m - {names[0]});
      if names[0] in m {
        assert (m - {names[0]}) - (set n | n in names[1..]) == m - (set n | n in names);
      }
      DistinctTail(names);
    }
  }

  lemma DistinctTail<T>(xs: seq<T>)
    requires xs != []
    ensures Distinct(xs) <==> xs[0] !in xs[1..] && Distinct(xs[1..])
  {
    if xs[0] !in xs[1..] && Distinct(xs[1..]) {
      forall i, j | 0 <= i < j < |xs| ensures xs[i] != xs[j] {
        assert xs[j] == xs[1..][j - 1];
        assert i > 0 ==> xs[i] == xs[1..][i - 1];
      }
    }
  }

  ghost predicate Clash<T(!new)>(nameOf: T -> string, added: seq<T>, dropped: seq<T>) {
    exists x, y :: x in added && y in dropped && nameOf(x) == nameOf(y)
  }

  ghost predicate DropsByOwnName<T(!new)>(nameOf: T -> string, dropOf: T -> string, dropped: seq<T>) {
    forall d :: d in dropped ==> dropOf(d) == nameOf(d)
  }

  // From a set of named objects to another one.
  ghost predicate Diff<T(!new)>(nameOf: T -> string, from: seq<T>, to: seq<T>, added: seq<T>, dropped: seq<T>) {
    && DistinctNames(nameOf, from) && DistinctNames(nameOf, to)
    && DistinctNames(nameOf, added) && DistinctNames(nameOf, dropped)
    && (forall x :: x in added <==> x in to && x !in from)
    && (forall x :: x in dropped <==> x in from && x !in to)
  }

  lemma AddsAreFreeIff<T(!new)>(nameOf: T -> string, from: seq<T>, to: seq<T>, added: seq<T>, dropped: seq<T>)
    requires Diff(nameOf, from, to, added, dropped)
    ensures AddAll(nameOf, added, ByName(nameOf, from)).Some? <==> !Clash(nameOf, added, dropped)
  {
    AddAllIff(nameOf, added, ByName(nameOf, from));
    ByNameIndexes(nameOf, from);
    var m := ByName(nameOf, from);
    forall x | x in added && nameOf(x) in m ensures Clash(nameOf, added, dropped) {
      var y := m[nameOf(x)];
      if y in to { UniqueByName(nameOf, to, x, y); }
    }
  }

  // After adding, the map indexes both sets.
  lemma AddedIndex<T(!new)>(nameOf: T -> string, from: seq<T>, to: seq<T>, added: seq<T>, dropped: seq<T>)
    requires Diff(nameOf, from, to, added, dropped) && !Clash(nameOf, added, dropped)
    ensures Indexes(nameOf, from + added, ByName(nameOf, from) + ByName(nameOf, added))
  {
    ByNameIndexes(nameOf, from);
    ByNameIndexes(nameOf, added);
    forall x, y | x in from && y in added && nameOf(x) == nameOf(y) ensures false {
      if x in to { UniqueByName(nameOf, to, x, y); }
    }
  }

  lemma NoneDroppedIsKept<T(!new)>(nameOf: T -> string, from: seq<T>, to: seq<T>, added: seq<T>, dropped: seq<T>, d: T, x: T)
    requires Diff(nameOf, from, to, added, dropped) && !Clash(nameOf, added, dropped)
    requires d in dropped && x in to
    ensures nameOf(d) != nameOf(x)
  {
    if x in from && nameOf(d) == nameOf(x) {
      UniqueByName(nameOf, from, x, d);
    }
  }

  lemma DropsAreLegal<T(!new)>(nameOf: T -> string, dropOf: T -> string,
                              from: seq<T>, to: seq<T>, added: seq<T>, dropped: seq<T>)
    requires Diff(nameOf, from, to, added, dropped) && DropsByOwnName(nameOf, dropOf, dropped)
    requires forall x :: x in from + added ==>
               nameOf(x) in ByName(nameOf, from) + ByName(nameOf, added)
    ensures Distinct(Map(dropOf, dropped))
    ensures forall n :: n in Map(dropOf, dropped) ==> n in ByName(nameOf, from) + ByName(nameOf, added)
  {
    var names := Map(dropOf, dropped);
    forall n | n in names ensures n in ByName(nameOf, from) + ByName(nameOf, added) {
      var i :| 0 <= i < |names| && names[i] == n;
      assert dropped[i] in dropped && dropped[i] in from + added;
    }
    forall i, j | 0 <= i < j < |names| ensures names[i] != names[j] {
      assert dropped[i] in dropped && dropped[j] in dropped;
    }
  }

  // What the adds and the drops leave is the other set.
  lemma WhatIsLeft<T(!new)>(nameOf: T -> string, dropOf: T -> string,
                            from: seq<T>, to: seq<T>, added: seq<T>, dropped: seq<T>,
                            m: map<string, T>, r: map<string, T>)
    requires Diff(nameOf, from, to, added, dropped)
    requires !Clash(nameOf, added, dropped) && DropsByOwnName(nameOf, dropOf, dropped)
    requires forall x :: x in from + added ==> nameOf(x) in m && m[nameOf(x)] == x
    requires forall k :: k in m ==> m[k] in from + added && nameOf(m[k]) == k
    requires r == m - (set n | n in Map(dropOf, dropped))
    ensures Indexes(nameOf, to, r)
  {
    var names := Map(dropOf, dropped);
    forall x | x in to ensures nameOf(x) in r && r[nameOf(x)] == x {
      assert x in from + added;
      forall d | d in dropped ensures nameOf(d) != nameOf(x) {
        NoneDroppedIsKept(nameOf, from, to, added, dropped, d, x);
      }
    }
    forall d | d in dropped ensures nameOf(d) in names {
      var i :| 0 <= i < |dropped| && dropped[i] == d;
      assert names[i] == nameOf(d);
    }
    forall k | k in r ensures r[k] in to && nameOf(r[k]) == k {
      assert m[k] in from + added;
    }
  }

  lemma LegalIsEnough<T(!new)>(nameOf: T -> string, dropOf: T -> string,
                              from: seq<T>, to: seq<T>, added: seq<T>, dropped: seq<T>)
    requires Diff(nameOf, from, to, added, dropped)
    requires !Clash(nameOf, added, dropped) && DropsByOwnName(nameOf, dropOf, dropped)
    ensures Reconcile(nameOf, dropOf, added, dropped, ByName(nameOf, from)) == Some(ByName(nameOf, to))
  {
    AddsAreFreeIff(nameOf, from, to, added, dropped);
    AddAllIff(nameOf, added, ByName(nameOf, from));
    AddedIndex(nameOf, from, to, added, dropped);
    var m := ByName(nameOf, from) + ByName(nameOf, added);
    var names := Map(dropOf, dropped);
    DropsAreLegal(nameOf, dropOf, from, to, added, dropped);
    DropAllRemoves(names, m);
    var r := m - (set n | n in names);
    WhatIsLeft(nameOf, dropOf, from, to, added, dropped, m, r);
    SameIndex(nameOf, to, r);
  }

  // A dropped object whose own name no drop statement mentions stays behind.
  lemma MisnamedDropFails<T(!new)>(nameOf: T -> string, dropOf: T -> string,
                                  from: seq<T>, to: seq<T>, added: seq<T>, dropped: seq<T>, d: T)
    requires Diff(nameOf, from, to, added, dropped) && !Clash(nameOf, added, dropped)
    requires d in dropped && nameOf(d) !in Map(dropOf, dropped)
    ensures Reconcile(nameOf, dropOf, added, dropped, ByName(nameOf, from)) != Some(ByName(nameOf, to))
  {
    AddAllIff(nameOf, added, ByName(nameOf, from));
    AddedIndex(nameOf, from, to, added, dropped);
    ByNameIndexes(nameOf, to);
    var m := ByName(nameOf, from) + ByName(nameOf, added);
    DropAllRemoves(Map(dropOf, dropped), m);
    assert d in from + added;
    if nameOf(d) in ByName(nameOf, to) {
      NoneDroppedIsKept(nameOf, from, to, added, dropped, d, ByName(nameOf, to)[nameOf(d)]);
    }
  }

  // Reconciling ends with exactly the objects of `to` if and only if no added
  // object has the name of a dropped one and every dropped object is dropped
  // under the name it has. (The last precondition says that no other drop can
  // hit the name of an object that is dropped under a wrong name.)
  lemma ReconcileIff<T(!new)>(nameOf: T -> string, dropOf: T -> string,
                             from: seq<T>, to: seq<T>, added: seq<T>, dropped: seq<T>)
    requires Diff(nameOf, from, to, added, dropped)
    requires forall d, e :: d in dropped && e in dropped && dropOf(d) != nameOf(d) && dropOf(e) == nameOf(d)
               ==> dropOf(e) == nameOf(e)
    ensures Reconcile(nameOf, dropOf, added, dropped, ByName(nameOf, from)) == Some(ByName(nameOf, to))
       <==> !Clash(nameOf, added, dropped) && DropsByOwnName(nameOf, dropOf, dropped)
  {
    AddsAreFreeIff(nameOf, from, to, added, dropped);
    if !Clash(nameOf, added, dropped) {
      if DropsByOwnName(nameOf, dropOf, dropped) {
        LegalIsEnough(nameOf, dropOf, from, to, added, dropped);
      } else {
        var d :| d in dropped && dropOf(d) != nameOf(d);
        if nameOf(d) in Map(dropOf, dropped) {
          var i :| 0 <= i < |dropped| && Map(dropOf, dropped)[i] == nameOf(d);
          assert dropped[i] in dropped && dropOf(dropped[i]) == nameOf(d);
          UniqueByName(nameOf, from, dropped[i], d);
          assert false;
        }
        MisnamedDropFails(nameOf, dropOf, from, to, added, dropped, d);
      }
    }
  }
}
