/** Properties, their values, and the rules for a node's collection of properties. */
module Properties {
  import opened Sequences

  datatype ValueType = SimpleText | Text | Unknown | Point | Move | Stone | OtherType

  /** The typed side of a value: none, a text, or a point, move or stone of the game of Go or of another game. */
  datatype TypedValue = NoTypedValue | TypedText(text: string) | GoValue | NonGoValue

  datatype SingleValue = SingleValue(valueType: ValueType, raw: string, typed: TypedValue)

  datatype PropertyValue = Single(value: SingleValue) | Composed(value1: SingleValue, value2: SingleValue)

  /** Known property types stand for the entries of the original's enumeration. */
  datatype PropertyType = UnknownProperty | Known(id: nat)

  class SgfcProperty {
    const propertyType: PropertyType
    const propertyName: string
    const inheritable: bool
    const values: seq<PropertyValue>

    constructor (propertyType: PropertyType, propertyName: string, inheritable: bool, values: seq<PropertyValue>)
      ensures this.propertyType == propertyType && this.propertyName == propertyName
      ensures this.inheritable == inheritable && this.values == values
    {
      this.propertyType := propertyType;
      this.propertyName := propertyName;
      this.inheritable := inheritable;
      this.values := values;
    }
  }

  predicate SameName(p: SgfcProperty, q: SgfcProperty) {
    p.propertyName == q.propertyName
  }

  predicate SameKnownType(p: SgfcProperty, q: SgfcProperty) {
    p.propertyType != UnknownProperty && p.propertyType == q.propertyType
  }

  /** No two properties share their name or their known type. */
  ghost predicate Collection(ps: seq<SgfcProperty>) {
    forall i, j :: 0 <= i < j < |ps| ==> !SameName(ps[i], ps[j]) && !SameKnownType(ps[i], ps[j])
  }

  /** Two properties of unknown type never clash by their type, two of the same known type always do. */
  lemma CollectionMeans(ps: seq<SgfcProperty>)
    ensures Collection(ps) <==>
            && (forall i, j :: 0 <= i < j < |ps| ==> ps[i].propertyName != ps[j].propertyName)
            && (forall i, j :: 0 <= i < j < |ps| && ps[i].propertyType == ps[j].propertyType ==>
                  ps[i].propertyType == UnknownProperty)
  {
  }

  /** ps without the first property that has the name of p. */
  function EraseName(ps: seq<SgfcProperty>, p: SgfcProperty): seq<SgfcProperty> {
    if ps == [] then []
    else if SameName(ps[0], p) then ps[1..]
    else [ps[0]] + EraseName(ps[1..], p)
  }

  /** ps without the first property that has the known type of p. */
  function EraseType(ps: seq<SgfcProperty>, p: SgfcProperty): seq<SgfcProperty> {
    if ps == [] then []
    else if SameKnownType(ps[0], p) then ps[1..]
    else [ps[0]] + EraseType(ps[1..], p)
  }

  function Erase(ps: seq<SgfcProperty>, p: SgfcProperty): seq<SgfcProperty> {
    if ps == [] then [] else if ps[0] == p then ps[1..] else [ps[0]] + Erase(ps[1..], p)
  }

  /** All properties of ps that share neither name nor known type with p, in their order. */
  ghost function Unrelated(ps: seq<SgfcProperty>, p: SgfcProperty): seq<SgfcProperty> {
    if ps == [] then []
    else (if SameName(ps[0], p) || SameKnownType(ps[0], p) then [] else [ps[0]]) + Unrelated(ps[1..], p)
  }

  lemma CollectionTail(ps: seq<SgfcProperty>)
    requires Collection(ps) && ps != []
    ensures Collection(ps[1..])
    ensures forall i :: 0 <= i < |ps[1..]| ==> !SameName(ps[0], ps[1..][i]) && !SameKnownType(ps[0], ps[1..][i])
  {
    assert forall i :: 0 <= i < |ps[1..]| ==> ps[1..][i] == ps[i + 1];
  }

  lemma CollectionCons(q: SgfcProperty, ps: seq<SgfcProperty>)
    requires Collection(ps) && forall i :: 0 <= i < |ps| ==> !SameName(q, ps[i]) && !SameKnownType(q, ps[i])
    ensures Collection([q] + ps)
  {
    var all := [q] + ps;
    forall i, j | 0 <= i < j < |all| ensures !SameName(all[i], all[j]) && !SameKnownType(all[i], all[j]) {
      assert all[j] == ps[j - 1];
      if i > 0 { assert all[i] == ps[i - 1]; }
    }
  }

  lemma NothingToErase(ps: seq<SgfcProperty>, p: SgfcProperty)
    ensures (forall q :: q in ps ==> !SameName(q, p)) ==> EraseName(ps, p) == ps
    ensures (forall q :: q in ps ==> !SameKnownType(q, p)) ==> EraseType(ps, p) == ps
  {
    if ps != [] {
      NothingToErase(ps[1..], p);
      assert ps == [ps[0]] + ps[1..];
    }
  }

  lemma EraseNameOnlyErases(ps: seq<SgfcProperty>, p: SgfcProperty)
    ensures forall q :: q in EraseName(ps, p) ==> q in ps
  {
  }

  /** In a collection, erasing the first of a name and the first of a type erases all that are related to p. */
  lemma {:induction false} EraseLeavesUnrelated(ps: seq<SgfcProperty>, p: SgfcProperty)
    requires Collection(ps)
    ensures EraseType(EraseName(ps, p), p) == Unrelated(ps, p)
  {
    if ps != [] {
      var rest := ps[1..];
      CollectionTail(ps);
      EraseLeavesUnrelated(rest, p);
      if SameName(ps[0], p) {
        assert forall q :: q in rest ==> !SameName(q, p);
        NothingToErase(rest, p);
      } else {
        var e := EraseName(rest, p);
        assert ([ps[0]] + e)[1..] == e;
        if SameKnownType(ps[0], p) {
          assert forall q :: q in rest ==> !SameKnownType(q, p);
          EraseNameOnlyErases(rest, p);
          NothingToErase(e, p);
        }
      }
    }
  }

  lemma UnrelatedMembers(ps: seq<SgfcProperty>, p: SgfcProperty)
    ensures forall i :: 0 <= i < |Unrelated(ps, p)| ==>
              && Unrelated(ps, p)[i] in ps
              && !SameName(Unrelated(ps, p)[i], p) && !SameKnownType(Unrelated(ps, p)[i], p)
  {
    if ps != [] {
      UnrelatedMembers(ps[1..], p);
    }
  }

  lemma {:induction false} UnrelatedIsCollection(ps: seq<SgfcProperty>, p: SgfcProperty)
    requires Collection(ps)
    ensures Collection(Unrelated(ps, p))
  {
    if ps != [] {
      CollectionTail(ps);
      UnrelatedIsCollection(ps[1..], p);
      UnrelatedMembers(ps[1..], p);
      var r := Unrelated(ps[1..], p);
      forall i | 0 <= i < |r| ensures !SameName(ps[0], r[i]) && !SameKnownType(ps[0], r[i]) {
        assert r[i] in ps[1..];
      }
      CollectionCons(ps[0], r);
    }
  }

  /** Main result on SetProperty: the unrelated properties keep their order, p comes last, the rules still hold. */
  lemma SetPropertyKeepsCollection(ps: seq<SgfcProperty>, p: SgfcProperty)
    requires Collection(ps)
    ensures EraseType(EraseName(ps, p), p) + [p] == Unrelated(ps, p) + [p]
    ensures Collection(Unrelated(ps, p) + [p])
  {
    EraseLeavesUnrelated(ps, p);
    UnrelatedIsCollection(ps, p);
    UnrelatedMembers(ps, p);
  }

  lemma NothingRelated(ps: seq<SgfcProperty>, p: SgfcProperty)
    requires forall i :: 0 <= i < |ps| ==> !SameName(p, ps[i]) && !SameKnownType(p, ps[i])
    ensures Unrelated(ps, p) == ps
  {
    if ps != [] {
      NothingRelated(ps[1..], p);
      assert ps == [ps[0]] + ps[1..];
    }
  }

  /** A property alone with its name and type in a collection is the only one that is related to it. */
  lemma {:induction false} OneIsRelated(ps: seq<SgfcProperty>, p: SgfcProperty)
    requires Collection(ps) && p in ps
    ensures |Unrelated(ps, p)| == |ps| - 1
  {
    var rest := ps[1..];
    CollectionTail(ps);
    if ps[0] == p {
      NothingRelated(rest, p);
    } else {
      assert p in rest;
      OneIsRelated(rest, p);
    }
  }

  /** SetProperty changes nothing in a collection that contains the property already exactly if it is the last one. */
  lemma {:induction false} SetPropertyChangesNothingIff(ps: seq<SgfcProperty>, p: SgfcProperty)
    requires Collection(ps) && p in ps
    ensures Unrelated(ps, p) + [p] == ps <==> ps[|ps| - 1] == p
  {
    OneIsRelated(ps, p);
    assert (Unrelated(ps, p) + [p])[|ps| - 1] == p;
    if ps[|ps| - 1] == p {
      if |ps| > 1 {
        CollectionTail(ps);
        assert ps[1..][|ps| - 2] == p;
        SetPropertyChangesNothingIff(ps[1..], p);
        assert ps == [ps[0]] + ps[1..];
      }
    }
  }

  /** Erase takes out the property at its first position, and nothing else. */
  lemma {:induction false} EraseTakesOut(ps: seq<SgfcProperty>, p: SgfcProperty) returns (i: nat)
    requires p in ps
    ensures i < |ps| && ps[i] == p && p !in ps[..i] && Erase(ps, p) == ps[..i] + ps[i + 1..]
    ensures Collection(ps) ==> p !in Erase(ps, p)
  {
    if ps[0] == p {
      i := 0;
      assert Collection(ps) ==> p !in ps[1..];
    } else {
      var rest := ps[1..];
      var k := EraseTakesOut(rest, p);
      i := k + 1;
      assert ps[..i] == [ps[0]] + rest[..k] && ps[i + 1..] == rest[k + 1..];
      ConcatIsAssociative([ps[0]], rest[..k], rest[k + 1..]);
      if Collection(ps) { CollectionTail(ps); }
    }
  }

  lemma {:induction false} EraseKeepsCollection(ps: seq<SgfcProperty>, p: SgfcProperty)
    requires Collection(ps)
    ensures Collection(Erase(ps, p))
    ensures forall i :: 0 <= i < |Erase(ps, p)| ==> Erase(ps, p)[i] in ps
  {
    if ps != [] {
      CollectionTail(ps);
      EraseKeepsCollection(ps[1..], p);
      if ps[0] != p {
        var r := Erase(ps[1..], p);
        forall i | 0 <= i < |r| ensures !SameName(ps[0], r[i]) && !SameKnownType(ps[0], r[i]) {
          assert r[i] in ps[1..];
        }
        CollectionCons(ps[0], r);
      }
    }
  }

  // ---------------------------------------------------------------- inherited properties

  ghost function Names(ps: seq<SgfcProperty>): set<string> {
    set p | p in ps :: p.propertyName
  }

  /** Of the inheritable properties in ps, the first one of each name, in their order. */
  ghost function FirstOfEachName(ps: seq<SgfcProperty>): seq<SgfcProperty> {
    if ps == [] then []
    else
      var found, p := FirstOfEachName(ps[..|ps| - 1]), ps[|ps| - 1];
      if p.inheritable && p.propertyName !in Names(found) then found + [p] else found
  }

  lemma FirstOfEachNameStep(ps: seq<SgfcProperty>, p: SgfcProperty)
    ensures FirstOfEachName(ps + [p]) ==
              if p.inheritable && p.propertyName !in Names(FirstOfEachName(ps)) then FirstOfEachName(ps) + [p]
              else FirstOfEachName(ps)
  {
    assert (ps + [p])[..|ps|] == ps;
  }

  lemma NamesStep(ps: seq<SgfcProperty>, p: SgfcProperty)
    ensures Names(ps + [p]) == Names(ps) + {p.propertyName}
  {
    forall n ensures n in Names(ps + [p]) <==> n in Names(ps) + {p.propertyName} {
      assert p in ps + [p];
    }
  }

  /** Nothing with the same name that is inheritable comes before position i. */
  ghost predicate IsFirst(ps: seq<SgfcProperty>, i: nat)
    requires i < |ps|
  {
    ps[i].inheritable && forall j :: 0 <= j < i ==> !(ps[j].inheritable && SameName(ps[j], ps[i]))
  }

  /** Main result on inherited properties: precisely the nearest inheritable property of each name, once. */
  lemma {:induction false} FirstOfEachNameFinds(ps: seq<SgfcProperty>)
    ensures var found := FirstOfEachName(ps);
      && (forall i, j :: 0 <= i < j < |found| ==> !SameName(found[i], found[j]))
      && (forall p :: p in found <==> exists i :: 0 <= i < |ps| && ps[i] == p && IsFirst(ps, i))
      && (forall i :: 0 <= i < |ps| && ps[i].inheritable ==> ps[i].propertyName in Names(found))
  {
    if ps != [] {
      var init, n := ps[..|ps| - 1], |ps| - 1;
      FirstOfEachNameFinds(init);
      var before, found := FirstOfEachName(init), FirstOfEachName(ps);
      forall i | 0 <= i < n ensures init[i] == ps[i] && (IsFirst(ps, i) <==> IsFirst(init, i)) {}
      assert IsFirst(ps, n) <==> ps[n].inheritable && ps[n].propertyName !in Names(before);
    }
  }

  /** They come in the order of their positions, that is, of their distance. */
  lemma {:induction false} FirstOfEachNameIsInOrder(ps: seq<SgfcProperty>, i: nat, j: nat, a: nat, b: nat)
    requires i < j < |FirstOfEachName(ps)| && a < |ps| && b < |ps| && IsFirst(ps, a) && IsFirst(ps, b)
    requires ps[a] == FirstOfEachName(ps)[i] && ps[b] == FirstOfEachName(ps)[j]
    ensures a < b
  {
    var init, n := ps[..|ps| - 1], |ps| - 1;
    var before := FirstOfEachName(init);
    FirstOfEachNameFinds(init);
    assert a < n by {
      assert ps[a] == before[i] && before[i].propertyName in Names(before);
    }
    if b < n {
      assert init[a] == ps[a] && init[b] == ps[b] && IsFirst(init, a) && IsFirst(init, b);
      if j < |before| { FirstOfEachNameIsInOrder(init, i, j, a, b); }
    }
  }
}
