/** The nodes of a game tree as heap objects, and the walks along their links. */
module Nodes {
  import opened Sequences
  import opened Forests
  import opened Relinking
  import opened Properties

  datatype PropertyResult = Accepted | NullProperty | InvalidCollection | AlreadyPresent | NotPresent

  /** The properties of the nodes on a way, one node after the other. */
  ghost function AlongTheWay(way: seq<SgfcNode>): seq<SgfcProperty>
    reads set n | n in way
  {
    if way == [] then [] else AlongTheWay(way[..|way| - 1]) + way[|way| - 1].properties
  }

  lemma NothingInherited()
    ensures FirstOfEachName(AlongTheWay([])) == [] && Names([]) == {}
  {
  }

  lemma AlongOneMore(way: seq<SgfcNode>, k: nat)
    requires k < |way|
    ensures AlongTheWay(way[..k + 1]) == AlongTheWay(way[..k]) + way[k].properties
  {
    assert way[..k + 1][..k] == way[..k];
  }

  /** ps, without its null elements. */
  function NonNull(ps: seq<SgfcProperty?>): (r: seq<SgfcProperty>)
    ensures (forall i :: 0 <= i < |ps| ==> ps[i] != null) ==> r == ps
  {
    if ps == [] then [] else (if ps[0] == null then [] else [ps[0]]) + NonNull(ps[1..])
  }

  lemma NonNullIsItself(ps: seq<SgfcProperty>)
    ensures NonNull(ps) == ps
  {
  }

  /** Two elements that share name or known type: no collection. */
  lemma Clash(properties: seq<SgfcProperty?>, i: nat)
    requires i < |properties| && forall j :: 0 <= j <= i ==> properties[j] != null
    requires exists j :: 0 <= j < i
              && (SameName(properties[j], properties[i]) || SameKnownType(properties[j], properties[i]))
    ensures !((forall j :: 0 <= j < |properties| ==> properties[j] != null) && Collection(NonNull(properties)))
  {
  }

  method ValidateProperties(properties: seq<SgfcProperty?>) returns (valid: bool)
    ensures valid <==> (forall i :: 0 <= i < |properties| ==> properties[i] != null) && Collection(NonNull(properties))
  {
    var types: set<PropertyType> := {};
    var names: set<string> := {};
    var i := 0;
    while i < |properties|
      invariant i <= |properties| && forall j :: 0 <= j < i ==> properties[j] != null
      invariant forall t :: t in types <==> exists j :: 0 <= j < i && properties[j].propertyType == t
      invariant forall n :: n in names <==> exists j :: 0 <= j < i && properties[j].propertyName == n
      invariant forall j, k :: 0 <= j < k < i ==>
                  !SameName(properties[j], properties[k]) && !SameKnownType(properties[j], properties[k])
    {
      var property := properties[i];
      if property == null {
        return false;
      }
      if property.propertyType != UnknownProperty && property.propertyType in types {
        Clash(properties, i);
        return false;
      }
      if property.propertyName in names {
        Clash(properties, i);
        return false;
      }
      types := types + {property.propertyType};
      names := names + {property.propertyName};
      i := i + 1;
    }
    return true;
  }

  ghost function FirstInfo<T>(s: seq<T>, isGameInfo: T -> bool): Option<T> {
    if s == [] then None else if isGameInfo(s[0]) then Some(s[0]) else FirstInfo(s[1..], isGameInfo)
  }

  /** The nearest game info node on the way up from x, x included. */
  ghost function Nearest<T>(f: Forest<T>, isGameInfo: T -> bool, x: T): Option<T>
    requires f.Rooted(x)
  {
    FirstInfo([x] + f.Ancestors(x), isGameInfo)
  }

  ghost function Ptr(o: Option<SgfcNode>): SgfcNode? {
    if o.Some? then o.value else null
  }

  /** The three links of n are those of the forest. */
  ghost predicate Links(f: Forest<SgfcNode>, n: SgfcNode)
    requires f.Linked() && n in f.parent
    reads n
  {
    && n.parent == Ptr(f.parent[n])
    && n.firstChild == Ptr(f.First(n))
    && n.nextSibling == Ptr(f.Next(n))
  }

  /** The heap holds exactly the forest f. */
  ghost predicate Represents(f: Forest<SgfcNode>)
    reads f.parent.Keys
  {
    f.Valid() && forall n {:trigger Links(f, n)} :: n in f.parent ==> Links(f, n)
  }

  class SgfcNode {
    var firstChild: SgfcNode?
    var nextSibling: SgfcNode?
    var parent: SgfcNode?
    var properties: seq<SgfcProperty>

    constructor ()
      ensures firstChild == null && nextSibling == null && parent == null && properties == []
    {
      firstChild, nextSibling, parent := null, null, null;
      properties := [];
    }

    method GetPreviousSibling(ghost f: Forest<SgfcNode>) returns (r: SgfcNode?)
      requires Represents(f) && this in f.parent
      ensures r == Ptr(f.Previous(this))
    {
      assert Links(f, this);
      if parent == null {
        return null;
      }
      assert Links(f, parent);
      ghost var s, k, i := f.kids[parent], f.Place(this), 0;
      var child := parent.firstChild;
      if child == this {
        IndexIsUnique(s, 0);
        return null;
      }
      while child != null
        invariant i < k && child == s[i]
        decreases k - i
      {
        LinksAt(f, parent, i);
        assert Links(f, child);
        var next := child.nextSibling;
        if next == this {
          IndexIsUnique(s, i + 1);
          return child;
        }
        child := next;
        i := i + 1;
      }
      return null;
    }

    method GetLastChild(ghost f: Forest<SgfcNode>) returns (r: SgfcNode?)
      requires Represents(f) && this in f.parent
      ensures r == Ptr(f.Last(this))
    {
      assert Links(f, this);
      ghost var s, i := f.kids[this], 0;
      var child := this.firstChild;
      while child != null
        invariant if i < |s| then child == s[i] else s == [] && child == null
        decreases |s| - i
      {
        LinksAt(f, this, i);
        assert Links(f, child);
        if child.nextSibling != null {
          child := child.nextSibling;
          i := i + 1;
        } else {
          return child;
        }
      }
      return null;
    }

    method GetChildren(ghost f: Forest<SgfcNode>) returns (children: seq<SgfcNode>)
      requires Represents(f) && this in f.parent
      ensures children == f.kids[this]
    {
      assert Links(f, this);
      children := [];
      ghost var s := f.kids[this];
      var child := this.firstChild;
      while child != null
        invariant |children| <= |s| && children == s[..|children|]
        invariant child == if |children| < |s| then s[|children|] else null
        decreases |s| - |children|
      {
        LinksAt(f, this, |children|);
        assert Links(f, child);
        children := children + [child];
        child := child.nextSibling;
      }
    }

    method IsDescendantOf(node: SgfcNode?, ghost f: Forest<SgfcNode>) returns (r: Option<bool>)
      requires Represents(f) && this in f.parent
      ensures r.None? <==> node == null
      ensures r.Some? ==> f.Rooted(this) && (r.value <==> f.Above(node, this))
    {
      if node == null {
        return None;
      }
      assert f.Rooted(this);
      ghost var ancestors, k := f.Ancestors(this), 0;
      f.AncestorsStep(this);
      assert Links(f, this);
      var ancestor := this.parent;
      while ancestor != null
        invariant k <= |ancestors| && ancestor == if k < |ancestors| then ancestors[k] else null
        invariant node !in ancestors[..k]
        decreases |ancestors| - k
      {
        f.AncestorsFrom(this, k);
        assert Links(f, ancestor);
        if ancestor == node {
          return Some(true);
        }
        ancestor := ancestor.parent;
        k := k + 1;
      }
      return Some(false);
    }

    method IsAncestorOf(node: SgfcNode?, ghost f: Forest<SgfcNode>) returns (r: Option<bool>)
      requires Represents(f) && (node != null ==> node in f.parent)
      ensures r.None? <==> node == null
      ensures r.Some? ==> f.Rooted(node) && (r.value <==> f.Above(this, node))
    {
      if node == null {
        return None;
      }
      assert f.Rooted(node);
      ghost var ancestors, k := f.Ancestors(node), 0;
      f.AncestorsStep(node);
      assert Links(f, node);
      var ancestor := node.parent;
      while ancestor != null
        invariant k <= |ancestors| && ancestor == if k < |ancestors| then ancestors[k] else null
        invariant this !in ancestors[..k]
        decreases |ancestors| - k
      {
        f.AncestorsFrom(node, k);
        assert Links(f, ancestor);
        if ancestor == this {
          return Some(true);
        }
        ancestor := ancestor.parent;
        k := k + 1;
      }
      return Some(false);
    }

    /** Every run of the five methods below keeps the properties a collection. */
    method SetProperties(newProperties: seq<SgfcProperty?>) returns (r: PropertyResult)
      requires Collection(properties)
      modifies this`properties
      ensures Collection(properties)
      ensures r == Accepted <==>
                && (forall i :: 0 <= i < |newProperties| ==> newProperties[i] != null)
                && Collection(NonNull(newProperties))
      ensures r == Accepted ==> properties == newProperties
      ensures r != Accepted ==> r == InvalidCollection && properties == old(properties)
    {
      var valid := ValidateProperties(newProperties);
      if !valid {
        return InvalidCollection;
      }
      properties := NonNull(newProperties);
      return Accepted;
    }

    method SetProperty(property: SgfcProperty?) returns (r: PropertyResult)
      requires Collection(properties)
      modifies this`properties
      ensures Collection(properties)
      ensures r == if property == null then NullProperty else Accepted
      ensures properties ==
                if property == null then old(properties) else Unrelated(old(properties), property) + [property]
    {
      if property == null {
        return NullProperty;
      }
      SetPropertyKeepsCollection(properties, property);
      properties := EraseName(properties, property);
      if property.propertyType != UnknownProperty {
        properties := EraseType(properties, property);
      } else {
        NothingToErase(properties, property);
      }
      properties := properties + [property];
      return Accepted;
    }

    method AppendProperty(property: SgfcProperty?) returns (r: PropertyResult)
      requires Collection(properties)
      modifies this`properties
      ensures Collection(properties)
      ensures r == if property == null then NullProperty
                   else if property in old(properties) then AlreadyPresent
                   else if Collection(old(properties) + [property]) then Accepted else InvalidCollection
      ensures properties == if r == Accepted then old(properties) + [property] else old(properties)
    {
      if property == null {
        return NullProperty;
      }
      if property in properties {
        return AlreadyPresent;
      }
      var propertiesCopy := properties + [property];
      var valid := ValidateProperties(propertiesCopy);
      NonNullIsItself(propertiesCopy);
      if !valid {
        return InvalidCollection;
      }
      properties := propertiesCopy;
      return Accepted;
    }

    method RemoveProperty(property: SgfcProperty?) returns (r: PropertyResult)
      requires Collection(properties)
      modifies this`properties
      ensures Collection(properties)
      ensures r == if property == null || property !in old(properties) then NotPresent else Accepted
      ensures r == NotPresent ==> properties == old(properties)
      ensures r == Accepted ==>
                property !in properties
                && exists i {:trigger old(properties)[i]} ::
                     && 0 <= i < |old(properties)| && old(properties)[i] == property
                     && properties == old(properties)[..i] + old(properties)[i + 1..]
    {
      if property == null || property !in properties {
        return NotPresent;
      }
      ghost var i := EraseTakesOut(properties, property);
      assert old(properties)[i] == property;
      EraseKeepsCollection(properties, property);
      properties := Erase(properties, property);
      return Accepted;
    }

    method RemoveAllProperties()
      modifies this`properties
      ensures Collection(properties) && properties == []
    {
      properties := [];
    }

    /** The inner loop of GetInheritedProperties, for one node. */
    method AddInheritable(ghost before: seq<SgfcProperty>, inherited: seq<SgfcProperty>, propertyNamesSeen: set<string>)
      returns (newInherited: seq<SgfcProperty>, newSeen: set<string>)
      requires inherited == FirstOfEachName(before) && propertyNamesSeen == Names(inherited)
      ensures newInherited == FirstOfEachName(before + properties) && newSeen == Names(newInherited)
    {
      hide Names, FirstOfEachName;
      newInherited, newSeen := inherited, propertyNamesSeen;
      assert before + properties[..0] == before;
      var i := 0;
      while i < |properties|
        invariant i <= |properties|
        invariant newInherited == FirstOfEachName(before + properties[..i]) && newSeen == Names(newInherited)
      {
        var property := properties[i];
        FirstOfEachNameStep(before + properties[..i], property);
        assert before + properties[..i + 1] == before + properties[..i] + [property];
        if property.propertyName in newSeen {
          i := i + 1;
          continue;
        }
        if property.inheritable {
          NamesStep(newInherited, property);
          newInherited := newInherited + [property];
          newSeen := newSeen + {property.propertyName};
        }
        i := i + 1;
      }
      assert properties[..i] == properties;
    }

    method GetInheritedProperties(ghost f: Forest<SgfcNode>) returns (inherited: seq<SgfcProperty>)
      requires Represents(f) && this in f.parent
      ensures f.Rooted(this) && inherited == FirstOfEachName(AlongTheWay([this] + f.Ancestors(this)))
    {
      hide FirstOfEachName, Names, AlongTheWay;
      assert f.Rooted(this);
      inherited := [];
      var propertyNamesSeen: set<string> := {};
      NothingInherited();
      ghost var way, k := [this] + f.Ancestors(this), 0;
      f.AncestorsStep(this);
      var node: SgfcNode? := this;
      while node != null
        invariant k <= |way| && node == if k < |way| then way[k] else null
        invariant inherited == FirstOfEachName(AlongTheWay(way[..k])) && propertyNamesSeen == Names(inherited)
        decreases |way| - k
      {
        if k > 0 { f.AncestorsFrom(this, k - 1); }
        assert Links(f, node);
        inherited, propertyNamesSeen := node.AddInheritable(AlongTheWay(way[..k]), inherited, propertyNamesSeen);
        AlongOneMore(way, k);
        node := node.parent;
        k := k + 1;
      }
      assert way[..k] == way;
    }

    method GetGameInfoNode(isGameInfo: SgfcNode -> bool, ghost f: Forest<SgfcNode>) returns (r: SgfcNode?)
      requires Represents(f) && this in f.parent
      ensures f.Rooted(this) && r == Ptr(Nearest(f, isGameInfo, this))
    {
      assert f.Rooted(this);
      ghost var way, k := [this] + f.Ancestors(this), 0;
      f.AncestorsStep(this);
      assert way[0..] == way;
      var node: SgfcNode? := this;
      while node != null
        invariant k <= |way| && node == if k < |way| then way[k] else null
        invariant Ptr(FirstInfo(way, isGameInfo)) == Ptr(FirstInfo(way[k..], isGameInfo))
        decreases |way| - k
      {
        if k > 0 { f.AncestorsFrom(this, k - 1); }
        assert Links(f, node);
        assert way[k..][1..] == way[k + 1..];
        if isGameInfo(node) {
          return node;
        }
        node := node.parent;
        k := k + 1;
      }
      return null;
    }
  }

  ghost function Opt(n: SgfcNode?): Option<SgfcNode> {
    if n == null then None else Some(n)
  }

  // ---------------------------------------------------------------- inherited properties, node by node

  ghost predicate HasInheritable(ps: seq<SgfcProperty>, name: string) {
    exists m :: 0 <= m < |ps| && ps[m].inheritable && ps[m].propertyName == name
  }

  /** p is an inheritable property of the k-th node on the way, and no node before that has one of its name. */
  ghost predicate IsNearest(way: seq<SgfcNode>, k: nat, p: SgfcProperty)
    requires k < |way|
    reads set n | n in way
  {
    && p.inheritable && p in way[k].properties
    && forall j :: 0 <= j < k ==> !HasInheritable(way[j].properties, p.propertyName)
  }

  lemma InheritableConcat(a: seq<SgfcProperty>, b: seq<SgfcProperty>, name: string)
    ensures HasInheritable(a + b, name) <==> HasInheritable(a, name) || HasInheritable(b, name)
  {
    if HasInheritable(a, name) {
      var m :| 0 <= m < |a| && a[m].inheritable && a[m].propertyName == name;
      assert (a + b)[m] == a[m];
    }
    if HasInheritable(b, name) {
      var m :| 0 <= m < |b| && b[m].inheritable && b[m].propertyName == name;
      assert (a + b)[|a| + m] == b[m];
    }
  }

  lemma NoneInheritable(name: string)
    ensures !HasInheritable([], name)
  {
  }

  lemma {:induction false} InheritableSoFar(way: seq<SgfcNode>, name: string)
    ensures HasInheritable(AlongTheWay(way), name) <==>
            exists j :: 0 <= j < |way| && HasInheritable(way[j].properties, name)
    decreases |way|
  {
    hide HasInheritable;
    if way == [] {
      NoneInheritable(name);
    } else {
      var init, n := way[..|way| - 1], |way| - 1;
      InheritableSoFar(init, name);
      InheritableConcat(AlongTheWay(init), way[n].properties, name);
      forall j | 0 <= j < n ensures init[j] == way[j] {}
      if j :| 0 <= j < |init| && HasInheritable(init[j].properties, name) {
        assert HasInheritable(way[j].properties, name);
      }
    }
  }

  /** The properties of the k-th node stand behind those of the nodes before it. */
  lemma {:induction false} PropertiesAt(way: seq<SgfcNode>, k: nat)
    requires k < |way|
    ensures var all, before, ps := AlongTheWay(way), AlongTheWay(way[..k]), way[k].properties;
      |before| + |ps| <= |all| && all[..|before|] == before && all[|before|..|before| + |ps|] == ps
    decreases |way|
  {
    var init := way[..|way| - 1];
    if k == |way| - 1 {
      assert way[..k] == init;
    } else {
      PropertiesAt(init, k);
      assert init[..k] == way[..k] && init[k] == way[k];
    }
  }

  lemma FirstBehind(all: seq<SgfcProperty>, before: seq<SgfcProperty>, ps: seq<SgfcProperty>, m: nat)
    requires |before| + |ps| <= |all| && all[..|before|] == before && all[|before|..|before| + |ps|] == ps
    requires Collection(ps) && m < |ps| && ps[m].inheritable && !HasInheritable(before, ps[m].propertyName)
    ensures all[|before| + m] == ps[m] && IsFirst(all, |before| + m)
  {
    var i := |before| + m;
    assert all[|before|..|before| + |ps|][m] == all[i];
    forall j | 0 <= j < i ensures !(all[j].inheritable && SameName(all[j], all[i])) {
      if j < |before| {
        assert all[j] == before[j];
      } else {
        assert all[|before|..|before| + |ps|][j - |before|] == all[j];
      }
    }
  }

  /** The nearest property of its name is the first of its name along the way, and stands among those of its node. */
  lemma NearestIsFirst(way: seq<SgfcNode>, k: nat, p: SgfcProperty) returns (i: nat)
    requires k < |way| && IsNearest(way, k, p) && Collection(way[k].properties)
    ensures |AlongTheWay(way[..k])| <= i < |AlongTheWay(way[..k])| + |way[k].properties| <= |AlongTheWay(way)|
    ensures AlongTheWay(way)[i] == p && IsFirst(AlongTheWay(way), i)
  {
    hide HasInheritable, IsFirst, AlongTheWay;
    var all, before, ps := AlongTheWay(way), AlongTheWay(way[..k]), way[k].properties;
    PropertiesAt(way, k);
    InheritableSoFar(way[..k], p.propertyName);
    forall j | 0 <= j < k ensures way[..k][j] == way[j] {}
    var m :| 0 <= m < |ps| && ps[m] == p;
    FirstBehind(all, before, ps, m);
    i := |before| + m;
  }

  /** Every property along the way stands among those of one node. */
  lemma {:induction false} NodeOfProperty(way: seq<SgfcNode>, i: nat) returns (k: nat)
    requires i < |AlongTheWay(way)|
    ensures k < |way| && |AlongTheWay(way[..k])| <= i < |AlongTheWay(way[..k])| + |way[k].properties|
    ensures AlongTheWay(way)[i] in way[k].properties
    decreases |way|
  {
    var init := way[..|way| - 1];
    if i < |AlongTheWay(init)| {
      k := NodeOfProperty(init, i);
      assert init[..k] == way[..k];
    } else {
      k := |way| - 1;
    }
  }

  lemma NoneBefore(all: seq<SgfcProperty>, before: seq<SgfcProperty>, i: nat)
    requires |before| <= i < |all| && all[..|before|] == before && IsFirst(all, i)
    ensures !HasInheritable(before, all[i].propertyName)
  {
    forall m | 0 <= m < |before| ensures before[m] == all[m] {}
  }

  /** The first of its name along the way is the nearest one. */
  lemma FirstIsNearest(way: seq<SgfcNode>, i: nat) returns (k: nat)
    requires i < |AlongTheWay(way)| && IsFirst(AlongTheWay(way), i)
    ensures k < |way| && IsNearest(way, k, AlongTheWay(way)[i])
  {
    k := NodeOfProperty(way, i);
    var all, before := AlongTheWay(way), AlongTheWay(way[..k]);
    PropertiesAt(way, k);
    InheritableSoFar(way[..k], all[i].propertyName);
    NoneBefore(all, before, i);
  }

  /**
   * Main result on inherited properties: for the way from a node to the root they are exactly the inheritable
   * properties of a node on it of which no nearer node has one of the same name.
   */
  lemma InheritedIff(way: seq<SgfcNode>, p: SgfcProperty)
    requires forall k :: 0 <= k < |way| ==> Collection(way[k].properties)
    ensures p in FirstOfEachName(AlongTheWay(way)) <==> exists k :: 0 <= k < |way| && IsNearest(way, k, p)
  {
    var all := AlongTheWay(way);
    FirstOfEachNameFinds(all);
    if p in FirstOfEachName(all) {
      var i :| 0 <= i < |all| && all[i] == p && IsFirst(all, i);
      var k := FirstIsNearest(way, i);
    }
    if k: nat :| k < |way| && IsNearest(way, k, p) {
      var i := NearestIsFirst(way, k, p);
    }
  }

  lemma NodesAreInOrder(way: seq<SgfcNode>, l: nat, k: nat)
    requires l < k <= |way|
    ensures |AlongTheWay(way[..l])| + |way[l].properties| <= |AlongTheWay(way[..k])|
  {
    PropertiesAt(way[..k], l);
    assert way[..k][..l] == way[..l];
  }

  /** And they are ordered by the distance of these nodes. */
  lemma InheritedAreOrdered(way: seq<SgfcNode>, i: nat, j: nat, k: nat, l: nat)
    requires forall m :: 0 <= m < |way| ==> Collection(way[m].properties)
    requires i < j < |FirstOfEachName(AlongTheWay(way))| && k < |way| && l < |way|
    requires IsNearest(way, k, FirstOfEachName(AlongTheWay(way))[i])
    requires IsNearest(way, l, FirstOfEachName(AlongTheWay(way))[j])
    ensures k <= l
  {
    var all := AlongTheWay(way);
    var a := NearestIsFirst(way, k, FirstOfEachName(all)[i]);
    var b := NearestIsFirst(way, l, FirstOfEachName(all)[j]);
    FirstOfEachNameIsInOrder(all, i, j, a, b);
    if l < k { NodesAreInOrder(way, l, k); }
  }

  lemma SameKidsSoFar(f: Forest<SgfcNode>, g: Forest<SgfcNode>, p: SgfcNode, i: nat)
    requires Represents(f) && Represents(g) && f.parent.Keys == g.parent.Keys && p in f.parent && i <= |f.kids[p]|
    ensures i <= |g.kids[p]| && f.kids[p][..i] == g.kids[p][..i]
  {
    if i == 1 {
      assert Links(f, p) && Links(g, p);
    } else if i > 1 {
      SameKidsSoFar(f, g, p, i - 1);
      var n := f.kids[p][i - 2];
      LinksAt(f, p, i - 2);
      LinksAt(g, p, i - 2);
      assert g.kids[p][i - 2] == n by { assert f.kids[p][..i - 1][i - 2] == g.kids[p][..i - 1][i - 2]; }
      assert Links(f, n) && Links(g, n);
    }
  }

  /** The links determine the forest: nothing a forest says is left open by the heap. */
  lemma ForestIsDetermined(f: Forest<SgfcNode>, g: Forest<SgfcNode>)
    requires Represents(f) && Represents(g) && f.parent.Keys == g.parent.Keys
    ensures f == g
  {
    forall n | n in f.parent ensures f.parent[n] == g.parent[n] && f.kids[n] == g.kids[n] {
      assert Links(f, n) && Links(g, n);
      SameKidsSoFar(f, g, n, |f.kids[n]|);
      SameKidsSoFar(g, f, n, |g.kids[n]|);
    }
  }
}
