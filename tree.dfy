/**
 * MDConfSection (main.go:38-43): a section with its level, its title, an optional key/value map
 * and an optional slice of child sections. `Section` is the value of a section tree; the class
 * `MDConfSection` is the mutable object of main.go, whose Model() is that value.
 */
module Tree {
  import opened Wrappers

  /** The value of a section tree. None stands for Go's nil map or nil slice. */
  datatype Section = Section(
    level: int,
    name: string,
    values: Option<map<string, string>>,
    children: Option<seq<Section>>)

  /** Go's conversion to int8 (main.go:115, 344): wraps around modulo 256 into -128..127. */
  function Int8(n: int): (r: int)
    ensures -128 <= r < 128 && (n - r) % 256 == 0
    ensures -128 <= n < 128 ==> r == n
  {
    (n + 128) % 256 - 128
  }

  /** The children of a section, a nil slice read as empty. */
  function Kids(s: Section): seq<Section>
  {
    if s.children.Some? then s.children.value else []
  }

  /** The key/value map of a section, a nil map read as empty. */
  function Values(s: Section): map<string, string>
  {
    if s.values.Some? then s.values.value else map[]
  }

  /** Index of the first section named `name` (the `range` loops of main.go stop at it). */
  function FindChild(cs: seq<Section>, name: string): (r: Option<nat>)
    ensures r.Some? ==> r.value < |cs| && cs[r.value].name == name
    ensures r.Some? ==> forall i :: 0 <= i < r.value ==> cs[i].name != name
    ensures r.None? ==> forall i :: 0 <= i < |cs| ==> cs[i].name != name
  {
    if |cs| == 0 then None
    else if cs[0].name == name then Some(0)
    else match FindChild(cs[1..], name)
      case None => None
      case Some(j) => Some(j + 1)
  }

  /** The section reached from `t` by following `path` through first-match child names. */
  function Descend(t: Section, path: seq<string>): (r: Option<Section>)
    decreases |path|
  {
    if path == [] then Some(t)
    else match FindChild(Kids(t), path[0])
      case None => None
      case Some(j) => Descend(Kids(t)[j], path[1..])
  }

  /** A first-match search over children is unaffected by replacing one child by another of the same title. */
  lemma {:induction false} FindChildSameName(cs: seq<Section>, j: nat, x: Section, name: string)
    requires j < |cs| && x.name == cs[j].name
    ensures FindChild(cs[j := x], name) == FindChild(cs, name)
  {
    if cs[0].name != name {
      if j == 0 {
        assert cs[j := x][1..] == cs[1..];
      } else {
        assert cs[j := x][1..] == cs[1..][j - 1 := x];
        FindChildSameName(cs[1..], j - 1, x, name);
      }
    }
  }

  /** A child appended under a title no earlier child has is the first child with that title. */
  lemma FindChildAppended(cs: seq<Section>, c: Section, name: string)
    requires FindChild(cs, name).None? && c.name == name
    ensures FindChild(cs + [c], name) == Some(|cs|)
  {
    assert (cs + [c])[|cs|] == c;
  }

  /** `t` with the section reached by `path` replaced by `sub` (unchanged if unreachable). */
  function ReplaceAt(t: Section, path: seq<string>, sub: Section): (r: Section)
    decreases |path|
  {
    if path == [] then sub
    else match FindChild(Kids(t), path[0])
      case None => t
      case Some(j) => t.(children := Some(Kids(t)[j := ReplaceAt(Kids(t)[j], path[1..], sub)]))
  }

  /** `s` with `v` stored under `k` (`ValueMap[k] = v`), a nil map first made empty. */
  function SetValue(s: Section, k: string, v: string): (r: Section)
    ensures r.values.Some? && Values(r) == Values(s)[k := v]
    ensures r.level == s.level && r.name == s.name && r.children == s.children
  {
    s.(values := Some(Values(s)[k := v]))
  }

  /** `s` with a map: a nil map made empty, an existing one kept. */
  function WithMap(s: Section): (r: Section)
    ensures r.values.Some? && Values(r) == Values(s)
    ensures r.level == s.level && r.name == s.name && r.children == s.children
  {
    if s.values.None? then s.(values := Some(map[])) else s
  }

  /** `s` with `c` appended to its children, a nil slice first made empty. */
  function AppendChild(s: Section, c: Section): (r: Section)
    ensures Kids(r) == Kids(s) + [c] && r.children.Some?
    ensures r.level == s.level && r.name == s.name && r.values == s.values
  {
    s.(children := Some(Kids(s) + [c]))
  }

  class MDConfSection {
    var level: int
    var sectionName: string
    var valueMap: Option<map<string, string>>
    var subsection: Option<seq<MDConfSection>>
    /** The objects this section owns: itself and its whole subtree. */
    ghost var Repr: set<object>

    /** The struct literal `&MDConfSection{Level: l, SectionName: n, ValueMap: nil, Subsection: nil}`. */
    constructor (l: int, n: string)
      ensures Valid() && fresh(Repr) && Repr == {this}
      ensures level == l && sectionName == n && valueMap == None && subsection == None
      ensures Model() == Section(l, n, None, None)
    {
      level, sectionName, valueMap, subsection := l, n, None, None;
      Repr := {this};
    }

    function Children(): seq<MDConfSection>
      reads this
    {
      if subsection.Some? then subsection.value else []
    }

    /**
     * Each child lies in the footprint, owns a subtree of its own, disjoint from its siblings'
     * and not containing this section.
     */
    ghost predicate Valid()
      reads this, Repr
      decreases Repr
    {
      && this in Repr
      && (forall i :: 0 <= i < |Children()| ==>
            && Children()[i] in Repr
            && Children()[i].Repr <= Repr
            && this !in Children()[i].Repr
            && Children()[i].Valid())
      && (forall i, j :: 0 <= i < j < |Children()| ==> Children()[i].Repr !! Children()[j].Repr)
    }

    /** No level in the tree is negative. */
    ghost predicate Unsigned()
      reads this, Repr
      requires Valid()
      decreases Repr
    {
      && level >= 0
      && forall i :: 0 <= i < |Children()| ==> Children()[i].Unsigned()
    }

    /** What Valid() says of one child. */
    lemma ChildValid(j: nat)
      requires Valid() && j < |Children()|
      ensures var c := Children()[j];
        c in Repr && c.Repr <= Repr && this !in c.Repr && c.Valid()
    {
    }

    /** The value of the tree rooted here. */
    ghost function Model(): (m: Section)
      reads this, Repr
      requires Valid()
      ensures m.level == level && m.name == sectionName && m.values == valueMap
      ensures m.children.Some? == subsection.Some?
      ensures |Kids(m)| == |Children()|
      decreases Repr, 0
    {
      var kids := Children();
      assert Footprint(kids) < Repr by {
        assert this !in Footprint(kids);
      }
      Section(level, sectionName, valueMap, if subsection.None? then None else Some(Models(kids)))
    }

    /** `ValueMap[k] = v`, a nil map first made (main.go:83-85, 301-304, 313-316). */
    method Put(k: string, v: string)
      requires Valid()
      modifies this
      ensures Valid() && Repr == old(Repr)
      ensures Model() == SetValue(old(Model()), k, v)
    {
      if valueMap.None? {
        valueMap := Some(map[]);
      }
      valueMap := Some(valueMap.value[k := v]);
      MapOnly();
    }

    /** `if ValueMap == nil { ValueMap = make(...) }` (main.go:83-85). */
    method MakeMap()
      requires Valid()
      modifies this
      ensures Valid() && Repr == old(Repr)
      ensures Model() == WithMap(old(Model()))
    {
      if valueMap.None? {
        valueMap := Some(map[]);
      }
      MapOnly();
    }

    /** `Subsection = append(Subsection, c)`, a nil slice first made (main.go:121-130, 338-349). */
    method Append(c: MDConfSection)
      requires Valid() && c.Valid() && Repr !! c.Repr
      modifies this
      ensures Valid() && Repr == old(Repr) + c.Repr
      ensures Model() == AppendChild(old(Model()), c.Model())
      ensures Children() == old(Children()) + [c]
      ensures c.Valid() && c.Model() == old(c.Model())
    {
      if subsection.None? {
        subsection := Some([]);
      }
      subsection := Some(subsection.value + [c]);
      Repr := Repr + c.Repr;
      Appended(c);
      c.Untouched();
    }

    /** Nothing this section owns changed: it is still valid, with the same value. */
    twostate lemma Untouched()
      requires old(Valid())
      requires forall o: object :: o in old(Repr) ==> unchanged(o)
      ensures Valid() && Repr == old(Repr) && Model() == old(Model())
      ensures old(Unsigned()) ==> Unsigned()
    {
      if old(Unsigned()) {
        assert Unsigned() == old(Unsigned());
      }
    }

    /** Nothing this section owns changed: child `j` is still valid, with the old value of child `j`. */
    twostate lemma KidUntouched(j: nat)
      requires old(Valid()) && j < old(|Children()|)
      requires forall o: object :: o in old(Repr) ==> unchanged(o)
      ensures Valid() && Repr == old(Repr) && Children() == old(Children())
      ensures var c := Children()[j];
        c.Valid() && c.Repr <= Repr && c.Model() == Kids(old(Model()))[j]
      ensures old(Unsigned()) ==> Unsigned() && Children()[j].Unsigned()
    {
      Untouched();
      ChildValid(j);
      if old(Unsigned()) {
        assert Unsigned() == old(Unsigned());
      }
    }

    /** Only this section's map changed: it stays valid and its children keep their values. */
    twostate lemma MapOnly()
      requires old(Valid())
      requires Repr == old(Repr) && subsection == old(subsection)
      requires forall o: object :: o in old(Repr) && o != this ==> unchanged(o)
      ensures Valid() && Models(Children()) == old(Models(Children()))
    {
      var kids := Children();
      assert kids == old(Children());
      forall i | 0 <= i < |kids|
        ensures kids[i].Valid() && kids[i].Model() == old(kids[i].Model()) && kids[i].Repr == old(kids[i].Repr)
        ensures kids[i] in Repr && kids[i].Repr <= Repr && this !in kids[i].Repr
      {
        assert old(kids[i] in Repr && kids[i].Repr <= Repr && this !in kids[i].Repr && kids[i].Valid());
      }
      assert old(this in Repr);
      assert old(forall i, j :: 0 <= i < j < |kids| ==> kids[i].Repr !! kids[j].Repr);
      assert Valid();
      assert Models(kids) == old(Models(kids));
    }

    /** `c` was appended to the children: this section is valid again with `c`'s value last. */
    twostate lemma Appended(c: MDConfSection)
      requires old(Valid()) && c.Valid() && old(Repr) !! c.Repr
      requires Children() == old(Children()) + [c] && Repr == old(Repr) + c.Repr
      requires forall o: object :: o in old(Repr) && o != this ==> unchanged(o)
      ensures Valid() && Models(Children()) == old(Models(Children())) + [c.Model()]
    {
      AppendedValid(c);
      var kids, olds := Children(), old(Children());
      var ms := old(Models(olds)) + [c.Model()];
      forall i | 0 <= i < |kids| ensures kids[i].Model() == ms[i] {
        if i < |olds| { assert ms[i] == old(olds[i].Model()); }
      }
      ModelsAre(kids, ms);
    }

    /** Under the assumptions of Appended this section is valid and the earlier children unchanged. */
    twostate lemma AppendedValid(c: MDConfSection)
      requires old(Valid()) && c.Valid() && old(Repr) !! c.Repr
      requires Children() == old(Children()) + [c] && Repr == old(Repr) + c.Repr
      requires forall o: object :: o in old(Repr) && o != this ==> unchanged(o)
      ensures Valid()
      ensures forall i :: 0 <= i < |old(Children())| ==> Children()[i].Model() == old(Children()[i].Model())
    {
      var kids, olds := Children(), old(Children());
      forall i | 0 <= i < |olds|
        ensures kids[i].Valid() && kids[i].Model() == old(kids[i].Model()) && kids[i].Repr == old(kids[i].Repr)
        ensures kids[i] in Repr && kids[i].Repr <= Repr && this !in kids[i].Repr && kids[i].Repr !! c.Repr
      {
        assert kids[i] == olds[i];
        assert old(kids[i] in Repr && kids[i].Repr <= Repr && this !in kids[i].Repr && kids[i].Valid());
      }
      assert old(this in Repr);
      assert c in c.Repr && this !in c.Repr;
      assert old(forall i, j :: 0 <= i < j < |olds| ==> olds[i].Repr !! olds[j].Repr);
    }

    /** Descending `path` from here: the sections passed through, this one first. */
    ghost function Chain(path: seq<string>): (r: Option<seq<MDConfSection>>)
      reads this, Repr
      requires Valid()
      ensures r.Some? ==> |r.value| == |path| + 1 && r.value[0] == this
      ensures r.Some? ==> forall i :: 0 <= i < |r.value| ==> r.value[i] in Repr && r.value[i].Repr <= Repr
      decreases |path|
    {
      if path == [] then Some([this])
      else match FindChild(Models(Children()), path[0])
        case None => None
        case Some(j) =>
          match Children()[j].Chain(path[1..])
          case None => None
          case Some(ch) => Some([this] + ch)
    }

    /** A descent exists exactly when Descend reaches a section. */
    lemma {:induction false} ChainDescend(path: seq<string>)
      requires Valid()
      ensures Chain(path).Some? <==> Descend(Model(), path).Some?
      decreases |path|
    {
      if path != [] {
        var kids := Children();
        assert Kids(Model()) == Models(kids);
        match FindChild(Models(kids), path[0])
        case None =>
        case Some(j) =>
          var c := kids[j];
          assert c in Repr && c.Repr <= Repr && this !in c.Repr && c.Valid();
          assert c.Model() == Kids(Model())[j];
          c.ChainDescend(path[1..]);
      }
    }

    /** The last object of a descent is valid and its value is the section Descend reaches. */
    lemma {:induction false} ChainTarget(path: seq<string>)
      requires Valid() && Chain(path).Some?
      ensures Descend(Model(), path).Some?
      ensures Chain(path).value[|path|].Valid()
      ensures Chain(path).value[|path|].Model() == Descend(Model(), path).value
      decreases |path|
    {
      if path != [] {
        var m := Model();
        var kids := Children();
        var j := FindChild(Models(kids), path[0]).value;
        var c := kids[j];
        ChildValid(j);
        assert Chain(path).value[1..] == c.Chain(path[1..]).value;
        assert Kids(m) == Models(kids);
        assert FindChild(Kids(m), path[0]) == Some(j);
        assert c.Model() == Kids(m)[j];
        assert Descend(m, path) == Descend(c.Model(), path[1..]);
        c.ChainTarget(path[1..]);
      }
    }

    /** Every object of a descent is owned here, and only the first is this one. */
    lemma {:induction false} ChainOwned(path: seq<string>)
      requires Valid() && Chain(path).Some?
      ensures var ch := Chain(path).value;
        && (forall i :: 0 <= i < |ch| ==> ch[i] in Repr && ch[i].Repr <= Repr)
        && (forall i :: 1 <= i < |ch| ==> this !in ch[i].Repr)
      decreases |path|
    {
      if path != [] {
        var j := FindChild(Models(Children()), path[0]).value;
        var c := Children()[j];
        ChildValid(j);
        c.ChainOwned(path[1..]);
        var ch := Chain(path).value;
        assert ch[1..] == c.Chain(path[1..]).value;
        forall i | 1 <= i < |ch| ensures ch[i] in Repr && ch[i].Repr <= Repr && this !in ch[i].Repr {
          assert ch[i] == ch[1..][i - 1];
        }
      } else {
        assert this in Repr;
      }
    }

    /** Every object of a descent is valid. */
    lemma {:induction false} ChainValid(path: seq<string>)
      requires Valid() && Chain(path).Some?
      ensures var ch := Chain(path).value;
        forall i :: 0 <= i < |ch| ==> ch[i].Valid()
      decreases |path|
    {
      if path != [] {
        var j := FindChild(Models(Children()), path[0]).value;
        var c := Children()[j];
        ChildValid(j);
        c.ChainValid(path[1..]);
        var ch := Chain(path).value;
        assert ch[1..] == c.Chain(path[1..]).value;
        forall i | 1 <= i < |ch| ensures ch[i].Valid() {
          assert ch[i] == ch[1..][i - 1];
        }
      }
    }

    /** The children's values are the values of the child objects, in order. */
    lemma KidsModels()
      requires Valid()
      ensures Kids(Model()) == Models(Children())
      ensures forall j :: 0 <= j < |Children()| ==>
        Children()[j].Valid() && Kids(Model())[j] == Children()[j].Model()
    {
    }

    /**
     * The descent of `path + [name]` is that of `path` followed by the first child titled `name` of
     * its last section, and there is none when that section has no such child.
     */
    ghost predicate Snocs(path: seq<string>, name: string)
      reads this, Repr
      requires Valid() && Chain(path).Some? && Chain(path).value[|path|].Valid()
    {
      var last := Chain(path).value[|path|];
      match FindChild(Models(last.Children()), name)
      case None => Chain(path + [name]).None?
      case Some(j) => Chain(path + [name]) == Some(Chain(path).value + [last.Children()[j]])
    }

    /** A descent one name longer ends at the first child with that title of the last section. */
    lemma {:induction false} ChainSnoc(path: seq<string>, name: string)
      requires Valid() && Chain(path).Some? && Chain(path).value[|path|].Valid()
      ensures Snocs(path, name)
      decreases |path|
    {
      if path == [] {
        ChainOne(name);
        assert path + [name] == [name];
        assert forall x :: Chain(path).value + [x] == [this, x];
      } else {
        var j := FindChild(Models(Children()), path[0]).value;
        var c := Children()[j];
        ChainStep(path, name);
        assert c.Chain(path[1..]).value[|path[1..]|] == Chain(path).value[|path|];
        c.ChainSnoc(path[1..], name);
        SnocUp(path, name);
      }
    }

    /** Snocs one level up: from the first child's descent to this section's. */
    lemma SnocUp(path: seq<string>, name: string)
      requires Valid() && path != [] && Chain(path).Some? && Chain(path).value[|path|].Valid()
      requires var c := Children()[FindChild(Models(Children()), path[0]).value];
        && c.Valid() && c.Chain(path[1..]).Some?
        && Chain(path).value == [this] + c.Chain(path[1..]).value
        && (c.Chain(path[1..] + [name]).None? ==> Chain(path + [name]).None?)
        && (c.Chain(path[1..] + [name]).Some? ==>
              Chain(path + [name]) == Some([this] + c.Chain(path[1..] + [name]).value))
        && c.Chain(path[1..]).value[|path[1..]|].Valid()
        && c.Snocs(path[1..], name)
      ensures Snocs(path, name)
    {
      var c := Children()[FindChild(Models(Children()), path[0]).value];
      var p1 := path[1..];
      var ch, rest := Chain(path).value, c.Chain(p1).value;
      var last := ch[|path|];
      assert rest[|p1|] == last;
      var xs := last.Children();
      var f := FindChild(Models(xs), name);
      var x := if f.Some? then Some(xs[f.value]) else None;
      SnocLift(this, ch, rest, Chain(path + [name]), c.Chain(p1 + [name]), x);
    }

    /** A descent of one name. */
    lemma ChainOne(name: string)
      requires Valid()
      ensures FindChild(Models(Children()), name).None? ==> Chain([name]).None?
      ensures FindChild(Models(Children()), name).Some? ==>
        Chain([name]) == Some([this, Children()[FindChild(Models(Children()), name).value]])
    {
      assert [name][0] == name && [name][1..] == [];
      if FindChild(Models(Children()), name).Some? {
        var j := FindChild(Models(Children()), name).value;
        var c := Children()[j];
        ChildValid(j);
        assert c.Chain([]) == Some([c]);
        assert Chain([name]) == Some([this] + [c]);
        assert [this] + [c] == [this, c];
      }
    }

    /** A longer descent goes through the first child, whose own descent is one name shorter. */
    lemma ChainStep(path: seq<string>, name: string)
      requires Valid() && path != [] && Chain(path).Some?
      ensures var c := Children()[FindChild(Models(Children()), path[0]).value];
        && c.Valid() && c.Chain(path[1..]).Some?
        && Chain(path).value == [this] + c.Chain(path[1..]).value
        && (c.Chain(path[1..] + [name]).None? ==> Chain(path + [name]).None?)
        && (c.Chain(path[1..] + [name]).Some? ==>
              Chain(path + [name]) == Some([this] + c.Chain(path[1..] + [name]).value))
    {
      var j := FindChild(Models(Children()), path[0]).value;
      ChildValid(j);
      var p1 := path + [name];
      assert p1[0] == path[0] && p1[1..] == path[1..] + [name];
    }

    /** No section of a descent belongs to a section after it. */
    lemma {:induction false} ChainApart(path: seq<string>)
      requires Valid() && Chain(path).Some?
      ensures var ch := Chain(path).value;
        forall i, k :: 0 <= i < k < |ch| ==> ch[i] !in ch[k].Repr
      decreases |path|
    {
      if path != [] {
        var j := FindChild(Models(Children()), path[0]).value;
        var c := Children()[j];
        ChildValid(j);
        c.ChainApart(path[1..]);
        ChainOwned(path);
        var ch := Chain(path).value;
        var rest := ch[1..];
        assert rest == c.Chain(path[1..]).value;
        forall i, k | 0 <= i < k < |ch| ensures ch[i] !in ch[k].Repr {
          if i > 0 { assert ch[k] == rest[k - 1] && ch[i] == rest[i - 1]; }
        }
      }
    }

    /** Each object of a descent owns all the objects after it. */
    lemma {:induction false} ChainNested(path: seq<string>)
      requires Valid() && Chain(path).Some?
      ensures var ch := Chain(path).value;
        forall i, k :: 0 <= i <= k < |ch| ==> ch[k] in ch[i].Repr
      decreases |path|
    {
      if path != [] {
        var j := FindChild(Models(Children()), path[0]).value;
        var c := Children()[j];
        ChildValid(j);
        c.ChainNested(path[1..]);
        c.ChainOwned(path[1..]);
        var ch := Chain(path).value;
        var rest := ch[1..];
        assert rest == c.Chain(path[1..]).value;
        forall i, k | 0 <= i <= k < |ch| ensures ch[k] in ch[i].Repr {
          if i > 0 { assert ch[k] == rest[k - 1] && ch[i] == rest[i - 1]; }
        }
      }
    }

    /**
     * One level of a change seen from above. From `old` to now only this section and the
     * subtree of its child `j` changed: this section kept its fields except that its footprint
     * gained the objects the child newly owns, which are fresh, and the child is valid again,
     * owning at least what it owned. Then this section is valid and its value has the child's
     * new value at `j`.
     */
    twostate lemma OneLevel(j: nat)
      requires old(Valid()) && j < |old(Children())|
      requires var c := old(Children()[j]);
        && c.Valid() && old(c.Repr) <= c.Repr && fresh(c.Repr - old(c.Repr))
        && level == old(level) && sectionName == old(sectionName)
        && valueMap == old(valueMap) && subsection == old(subsection)
        && Repr == old(Repr) + (c.Repr - old(c.Repr))
        && forall o: object :: o in old(Repr) && o != this && o !in old(c.Repr) ==> unchanged(o)
      ensures Valid()
      ensures Model() == old(Model()).(children := Some(Kids(old(Model()))[j := Children()[j].Model()]))
    {
      OneLevelValid(j);
      var kids := Children();
      var c := kids[j];
      var ms, oms := Models(kids), old(Models(kids));
      forall i | 0 <= i < |ms| ensures ms[i] == oms[j := c.Model()][i] {
        if i != j { assert ms[i] == kids[i].Model(); }
      }
      assert ms == oms[j := c.Model()];
    }

    /** Under the assumptions of OneLevel this section is valid and its other children unchanged. */
    twostate lemma OneLevelValid(j: nat)
      requires old(Valid()) && j < |old(Children())|
      requires var c := old(Children()[j]);
        && c.Valid() && old(c.Repr) <= c.Repr && fresh(c.Repr - old(c.Repr))
        && level == old(level) && sectionName == old(sectionName)
        && valueMap == old(valueMap) && subsection == old(subsection)
        && Repr == old(Repr) + (c.Repr - old(c.Repr))
        && forall o: object :: o in old(Repr) && o != this && o !in old(c.Repr) ==> unchanged(o)
      ensures Valid()
      ensures forall i :: 0 <= i < |Children()| && i != j ==> Children()[i].Model() == old(Children()[i].Model())
    {
      var kids := Children();
      var c := kids[j];
      assert old(c in Repr && c.Repr <= Repr && this !in c.Repr);
      forall i | 0 <= i < |kids| && i != j
        ensures kids[i].Valid() && kids[i].Repr == old(kids[i].Repr) && kids[i].Model() == old(kids[i].Model())
        ensures kids[i].Repr !! c.Repr && kids[i] in Repr && kids[i].Repr <= Repr && this !in kids[i].Repr
      {
        var k := kids[i];
        assert old(k in Repr && k.Repr <= Repr && this !in k.Repr && k.Valid());
        assert old(k.Repr !! c.Repr);
      }
    }

    /**
     * A change made at the end of a descent is seen from here. Suppose that, from `old` to now,
     * only the sections along the descent of `path` changed: the target is valid again and owns
     * at least what it owned, the objects it newly owns are fresh, and every section before it
     * kept its fields except that its footprint gained those same objects. Then this section is
     * valid, and its value is the old one with the target's new value put in at `path`.
     */
    twostate lemma {:induction false} UpdateAlongPath(path: seq<string>)
      requires old(Valid()) && old(Chain(path)).Some?
      requires var chain := old(Chain(path)).value; var t := chain[|path|];
        t.Valid() && old(t.Repr) <= t.Repr && fresh(t.Repr - old(t.Repr))
      requires var chain := old(Chain(path)).value; var t := chain[|path|];
        forall i :: 0 <= i < |path| ==>
          && chain[i].Repr == old(chain[i].Repr) + (t.Repr - old(t.Repr))
          && chain[i].level == old(chain[i].level)
          && chain[i].sectionName == old(chain[i].sectionName)
          && chain[i].valueMap == old(chain[i].valueMap)
          && chain[i].subsection == old(chain[i].subsection)
      requires var chain := old(Chain(path)).value; var t := chain[|path|];
        forall o: object :: o in old(Repr) && o !in chain && o !in old(t.Repr) ==> unchanged(o)
      ensures var t := old(Chain(path)).value[|path|];
        Valid() && Repr == old(Repr) + (t.Repr - old(t.Repr))
      ensures Model() == ReplaceAt(old(Model()), path, old(Chain(path)).value[|path|].Model())
      decreases |path|
    {
      var chain := old(Chain(path)).value;
      var t := chain[|path|];
      if path == [] {
        assert t == this;
      } else {
        var kids := old(Children());
        var j := old(FindChild(Models(Children()), path[0])).value;
        var c := kids[j];
        assert old(c in Repr && c.Repr <= Repr && this !in c.Repr && c.Valid());
        var rest := chain[1..];
        assert old(c.Chain(path[1..])) == Some(rest);
        assert rest[|path| - 1] == t;
        forall i | 0 <= i < |path| - 1
          ensures rest[i].Repr == old(rest[i].Repr) + (t.Repr - old(t.Repr))
          ensures rest[i].level == old(rest[i].level) && rest[i].sectionName == old(rest[i].sectionName)
          ensures rest[i].valueMap == old(rest[i].valueMap) && rest[i].subsection == old(rest[i].subsection)
        {
          assert rest[i] == chain[i + 1];
        }
        forall o | o in old(c.Repr) && o !in rest && o !in old(t.Repr) ensures unchanged(o) {
          assert o != this;
        }
        var p1 := path[1..];
        assert |p1| == |path| - 1;
        assert old(c.Chain(p1)).value == rest;
        assert rest[|p1|] == t;
        assert t.Valid() && old(t.Repr) <= t.Repr && fresh(t.Repr - old(t.Repr));
        c.UpdateAlongPath(p1);
        LiftUpdate(path);
      }
    }

    /**
     * Under the assumptions of UpdateAlongPath, when the target also keeps its title, the
     * descent of `path` still passes through the same objects: the section that was reached
     * is reached again.
     */
    twostate lemma {:induction false} ChainKeptAlong(path: seq<string>)
      requires old(Valid()) && old(Chain(path)).Some?
      requires var chain := old(Chain(path)).value; var t := chain[|path|];
        t.Valid() && old(t.Repr) <= t.Repr && fresh(t.Repr - old(t.Repr))
        && t.sectionName == old(t.sectionName)
      requires var chain := old(Chain(path)).value; var t := chain[|path|];
        forall i :: 0 <= i < |path| ==>
          && chain[i].Repr == old(chain[i].Repr) + (t.Repr - old(t.Repr))
          && chain[i].level == old(chain[i].level)
          && chain[i].sectionName == old(chain[i].sectionName)
          && chain[i].valueMap == old(chain[i].valueMap)
          && chain[i].subsection == old(chain[i].subsection)
      requires var chain := old(Chain(path)).value; var t := chain[|path|];
        forall o: object :: o in old(Repr) && o !in chain && o !in old(t.Repr) ==> unchanged(o)
      ensures Valid() && Chain(path) == old(Chain(path))
      decreases |path|
    {
      UpdateAlongPath(path);
      if path != [] {
        StepDown(path);
        var chain := old(Chain(path)).value;
        var c := chain[1];
        assert chain[1..][|path| - 1] == chain[|path|];
        c.ChainKeptAlong(path[1..]);
        if |path| > 1 {
          assert chain[1].sectionName == old(chain[1].sectionName);
        }
        ChainKept(path);
      }
    }

    /**
     * The assumptions of UpdateAlongPath one level down: those of the first section after this
     * one on the descent, for the rest of the path.
     */
    twostate lemma StepDown(path: seq<string>)
      requires path != [] && old(Valid()) && old(Chain(path)).Some?
      requires var chain := old(Chain(path)).value; var t := chain[|path|];
        forall i :: 0 <= i < |path| ==>
          && chain[i].Repr == old(chain[i].Repr) + (t.Repr - old(t.Repr))
          && chain[i].level == old(chain[i].level)
          && chain[i].sectionName == old(chain[i].sectionName)
          && chain[i].valueMap == old(chain[i].valueMap)
          && chain[i].subsection == old(chain[i].subsection)
      requires var chain := old(Chain(path)).value; var t := chain[|path|];
        forall o: object :: o in old(Repr) && o !in chain && o !in old(t.Repr) ==> unchanged(o)
      ensures var c := old(Chain(path)).value[1]; var p1 := path[1..];
        && old(c.Valid()) && old(c.Chain(p1)) == Some(old(Chain(path)).value[1..])
      ensures var c := old(Chain(path)).value[1]; var p1 := path[1..];
        var chain := old(Chain(path)).value[1..]; var t := chain[|p1|];
        forall i :: 0 <= i < |p1| ==>
          && chain[i].Repr == old(chain[i].Repr) + (t.Repr - old(t.Repr))
          && chain[i].level == old(chain[i].level)
          && chain[i].sectionName == old(chain[i].sectionName)
          && chain[i].valueMap == old(chain[i].valueMap)
          && chain[i].subsection == old(chain[i].subsection)
      ensures var c := old(Chain(path)).value[1]; var p1 := path[1..];
        var chain := old(Chain(path)).value[1..]; var t := chain[|p1|];
        forall o: object :: o in old(c.Repr) && o !in chain && o !in old(t.Repr) ==> unchanged(o)
    {
      var chain := old(Chain(path)).value;
      var t := chain[|path|];
      var j := old(FindChild(Models(Children()), path[0])).value;
      var c := old(Children())[j];
      assert old(c in Repr && c.Repr <= Repr && this !in c.Repr && c.Valid());
      var rest := chain[1..];
      assert old(c.Chain(path[1..])) == Some(rest);
      assert rest[|path| - 1] == t;
      forall i | 0 <= i < |path| - 1
        ensures rest[i].Repr == old(rest[i].Repr) + (t.Repr - old(t.Repr))
        ensures rest[i].level == old(rest[i].level) && rest[i].sectionName == old(rest[i].sectionName)
        ensures rest[i].valueMap == old(rest[i].valueMap) && rest[i].subsection == old(rest[i].subsection)
      {
        assert rest[i] == chain[i + 1];
      }
      forall o | o in old(c.Repr) && o !in rest && o !in old(t.Repr) ensures unchanged(o) {
        assert o != this;
      }
    }

    /**
     * The descent of `path` passes through the same objects once this section has only had the
     * first section after it on the descent changed in place, that section keeping its title
     * and its own descent.
     */
    twostate lemma ChainKept(path: seq<string>)
      requires path != [] && old(Valid()) && old(Chain(path)).Some? && Valid()
      requires subsection == old(subsection)
      requires var chain := old(Chain(path)).value; var c := chain[1];
        && old(c.Valid()) && c.Valid() && chain[|path|].Valid()
        && c.sectionName == old(c.sectionName) && c.Chain(path[1..]) == old(c.Chain(path[1..]))
      requires Model() == ReplaceAt(old(Model()), path, old(Chain(path)).value[|path|].Model())
      ensures Chain(path) == old(Chain(path))
    {
      FindKept(path);
      var chain := old(Chain(path)).value;
      var j := old(FindChild(Models(Children()), path[0])).value;
      assert old(Children()[j]) == chain[1] && old(chain[1].Chain(path[1..])) == Some(chain[1..]);
      assert Children()[j] == chain[1];
    }

    /** Under the assumptions of ChainKept, the first child with the title `path[0]` is the same. */
    twostate lemma FindKept(path: seq<string>)
      requires path != [] && old(Valid()) && old(Chain(path)).Some? && Valid()
      requires subsection == old(subsection)
      requires var chain := old(Chain(path)).value; var c := chain[1];
        && old(c.Valid()) && c.Valid() && chain[|path|].Valid() && c.sectionName == old(c.sectionName)
      requires Model() == ReplaceAt(old(Model()), path, old(Chain(path)).value[|path|].Model())
      ensures old(FindChild(Models(Children()), path[0])).Some?
      ensures var j := old(FindChild(Models(Children()), path[0])).value;
        && FindChild(Models(Children()), path[0]) == Some(j)
        && j < |Children()| && Children()[j] == old(Children()[j]) == old(Chain(path)).value[1]
    {
      var chain := old(Chain(path)).value;
      var oms := old(Models(Children()));
      var j := FindChild(oms, path[0]).value;
      var c := chain[1];
      assert old(Children()[j]) == c;
      assert Kids(old(Model())) == oms;
      KidsModels();
      var ms := Models(Children());
      assert ms == oms[j := c.Model()];
      FindChildSameName(oms, j, c.Model(), path[0]);
    }

    /**
     * The last step of UpdateAlongPath: once the first section after this one on the descent
     * holds its updated value, this one does.
     */
    twostate lemma LiftUpdate(path: seq<string>)
      requires path != [] && old(Valid()) && old(Chain(path)).Some?
      requires old(Chain(path).value[1].Valid())
      requires var chain := old(Chain(path)).value; var t, c := chain[|path|], chain[1];
        && t.Valid() && fresh(t.Repr - old(t.Repr))
        && c.Valid() && c.Repr == old(c.Repr) + (t.Repr - old(t.Repr))
        && c.Model() == ReplaceAt(old(c.Model()), path[1..], t.Model())
        && Repr == old(Repr) + (t.Repr - old(t.Repr))
        && level == old(level) && sectionName == old(sectionName)
        && valueMap == old(valueMap) && subsection == old(subsection)
        && forall o: object :: o in old(Repr) && o !in chain && o !in old(t.Repr) ==> unchanged(o)
      ensures Valid()
      ensures Model() == ReplaceAt(old(Model()), path, old(Chain(path)).value[|path|].Model())
    {
      var chain := old(Chain(path)).value;
      var t := chain[|path|];
      var kids := old(Children());
      var j := old(FindChild(Models(Children()), path[0])).value;
      var c := kids[j];
      assert old(c in Repr && c.Repr <= Repr && this !in c.Repr && c.Valid());
      assert old(c.Chain(path[1..])).value == chain[1..];
      assert c == chain[1];
      assert old(t.Repr <= c.Repr);
      forall o | o in old(Repr) && o != this && o !in old(c.Repr) ensures unchanged(o) {
        assert o !in chain;
      }
      OneLevel(j);
      assert Kids(old(Model())) == old(Models(Children()));
    }
  }

  /**
   * SnocUp on values: `b` is the descent one level down extended by one name, ending in `f`
   * when there is one, and `a` is `b` seen from one level up, through `me`.
   */
  lemma SnocLift<T>(me: T, ch: seq<T>, rest: seq<T>, a: Option<seq<T>>, b: Option<seq<T>>, f: Option<T>)
    requires ch == [me] + rest
    requires b.None? ==> a.None?
    requires b.Some? ==> a == Some([me] + b.value)
    requires f.None? ==> b.None?
    requires f.Some? ==> b == Some(rest + [f.value])
    ensures f.None? ==> a.None?
    ensures f.Some? ==> a == Some(ch + [f.value])
  {
    if f.Some? {
      assert [me] + (rest + [f.value]) == ch + [f.value];
    }
  }

  /** Index of the first section object named `name` (the inner `range` loops of main.go). */
  function ChildNamed(cs: seq<MDConfSection>, name: string): (r: Option<nat>)
    reads set c | c in cs
    ensures r.Some? ==> r.value < |cs| && cs[r.value].sectionName == name
    ensures r.Some? ==> forall i :: 0 <= i < r.value ==> cs[i].sectionName != name
    ensures r.None? ==> forall i :: 0 <= i < |cs| ==> cs[i].sectionName != name
  {
    if |cs| == 0 then None
    else if cs[0].sectionName == name then Some(0)
    else match ChildNamed(cs[1..], name)
      case None => None
      case Some(j) => Some(j + 1)
  }

  /** The first object named `name` is the first value named `name`. */
  lemma ChildNamedModels(cs: seq<MDConfSection>, name: string)
    requires forall i :: 0 <= i < |cs| ==> cs[i].Valid()
    ensures ChildNamed(cs, name) == FindChild(Models(cs), name)
  {
    var ms := Models(cs);
    assert forall i :: 0 <= i < |cs| ==> ms[i].name == cs[i].sectionName;
    FirstIndexUnique(cs, ms, name);
  }

  lemma FirstIndexUnique(cs: seq<MDConfSection>, ms: seq<Section>, name: string)
    requires |cs| == |ms| && forall i :: 0 <= i < |cs| ==> ms[i].name == cs[i].sectionName
    ensures ChildNamed(cs, name) == FindChild(ms, name)
  {
    var a, b := ChildNamed(cs, name), FindChild(ms, name);
  }

  /** The values of `cs` are `ms` when each section's value is the one at its position. */
  lemma ModelsAre(cs: seq<MDConfSection>, ms: seq<Section>)
    requires forall i :: 0 <= i < |cs| ==> cs[i].Valid()
    requires |ms| == |cs| && forall i :: 0 <= i < |cs| ==> cs[i].Model() == ms[i]
    ensures Models(cs) == ms
  {
  }

  /** All objects owned by the sections of `cs`. */
  ghost function Footprint(cs: seq<MDConfSection>): set<object>
    reads (set c | c in cs)
  {
    set c, o | c in cs && o in c.Repr :: o
  }

  /** The values of the sections `cs`, in order. */
  ghost function Models(cs: seq<MDConfSection>): (r: seq<Section>)
    reads (set c | c in cs), (set c, o | c in cs && o in c.Repr :: o)
    requires forall i :: 0 <= i < |cs| ==> cs[i].Valid()
    ensures |r| == |cs|
    ensures forall i :: 0 <= i < |cs| ==> r[i] == cs[i].Model()
    decreases Footprint(cs), |cs|
  {
    if cs == [] then []
    else
      assert Footprint(cs[1..]) <= Footprint(cs);
      [cs[0].Model()] + Models(cs[1..])
  }
}
