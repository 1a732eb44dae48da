/**
 * The query and mutation API of main.go:211-351 on values: the result of each call and the tree
 * it leaves, as functions of the tree it starts from, and how the calls relate to each other.
 * A path names sections from the one the call starts at; each step takes the first child with
 * exactly that title (the inner `range` loops of main.go stop at the first match).
 */
module QuerySpec {
  import opened Wrappers
  import opened Tree

  /** LocalQueryKey (main.go:215-221) on a section: a nil map holds no key. */
  function Lookup(s: Section, k: string): (r: Result<string>)
    ensures r.Ok? <==> k in Values(s)
    ensures r.Ok? ==> r.value == Values(s)[k]
    ensures r.Err? ==> r.error == NotFound
  {
    if s.values.None? then Err(NotFound)
    else if k !in s.values.value then Err(NotFound)
    else Ok(s.values.value[k])
  }

  /** The names of a key path before its last one: the sections the call descends through. */
  function Parent(path: seq<string>): seq<string>
    requires path != []
  {
    path[..|path| - 1]
  }

  /** The last name of a key path: the key itself. */
  function Last(path: seq<string>): string
    requires path != []
  {
    path[|path| - 1]
  }

  /** QueryKey (main.go:223-244): descend all but the last name, then look the last one up. */
  function QueryKeyOf(t: Section, path: seq<string>): Result<string>
  {
    if path == [] then Err(EmptyKey)
    else match Descend(t, Parent(path))
      case None => Err(NotFound)
      case Some(s) => Lookup(s, Last(path))
  }

  /** SetKey (main.go:275-297): the tree after the call, or the error it returns. */
  function SetKeyOf(t: Section, path: seq<string>, v: string): Result<Section>
  {
    if path == [] then Err(EmptyKey)
    else match Descend(t, Parent(path))
      case None => Err(NotFound)
      case Some(s) => Ok(ReplaceAt(t, Parent(path), SetValue(s, Last(path), v)))
  }

  /** The tree after an AddSection call and the section the call returns. */
  datatype Added = Added(tree: Section, section: Section)

  /**
   * LocalAddSection (main.go:331-351) on a section: its first child titled `name`, or a new child
   * one level deeper (an int8 in Go), with neither map nor children, appended after the others.
   */
  function LocalAddOf(s: Section, name: string): Added
  {
    match FindChild(Kids(s), name)
    case Some(j) => Added(s, Kids(s)[j])
    case None =>
      var c := Section(Int8(s.level + 1), name, None, None);
      Added(AppendChild(s, c), c)
  }

  /** AddSection (main.go:308-329): descend the whole path, then LocalAddSection there. */
  function AddSectionOf(t: Section, path: seq<string>, name: string): Result<Added>
  {
    match Descend(t, path)
    case None => Err(NotFound)
    case Some(s) =>
      var a := LocalAddOf(s, name);
      Ok(Added(ReplaceAt(t, path, a.tree), a.section))
  }

  /** Descending `p + q` is descending `p`, then `q` from the section reached. */
  lemma {:induction false} DescendAppend(t: Section, p: seq<string>, q: seq<string>)
    ensures Descend(t, p + q) == match Descend(t, p) case None => None case Some(s) => Descend(s, q)
    decreases |p|
  {
    if p == [] {
      assert p + q == q;
    } else {
      assert (p + q)[0] == p[0] && (p + q)[1..] == p[1..] + q;
      match FindChild(Kids(t), p[0])
      case None =>
      case Some(j) =>
        DescendAppend(Kids(t)[j], p[1..], q);
    }
  }

  /** A first-match search that succeeds finds the same child after more children are appended. */
  lemma FindChildPrefix(cs: seq<Section>, ds: seq<Section>, name: string)
    requires cs <= ds && FindChild(cs, name).Some?
    ensures FindChild(ds, name) == FindChild(cs, name)
  {
    var j := FindChild(cs, name).value;
    assert ds[j] == cs[j];
    assert forall i :: 0 <= i < j ==> ds[i] == cs[i];
  }

  /** Replacing a section by one of the same title keeps the title of every section above it. */
  lemma ReplaceName(t: Section, p: seq<string>, sub: Section)
    requires Descend(t, p).Some? && sub.name == Descend(t, p).value.name
    ensures ReplaceAt(t, p, sub).name == t.name
  {
  }

  /** After replacing the section at `p` by one of the same title, descending `p` reaches the replacement. */
  lemma {:induction false} DescendReplace(t: Section, p: seq<string>, sub: Section)
    requires Descend(t, p).Some? && sub.name == Descend(t, p).value.name
    ensures Descend(ReplaceAt(t, p, sub), p) == Some(sub)
    decreases |p|
  {
    if p != [] {
      var j := FindChild(Kids(t), p[0]).value;
      var c := Kids(t)[j];
      var c' := ReplaceAt(c, p[1..], sub);
      DescendReplace(c, p[1..], sub);
      ReplaceName(c, p[1..], sub);
      FindChildSameName(Kids(t), j, c', p[0]);
      assert Kids(ReplaceAt(t, p, sub)) == Kids(t)[j := c'];
    }
  }

  /** Putting back the section found at `p` leaves the tree as it was. */
  lemma {:induction false} ReplaceSame(t: Section, p: seq<string>)
    requires Descend(t, p).Some?
    ensures ReplaceAt(t, p, Descend(t, p).value) == t
    decreases |p|
  {
    if p != [] {
      var j := FindChild(Kids(t), p[0]).value;
      ReplaceSame(Kids(t)[j], p[1..]);
      assert Kids(t)[j := Kids(t)[j]] == Kids(t);
    }
  }

  /** Replacing at `p + r` is replacing, at `p`, the section found there by its own replacement at `r`. */
  lemma {:induction false} ReplaceAppend(t: Section, p: seq<string>, r: seq<string>, sub: Section)
    requires Descend(t, p).Some?
    ensures ReplaceAt(t, p + r, sub) == ReplaceAt(t, p, ReplaceAt(Descend(t, p).value, r, sub))
    decreases |p|
  {
    if p == [] {
      assert p + r == r;
    } else {
      assert (p + r)[0] == p[0] && (p + r)[1..] == p[1..] + r;
      var j := FindChild(Kids(t), p[0]).value;
      ReplaceAppend(Kids(t)[j], p[1..], r, sub);
    }
  }

  /**
   * Replacing the section at `p` by one of the same title whose children extend the old ones
   * keeps every section reachable; when the children are the same, nothing becomes reachable
   * that was not.
   */
  lemma {:induction false} ReplaceKeepsPaths(t: Section, p: seq<string>, sub: Section, q: seq<string>)
    requires Descend(t, p).Some? && sub.name == Descend(t, p).value.name
    requires Kids(Descend(t, p).value) <= Kids(sub)
    ensures Descend(t, q).Some? ==> Descend(ReplaceAt(t, p, sub), q).Some?
    ensures Kids(sub) == Kids(Descend(t, p).value) ==>
      (Descend(ReplaceAt(t, p, sub), q).Some? ==> Descend(t, q).Some?)
    decreases |q|
  {
    var t' := ReplaceAt(t, p, sub);
    if q != [] {
      if p == [] {
        match FindChild(Kids(t), q[0])
        case None =>
        case Some(i) =>
          FindChildPrefix(Kids(t), Kids(sub), q[0]);
      } else {
        var j := FindChild(Kids(t), p[0]).value;
        var c' := ReplaceAt(Kids(t)[j], p[1..], sub);
        ReplaceName(Kids(t)[j], p[1..], sub);
        FindChildSameName(Kids(t), j, c', q[0]);
        assert Kids(t') == Kids(t)[j := c'];
        match FindChild(Kids(t), q[0])
        case None =>
        case Some(i) =>
          if i == j {
            ReplaceKeepsPaths(Kids(t)[j], p[1..], sub, q[1..]);
          }
      }
    }
  }

  /** Read your write: once SetKey succeeds, QueryKey of the same path returns the value set. */
  lemma SetThenQuery(t: Section, path: seq<string>, v: string)
    requires SetKeyOf(t, path, v).Ok?
    ensures QueryKeyOf(SetKeyOf(t, path, v).value, path) == Ok(v)
  {
    var p := Parent(path);
    DescendReplace(t, p, SetValue(Descend(t, p).value, Last(path), v));
  }

  /** SetKey leaves every other key of the section it writes to as it was. */
  lemma SetOtherKey(t: Section, path: seq<string>, v: string, k: string)
    requires SetKeyOf(t, path, v).Ok? && k != Last(path)
    ensures QueryKeyOf(SetKeyOf(t, path, v).value, Parent(path) + [k]) == QueryKeyOf(t, Parent(path) + [k])
  {
    var p := Parent(path);
    DescendReplace(t, p, SetValue(Descend(t, p).value, Last(path), v));
    assert Parent(p + [k]) == p && Last(p + [k]) == k;
  }

  /** SetKey creates and removes no section: exactly the same paths reach a section afterwards. */
  lemma SetKeepsSections(t: Section, path: seq<string>, v: string, q: seq<string>)
    requires SetKeyOf(t, path, v).Ok?
    ensures Descend(SetKeyOf(t, path, v).value, q).Some? <==> Descend(t, q).Some?
  {
    var p := Parent(path);
    ReplaceKeepsPaths(t, p, SetValue(Descend(t, p).value, Last(path), v), q);
  }

  /**
   * A key query from the root is the same query made from the section its first names reach
   * (main_test.go:240-259 queries a key set through a section's handle from the root).
   */
  lemma QueryKeyThrough(t: Section, p: seq<string>, q: seq<string>)
    requires q != []
    ensures QueryKeyOf(t, p + q) == match Descend(t, p)
      case None => Err(NotFound)
      case Some(s) => QueryKeyOf(s, q)
  {
    assert Parent(p + q) == p + Parent(q) && Last(p + q) == Last(q);
    DescendAppend(t, p, Parent(q));
  }

  /**
   * SetKey through the handle of a section is SetKey from the root with the section's path in
   * front: the section changes in place inside the tree (main_test.go:256-259).
   */
  lemma SetKeyThrough(t: Section, p: seq<string>, q: seq<string>, v: string)
    requires Descend(t, p).Some? && q != []
    ensures var s := Descend(t, p).value;
      SetKeyOf(t, p + q, v)
        == if SetKeyOf(s, q, v).Err? then SetKeyOf(s, q, v) else Ok(ReplaceAt(t, p, SetKeyOf(s, q, v).value))
  {
    assert Parent(p + q) == p + Parent(q) && Last(p + q) == Last(q);
    DescendAppend(t, p, Parent(q));
    var s := Descend(t, p).value;
    if Descend(s, Parent(q)).Some? {
      ReplaceAppend(t, p, Parent(q), SetValue(Descend(s, Parent(q)).value, Last(q), v));
    }
  }

  /** After AddSection the path followed by the name reaches the section returned (main_test.go:250-255). */
  lemma AddThenFind(t: Section, path: seq<string>, name: string)
    requires AddSectionOf(t, path, name).Ok?
    ensures var a := AddSectionOf(t, path, name).value;
      Descend(a.tree, path + [name]) == Some(a.section)
  {
    var s := Descend(t, path).value;
    var l := LocalAddOf(s, name);
    DescendReplace(t, path, l.tree);
    DescendAppend(ReplaceAt(t, path, l.tree), path, [name]);
    LocalAddFinds(s, name);
  }

  /** The section LocalAddSection returns is the first child with its title. */
  lemma LocalAddFinds(s: Section, name: string)
    ensures var l := LocalAddOf(s, name);
      l.tree.name == s.name && FindChild(Kids(l.tree), name).Some?
      && Kids(l.tree)[FindChild(Kids(l.tree), name).value] == l.section
  {
    var l := LocalAddOf(s, name);
    if FindChild(Kids(s), name).None? {
      assert Kids(l.tree)[|Kids(s)|] == l.section;
    }
  }

  /** Create-or-get: a second AddSection with the same path and title returns the same section and changes nothing. */
  lemma AddTwice(t: Section, path: seq<string>, name: string)
    requires AddSectionOf(t, path, name).Ok?
    ensures var a := AddSectionOf(t, path, name).value;
      AddSectionOf(a.tree, path, name) == Ok(a)
  {
    var a := AddSectionOf(t, path, name).value;
    var s := Descend(t, path).value;
    var l := LocalAddOf(s, name);
    LocalAddFinds(s, name);
    DescendReplace(t, path, l.tree);
    ReplaceSame(a.tree, path);
  }

  /** With a child of that title at the path, AddSection returns the first one and changes nothing. */
  lemma AddExisting(t: Section, path: seq<string>, name: string)
    requires Descend(t, path).Some? && FindChild(Kids(Descend(t, path).value), name).Some?
    ensures var kids := Kids(Descend(t, path).value);
      AddSectionOf(t, path, name) == Ok(Added(t, kids[FindChild(kids, name).value]))
  {
    ReplaceSame(t, path);
  }

  /**
   * Without one, AddSection appends exactly one new child there, one level deeper, with neither
   * map nor children, keeps the section's other fields and children, and leaves every section
   * that was reachable reachable.
   */
  lemma AddNew(t: Section, path: seq<string>, name: string, q: seq<string>)
    requires Descend(t, path).Some? && FindChild(Kids(Descend(t, path).value), name).None?
    ensures var s := Descend(t, path).value; var a := AddSectionOf(t, path, name).value;
      && a.section == Section(Int8(s.level + 1), name, None, None)
      && Descend(a.tree, path).Some?
      && Kids(Descend(a.tree, path).value) == Kids(s) + [a.section]
      && Descend(a.tree, path).value.level == s.level
      && Descend(a.tree, path).value.name == s.name
      && Descend(a.tree, path).value.values == s.values
      && (Descend(t, q).Some? ==> Descend(a.tree, q).Some?)
  {
    var s := Descend(t, path).value;
    var l := LocalAddOf(s, name);
    DescendReplace(t, path, l.tree);
    ReplaceKeepsPaths(t, path, l.tree, q);
  }
}
