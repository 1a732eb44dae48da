/**
 * The query and mutation methods of main.go:211-351 on the objects of a section tree. A nil
 * receiver is a null `MDConfSection?`; a `(value, error)` pair is a Result, a lone `error` an
 * Option holding the error. Each method is proved against the function of QuerySpec that gives
 * its result and the tree it leaves.
 */
module Query {
  import opened Wrappers
  import opened Tree
  import opened QuerySpec

  /** `mdc.LocalQueryKey(k)` (main.go:215-221). */
  method LocalQueryKey(mdc: MDConfSection?, k: string) returns (r: Result<string>)
    requires mdc != null ==> mdc.Valid()
    ensures mdc == null ==> r == Err(NotFound)
    ensures mdc != null ==> r == Lookup(mdc.Model(), k)
  {
    if mdc == null {
      return Err(NotFound);
    }
    if mdc.valueMap.None? {
      return Err(NotFound);
    }
    if k !in mdc.valueMap.value {
      return Err(NotFound);
    }
    return Ok(mdc.valueMap.value[k]);
  }

  /** `mdc.LocalQuerySection(name)` (main.go:246-253): the first child titled `name`. */
  method LocalQuerySection(mdc: MDConfSection?, name: string) returns (r: Result<MDConfSection>)
    requires mdc != null ==> mdc.Valid()
    ensures r.Err? ==> r.error == NotFound
    ensures mdc != null ==> (r.Ok? <==> FindChild(Kids(mdc.Model()), name).Some?)
    ensures mdc != null && r.Ok? ==>
      var j := FindChild(Kids(mdc.Model()), name).value;
      j < |mdc.Children()| && r.value == mdc.Children()[j]
      && r.value.Valid() && r.value.Model() == Kids(mdc.Model())[j]
  {
    if mdc == null {
      return Err(NotFound);
    }
    mdc.KidsModels();
    if mdc.subsection.None? {
      return Err(NotFound);
    }
    var kids := mdc.subsection.value;
    var i := 0;
    while i < |kids|
      invariant 0 <= i <= |kids|
      invariant forall j :: 0 <= j < i ==> kids[j].sectionName != name
    {
      if kids[i].sectionName == name {
        return Ok(kids[i]);
      }
      i := i + 1;
    }
    return Err(NotFound);
  }

  /** `subj` is the section the descent of `path` from `mdc` reaches. */
  ghost predicate At(mdc: MDConfSection, path: seq<string>, subj: MDConfSection)
    reads mdc, mdc.Repr
  {
    mdc.Valid() && mdc.Chain(path).Some? && subj == mdc.Chain(path).value[|path|]
  }

  /**
   * The descent shared by QueryKey, QuerySection, SetKey and AddSection (main.go:228-239,
   * 260-271, 280-291, 316-327): from `mdc`, step to the first child with each title in turn.
   */
  method Follow(mdc: MDConfSection, path: seq<string>) returns (r: Option<MDConfSection>)
    requires mdc.Valid()
    ensures r.Some? <==> Descend(mdc.Model(), path).Some?
    ensures r.Some? ==> At(mdc, path, r.value)
    ensures r.Some? ==> r.value.Valid() && r.value.Model() == Descend(mdc.Model(), path).value
  {
    var subj := mdc;
    var i := 0;
    assert path[..0] == [];
    while i < |path|
      invariant 0 <= i <= |path| && At(mdc, path[..i], subj) && subj.Valid()
    {
      var next := FollowStep(mdc, path, i, subj);
      if next.None? {
        return None;
      }
      subj := next.value;
      i := i + 1;
    }
    assert path[..i] == path;
    mdc.ChainTarget(path);
    r := Some(subj);
  }

  /**
   * One step of the descent (the body of the outer loops of main.go:228-239, 260-271, 280-291,
   * 316-327): the first child titled `path[i]` of the section reached, if any.
   */
  method FollowStep(mdc: MDConfSection, path: seq<string>, i: nat, subj: MDConfSection)
      returns (next: Option<MDConfSection>)
    requires i < |path| && At(mdc, path[..i], subj) && subj.Valid()
    ensures next.None? ==> Descend(mdc.Model(), path).None?
    ensures next.Some? ==> At(mdc, path[..i + 1], next.value) && next.value.Valid()
  {
    if subj.subsection.None? {
      StepFacts(mdc, path, i, subj, None);
      return None;
    }
    var kids := subj.subsection.value;
    assert kids == subj.Children();
    var k := 0;
    while k < |kids|
      invariant 0 <= k <= |kids|
      invariant forall m :: 0 <= m < k ==> kids[m].sectionName != path[i]
    {
      if kids[k].sectionName == path[i] {
        StepFacts(mdc, path, i, subj, Some(k));
        return Some(kids[k]);
      }
      k := k + 1;
    }
    StepFacts(mdc, path, i, subj, None);
    return None;
  }

  /** What the first child titled `path[i]` of the section reached, or its absence, means for the whole descent. */
  lemma StepFacts(mdc: MDConfSection, path: seq<string>, i: nat, subj: MDConfSection, k: Option<nat>)
    requires i < |path| && At(mdc, path[..i], subj) && subj.Valid()
    requires k.Some? ==> k.value < |subj.Children()| && subj.Children()[k.value].sectionName == path[i]
    requires k.Some? ==> forall m :: 0 <= m < k.value ==> subj.Children()[m].sectionName != path[i]
    requires k.None? ==> forall m :: 0 <= m < |subj.Children()| ==> subj.Children()[m].sectionName != path[i]
    ensures k.None? ==> Descend(mdc.Model(), path).None?
    ensures k.Some? ==> At(mdc, path[..i + 1], subj.Children()[k.value]) && subj.Children()[k.value].Valid()
  {
    subj.KidsModels();
    ChildNamedModels(subj.Children(), path[i]);
    Advance(mdc, path, i, subj);
    if k.None? {
      NoFurther(mdc, path, i + 1);
    } else {
      subj.ChildValid(k.value);
    }
  }

  /** The descent one name further, from the section reached. */
  lemma Advance(mdc: MDConfSection, path: seq<string>, i: nat, subj: MDConfSection)
    requires i < |path| && At(mdc, path[..i], subj) && subj.Valid()
    ensures var j := FindChild(Kids(subj.Model()), path[i]);
      && (j.None? ==> mdc.Chain(path[..i + 1]).None?)
      && (j.Some? ==> At(mdc, path[..i + 1], subj.Children()[j.value]))
  {
    assert path[..i] + [path[i]] == path[..i + 1];
    mdc.ChainSnoc(path[..i], path[i]);
    subj.KidsModels();
  }

  /** A descent that stops short of `path` does not reach its end. */
  lemma NoFurther(mdc: MDConfSection, path: seq<string>, n: nat)
    requires mdc.Valid() && n <= |path| && mdc.Chain(path[..n]).None?
    ensures Descend(mdc.Model(), path).None?
  {
    mdc.ChainDescend(path[..n]);
    DescendAppend(mdc.Model(), path[..n], path[n..]);
    assert path[..n] + path[n..] == path;
  }

  /** `mdc.QueryKey(path)` (main.go:223-244). */
  method QueryKey(mdc: MDConfSection?, path: seq<string>) returns (r: Result<string>)
    requires mdc != null ==> mdc.Valid()
    ensures mdc == null ==> r == Err(NotFound)
    ensures mdc != null ==> r == QueryKeyOf(mdc.Model(), path)
  {
    if mdc == null {
      return Err(NotFound);
    }
    if |path| == 0 {
      return Err(EmptyKey);
    }
    var subj := Follow(mdc, path[..|path| - 1]);
    if subj.None? {
      return Err(NotFound);
    }
    r := LocalQueryKey(subj.value, path[|path| - 1]);
  }

  /** `mdc.QuerySection(path)` (main.go:255-273): the section object at `path`; the receiver for an empty path. */
  method QuerySection(mdc: MDConfSection?, path: seq<string>) returns (r: Result<MDConfSection>)
    requires mdc != null ==> mdc.Valid()
    ensures r.Err? ==> r.error == NotFound
    ensures mdc == null ==> r.Err?
    ensures mdc != null ==> (r.Ok? <==> Descend(mdc.Model(), path).Some?)
    ensures mdc != null && path == [] ==> r == Ok(mdc)
    ensures mdc != null && r.Ok? ==>
      && At(mdc, path, r.value) && r.value.Valid() && r.value.Model() == Descend(mdc.Model(), path).value
  {
    if mdc == null {
      return Err(NotFound);
    }
    if |path| == 0 {
      mdc.ChainTarget(path);
      return Ok(mdc);
    }
    var subj := Follow(mdc, path);
    if subj.None? {
      return Err(NotFound);
    }
    return Ok(subj.value);
  }

  /** `mdc.LocalSetKey(k, v)` (main.go:299-306). */
  method LocalSetKey(mdc: MDConfSection?, k: string, v: string) returns (err: Option<Error>)
    requires mdc != null ==> mdc.Valid()
    modifies mdc
    ensures mdc == null ==> err == Some(EmptySubject)
    ensures mdc != null ==> err == None && mdc.Valid() && mdc.Repr == old(mdc.Repr)
    ensures mdc != null ==> mdc.Model() == SetValue(old(mdc.Model()), k, v)
  {
    if mdc == null {
      return Some(EmptySubject);
    }
    mdc.Put(k, v);
    return None;
  }

  /** `mdc.SetKey(path, v)` (main.go:275-297): no section is created on the way. */
  method SetKey(mdc: MDConfSection?, path: seq<string>, v: string) returns (err: Option<Error>)
    requires mdc != null ==> mdc.Valid()
    modifies if mdc != null then mdc.Repr else {}
    ensures mdc == null ==> err == Some(EmptySubject)
    ensures mdc != null ==> mdc.Valid() && mdc.Repr == old(mdc.Repr) && mdc.sectionName == old(mdc.sectionName)
    ensures mdc != null ==> var res := SetKeyOf(old(mdc.Model()), path, v);
      && (res.Ok? ==> err == None && mdc.Model() == res.value)
      && (res.Err? ==> err == Some(res.error) && mdc.Model() == old(mdc.Model()))
  {
    if mdc == null {
      return Some(EmptySubject);
    }
    if |path| == 0 {
      return Some(EmptyKey);
    }
    var found := Follow(mdc, path[..|path| - 1]);
    if found.None? {
      return Some(NotFound);
    }
    SetAt(mdc, path[..|path| - 1], found.value, path[|path| - 1], v);
    return None;
  }

  /** The key `k` of the section at the end of the descent of `path` set to `v` (main.go:293-296). */
  method SetAt(mdc: MDConfSection, ghost path: seq<string>, subj: MDConfSection, k: string, v: string)
    requires At(mdc, path, subj) && subj.Valid()
    modifies mdc.Repr
    ensures mdc.Valid() && mdc.Repr == old(mdc.Repr)
    ensures mdc.Model() == ReplaceAt(old(mdc.Model()), path, SetValue(old(subj.Model()), k, v))
    ensures mdc.sectionName == old(mdc.sectionName)
  {
    mdc.ChainApart(path);
    subj.Put(k, v);
    mdc.UpdateAlongPath(path);
  }

  /** `mdc.LocalAddSection(name)` (main.go:331-351): create-or-get of a child titled `name`. */
  method LocalAddSection(mdc: MDConfSection?, name: string) returns (r: Result<MDConfSection>)
    requires mdc != null ==> mdc.Valid()
    modifies mdc
    ensures mdc == null ==> r == Err(EmptySubject)
    ensures mdc != null ==> r.Ok? && mdc.Valid() && old(mdc.Repr) <= mdc.Repr && fresh(mdc.Repr - old(mdc.Repr))
    ensures mdc != null ==> var l := LocalAddOf(old(mdc.Model()), name);
      && mdc.Model() == l.tree
      && r.value in mdc.Repr && r.value.Repr <= mdc.Repr
      && r.value.Valid() && r.value.Model() == l.section
    ensures mdc != null ==> mdc.sectionName == old(mdc.sectionName)
    ensures mdc != null ==> var j := FindChild(Kids(mdc.Model()), name);
      j.Some? && j.value < |mdc.Children()| && r.value == mdc.Children()[j.value]
  {
    if mdc == null {
      return Err(EmptySubject);
    }
    var found := LocalQuerySection(mdc, name);
    if found.Ok? {
      mdc.ChildValid(FindChild(Kids(mdc.Model()), name).value);
      return found;
    }
    var res := NewChild(mdc, name);
    FindChildAppended(Kids(old(mdc.Model())), res.Model(), name);
    return Ok(res);
  }

  /** A new section titled `name`, one level deeper than `mdc`, appended to its children (main.go:339-350). */
  method NewChild(mdc: MDConfSection, name: string) returns (res: MDConfSection)
    requires mdc.Valid()
    modifies mdc
    ensures mdc.Valid() && mdc.Repr == old(mdc.Repr) + res.Repr && fresh(res.Repr)
    ensures res in mdc.Repr && res.Valid() && res.Model() == Section(Int8(old(mdc.level) + 1), name, None, None)
    ensures mdc.Model() == AppendChild(old(mdc.Model()), res.Model())
    ensures mdc.Children() == old(mdc.Children()) + [res]
  {
    res := new MDConfSection(Int8(mdc.level + 1), name);
    mdc.Append(res);
  }

  /** `mdc.AddSection(path, name)` (main.go:308-329): LocalAddSection at the end of `path`. */
  method AddSection(mdc: MDConfSection?, path: seq<string>, name: string) returns (r: Result<MDConfSection>)
    requires mdc != null ==> mdc.Valid()
    modifies if mdc != null then mdc.Repr else {}
    ensures mdc == null ==> r == Err(EmptySubject)
    ensures mdc != null ==> mdc.Valid() && old(mdc.Repr) <= mdc.Repr && fresh(mdc.Repr - old(mdc.Repr))
    ensures mdc != null ==> var a := AddSectionOf(old(mdc.Model()), path, name);
      && (a.Err? ==> r == Err(a.error) && mdc.Model() == old(mdc.Model()))
      && (a.Ok? ==> r.Ok? && mdc.Model() == a.value.tree && r.value.Valid() && r.value.Model() == a.value.section)
    ensures mdc != null && r.Ok? ==> At(mdc, path + [name], r.value)
  {
    if mdc == null {
      return Err(EmptySubject);
    }
    var found := Follow(mdc, path);
    if found.None? {
      return Err(NotFound);
    }
    var res := AddAt(mdc, path, found.value, name);
    return Ok(res);
  }

  /** LocalAddSection on the section at the end of the descent of `path` (main.go:328). */
  method AddAt(mdc: MDConfSection, ghost path: seq<string>, subj: MDConfSection, name: string)
      returns (res: MDConfSection)
    requires At(mdc, path, subj) && subj.Valid()
    modifies mdc.Repr
    ensures mdc.Valid() && old(mdc.Repr) <= mdc.Repr && fresh(mdc.Repr - old(mdc.Repr))
    ensures var l := LocalAddOf(old(subj.Model()), name);
      && mdc.Model() == ReplaceAt(old(mdc.Model()), path, l.tree)
      && res.Valid() && res.Model() == l.section
    ensures At(mdc, path + [name], res)
  {
    ghost var chain := mdc.Chain(path).value;
    mdc.ChainApart(path);
    mdc.ChainOwned(path);
    res := GrowAt(chain, subj, name, mdc.Repr);
    mdc.UpdateAlongPath(path);
    mdc.ChainKeptAlong(path);
    mdc.ChainSnoc(path, name);
    subj.KidsModels();
  }

  /**
   * LocalAddSection on `subj`, the last section of the descent `chain`; the sections before it
   * come to own what `subj` newly owns, and no other object of `scope` changes.
   */
  method GrowAt(ghost chain: seq<MDConfSection>, subj: MDConfSection, name: string, ghost scope: set<object>)
      returns (res: MDConfSection)
    requires |chain| >= 1 && chain[|chain| - 1] == subj && subj.Valid()
    requires forall i :: 0 <= i < |chain| - 1 ==> chain[i] !in subj.Repr
    modifies set i | 0 <= i < |chain| :: chain[i]
    ensures subj.Valid() && old(subj.Repr) <= subj.Repr && fresh(subj.Repr - old(subj.Repr))
    ensures var l := LocalAddOf(old(subj.Model()), name);
      subj.Model() == l.tree && res.Valid() && res.Model() == l.section
    ensures subj.sectionName == old(subj.sectionName)
    ensures var j := FindChild(Kids(subj.Model()), name);
      j.Some? && j.value < |subj.Children()| && res == subj.Children()[j.value]
    ensures forall i :: 0 <= i < |chain| - 1 ==>
      && chain[i].Repr == old(chain[i].Repr) + (subj.Repr - old(subj.Repr))
      && chain[i].level == old(chain[i].level)
      && chain[i].sectionName == old(chain[i].sectionName)
      && chain[i].valueMap == old(chain[i].valueMap)
      && chain[i].subsection == old(chain[i].subsection)
    ensures forall o: object :: o in scope && o !in chain ==> unchanged(o)
  {
    res := AddChild(subj, name);
    Stretch(chain, subj.Repr - old(subj.Repr), subj, res);
  }

  /** LocalAddSection on a section that is there: the child object found or added under `name`. */
  method AddChild(subj: MDConfSection, name: string) returns (res: MDConfSection)
    requires subj.Valid()
    modifies subj
    ensures subj.Valid() && old(subj.Repr) <= subj.Repr && fresh(subj.Repr - old(subj.Repr))
    ensures var l := LocalAddOf(old(subj.Model()), name);
      subj.Model() == l.tree && res.Repr <= subj.Repr && res.Valid() && res.Model() == l.section
    ensures subj.sectionName == old(subj.sectionName)
    ensures var j := FindChild(Kids(subj.Model()), name);
      j.Some? && j.value < |subj.Children()| && res == subj.Children()[j.value]
  {
    var r := LocalAddSection(subj, name);
    res := r.value;
  }

  /**
   * Every section of `chain` but the last comes to own the objects `added` as well; the
   * sections `t` and `c` inside the last one are left as they are.
   */
  ghost method Stretch(chain: seq<MDConfSection>, added: set<object>, t: MDConfSection, c: MDConfSection)
    requires t.Valid() && c.Valid() && c.Repr <= t.Repr
    requires forall i :: 0 <= i < |chain| - 1 ==> chain[i] !in t.Repr
    modifies set i | 0 <= i < |chain| - 1 :: chain[i]
    ensures forall i :: 0 <= i < |chain| - 1 ==>
      && chain[i].Repr == old(chain[i].Repr) + added
      && chain[i].level == old(chain[i].level)
      && chain[i].sectionName == old(chain[i].sectionName)
      && chain[i].valueMap == old(chain[i].valueMap)
      && chain[i].subsection == old(chain[i].subsection)
    ensures t.Valid() && t.Repr == old(t.Repr) && t.Model() == old(t.Model())
    ensures t.sectionName == old(t.sectionName) && t.Children() == old(t.Children())
    ensures c.Valid() && c.Repr == old(c.Repr) && c.Model() == old(c.Model())
  {
    forall i | 0 <= i < |chain| - 1 {
      chain[i].Repr := chain[i].Repr + added;
    }
    t.Untouched();
    c.Untouched();
  }
}
