/**
 * A session with the object API, as TestSetKeyAddSection (main_test.go:240-259) drives it: keys
 * set on an empty document, a section added, and a key set through the section object a query
 * returns, then read back from the root. The outcome follows from the methods' contracts and the
 * lemmas of QuerySpec alone.
 */
module Scenarios {
  import opened Wrappers
  import opened Tree
  import opened QuerySpec
  import opened Query
  import opened Parser

  /**
   * The returned section object is shared with the tree: a key set on it is found from the root
   * under the section's title.
   */
  method SetKeyAddSection() returns (first: Result<string>, second: Result<string>,
                                     level: int, title: string, third: Result<string>)
    ensures first == Ok("first-value") && second == Ok("second-value")
    ensures level == 1 && title == "first-section"
    ensures third == Ok("third-value")
  {
    var r;
    r, first, second := TopKeys();
    var s := NewSection(r);
    level, title := s.level, s.sectionName;
    third := ThroughSection(r, s);
  }

  /** Lines 241-249: two keys set on an empty document and read back. */
  method TopKeys() returns (r: MDConfSection, first: Result<string>, second: Result<string>)
    ensures r.Valid() && fresh(r.Repr) && r.Model().level == 0 && Kids(r.Model()) == []
    ensures first == Ok("first-value") && second == Ok("second-value")
  {
    r := ParseString("");
    assert r.Model() == Section(0, "", None, None);
    ghost var t0 := r.Model();
    var _ := SetKey(r, ["first-key"], "first-value");
    ghost var t1 := r.Model();
    var _ := SetKey(r, ["second-key"], "second-value");
    first := QueryKey(r, ["first-key"]);
    second := QueryKey(r, ["second-key"]);
    SetThenQuery(t0, ["first-key"], "first-value");
    SetOtherKey(t1, ["second-key"], "second-value", "first-key");
    assert Parent(["second-key"]) + ["first-key"] == ["first-key"];
    SetThenQuery(t1, ["second-key"], "second-value");
  }

  /** Lines 250-255: a section added at the top and found by a query, one level down. */
  method NewSection(r: MDConfSection) returns (s: MDConfSection)
    requires r.Valid() && r.Model().level == 0 && Kids(r.Model()) == []
    modifies r.Repr
    ensures r.Valid() && old(r.Repr) <= r.Repr && fresh(r.Repr - old(r.Repr))
    ensures At(r, ["first-section"], s) && s.Valid()
    ensures s.level == 1 && s.sectionName == "first-section"
  {
    ghost var t := r.Model();
    var _ := AddSection(r, [], "first-section");
    AddThenFind(t, [], "first-section");
    assert [] + ["first-section"] == ["first-section"];
    var found := QuerySection(r, ["first-section"]);
    s := found.value;
  }

  /** Lines 256-259: a key set on the section object is seen from the root through the title. */
  method ThroughSection(r: MDConfSection, s: MDConfSection) returns (third: Result<string>)
    requires At(r, ["first-section"], s) && s.Valid()
    modifies r.Repr
    ensures third == Ok("third-value")
  {
    ghost var t := r.Model();
    SetThrough(r, s);
    third := QueryKey(r, ["first-section", "third-key"]);
    SetThenQuery(t, ["first-section", "third-key"], "third-value");
  }

  /** Line 256: SetKey on the section object is SetKey from the root through its title. */
  method SetThrough(r: MDConfSection, s: MDConfSection)
    requires At(r, ["first-section"], s) && s.Valid()
    modifies r.Repr
    ensures r.Valid() && SetKeyOf(old(r.Model()), ["first-section", "third-key"], "third-value") == Ok(r.Model())
  {
    ghost var t := r.Model();
    r.ChainTarget(["first-section"]);
    r.ChainApart(["first-section"]);
    label L:
    var _ := SetKey(s, ["third-key"], "third-value");
    r.UpdateAlongPath@L(["first-section"]);
    assert ["first-section"] + ["third-key"] == ["first-section", "third-key"];
    SetKeyThrough(t, ["first-section"], ["third-key"], "third-value");
  }
}
