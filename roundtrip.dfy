/**
 * toString followed by Parse (main.go:58-149, 173-204): a tree whose text parseInner can read
 * back is parsed from the text toString writes for it into the same tree again, whatever order
 * the keys of its maps were visited in.
 */
module RoundTrip {
  import opened Wrappers
  import opened Codec
  import opened LineSyntax
  import opened Reader
  import opened Tree
  import opened Parser
  import opened ParseProps
  import opened Printer

  /**
   * A section whose text reads back as itself: a map or a child slice is nil or non-empty (an
   * empty one writes nothing), keys and values fit on one line and read back verbatim, every
   * child is deeper than its parent but at most 127 deep, with a title that reads back, and no
   * child is deeper than the one before it (a deeper header would nest it in its predecessor).
   */
  ghost predicate Printable(t: Section)
    decreases 128 - t.level
  {
    && (t.values.Some? ==> |Values(t)| > 0)
    && (forall k :: k in Values(t) ==>
          PlainKey(k) && NoNewline(k) && NoNewline(Values(t)[k]) && NoBackslash(Values(t)[k]))
    && (t.children.Some? ==> |Kids(t)| > 0)
    && (forall i :: 0 <= i < |Kids(t)| ==> t.level < Kids(t)[i].level < 128 && PlainTitle(Kids(t)[i].name))
    && (forall i :: 0 < i < |Kids(t)| ==> Kids(t)[i].level <= Kids(t)[i - 1].level)
    && (forall i :: 0 <= i < |Kids(t)| ==> Printable(Kids(t)[i]))
  }

  /** What follows the text of a section: the end of the input, or a header line and more text. */
  datatype Stop = EndOfInput | StopHeader(level: nat, title: string, more: string)

  function StopText(stop: Stop): string
  {
    match stop
    case EndOfInput => ""
    case StopHeader(n, title, more) => HeaderText(n, title) + "\n" + more
  }

  /** The reader parseInner leaves at `stop`: at the end, or with the header line pushed back. */
  function Leftover(stop: Stop): ReaderState
  {
    match stop
    case EndOfInput => ReaderState("", [])
    case StopHeader(n, title, more) => Unread(ReaderState(more, []), HeaderText(n, title))
  }

  /** `stop` is the end of the input or a header line read back as its level and title. */
  predicate Readable(stop: Stop)
  {
    stop.StopHeader? ==> 1 <= stop.level < 128 && PlainTitle(stop.title)
  }

  /** `stop` ends a section at level `level`. */
  predicate Stops(stop: Stop, level: int)
  {
    Readable(stop) && (stop.StopHeader? ==> stop.level <= level)
  }

  /** The section `c` after the values of `keys` in `m` were stored, in that order. */
  function StoreAll(c: Section, keys: seq<string>, m: map<string, string>): Section
    requires forall k :: k in keys ==> k in m
  {
    if keys == [] then c
    else SetValue(StoreAll(c, keys[..|keys| - 1], m), keys[|keys| - 1], m[keys[|keys| - 1]])
  }

  /** Storing values keeps level, name and children; the map gets exactly the keys stored. */
  lemma {:induction false} StoreAllValues(c: Section, keys: seq<string>, m: map<string, string>)
    requires forall k :: k in keys ==> k in m
    ensures var r := StoreAll(c, keys, m);
      && r.level == c.level && r.name == c.name && r.children == c.children
      && (r.values.Some? <==> c.values.Some? || keys != [])
      && (forall k :: k in Values(r) <==> k in Values(c) || k in keys)
      && (forall k :: k in keys ==> Values(r)[k] == m[k])
  {
    if keys != [] {
      var init, last := keys[..|keys| - 1], keys[|keys| - 1];
      StoreAllValues(c, init, m);
      assert forall k :: k in keys <==> k in init || k == last;
    }
  }

  /** Storing every key of `m` into a section without a map gives it the map `m`. */
  lemma StoreEvery(c: Section, keys: seq<string>, m: map<string, string>)
    requires c.values.None? && Enumerates(keys, m) && |m| > 0
    ensures StoreAll(c, keys, m) == c.(values := Some(m))
  {
    StoreAllValues(c, keys, m);
    var r := StoreAll(c, keys, m);
    assert keys != [] by {
      var k :| k in m;
      assert k in keys;
    }
    assert Values(r) == m;
  }

  /** `b` line breaks: the blank lines toString leaves after the sections it closes. */
  function Blanks(b: nat): string
  {
    if b == 0 then "" else "\n" + Blanks(b - 1)
  }

  /** A blank line changes nothing (main.go:77). */
  lemma BlankLine(c: Section, tail: string)
    ensures ParseLoop(c, ReaderState("\n" + tail, []), Single) == ParseLoop(c, ReaderState(tail, []), Single)
  {
    assert "\n" + tail == "" + "\n" + tail;
    IgnoredLine(c, "", tail);
  }

  /** Blank lines between sections change nothing (main.go:77). */
  lemma BlanksSkipped(c: Section, b: nat, rest: string)
    ensures ParseLoop(c, ReaderState(Blanks(b) + rest, []), Single)
      == ParseLoop(c, ReaderState(rest, []), Single)
    decreases b
  {
    if b == 0 {
      NoBlanks(c, b, rest);
    } else {
      BlankStep(c, b, rest);
      BlanksSkipped(c, b - 1, rest);
    }
  }

  lemma NoBlanks(c: Section, b: nat, rest: string)
    requires b == 0
    ensures ParseLoop(c, ReaderState(Blanks(b) + rest, []), Single) == ParseLoop(c, ReaderState(rest, []), Single)
  {
    assert Blanks(b) + rest == rest;
  }

  lemma BlankStep(c: Section, b: nat, rest: string)
    requires b > 0
    ensures ParseLoop(c, ReaderState(Blanks(b) + rest, []), Single)
      == ParseLoop(c, ReaderState(Blanks(b - 1) + rest, []), Single)
  {
    var tail := Blanks(b - 1) + rest;
    assert Blanks(b) + rest == "\n" + tail;
    BlankLine(c, tail);
  }

  /** A section returns at `stop`, unchanged, leaving the reader at `stop` (main.go:117-120, 133-136). */
  lemma StopEnd(c: Section, stop: Stop)
    requires Stops(stop, c.level)
    ensures ParseLoop(c, ReaderState(StopText(stop), []), Single) == (c, Leftover(stop))
  {
    match stop
    case EndOfInput =>
      LastLineDropped(c, "", Single);
    case StopHeader(n, title, more) =>
      HeaderUp(c, n, title, more);
  }

  /** The parent reads the pushed-back header as it would read it from the input. */
  lemma LeftoverFresh(c: Section, stop: Stop)
    requires Readable(stop)
    ensures ParseLoop(c, Leftover(stop), Single) == ParseLoop(c, ReaderState(StopText(stop), []), Single)
  {
    match stop
    case EndOfInput =>
    case StopHeader(n, title, more) =>
      var line := HeaderText(n, title);
      HeaderTextKind(n, title);
      ReadUnread(ReaderState(more, []), line);
      ReadFreshLine(line, more);
      LoopRead(c, Leftover(stop), Single);
      LoopRead(c, ReaderState(StopText(stop), []), Single);
  }

  /** The key lines toString writes for one-line values store exactly those values (main.go:81-112). */
  lemma {:induction false} KeysRound(c: Section, keys: seq<string>, m: map<string, string>, rest: string)
    requires forall k :: k in keys ==>
      k in m && PlainKey(k) && NoNewline(k) && NoNewline(m[k]) && NoBackslash(m[k])
    ensures ParseLoop(c, ReaderState(KeysText(keys, m) + rest, []), Single)
      == ParseLoop(StoreAll(c, keys, m), ReaderState(rest, []), Single)
  {
    if keys != [] {
      var init, k := keys[..|keys| - 1], keys[|keys| - 1];
      var v := m[k];
      SplitOfNoNewline(v);
      assert KeyText(k, v) == "+ " + k + ": " + EscapeValue(v) + "\n";
      AppendAssoc(KeysText(init, m), KeyText(k, v), rest);
      KeysRound(c, init, m, KeyText(k, v) + rest);
      RenderedKVLine(StoreAll(c, init, m), k, v, rest);
    } else {
      assert KeysText(keys, m) + rest == rest;
    }
  }

  /** `c` with the sections `ks` appended in order. */
  function AppendAll(c: Section, ks: seq<Section>): Section
  {
    if ks == [] then c else AppendChild(AppendAll(c, ks[..|ks| - 1]), ks[|ks| - 1])
  }

  lemma {:induction false} AppendAllShape(c: Section, ks: seq<Section>)
    ensures var r := AppendAll(c, ks);
      && r.level == c.level && r.name == c.name && r.values == c.values
      && Kids(r) == Kids(c) + ks
      && (r.children.Some? <==> c.children.Some? || ks != [])
  {
    if ks != [] {
      AppendAllShape(c, ks[..|ks| - 1]);
      assert ks == ks[..|ks| - 1] + [ks[|ks| - 1]];
    }
  }

  lemma BlankRegroup(body: string, b: nat, s: string)
    ensures body + "\n" + (Blanks(b) + s) == body + Blanks(b + 1) + s
  {
  }

  /** `c` with the sections `ks[..n]` appended is `c` with `ks[..n - 1]` appended, then `ks[n - 1]`. */
  lemma AppendAllSnoc(c: Section, ks: seq<Section>, n: nat)
    requires 0 < n <= |ks|
    ensures AppendAll(c, ks[..n]) == AppendChild(AppendAll(c, ks[..n - 1]), ks[n - 1])
  {
    assert ks[..n][..n - 1] == ks[..n - 1];
  }

  /** The key lines and the children of a section: its text after the header line. */
  function Body(s: Section, lay: Layout): string
    requires Fits(lay, s)
  {
    ValuesText(s, lay.keys) + KidsText(s, lay, |lay.kids|)
  }

  /** A section as parseInner holds it once its key lines are read: its map, no children yet. */
  function Opened(s: Section): Section
  {
    Section(s.level, s.name, s.values, None)
  }

  /** The text of a section is its header line followed by its body. */
  lemma RenderBody(s: Section, lay: Layout)
    requires Fits(lay, s)
    ensures Render(s, lay) == HeaderText(s.level, s.name) + "\n" + Body(s, lay)
  {
    AppendAssoc(HeaderLine(s.level, s.name), ValuesText(s, lay.keys), KidsText(s, lay, |lay.kids|));
  }

  /** What follows the first `n - 1` children: the header of child `n - 1` and the text after it. */
  function NextStop(t: Section, lay: Layout, n: nat, b: nat, stop: Stop): Stop
    requires Fits(lay, t) && 0 < n <= |Kids(t)|
  {
    var kid, kl := Kids(t)[n - 1], lay.kids[n - 1];
    assert Fits(kl, kid);
    StopHeader(kid.level, kid.name, Body(kid, kl) + "\n" + (Blanks(b) + StopText(stop)))
  }

  /**
   * The text of the first `n` children and what follows them is the text of the first `n - 1`
   * children, up to the header of child `n - 1`, which ends them.
   */
  lemma KidsTextSplit(t: Section, lay: Layout, n: nat, b: nat, stop: Stop)
    requires Fits(lay, t) && 0 < n <= |Kids(t)|
    ensures KidsText(t, lay, n) + Blanks(b) + StopText(stop)
      == KidsText(t, lay, n - 1) + Blanks(0) + StopText(NextStop(t, lay, n, b, stop))
  {
    var kid, kl := Kids(t)[n - 1], lay.kids[n - 1];
    RenderBody(kid, kl);
    var head, body := HeaderText(kid.level, kid.name), Body(kid, kl);
    assert StopText(NextStop(t, lay, n, b, stop)) == head + "\n" + (body + "\n" + (Blanks(b) + StopText(stop)));
    assert Blanks(0) == "";
    Resplit(KidsText(t, lay, n - 1), head, body, Blanks(b), StopText(stop));
  }

  /** Regrouping of a child's text: its header line starts the text that follows the children before it. */
  lemma Resplit(prefix: string, head: string, body: string, blanks: string, rest: string)
    ensures prefix + (head + "\n" + body) + "\n" + blanks + rest
      == prefix + "" + (head + "\n" + (body + "\n" + (blanks + rest)))
  {
  }

  /** The header of child `n - 1` ends the child before it, which is at least as deep. */
  lemma NextStops(t: Section, lay: Layout, n: nat, b: nat, stop: Stop)
    requires Printable(t) && Fits(lay, t) && 1 < n <= |Kids(t)|
    ensures Stops(NextStop(t, lay, n, b, stop), Kids(t)[n - 2].level)
  {
  }

  /**
   * A child's header line, its body and what follows: parseInner starts the child at the header
   * (main.go:121-130), the child reads its body and returns at `stop`, and the parent appends it
   * and goes on at `stop`.
   */
  lemma {:induction false} KidParse(before: Section, kid: Section, kl: Layout, b: nat, stop: Stop)
    requires Printable(kid) && Fits(kl, kid) && Stops(stop, kid.level)
    requires 0 <= before.level < kid.level < 128 && PlainTitle(kid.name)
    ensures ParseLoop(before,
        ReaderState(StopText(StopHeader(kid.level, kid.name, Body(kid, kl) + "\n" + (Blanks(b) + StopText(stop)))), []),
        Single)
      == ParseLoop(AppendChild(before, kid), ReaderState(StopText(stop), []), Single)
    decreases kl, |kl.kids| + 2
  {
    var more := Body(kid, kl) + "\n" + (Blanks(b) + StopText(stop));
    HeaderDown(before, kid.level, kid.name, more);
    BlankRegroup(Body(kid, kl), b, StopText(stop));
    BodyRound(kid, kl, b + 1, stop);
    LeftoverFresh(AppendChild(before, kid), stop);
  }

  /**
   * The first `n` children of `t` are read back from their text, each ending at the header of
   * the next one and the last at `stop`, shallower than it; the blank lines before `stop` are
   * consumed by the last child.
   */
  lemma {:induction false} KidsRound(t: Section, lay: Layout, n: nat, c: Section, b: nat, stop: Stop)
    requires Printable(t) && Fits(lay, t) && n <= |Kids(t)|
    requires c.level == t.level
    requires n > 0 ==> Stops(stop, Kids(t)[n - 1].level)
    ensures ParseLoop(c, ReaderState(KidsText(t, lay, n) + Blanks(b) + StopText(stop), []), Single)
      == ParseLoop(AppendAll(c, Kids(t)[..n]), ReaderState(StopText(stop), []), Single)
    decreases lay, n, 1
  {
    if n == 0 {
      assert Kids(t)[..0] == [];
      assert KidsText(t, lay, 0) + Blanks(b) + StopText(stop) == Blanks(b) + StopText(stop);
      BlanksSkipped(c, b, StopText(stop));
    } else {
      if n > 1 {
        NextStops(t, lay, n, b, stop);
      }
      KidsRound(t, lay, n - 1, c, 0, NextStop(t, lay, n, b, stop));
      KidsStep(t, lay, n, c, b, stop);
    }
  }

  /** Child `n - 1` read after the first `n - 1` children. */
  lemma {:induction false} KidsStep(t: Section, lay: Layout, n: nat, c: Section, b: nat, stop: Stop)
    requires Printable(t) && Fits(lay, t) && 0 < n <= |Kids(t)|
    requires c.level == t.level && Stops(stop, Kids(t)[n - 1].level)
    requires var next := NextStop(t, lay, n, b, stop);
      ParseLoop(c, ReaderState(KidsText(t, lay, n - 1) + Blanks(0) + StopText(next), []), Single)
        == ParseLoop(AppendAll(c, Kids(t)[..n - 1]), ReaderState(StopText(next), []), Single)
    ensures ParseLoop(c, ReaderState(KidsText(t, lay, n) + Blanks(b) + StopText(stop), []), Single)
      == ParseLoop(AppendAll(c, Kids(t)[..n]), ReaderState(StopText(stop), []), Single)
    decreases lay, n, 0
  {
    var kid, kl := Kids(t)[n - 1], lay.kids[n - 1];
    KidsTextSplit(t, lay, n, b, stop);
    AppendAllShape(c, Kids(t)[..n - 1]);
    KidParse(AppendAll(c, Kids(t)[..n - 1]), kid, kl, b, stop);
    AppendAllSnoc(c, Kids(t), n);
  }

  /** The key lines of a section and the blank line after them give the section its map. */
  lemma ValuesRound(s: Section, keys: seq<string>, tail: string)
    requires Printable(s) && Enumerates(keys, Values(s))
    ensures ParseLoop(Section(s.level, s.name, None, None), ReaderState(ValuesText(s, keys) + tail, []), Single)
      == ParseLoop(Opened(s), ReaderState(tail, []), Single)
  {
    var c0 := Section(s.level, s.name, None, None);
    if s.values.Some? {
      var m := Values(s);
      AppendAssoc(KeysText(keys, m), "\n", tail);
      KeysRound(c0, keys, m, "\n" + tail);
      StoreEvery(c0, keys, m);
      BlankLine(Opened(s), tail);
    } else {
      assert ValuesText(s, keys) + tail == tail;
    }
  }

  /** Appending all children of a printable section to its opened form gives the section back. */
  lemma OpenedAll(s: Section)
    requires s.children.Some? ==> |Kids(s)| > 0
    ensures AppendAll(Opened(s), Kids(s)[..|Kids(s)|]) == s
  {
    assert Kids(s)[..|Kids(s)|] == Kids(s);
    var r := AppendAll(Opened(s), Kids(s));
    AppendAllShape(Opened(s), Kids(s));
    if Kids(s) == [] {
      assert s.children == None;
    } else {
      assert s.children == Some(Kids(s));
      assert Kids(r) == [] + Kids(s) == Kids(s);
      assert r.children == Some(Kids(r));
    }
    assert r == Section(s.level, s.name, s.values, s.children);
  }

  /**
   * The body of a section, blank lines and `stop` after it: the section parsed from its header
   * on is `s` again and the reader is left at `stop`.
   */
  lemma {:induction false} BodyRound(s: Section, lay: Layout, b: nat, stop: Stop)
    requires Printable(s) && Fits(lay, s) && Stops(stop, s.level)
    ensures ParseLoop(Section(s.level, s.name, None, None),
        ReaderState(Body(s, lay) + Blanks(b) + StopText(stop), []), Single)
      == (s, Leftover(stop))
    decreases lay, |lay.kids| + 1
  {
    BodyText(s, lay, b, stop);
    ValuesRound(s, lay.keys, KidsText(s, lay, |lay.kids|) + Blanks(b) + StopText(stop));
    KidsRound(s, lay, |lay.kids|, Opened(s), b, stop);
    OpenedAll(s);
    StopEnd(s, stop);
  }

  lemma BodyText(s: Section, lay: Layout, b: nat, stop: Stop)
    requires Fits(lay, s)
    ensures Body(s, lay) + Blanks(b) + StopText(stop)
      == ValuesText(s, lay.keys) + (KidsText(s, lay, |lay.kids|) + Blanks(b) + StopText(stop))
  {
  }

  /**
   * parse(toString(t)) == t: the text toString writes for a printable root (level 0, no title,
   * main.go:200-204), in any key order, is parsed back into the same tree (main.go:139-149).
   */
  lemma RenderParse(t: Section, lay: Layout)
    requires Printable(t) && Fits(lay, t) && t.level == 0 && t.name == ""
    ensures ParseDoc(Render(t, lay)) == t
  {
    RenderBody(t, lay);
    assert HeaderText(0, "") == " ";
    IgnoredLine(Section(0, "", None, None), " ", Body(t, lay));
    BodyRound(t, lay, 0, EndOfInput);
    assert Body(t, lay) + Blanks(0) + StopText(EndOfInput) == Body(t, lay);
  }
}
