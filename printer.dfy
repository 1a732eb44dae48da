/**
 * toString and ToString (main.go:173-204): the text of a section tree. Go ranges over a map in
 * an unspecified order, so the order in which one run visits the keys of every section is a
 * `Layout`; `Render(t, lay)` is the text written for the tree `t` under that order, and the
 * method `ToStringInto` is proved to write the text `Render` gives for the order it took.
 */
module Printer {
  import opened Wrappers
  import opened Codec
  import opened LineSyntax
  import opened Tree

  /** The key order of a section, and the layouts of its children. */
  datatype Layout = Layout(keys: seq<string>, kids: seq<Layout>)

  /** `keys` lists every key of `m` exactly once. */
  ghost predicate Enumerates(keys: seq<string>, m: map<string, string>)
  {
    && (forall k :: k in m <==> k in keys)
    && (forall i, j :: 0 <= i < j < |keys| ==> keys[i] != keys[j])
  }

  /**
   * `lay` is an order in which toString can write the tree `t`: one key order per section,
   * child by child, and no negative level, on which strings.Repeat panics (main.go:174).
   */
  ghost predicate Fits(lay: Layout, t: Section)
    decreases lay
  {
    && t.level >= 0
    && Enumerates(lay.keys, Values(t))
    && |lay.kids| == |Kids(t)|
    && forall i :: 0 <= i < |lay.kids| ==> Fits(lay.kids[i], Kids(t)[i])
  }

  /** The header line of main.go:174: `level` '#', a space and the name. */
  function HeaderLine(level: nat, name: string): string
  {
    Repeat('#', level) + " " + name + "\n"
  }

  /** The interior fragments of a multi-line value, each followed by `\` and a line break. */
  function Interior(frags: seq<string>): string
  {
    if frags == [] then "" else frags[0] + "\\\n" + Interior(frags[1..])
  }

  /**
   * The lines written for the key `k` with value `v` (main.go:176-189, corrected): a value
   * without a line break on one line, escaped; otherwise the first fragment escaped and each
   * fragment but the last ended by a continuation `\` and a line break.
   */
  function KeyText(k: string, v: string): string
  {
    var ss := Split(v);
    if |ss| > 1 then
      KeyLine(k, EscapeValue(ss[0])) + "\\\n" + Interior(ss[1..|ss| - 1]) + ss[|ss| - 1] + "\n"
    else
      KeyLine(k, EscapeValue(v)) + "\n"
  }

  /** `fmt.Sprintf("+ %s: %s", k, e)` (main.go:179, 188). */
  function KeyLine(k: string, e: string): string
  {
    "+ " + k + ": " + e
  }

  lemma AppendAssoc(a: string, b: string, c: string)
    ensures a + (b + c) == a + b + c
  {
  }

  /** The lines of the keys `keys` of the map `m`, in that order. */
  function KeysText(keys: seq<string>, m: map<string, string>): string
    requires forall k :: k in keys ==> k in m
  {
    if keys == [] then ""
    else KeysText(keys[..|keys| - 1], m) + KeyText(keys[|keys| - 1], m[keys[|keys| - 1]])
  }

  /** The key lines of a section and the blank line after them, when it has a map (main.go:175-192). */
  function ValuesText(t: Section, keys: seq<string>): string
    requires forall k :: k in keys ==> k in Values(t)
  {
    if t.values.Some? then KeysText(keys, Values(t)) + "\n" else ""
  }

  /** The text toString writes for the tree `t` visited in the order `lay` (main.go:173-199). */
  function Render(t: Section, lay: Layout): string
    requires Fits(lay, t)
    decreases lay, |lay.kids| + 1
  {
    HeaderLine(t.level, t.name) + ValuesText(t, lay.keys) + KidsText(t, lay, |lay.kids|)
  }

  /** The text of the first `n` children of `t`, each followed by a blank line (main.go:193-198). */
  function KidsText(t: Section, lay: Layout, n: nat): string
    requires n <= |lay.kids| && n <= |Kids(t)|
    requires forall i :: 0 <= i < n ==> Fits(lay.kids[i], Kids(t)[i])
    decreases lay, n
  {
    if n == 0 then ""
    else KidsText(t, lay, n - 1) + Render(Kids(t)[n - 1], lay.kids[n - 1]) + "\n"
  }

  /** The children's text depends only on the layouts of the children written so far. */
  lemma {:induction false} KidsTextPrefix(t: Section, lay: Layout, lay': Layout, n: nat)
    requires n <= |lay.kids| && n <= |lay'.kids| && n <= |Kids(t)|
    requires forall i :: 0 <= i < n ==> lay.kids[i] == lay'.kids[i] && Fits(lay.kids[i], Kids(t)[i])
    ensures KidsText(t, lay, n) == KidsText(t, lay', n)
  {
    if n > 0 { KidsTextPrefix(t, lay, lay', n - 1); }
  }

  lemma {:induction false} InteriorSnoc(frags: seq<string>, f: string)
    ensures Interior(frags + [f]) == Interior(frags) + f + "\\\n"
  {
    if frags != [] {
      assert (frags + [f])[1..] == frags[1..] + [f];
      InteriorSnoc(frags[1..], f);
    }
  }

  /**
   * The corrected text has one line per fragment of the value: the key line with the first
   * fragment escaped, then every other fragment verbatim, each line but the last marked with a
   * trailing `\`, and nothing after the final line break.
   */
  lemma KeyTextLines(k: string, v: string)
    requires NoNewline(k)
    ensures var ss, ls := Split(v), Split(KeyText(k, v)); var n := |ss|;
      && |ls| == n + 1 && ls[n] == ""
      && ls[0] == KeyLine(k, EscapeValue(ss[0])) + (if n > 1 then "\\" else "")
      && (forall i :: 0 < i < n - 1 ==> ls[i] == ss[i] + "\\")
      && (n > 1 ==> ls[n - 1] == ss[n - 1])
  {
    var ss := Split(v);
    EscapeNoNewline(ss[0]);
    if |ss| > 1 {
      MultiLines(k, EscapeValue(ss[0]), ss);
    } else {
      SplitOne(v);
      SplitOfNoNewline(v);
      OneLine(k, EscapeValue(v));
    }
  }

  lemma OneLine(k: string, e: string)
    requires NoNewline(k) && NoNewline(e)
    ensures Split(KeyLine(k, e) + "\n") == [KeyLine(k, e), ""]
  {
    var line := KeyLine(k, e);
    NoNewlineKeyLine(k, e);
    assert line + "\n" == line + "\n" + "";
    SplitPrefix(line, "");
    SplitOfNoNewline("");
  }

  lemma MultiLines(k: string, e: string, ss: seq<string>)
    requires NoNewline(k) && NoNewline(e) && |ss| > 1
    requires forall i :: 0 <= i < |ss| ==> NoNewline(ss[i])
    ensures var n, ls := |ss|, Split(KeyLine(k, e) + "\\\n" + Interior(ss[1..|ss| - 1]) + ss[|ss| - 1] + "\n");
      && |ls| == n + 1 && ls[n] == "" && ls[0] == KeyLine(k, e) + "\\" && ls[n - 1] == ss[n - 1]
      && (forall i :: 0 < i < n - 1 ==> ls[i] == ss[i] + "\\")
  {
    var n := |ss|;
    var head := KeyLine(k, e) + "\\";
    var mid := ss[1..n - 1];
    var last := ss[n - 1];
    var rest := Interior(mid) + (last + "\n");
    assert NoNewline(head) by {
      var eb := e + "\\";
      assert NoNewline(eb) by {
        forall i | 0 <= i < |eb| ensures eb[i] != '\n' { if i < |e| { assert eb[i] == e[i]; } }
      }
      NoNewlineKeyLine(k, eb);
    }
    assert KeyLine(k, e) + "\\\n" + Interior(mid) + last + "\n" == head + "\n" + rest;
    SplitPrefix(head, rest);
    InteriorLines(mid, last + "\n");
    assert last + "\n" == last + "\n" + "";
    SplitPrefix(last, "");
    SplitOfNoNewline("");
  }

  lemma NoNewlineKeyLine(k: string, e: string)
    requires NoNewline(k) && NoNewline(e)
    ensures NoNewline("+ " + k + ": " + e)
  {
    var line := "+ " + k + ": " + e;
    forall i | 0 <= i < |line| ensures line[i] != '\n' {
      if 2 <= i < 2 + |k| { assert line[i] == k[i - 2]; }
      else if i >= 4 + |k| { assert line[i] == e[i - 4 - |k|]; }
    }
  }

  /** The interior fragments come out as lines of their own, each with its trailing `\`. */
  lemma {:induction false} InteriorLines(frags: seq<string>, rest: string)
    requires forall i :: 0 <= i < |frags| ==> NoNewline(frags[i])
    ensures var ls := Split(Interior(frags) + rest);
      && |ls| == |frags| + |Split(rest)|
      && (forall i :: 0 <= i < |frags| ==> ls[i] == frags[i] + "\\")
      && ls[|frags|..] == Split(rest)
  {
    if frags != [] {
      var f := frags[0] + "\\";
      assert NoNewline(f) by {
        forall i | 0 <= i < |f| ensures f[i] != '\n' { if i < |frags[0]| { assert f[i] == frags[0][i]; } }
      }
      var tail := Interior(frags[1..]) + rest;
      assert Interior(frags) + rest == f + "\n" + tail;
      SplitPrefix(f, tail);
      InteriorLines(frags[1..], rest);
      var ls := Split(Interior(frags) + rest);
      assert ls == [f] + Split(tail);
      assert ls[|frags|..] == Split(tail)[|frags| - 1..];
    } else {
      assert Interior(frags) + rest == rest;
    }
  }

  /**
   * The loop of main.go:181-184 as written, run for at most `fuel` rounds: it writes `ss[i]` and
   * `\` with a line break but never advances `i`, so it ends only when it does not start. None
   * stands for a loop still running when the fuel is spent.
   */
  function InteriorAsWritten(ss: seq<string>, i: nat, fuel: nat): Option<string>
    decreases fuel
  {
    if i < |ss| - 1 then
      if fuel == 0 then None
      else match InteriorAsWritten(ss, i, fuel - 1)
        case None => None
        case Some(t) => Some(ss[i] + "\\\n" + t)
    else Some("")
  }

  /**
   * The lines main.go:176-189 write for a key, as written: the first fragment's `\` is not
   * followed by a line break (main.go:179), and the interior loop runs at most `fuel` rounds.
   */
  function KeyTextAsWritten(k: string, v: string, fuel: nat): Option<string>
  {
    var ss := Split(v);
    if |ss| > 1 then
      match InteriorAsWritten(ss, 1, fuel)
      case None => None
      case Some(mid) => Some("+ " + k + ": " + EscapeValue(ss[0]) + "\\" + mid + ss[|ss| - 1] + "\n")
    else
      Some("+ " + k + ": " + EscapeValue(v) + "\n")
  }

  /** With three fragments or more the loop of main.go:181-184 never ends, whatever the fuel. */
  lemma {:induction false} InteriorNeverEnds(ss: seq<string>, fuel: nat)
    requires |ss| >= 3
    ensures InteriorAsWritten(ss, 1, fuel) == None
  {
    if fuel > 0 { InteriorNeverEnds(ss, fuel - 1); }
  }

  /**
   * With two fragments, main.go:179 writes them on one line: "a\nb" becomes the single line
   * `+ k: a\b`, where the corrected text has the two lines `+ k: a\` and `b`.
   */
  lemma TwoFragmentsOneLine(fuel: nat)
    ensures KeyTextAsWritten("k", "a\nb", fuel) == Some("+ k: a\\b\n")
    ensures KeyText("k", "a\nb") == "+ k: a\\\nb\n"
  {
    assert "a\nb" == "a" + "\n" + "b";
    SplitPrefix("a", "b");
    SplitOfNoNewline("b");
    SplitOfNoNewline("a");
    var ss := Split("a\nb");
    assert ss == ["a", "b"];
    assert EscapeValue("a") == "a";
    assert InteriorAsWritten(ss, 1, fuel) == Some("");
    assert "+ " + "k" + ": " + "a" + "\\" + "" + "b" + "\n" == "+ k: a\\b\n";
  }

  /** On a value without a line break the two agree, whatever the fuel. */
  lemma KeyTextAgree(k: string, v: string, fuel: nat)
    requires NoNewline(v)
    ensures KeyTextAsWritten(k, v, fuel) == Some(KeyText(k, v))
  {
    SplitOne(v);
  }

  /** strings.Builder: the text written so far. */
  class Builder {
    var buf: string

    constructor ()
      ensures buf == ""
    {
      buf := "";
    }

    /** `WriteString(s)`: appends `s`. */
    method WriteString(s: string)
      modifies this
      ensures buf == old(buf) + s
    {
      buf := buf + s;
    }
  }

  /** The lines for one key (main.go:177-189, with the fragment loop advancing its index). */
  method WriteKey(br: Builder, k: string, v: string)
    modifies br
    ensures br.buf == old(br.buf) + KeyText(k, v)
  {
    var ss := Split(v);
    if |ss| > 1 {
      var head := KeyLine(k, EscapeValue(ss[0])) + "\\\n";
      br.WriteString(head);
      ghost var pre := br.buf;
      var i := 1;
      while i < |ss| - 1
        invariant 1 <= i <= |ss| - 1
        invariant br.buf == pre + Interior(ss[1..i])
      {
        ghost var mid := Interior(ss[1..i]);
        br.WriteString(ss[i]);
        br.WriteString("\\\n");
        InteriorSnoc(ss[1..i], ss[i]);
        assert ss[1..i + 1] == ss[1..i] + [ss[i]];
        AppendAssoc(pre, mid, ss[i]);
        AppendAssoc(pre, mid + ss[i], "\\\n");
        i := i + 1;
      }
      var last := ss[|ss| - 1];
      br.WriteString(last);
      br.WriteString("\n");
      ghost var body := head + Interior(ss[1..|ss| - 1]);
      AppendAssoc(old(br.buf), head, Interior(ss[1..|ss| - 1]));
      AppendAssoc(old(br.buf), body, last);
      AppendAssoc(old(br.buf), body + last, "\n");
    } else {
      br.WriteString(KeyLine(k, EscapeValue(v)) + "\n");
    }
  }

  lemma KeysTextSnoc(keys: seq<string>, k: string, m: map<string, string>)
    requires forall x :: x in keys ==> x in m
    requires k in m
    ensures KeysText(keys + [k], m) == KeysText(keys, m) + KeyText(k, m[k])
  {
    assert (keys + [k])[..|keys|] == keys;
  }

  /** The key lines of a map, in the order the loop picks the keys (main.go:176-190). */
  method WriteValues(br: Builder, m: map<string, string>) returns (ghost keys: seq<string>)
    modifies br
    ensures Enumerates(keys, m)
    ensures br.buf == old(br.buf) + KeysText(keys, m)
  {
    keys := [];
    var left := m.Keys;
    while left != {}
      invariant forall k :: k in m <==> k in keys || k in left
      invariant forall k :: k in keys ==> k !in left
      invariant forall i, j :: 0 <= i < j < |keys| ==> keys[i] != keys[j]
      invariant br.buf == old(br.buf) + KeysText(keys, m)
      decreases |left|
    {
      var k :| k in left;
      WriteKey(br, k, m[k]);
      KeysTextSnoc(keys, k, m);
      AppendAssoc(old(br.buf), KeysText(keys, m), KeyText(k, m[k]));
      keys := keys + [k];
      left := left - {k};
    }
  }

  /** `toString(br, mdc)` (main.go:173-199); `t` is the value of the tree at `mdc`. */
  method ToStringInto(br: Builder, mdc: MDConfSection, ghost t: Section) returns (ghost lay: Layout)
    requires mdc.Valid() && mdc.Unsigned() && br !in mdc.Repr && mdc.Model() == t
    modifies br
    ensures Fits(lay, t)
    ensures br.buf == old(br.buf) + Render(t, lay)
    decreases mdc.Repr, 2
  {
    var header := HeaderLine(mdc.level, mdc.sectionName);
    br.WriteString(header);
    ghost var keys: seq<string> := [];
    if mdc.valueMap.Some? {
      keys := WriteValues(br, mdc.valueMap.value);
      br.WriteString("\n");
      AppendAssoc(old(br.buf) + header, KeysText(keys, Values(t)), "\n");
    }
    ghost var start := br.buf;
    ghost var lays: seq<Layout> := [];
    if mdc.subsection.Some? {
      mdc.Untouched();
      lays := WriteKids(br, mdc, t, keys);
    }
    lay := Layout(keys, lays);
    ghost var values := ValuesText(t, keys);
    assert start == old(br.buf) + header + values;
    AppendAssoc(old(br.buf), header, values);
    AppendAssoc(old(br.buf), header + values, KidsText(t, lay, |lays|));
  }

  /** The loop over the children of main.go:193-198, each followed by a blank line. */
  method WriteKids(br: Builder, mdc: MDConfSection, ghost t: Section, ghost keys: seq<string>)
    returns (ghost lays: seq<Layout>)
    requires mdc.Valid() && mdc.Unsigned() && br !in mdc.Repr && mdc.Model() == t
    modifies br
    ensures |lays| == |Kids(t)|
    ensures forall j :: 0 <= j < |lays| ==> Fits(lays[j], Kids(t)[j])
    ensures br.buf == old(br.buf) + KidsText(t, Layout(keys, lays), |lays|)
    decreases mdc.Repr, 1
  {
    var kids := mdc.Children();
    mdc.KidsModels();
    assert |kids| == |Kids(t)|;
    lays := [];
    var i := 0;
    while i < |kids|
      invariant i <= |kids| && Printed(br.buf, old(br.buf), t, keys, lays, i)
    {
      mdc.Untouched();
      var l := WriteKid(br, mdc, i, t, keys, lays, old(br.buf));
      lays := lays + [l];
      i := i + 1;
    }
  }

  /** `buf` is `start` followed by the text of the first `i` children of `t`, laid out by `lays`. */
  ghost predicate Printed(buf: string, start: string, t: Section, keys: seq<string>, lays: seq<Layout>, i: nat)
  {
    && |lays| == i <= |Kids(t)|
    && (forall j :: 0 <= j < i ==> Fits(lays[j], Kids(t)[j]))
    && buf == start + KidsText(t, Layout(keys, lays), i)
  }

  /**
   * One pass of the loop of main.go:193-198: child `i` followed by a blank line, after the text
   * of the children before it.
   */
  method WriteKid(br: Builder, mdc: MDConfSection, i: nat, ghost t: Section, ghost keys: seq<string>,
                  ghost lays: seq<Layout>, ghost start: string)
    returns (ghost l: Layout)
    requires mdc.Valid() && mdc.Unsigned() && br !in mdc.Repr && mdc.Model() == t
    requires i < |mdc.Children()| && Printed(br.buf, start, t, keys, lays, i)
    modifies br
    ensures Printed(br.buf, start, t, keys, lays + [l], i + 1)
    decreases mdc.Repr, 0
  {
    var c := mdc.Children()[i];
    mdc.KidUntouched(i);
    mdc.ChildValid(i);
    l := ToStringInto(br, c, Kids(t)[i]);
    br.WriteString("\n");
    KidStep(t, keys, lays, l, start, old(br.buf));
  }

  /** One more child written: its layout fits, and the text grows by the child's text and a blank line. */
  lemma KidStep(t: Section, keys: seq<string>, lays: seq<Layout>, l: Layout, start: string, before: string)
    requires |lays| < |Kids(t)| && Fits(l, Kids(t)[|lays|])
    requires forall j :: 0 <= j < |lays| ==> Fits(lays[j], Kids(t)[j])
    requires before == start + KidsText(t, Layout(keys, lays), |lays|)
    ensures forall j :: 0 <= j < |lays| + 1 ==> Fits((lays + [l])[j], Kids(t)[j])
    ensures before + Render(Kids(t)[|lays|], l) + "\n"
      == start + KidsText(t, Layout(keys, lays + [l]), |lays| + 1)
  {
    var n := |lays|;
    FitsSnoc(t, lays, l);
    KidsTextSnoc(t, keys, lays, l);
    AppendAssoc(start, KidsText(t, Layout(keys, lays), n), Render(Kids(t)[n], l) + "\n");
    AppendAssoc(before, Render(Kids(t)[n], l), "\n");
  }

  lemma FitsSnoc(t: Section, lays: seq<Layout>, l: Layout)
    requires |lays| < |Kids(t)| && Fits(l, Kids(t)[|lays|])
    requires forall j :: 0 <= j < |lays| ==> Fits(lays[j], Kids(t)[j])
    ensures forall j :: 0 <= j < |lays| + 1 ==> Fits((lays + [l])[j], Kids(t)[j])
  {
  }

  lemma KidsTextSnoc(t: Section, keys: seq<string>, lays: seq<Layout>, l: Layout)
    requires |lays| < |Kids(t)|
    requires forall j :: 0 <= j < |lays| + 1 ==> Fits((lays + [l])[j], Kids(t)[j])
    ensures KidsText(t, Layout(keys, lays + [l]), |lays| + 1)
        == KidsText(t, Layout(keys, lays), |lays|) + (Render(Kids(t)[|lays|], l) + "\n")
  {
    var n := |lays|;
    KidsTextPrefix(t, Layout(keys, lays), Layout(keys, lays + [l]), n);
    AppendAssoc(KidsText(t, Layout(keys, lays), n), Render(Kids(t)[n], l), "\n");
  }

  /** `ToString()` (main.go:200-204): the text of the whole tree, in some order of its keys. */
  method ToString(mdc: MDConfSection) returns (s: string)
    requires mdc.Valid() && mdc.Unsigned()
    ensures exists lay :: Fits(lay, mdc.Model()) && s == Render(mdc.Model(), lay)
  {
    var br := new Builder();
    ghost var t := mdc.Model();
    ghost var lay := ToStringInto(br, mdc, t);
    s := br.buf;
    mdc.Untouched();
  }
}
