/**
 * What parseInner (main.go:58-137) does to a section and to the line reader, stated over
 * ParseLoop: the shape of the section it returns, where it stops reading, and what each kind of
 * line does to the section.
 */
module ParseProps {
  import opened Wrappers
  import opened Codec
  import opened LineSyntax
  import opened Reader
  import opened Tree
  import opened Parser

  /**
   * `res` is `cur` after more lines were parsed into it: same level and name, the old children
   * first, each new child deeper than `cur`, and a map or a slice once made never nil again.
   */
  predicate Extends(cur: Section, res: Section)
  {
    && res.level == cur.level && res.name == cur.name
    && |Kids(cur)| <= |Kids(res)| && Kids(res)[..|Kids(cur)|] == Kids(cur)
    && (cur.values.Some? ==> res.values.Some?)
    && (cur.children.Some? ==> res.children.Some?)
    && (forall i :: |Kids(cur)| <= i < |Kids(res)| ==> Kids(res)[i].level > cur.level)
  }

  lemma ExtendsTrans(a: Section, b: Section, c: Section)
    requires Extends(a, b) && Extends(b, c)
    ensures Extends(a, c)
  {
    var ka, kb, kc := Kids(a), Kids(b), Kids(c);
    assert kc[..|ka|] == kb[..|kb|][..|ka|];
    forall i | |ka| <= i < |kc| ensures kc[i].level > a.level {
      if i < |kb| { assert kc[i] == kc[..|kb|][i]; }
    }
  }

  /** A line that is not a header leaves the level, the name and the children alone. */
  lemma NextKeeps(cur: Section, r: string, mode: Mode)
    requires LineEffect(cur, r, mode).Next?
    ensures var c := LineEffect(cur, r, mode).sec;
      && Extends(cur, c) && Kids(c) == Kids(cur) && c.children == cur.children
  {
    var c := LineEffect(cur, r, mode).sec;
    EffectKeeps(cur, r, mode);
    assert Kids(c) == Kids(cur);
    assert Kids(c)[..|Kids(cur)|] == Kids(cur);
  }

  lemma EffectKeeps(cur: Section, r: string, mode: Mode)
    requires LineEffect(cur, r, mode).Next?
    ensures var c := LineEffect(cur, r, mode).sec;
      && c.level == cur.level && c.name == cur.name && c.children == cur.children
      && (cur.values.Some? ==> c.values.Some?)
  {
    if mode.Multi? {
    } else if Ignored(r) {
    } else if MatchKV(r).Some? {
      var (key, val) := MatchKV(r).value;
      KVKeeps(cur, key, val);
    } else {
      assert LineEffect(cur, r, mode) == Next(cur, Single);
    }
  }

  lemma KVKeeps(cur: Section, key: string, val: string)
    ensures var c := KVEffect(cur, key, val).sec;
      && c.level == cur.level && c.name == cur.name && c.children == cur.children && c.values.Some?
  {
  }

  /** The section parseInner returns extends the one it was given (main.go:58-137). */
  lemma {:induction false} LoopExtends(cur: Section, st: ReaderState, mode: Mode)
    ensures Extends(cur, ParseLoop(cur, st, mode).0)
    decreases Measure(st), 1
  {
    match Read(st)
    case (None, st1) =>
      assert Kids(cur)[..|Kids(cur)|] == Kids(cur);
    case (Some(r), st1) =>
      StepExtends(cur, r, st1, mode);
  }

  lemma {:induction false} StepExtends(cur: Section, r: string, st: ReaderState, mode: Mode)
    ensures Extends(cur, ParseStep(cur, r, st, mode).0)
    decreases Measure(st), 2
  {
    var res := ParseStep(cur, r, st, mode).0;
    match LineEffect(cur, r, mode)
    case Next(c, m) =>
      NextKeeps(cur, r, mode);
      LoopExtends(c, st, m);
      ExtendsTrans(cur, c, res);
    case Header(level, title) =>
      if level <= cur.level {
        assert Kids(cur)[..|Kids(cur)|] == Kids(cur);
      } else {
        var (child, st2) := ParseLoop(Section(level, title, None, None), st, Single);
        LoopExtends(Section(level, title, None, None), st, Single);
        var app := AppendChild(cur, child);
        AppendExtends(cur, child);
        LoopExtends(app, st2, Single);
        ExtendsTrans(cur, app, res);
      }
  }

  /** Appending a deeper child extends a section. */
  lemma AppendExtends(cur: Section, child: Section)
    requires child.level > cur.level
    ensures Extends(cur, AppendChild(cur, child))
  {
    assert Kids(AppendChild(cur, child))[..|Kids(cur)|] == Kids(cur);
  }

  /** A line on which parseInner returns to its caller: a header at `level` or above it. */
  predicate StopsAt(line: string, level: int)
  {
    && !Ignored(line) && MatchKV(line).None? && MatchHeader(line).Some?
    && Int8(MatchHeader(line).value.0) <= level
  }

  /**
   * Where parseInner leaves the reader: at the end of the input with nothing pushed back, or with
   * the header that ended the section on top of the pushback stack.
   */
  predicate Ended(st: ReaderState, level: int)
  {
    st == ReaderState("", []) || (|st.pushed| > 0 && StopsAt(st.pushed[|st.pushed| - 1], level))
  }

  /** parseInner returns only at the end of the input or at a header at its level or above. */
  lemma {:induction false} LoopEnds(cur: Section, st: ReaderState, mode: Mode)
    ensures Ended(ParseLoop(cur, st, mode).1, cur.level)
    decreases Measure(st), 1
  {
    match Read(st)
    case (None, st1) =>
    case (Some(r), st1) =>
      StepEnds(cur, r, st1, mode);
  }

  lemma {:induction false} StepEnds(cur: Section, r: string, st: ReaderState, mode: Mode)
    ensures Ended(ParseStep(cur, r, st, mode).1, cur.level)
    decreases Measure(st), 2
  {
    match LineEffect(cur, r, mode)
    case Next(c, m) =>
      NextKeeps(cur, r, mode);
      LoopEnds(c, st, m);
    case Header(level, title) =>
      if level <= cur.level {
        assert Unread(st, r).pushed[|st.pushed|] == r;
      } else {
        var (child, st2) := ParseLoop(Section(level, title, None, None), st, Single);
        LoopEnds(AppendChild(cur, child), st2, Single);
      }
  }

  /** The reader after a fresh line: ParseLoop goes on with ParseStep on that line. */
  lemma LineStep(cur: Section, line: string, more: string, mode: Mode)
    requires NoNewline(line)
    ensures ParseLoop(cur, ReaderState(line + "\n" + more, []), mode)
      == ParseStep(cur, line, ReaderState(more, []), mode)
  {
    ReadFreshLine(line, more);
    LoopRead(cur, ReaderState(line + "\n" + more, []), mode);
  }

  /**
   * End of input (main.go:63, 133-135): a last line without '\n' is lost, and a pending
   * multi-line value is stored.
   */
  lemma LastLineDropped(cur: Section, rest: string, mode: Mode)
    requires NoNewline(rest)
    ensures ParseLoop(cur, ReaderState(rest, []), mode) == (Finish(cur, mode), ReaderState("", []))
  {
    assert NewlineFrom(rest, 0).None?;
  }

  /** Blank lines and `//` comments change nothing (main.go:77-80). */
  lemma IgnoredLine(cur: Section, line: string, more: string)
    requires NoNewline(line) && Ignored(line)
    ensures ParseLoop(cur, ReaderState(line + "\n" + more, []), Single)
      == ParseLoop(cur, ReaderState(more, []), Single)
  {
    LineStep(cur, line, more, Single);
    StepNext(cur, line, ReaderState(more, []), Single);
  }

  /** A line that starts with neither white space nor '/' is not ignored. */
  lemma NotIgnored(line: string)
    requires |line| > 0 && !IsTrimSpace(line[0]) && line[0] != '/'
    ensures !Ignored(line)
  {
    var l := TrimLeftSpace(line);
    assert l == line;
    var t := TrimSpace(line);
    assert t == TrimRightSpace(l);
    assert t != [] && t[0] == line[0];
  }

  /** A key that reKV's key group takes literally: no colon, backslash or `\s` character. */
  predicate PlainKey(key: string)
  {
    forall i :: 0 <= i < |key| ==> key[i] != ':' && key[i] != '\\' && !IsRegexSpace(key[i])
  }

  lemma {:induction false} KeyEndPlain(s: string, i: nat, e: nat)
    requires i <= e < |s| && s[e] == ':'
    requires forall k :: i <= k < e ==> s[k] != ':' && s[k] != '\\' && !IsRegexSpace(s[k])
    ensures KeyEnd(s, i) == Some(e)
    decreases e - i
  {
    if i < e {
      KeyEndPlain(s, i + 1, e);
    } else {
      assert SkipSpaces(s, e) == e;
    }
  }

  /** The line toString writes for a key (main.go:188) is matched by reKV as that key and value. */
  lemma MatchKVLine(key: string, val: string)
    requires PlainKey(key) && (val == "" || !IsRegexSpace(val[0]))
    ensures MatchKV("+ " + key + ": " + val) == Some((key, val))
  {
    var line := "+ " + key + ": " + val;
    var e := 2 + |key|;
    assert line[0] == '+' && line[1] == ' ' && line[e] == ':' && line[e + 1] == ' ';
    assert line[2..e] == key && line[e + 2..] == val;
    assert SkipSpaces(line, 0) == 0;
    assert SkipSpaces(line, 1) == 2 by {
      assert SkipSpaces(line, 2) == 2 by { if key != "" { assert line[2] == key[0]; } }
    }
    KeyEndPlain(line, 2, e);
    assert SkipSpaces(line, e) == e;
    assert SkipSpaces(line, e + 1) == e + 2 by {
      assert SkipSpaces(line, e + 2) == e + 2 by { if val != "" { assert line[e + 2] == val[0]; } }
    }
  }

  /** A `+ key: val` line in the normal state does what KVEffect says (main.go:81-114). */
  lemma KVLine(cur: Section, key: string, val: string, more: string)
    requires PlainKey(key) && NoNewline(key) && NoNewline(val) && (val == "" || !IsRegexSpace(val[0]))
    ensures var line := "+ " + key + ": " + val; NoNewline(line)
    ensures ParseLoop(cur, ReaderState("+ " + key + ": " + val + "\n" + more, []), Single)
      == ParseLoop(KVEffect(cur, key, val).sec, ReaderState(more, []), KVEffect(cur, key, val).mode)
  {
    var line := "+ " + key + ": " + val;
    assert NoNewline(line) by {
      forall i | 0 <= i < |line| ensures line[i] != '\n' {
        if 2 <= i < 2 + |key| { assert line[i] == key[i - 2]; }
        else if i >= 4 + |key| { assert line[i] == val[i - 4 - |key|]; }
      }
    }
    LineStep(cur, line, more, Single);
    NotIgnored(line);
    MatchKVLine(key, val);
    StepNext(cur, line, ReaderState(more, []), Single);
  }

  /**
   * A key line written by toString for a one-line value (main.go:188) stores exactly that value:
   * escapeValue, the trimming and unescape undo each other.
   */
  lemma RenderedKVLine(cur: Section, key: string, v: string, more: string)
    requires PlainKey(key) && NoNewline(key) && NoNewline(v) && NoBackslash(v)
    ensures ParseLoop(cur, ReaderState("+ " + key + ": " + EscapeValue(v) + "\n" + more, []), Single)
      == ParseLoop(SetValue(cur, key, v), ReaderState(more, []), Single)
  {
    var e := EscapeValue(v);
    if v == "" {
      KVLine(cur, key, e, more);
    } else {
      assert !IsWhite(e[0]);
      assert NoNewline(e) by { EscapeNoNewline(v); }
      KVLine(cur, key, e, more);
      EscapeValueEnd(v);
      ReadBackValue(v, "");
      assert e + "" == e;
    }
  }

  lemma {:induction false} HashesEndAt(s: string, i: nat, e: nat)
    requires i <= e <= |s|
    requires forall k :: i <= k < e ==> s[k] == '#'
    requires e == |s| || s[e] != '#'
    ensures HashesEnd(s, i) == e
    decreases e - i
  {
    if i < e { HashesEndAt(s, i + 1, e); }
  }

  /** A title that reads back verbatim after `#`s and one space: no '\n', no leading `\s` or '#'. */
  predicate PlainTitle(title: string)
  {
    NoNewline(title) && (title == "" || (!IsRegexSpace(title[0]) && title[0] != '#'))
  }

  /** The header line toString writes (main.go:174): `n` '#', a space and the title. */
  function HeaderText(n: nat, title: string): string
  {
    Repeat('#', n) + " " + title
  }

  lemma HeaderTextShape(n: nat, title: string)
    ensures var line := HeaderText(n, title);
      && |line| == n + 1 + |title| && line[n] == ' ' && line[n + 1..] == title
      && forall k :: 0 <= k < n ==> line[k] == '#'
  {
    var line := HeaderText(n, title);
    assert line[..n] == Repeat('#', n);
  }

  /** reSectionHeader matches a header line as its level and title. */
  lemma MatchHeaderText(n: nat, title: string)
    requires n >= 1 && PlainTitle(title)
    ensures MatchHeader(HeaderText(n, title)) == Some((n, title))
  {
    var line := HeaderText(n, title);
    HeaderTextShape(n, title);
    assert SkipSpaces(line, 0) == 0;
    HashesEndAt(line, 0, n);
    assert SkipSpaces(line, n + 1) == n + 1 by { if title != "" { assert line[n + 1] == title[0]; } }
  }

  /** A header line is neither a key line nor an ignored one, and holds no '\n'. */
  lemma HeaderTextKind(n: nat, title: string)
    requires n >= 1 && PlainTitle(title)
    ensures var line := HeaderText(n, title); MatchKV(line).None? && !Ignored(line) && NoNewline(line)
  {
    var line := HeaderText(n, title);
    HeaderTextShape(n, title);
    assert line[0] == '#';
    assert SkipSpaces(line, 0) == 0;
    NotIgnored(line);
    forall i | 0 <= i < |line| ensures line[i] != '\n' {
      if i > n { assert line[i] == title[i - n - 1]; }
    }
  }

  /** The header line is taken as its level and title by parseInner (main.go:113-116). */
  lemma MatchHeaderLine(cur: Section, n: nat, title: string)
    requires 1 <= n < 128 && PlainTitle(title)
    ensures NoNewline(HeaderText(n, title))
    ensures LineEffect(cur, HeaderText(n, title), Single) == Header(n, title)
  {
    MatchHeaderText(n, title);
    HeaderTextKind(n, title);
  }

  /**
   * A header deeper than the current section (main.go:121-130): a new section with that level
   * and the verbatim title is parsed from the following lines and appended.
   */
  lemma HeaderDown(cur: Section, n: nat, title: string, more: string)
    requires 1 <= n < 128 && PlainTitle(title) && n > cur.level
    ensures var (child, st2) := ParseLoop(Section(n, title, None, None), ReaderState(more, []), Single);
      ParseLoop(cur, ReaderState(HeaderText(n, title) + "\n" + more, []), Single)
        == ParseLoop(AppendChild(cur, child), st2, Single)
  {
    var line := HeaderText(n, title);
    MatchHeaderLine(cur, n, title);
    LineStep(cur, line, more, Single);
    StepDown(cur, line, ReaderState(more, []), Single);
  }

  /**
   * A header at the level of the current section or above it (main.go:117-120): pushed back,
   * and the section returned as it is.
   */
  lemma HeaderUp(cur: Section, n: nat, title: string, more: string)
    requires 1 <= n < 128 && PlainTitle(title) && n <= cur.level
    ensures var line := HeaderText(n, title);
      ParseLoop(cur, ReaderState(line + "\n" + more, []), Single)
        == (cur, Unread(ReaderState(more, []), line))
  {
    var line := HeaderText(n, title);
    MatchHeaderLine(cur, n, title);
    LineStep(cur, line, more, Single);
    StepUp(cur, line, ReaderState(more, []), Single);
  }

  /** A header of 128 '#' has level int8(128) = -128 (main.go:115). */
  lemma WrappedHeaderLine(cur: Section, title: string)
    requires PlainTitle(title)
    ensures NoNewline(HeaderText(128, title))
    ensures LineEffect(cur, HeaderText(128, title), Single) == Header(-128, title)
  {
    MatchHeaderText(128, title);
    HeaderTextKind(128, title);
    assert Int8(128) == -128;
  }

  /**
   * int8(len(...)) (main.go:115) wraps: a header of 128 '#' is at or above every section, even
   * the root, so the section returns on it and, at the root, the rest of the input is never read.
   */
  lemma WrappedHeaderEnds(cur: Section, title: string, more: string)
    requires PlainTitle(title) && cur.level >= -128
    ensures var line := HeaderText(128, title);
      ParseLoop(cur, ReaderState(line + "\n" + more, []), Single)
        == (cur, Unread(ReaderState(more, []), line))
  {
    var line := HeaderText(128, title);
    WrappedHeaderLine(cur, title);
    LineStep(cur, line, more, Single);
    StepUp(cur, line, ReaderState(more, []), Single);
  }

  /** In a multi-line value a raw line ending in '\' adds its unescaped rest (main.go:67-70). */
  lemma MultiLineGoesOn(cur: Section, key: string, frags: seq<string>, line: string, more: string)
    requires NoNewline(line) && |line| > 0 && line[|line| - 1] == '\\'
    ensures ParseLoop(cur, ReaderState(line + "\n" + more, []), Multi(key, frags))
      == ParseLoop(cur, ReaderState(more, []), Multi(key, frags + [Unescape(line[..|line| - 1])]))
  {
    LineStep(cur, line, more, Multi(key, frags));
    StepNext(cur, line, ReaderState(more, []), Multi(key, frags));
  }

  /**
   * The first raw line not ending in '\' ends a multi-line value (main.go:71-73): the fragments
   * read so far are joined and stored, and that line itself is consumed and dropped, whatever it
   * looks like.
   */
  lemma MultiLineEnds(cur: Section, key: string, frags: seq<string>, line: string, more: string)
    requires NoNewline(line) && (|line| == 0 || line[|line| - 1] != '\\')
    ensures ParseLoop(cur, ReaderState(line + "\n" + more, []), Multi(key, frags))
      == ParseLoop(SetValue(cur, key, Join(frags)), ReaderState(more, []), Single)
  {
    LineStep(cur, line, more, Multi(key, frags));
    StepNext(cur, line, ReaderState(more, []), Multi(key, frags));
  }

  /**
   * The rest of a value whose first fragment is `a`: a raw line `b\` and a last line `c`; the
   * value a + "\n" + b is stored and `c` is dropped (main.go:67-73).
   */
  lemma ValueTail(cur: Section, key: string, a: string, b: string, c: string)
    requires NoNewline(b) && NoBackslash(b) && NoNewline(c) && (c == "" || c[|c| - 1] != '\\')
    ensures ParseLoop(cur, ReaderState(b + "\\" + "\n" + (c + "\n" + ""), []), Multi(key, [a]))
      == (SetValue(cur, key, a + "\n" + b), ReaderState("", []))
  {
    var vb := b + "\\";
    assert NoNewline(vb) by { forall i | 0 <= i < |vb| ensures vb[i] != '\n' { if i < |b| { assert vb[i] == b[i]; } } }
    assert vb[..|vb| - 1] == b;
    UnescapePlain(b);
    MultiLineGoesOn(cur, key, [a], vb, c + "\n" + "");
    MultiLineEnds(cur, key, [a, b], c, "");
    assert Join([a, b]) == a + "\n" + b;
    LastLineDropped(SetValue(cur, key, a + "\n" + b), "", Single);
  }

  /** A key line whose value ends in '\' starts a multi-line value with its unescaped rest (main.go:95-102). */
  lemma MultiValueStart(cur: Section, key: string, a: string, more: string)
    requires PlainKey(key) && NoNewline(key) && NoNewline(a) && NoBackslash(a)
    requires a == "" || !IsRegexSpace(a[0])
    ensures ParseLoop(cur, ReaderState("+ " + key + ": " + a + "\\" + "\n" + more, []), Single)
      == ParseLoop(WithMap(cur), ReaderState(more, []), Multi(key, [a]))
  {
    var va := a + "\\";
    assert NoNewline(va) by { forall i | 0 <= i < |va| ensures va[i] != '\n' { if i < |a| { assert va[i] == a[i]; } } }
    assert va[0] == (if a == "" then '\\' else a[0]);
    assert "+ " + key + ": " + a + "\\" + "\n" + more == "+ " + key + ": " + va + "\n" + more;
    KVLine(cur, key, va, more);
    assert va[..|va| - 1] == a;
    UnescapePlain(a);
  }

  /**
   * A value over three raw lines `a\`, `b\`, `c` is stored as a + "\n" + b: the line that
   * ends the value is consumed and dropped (main.go:71-73), so `c` is lost.
   */
  lemma ThreeLineValue(key: string, a: string, b: string, c: string)
    requires PlainKey(key) && NoNewline(key) && NoNewline(a) && NoNewline(b) && NoNewline(c)
    requires NoBackslash(a) && NoBackslash(b) && (a == "" || !IsRegexSpace(a[0]))
    requires c == "" || c[|c| - 1] != '\\'
    ensures ParseDoc("+ " + key + ": " + a + "\\\n" + b + "\\\n" + c + "\n")
      == Section(0, "", Some(map[key := a + "\n" + b]), None)
  {
    var root := Section(0, "", None, None);
    var more := b + "\\" + "\n" + (c + "\n" + "");
    assert "+ " + key + ": " + a + "\\\n" + b + "\\\n" + c + "\n" == "+ " + key + ": " + a + "\\" + "\n" + more;
    MultiValueStart(root, key, a, more);
    ValueTail(WithMap(root), key, a, b, c);
    assert map[][key := a + "\n" + b] == map[key := a + "\n" + b];
  }

  /** A deeper header whose section runs to the end of the input is appended, and the input ends. */
  lemma HeaderToEnd(cur: Section, n: nat, title: string, more: string, child: Section)
    requires 1 <= n < 128 && PlainTitle(title) && n > cur.level
    requires ParseLoop(Section(n, title, None, None), ReaderState(more, []), Single) == (child, ReaderState("", []))
    ensures ParseLoop(cur, ReaderState(HeaderText(n, title) + "\n" + more, []), Single)
      == (AppendChild(cur, child), ReaderState("", []))
  {
    LastLineDropped(AppendChild(cur, child), "", Single);
    HeaderDown(cur, n, title, more);
  }

  lemma Regroup(x: string, y: string)
    ensures x + "\n" + y + "\n" == x + "\n" + (y + "\n")
  {
  }

  /**
   * Skipped levels are kept (main.go:115-130): a header of level `n` followed by one of a
   * deeper level `m` gives a child at level `n` holding a grandchild at level `m`.
   */
  lemma LevelSkip(n: nat, a: string, m: nat, b: string)
    requires 1 <= n < m < 128 && PlainTitle(a) && PlainTitle(b)
    ensures ParseDoc(HeaderText(n, a) + "\n" + HeaderText(m, b) + "\n")
      == Section(0, "", None, Some([Section(n, a, None, Some([Section(m, b, None, None)]))]))
  {
    var sa := Section(n, a, None, None);
    var sb := Section(m, b, None, None);
    var more := HeaderText(m, b) + "\n";
    assert ParseLoop(sa, ReaderState(more, []), Single) == (AppendChild(sa, sb), ReaderState("", [])) by {
      assert more == HeaderText(m, b) + "\n" + "";
      LastLineDropped(sb, "", Single);
      HeaderToEnd(sa, m, b, "", sb);
    }
    HeaderToEnd(Section(0, "", None, None), n, a, more, AppendChild(sa, sb));
    Regroup(HeaderText(n, a), HeaderText(m, b));
    assert [] + [sb] == [sb];
    assert [] + [AppendChild(sa, sb)] == [AppendChild(sa, sb)];
  }
}
