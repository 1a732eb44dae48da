/**
 * parseInner, Parse and ParseString (main.go:58-149, 206-209). `ParseLoop` is the value-level
 * meaning of one call of parseInner; the method `ParseInner` is the loop of main.go over the
 * mutable sections and the line reader, proved to compute what ParseLoop computes.
 */
module Parser {
  import opened Wrappers
  import opened Codec
  import opened LineSyntax
  import opened Reader
  import opened Tree

  /**
   * The trimming of a single-line value as written (main.go:96-108): cut the trailing white
   * space, keeping one white character after a final backslash, but give "" whenever the last
   * non-white byte sits at byte index 0. The code scans the value's UTF-8 bytes; white space is
   * ASCII and no byte of a longer encoding is white, so the scan stops on the last byte of the
   * character `i` finds here, and that byte is at index 0 exactly when `i` is 0 and the
   * character takes one byte (it is below U+0080).
   */
  function TrimmedValueAsWritten(val: string): (r: string)
    requires |val| > 0 && val[|val| - 1] != '\\'
    ensures |r| <= |val| && r == val[..|r|]
  {
    var i := LastNonWhite(val, |val| - 1);
    if i > 0 || (i == 0 && val[0] as int >= 0x80) then
      if val[i] == '\\' then val[..i + 2] else val[..i + 1]
    else ""
  }

  /**
   * The trimming main.go:96-108 evidently intends: the value up to its last non-white
   * character, plus the one white character a final backslash escapes; "" if all is white.
   */
  function TrimmedValue(val: string): (r: string)
    requires |val| > 0 && val[|val| - 1] != '\\'
    ensures |r| <= |val| && r == val[..|r|]
    ensures r == "" <==> forall k :: 0 <= k < |val| ==> IsWhite(val[k])
    ensures r != "" ==> !IsWhite(r[|r| - 1]) || (|r| >= 2 && r[|r| - 2] == '\\')
    ensures forall k :: |r| <= k < |val| ==> IsWhite(val[k])
  {
    var i := LastNonWhite(val, |val| - 1);
    if i >= 0 then
      if val[i] == '\\' then val[..i + 2] else val[..i + 1]
    else ""
  }

  /**
   * The as-written trimming loses every value whose only non-white character comes first and
   * is a single byte; a first character of several bytes survives it.
   */
  lemma TrimmedValueOneChar()
    ensures TrimmedValueAsWritten("x") == "" && TrimmedValue("x") == "x"
    ensures TrimmedValueAsWritten("x  ") == "" && TrimmedValue("x  ") == "x"
    ensures TrimmedValueAsWritten("\\ ") == "" && TrimmedValue("\\ ") == "\\ "
    ensures TrimmedValueAsWritten("\U{e9} ") == "\U{e9}" == TrimmedValue("\U{e9} ")
  {
    assert LastNonWhite("x", 0) == 0;
    assert LastNonWhite("x  ", 0) == 0;
    assert LastNonWhite("\\ ", 0) == 0;
    assert LastNonWhite("\U{e9} ", 0) == 0;
  }

  /**
   * The two trimmings differ exactly when the last non-white character is the first one and
   * takes a single byte.
   */
  lemma TrimmedValueAgree(val: string)
    requires |val| > 0 && val[|val| - 1] != '\\'
    ensures TrimmedValueAsWritten(val) == TrimmedValue(val)
      <==> LastNonWhite(val, |val| - 1) != 0 || val[0] as int >= 0x80
  {
    if LastNonWhite(val, |val| - 1) == 0 {
      assert TrimmedValue(val) != "";
    }
  }

  /** White space after a value never changes its trimmed form. */
  lemma {:induction false} TrimmedValueTrailing(v: string, w: string)
    requires |v| > 0 && v[|v| - 1] != '\\' && !IsWhite(v[|v| - 1])
    requires forall k :: 0 <= k < |w| ==> IsWhite(w[k])
    ensures var val := v + w; val[|val| - 1] != '\\' && TrimmedValue(val) == v
  {
    var val := v + w;
    if w != [] { assert val[|val| - 1] == w[|w| - 1]; }
    LastNonWhiteAt(val, |val| - 1, |v| - 1);
    assert val[..|v|] == v;
  }

  /** The escape of a trailing white character survives trimming. */
  lemma {:induction false} TrimmedValueEscapedEnd(v: string, c: char, w: string)
    requires IsWhite(c) && c != '\\'
    requires forall k :: 0 <= k < |w| ==> IsWhite(w[k])
    ensures var val := v + ['\\', c] + w; val[|val| - 1] != '\\' && TrimmedValue(val) == v + ['\\', c]
  {
    var val := v + ['\\', c] + w;
    if w != [] { assert val[|val| - 1] == w[|w| - 1]; }
    assert val[|v|] == '\\' && val[|v| + 1] == c;
    assert IsWhite(c) && forall k :: |v| + 1 <= k < |val| ==> IsWhite(val[k]) by {
      forall k | |v| + 2 <= k < |val| ensures IsWhite(val[k]) { assert val[k] == w[k - |v| - 2]; }
    }
    LastNonWhiteAt(val, |val| - 1, |v|);
    assert val[..|v| + 2] == v + ['\\', c];
  }

  lemma {:induction false} LastNonWhiteAt(val: string, i: int, j: int)
    requires 0 <= j <= i < |val| && !IsWhite(val[j])
    requires forall k :: j < k <= i ==> IsWhite(val[k])
    ensures LastNonWhite(val, i) == j
    decreases i
  {
    if i > j { LastNonWhiteAt(val, i - 1, j); }
  }

  /**
   * A single-line value written by escapeValue reads back as itself: trimming the escaped value
   * (and any white space after it) and unescaping it gives the value back.
   */
  lemma {:induction false} ReadBackValue(v: string, w: string)
    requires v != "" && NoBackslash(v) && NoNewline(v)
    requires forall k :: 0 <= k < |w| ==> IsWhite(w[k])
    ensures EndsPlain(EscapeValue(v) + w) && SingleValue(EscapeValue(v) + w) == v
  {
    EscapeValueEnd(v);
    TrimPadded(EscapeValue(v), w);
    UnescapeEscapeValue(v);
  }

  /** A value parseInner trims as a single line: non-empty and not ending in a backslash. */
  predicate EndsPlain(val: string)
  {
    |val| > 0 && val[|val| - 1] != '\\'
  }

  /** What a `+ key: val` line with such a value stores (main.go:95-108): trimmed, then unescaped. */
  function SingleValue(val: string): string
    requires EndsPlain(val)
  {
    Unescape(TrimmedValue(val))
  }

  /**
   * A value that ends in a non-white character, or in an escaped white one, is what trimming
   * keeps of it followed by white space.
   */
  lemma TrimPadded(e: string, w: string)
    requires e != "" && e[|e| - 1] != '\\'
    requires !IsWhite(e[|e| - 1]) || (|e| >= 2 && e[|e| - 2] == '\\')
    requires forall k :: 0 <= k < |w| ==> IsWhite(w[k])
    ensures EndsPlain(e + w) && TrimmedValue(e + w) == e
  {
    if IsWhite(e[|e| - 1]) {
      var c := e[|e| - 1];
      var pre := e[..|e| - 2];
      assert e == pre + ['\\', c];
      TrimmedValueEscapedEnd(pre, c, w);
    } else {
      TrimmedValueTrailing(e, w);
    }
  }

  /** The state variables of parseInner's loop: reading single lines, or a multi-line value. */
  datatype Mode = Single | Multi(key: string, frags: seq<string>)

  /** A line whose trimmed form is empty or a `//` comment (main.go:77-80). */
  predicate Ignored(line: string)
  {
    var t := TrimSpace(line);
    t == "" || (|t| >= 2 && t[..2] == "//")
  }

  /** What the end of input does to the section: store a pending multi-line value (main.go:133-135). */
  function Finish(cur: Section, mode: Mode): (r: Section)
  {
    if mode.Multi? then SetValue(cur, mode.key, Join(mode.frags)) else cur
  }

  /**
   * One call of parseInner (main.go:58-137) on the section `cur` from reader state `st` in
   * `mode`: the section it returns and the reader state it leaves. Every line is read once; a
   * header at the level of `cur` or above it is pushed back and ends the call; a deeper header
   * starts a child that is parsed by the same loop and then appended.
   */
  function ParseLoop(cur: Section, st: ReaderState, mode: Mode): (res: (Section, ReaderState))
    ensures Measure(res.1) <= Measure(st)
    decreases Measure(st), 1
  {
    match Read(st)
    case (None, st1) => (Finish(cur, mode), st1)
    case (Some(r), st1) => ParseStep(cur, r, st1, mode)
  }

  /**
   * What one line read in `mode` does to the section `cur` (main.go:66-131): either the
   * section and mode the loop goes on with, or the header it found.
   */
  datatype Effect = Next(sec: Section, mode: Mode) | Header(level: int, title: string)

  function LineEffect(cur: Section, r: string, mode: Mode): Effect
  {
    if mode.Multi? then
      if |r| > 0 && r[|r| - 1] == '\\' then
        Next(cur, Multi(mode.key, mode.frags + [Unescape(r[..|r| - 1])]))
      else
        Next(SetValue(cur, mode.key, Join(mode.frags)), Single)
    else if Ignored(r) then Next(cur, Single)
    else match MatchKV(r)
      case Some((key, val)) => KVEffect(cur, key, val)
      case None =>
        match MatchHeader(r)
        case None => Next(cur, Single)
        case Some((n, title)) => Header(Int8(n), title)
  }

  /** What a `+ key: value` line does (main.go:82-114): store the value, or start a multi-line one. */
  function KVEffect(cur: Section, key: string, val: string): Effect
  {
    if |val| == 0 then Next(SetValue(cur, key, ""), Single)
    else if val[|val| - 1] == '\\' then Next(WithMap(cur), Multi(key, [Unescape(val[..|val| - 1])]))
    else Next(SetValue(cur, key, SingleValue(val)), Single)
  }

  /** The rest of ParseLoop once the line `r` has been read, leaving the reader in `st`. */
  function ParseStep(cur: Section, r: string, st: ReaderState, mode: Mode): (res: (Section, ReaderState))
    ensures Measure(res.1) <= Measure(st) + 1
    decreases Measure(st), 2
  {
    match LineEffect(cur, r, mode)
    case Next(c, m) => ParseLoop(c, st, m)
    case Header(level, title) =>
      if level <= cur.level then (cur, Unread(st, r))
      else
        var (child, st2) := ParseLoop(Section(level, title, None, None), st, Single);
        ParseLoop(AppendChild(cur, child), st2, Single)
  }

  /** Reading a line at `st` leads ParseLoop into ParseStep; the end of input into Finish. */
  lemma LoopRead(cur: Section, st: ReaderState, mode: Mode)
    ensures Read(st).0.Some? ==> ParseLoop(cur, st, mode) == ParseStep(cur, Read(st).0.value, Read(st).1, mode)
    ensures Read(st).0.None? ==> ParseLoop(cur, st, mode) == (Finish(cur, mode), Read(st).1)
  {
  }

  /** ParseStep for a line that is not a header: the loop goes on with its effect. */
  lemma StepNext(cur: Section, r: string, st: ReaderState, mode: Mode)
    requires LineEffect(cur, r, mode).Next?
    ensures ParseStep(cur, r, st, mode) == ParseLoop(LineEffect(cur, r, mode).sec, st, LineEffect(cur, r, mode).mode)
  {
  }

  /** ParseStep for a header at the level of `cur` or above: it is pushed back and the call ends. */
  lemma StepUp(cur: Section, r: string, st: ReaderState, mode: Mode)
    requires LineEffect(cur, r, mode).Header? && LineEffect(cur, r, mode).level <= cur.level
    ensures ParseStep(cur, r, st, mode) == (cur, Unread(st, r))
  {
  }

  /** ParseStep for a deeper header: its section is parsed from `st` and appended. */
  lemma StepDown(cur: Section, r: string, st: ReaderState, mode: Mode)
    requires LineEffect(cur, r, mode).Header? && LineEffect(cur, r, mode).level > cur.level
    ensures var e := LineEffect(cur, r, mode);
      var (child, st2) := ParseLoop(Section(e.level, e.title, None, None), st, Single);
      ParseStep(cur, r, st, mode) == ParseLoop(AppendChild(cur, child), st2, Single)
  {
  }

  /** Parse / ParseString (main.go:139-149, 206-209): the root has level 0 and an empty name. */
  function ParseDoc(input: string): (t: Section)
  {
    ParseLoop(Section(0, "", None, None), ReaderState(input, []), Single).0
  }

  /**
   * The trimming loop of main.go:96-108, with the test evidently intended (`i >= 0`): the
   * index of the last non-white character is found by walking back from the end.
   */
  method TrimValue(val: string) returns (t: string)
    requires EndsPlain(val)
    ensures t == TrimmedValue(val)
  {
    var i := |val| - 1;
    while i >= 0 && IsWhite(val[i])
      invariant -1 <= i < |val|
      invariant LastNonWhite(val, |val| - 1) == LastNonWhite(val, i)
      decreases i
    {
      i := i - 1;
    }
    if i >= 0 {
      if val[i] == '\\' {
        i := i + 2;
        t := val[..i];
      } else {
        i := i + 1;
        t := val[..i];
      }
    } else {
      t := "";
    }
  }

  /** How parseInner's loop goes on after a line: with the next line, or by returning. */
  datatype Outcome = Continue | Returned

  /**
   * What parseInner's loop does with the line `r` it read (main.go:66-131): ApplyLine, or for
   * a header the push-back or the parse of the new section.
   */
  method Dispatch(cur: MDConfSection, br: TrueLineReader, r: string, mode: Mode) returns (next: Mode, outcome: Outcome)
    requires cur.Valid() && br !in cur.Repr
    modifies cur, br
    ensures cur.Valid() && br !in cur.Repr
    ensures old(cur.Repr) <= cur.Repr && fresh(cur.Repr - old(cur.Repr))
    ensures outcome == Returned ==>
      ParseStep(old(cur.Model()), r, old(br.State()), mode) == (cur.Model(), br.State())
    ensures outcome == Continue ==>
      && ParseStep(old(cur.Model()), r, old(br.State()), mode) == ParseLoop(cur.Model(), br.State(), next)
      && Measure(br.State()) <= Measure(old(br.State()))
    decreases Measure(br.State()), 5
  {
    ghost var m0 := cur.Model();
    var header;
    next, header := ApplyLine(cur, r, mode);
    if header.None? {
      StepNext(m0, r, old(br.State()), mode);
      return next, Continue;
    }
    outcome := OnHeader(cur, br, r, mode, header.value.0, header.value.1);
    next := Single;
  }

  /**
   * A header line (main.go:115-131): one at the level of `cur` or above it is pushed back and
   * ends the section; a deeper one starts a new section, parsed and appended.
   */
  method OnHeader(cur: MDConfSection, br: TrueLineReader, r: string, ghost mode: Mode, level: int, title: string)
    returns (outcome: Outcome)
    requires cur.Valid() && br !in cur.Repr
    requires LineEffect(cur.Model(), r, mode) == Header(level, title)
    modifies cur, br
    ensures cur.Valid() && br !in cur.Repr
    ensures old(cur.Repr) <= cur.Repr && fresh(cur.Repr - old(cur.Repr))
    ensures outcome == Returned ==>
      ParseStep(old(cur.Model()), r, old(br.State()), mode) == (cur.Model(), br.State())
    ensures outcome == Continue ==>
      && ParseStep(old(cur.Model()), r, old(br.State()), mode) == ParseLoop(cur.Model(), br.State(), Single)
      && Measure(br.State()) <= Measure(old(br.State()))
    decreases Measure(br.State()), 4
  {
    ghost var m0, s1 := cur.Model(), br.State();
    if level <= cur.level {
      StepUp(m0, r, s1, mode);
      br.UnreadLine(r);
      cur.Untouched();
      return Returned;
    }
    StepDown(m0, r, s1, mode);
    Descend(cur, br, level, title);
    return Continue;
  }

  /**
   * A header deeper than `cur` (main.go:121-130): the new section is parsed from the
   * following lines and appended to the subsections of `cur`.
   */
  method Descend(cur: MDConfSection, br: TrueLineReader, level: int, title: string)
    requires cur.Valid() && br !in cur.Repr
    modifies cur, br
    ensures cur.Valid() && br !in cur.Repr
    ensures old(cur.Repr) <= cur.Repr && fresh(cur.Repr - old(cur.Repr))
    ensures var (child, st) := ParseLoop(Section(level, title, None, None), old(br.State()), Single);
      cur.Model() == AppendChild(old(cur.Model()), child) && br.State() == st
    decreases Measure(br.State()), 3
  {
    var sub := ParseSection(level, title, br);
    cur.Untouched();
    cur.Append(sub);
  }

  /**
   * The body of parseInner's loop for one line `r` read in `mode` (main.go:66-116): a
   * continuation or end of a multi-line value, an ignored line, or a `key: value` line are
   * applied to `cur`; a header is only recognised and handed back.
   */
  method ApplyLine(cur: MDConfSection, r: string, mode: Mode) returns (next: Mode, header: Option<(int, string)>)
    requires cur.Valid()
    modifies cur
    ensures cur.Valid() && cur.Repr == old(cur.Repr)
    ensures header.Some? ==> cur.Model() == old(cur.Model())
    ensures LineEffect(old(cur.Model()), r, mode)
      == if header.Some? then Header(header.value.0, header.value.1) else Next(cur.Model(), next)
  {
    next, header := Single, None;
    if mode.Multi? {
      if |r| > 0 && r[|r| - 1] == '\\' {
        next := Multi(mode.key, mode.frags + [Unescape(r[..|r| - 1])]);
      } else {
        cur.Put(mode.key, Join(mode.frags));
      }
      return;
    }
    var trimmed := TrimSpace(r);
    if |trimmed| <= 0 {
      return;
    }
    if |trimmed| >= 2 && trimmed[..2] == "//" {
      return;
    }
    assert !Ignored(r);
    var kv := MatchKV(r);
    if kv.Some? {
      next := ApplyKV(cur, kv.value.0, kv.value.1);
      return;
    }
    var h := MatchHeader(r);
    if h.Some? {
      header := Some((Int8(h.value.0), h.value.1));
    }
  }

  /**
   * A `+ key: value` line (main.go:82-114): the map is made if nil; a value ending in a
   * backslash starts a multi-line value, any other is trimmed, unescaped and stored.
   */
  method ApplyKV(cur: MDConfSection, key: string, val: string) returns (next: Mode)
    requires cur.Valid()
    modifies cur
    ensures cur.Valid() && cur.Repr == old(cur.Repr)
    ensures KVEffect(old(cur.Model()), key, val) == Next(cur.Model(), next)
  {
    if |val| > 0 && val[|val| - 1] == '\\' {
      cur.MakeMap();
      return Multi(key, [Unescape(val[..|val| - 1])]);
    }
    var v := "";
    if |val| > 0 {
      var t := TrimValue(val);
      v := Unescape(t);
    }
    ghost var m0 := cur.Model();
    cur.Put(key, v);
    assert cur.Model() == SetValue(m0, key, v);
    return Single;
  }

  /**
   * parseInner (main.go:58-137): reads lines into the section `cur` until the input ends or a
   * header at the level of `cur` or above it comes, which is pushed back. It computes what
   * ParseLoop computes; the sections it creates are fresh and owned by `cur`.
   */
  method ParseInner(cur: MDConfSection, br: TrueLineReader) returns (res: MDConfSection)
    requires cur.Valid() && br !in cur.Repr
    modifies cur, br
    ensures res == cur && cur.Valid() && br !in cur.Repr
    ensures old(cur.Repr) <= cur.Repr && fresh(cur.Repr - old(cur.Repr))
    ensures (cur.Model(), br.State()) == ParseLoop(old(cur.Model()), old(br.State()), Single)
    decreases Measure(br.State()), 1
  {
    ghost var target := ParseLoop(cur.Model(), br.State(), Single);
    var mode := Single;
    while true
      invariant cur.Valid() && br !in cur.Repr
      invariant old(cur.Repr) <= cur.Repr && fresh(cur.Repr - old(cur.Repr))
      invariant Measure(br.State()) <= Measure(old(br.State()))
      invariant ParseLoop(cur.Model(), br.State(), mode) == target
      decreases Measure(br.State())
    {
      ghost var m0, s0 := cur.Model(), br.State();
      label Read:
      var r, ok := br.ReadLine();
      cur.Untouched@Read();
      LoopRead(m0, s0, mode);
      if !ok {
        break;
      }
      var next, outcome := Dispatch(cur, br, r, mode);
      if outcome == Returned {
        return cur;
      }
      mode := next;
    }
    if mode.Multi? {
      cur.Put(mode.key, Join(mode.frags));
    }
    return cur;
  }

  /**
   * `parseInner(&MDConfSection{Level: level, SectionName: title}, br)` (main.go:121-130, 144):
   * a new section without values or subsections, filled from the following lines.
   */
  method ParseSection(level: int, title: string, br: TrueLineReader) returns (sec: MDConfSection)
    modifies br
    ensures sec.Valid() && fresh(sec.Repr) && br !in sec.Repr
    ensures (sec.Model(), br.State()) == ParseLoop(Section(level, title, None, None), old(br.State()), Single)
    decreases Measure(br.State()), 2
  {
    sec := new MDConfSection(level, title);
    sec := ParseInner(sec, br);
  }

  /**
   * Parse (main.go:139-149): a root section of level 0 with an empty name and no map or
   * subsections, filled by parseInner from all of `input`. The io.Reader is modelled by the
   * text it yields.
   */
  method Parse(input: string) returns (res: MDConfSection)
    ensures res.Valid() && fresh(res.Repr)
    ensures res.Model() == ParseDoc(input)
  {
    var br := new TrueLineReader(input);
    res := ParseSection(0, "", br);
  }

  /** ParseString (main.go:206-209): Parse over a strings.Reader of `s`. */
  method ParseString(s: string) returns (res: MDConfSection)
    ensures res.Valid() && fresh(res.Repr)
    ensures res.Model() == ParseDoc(s)
  {
    res := Parse(s);
  }
}
