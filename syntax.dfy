/**
 * The line syntax of mdconf: the two regular expressions of main.go:55-56 written as
 * deterministic matchers, the string helpers parseInner and toString rely on
 * (strings.TrimSpace, strings.Split, strings.Join, strings.Repeat), and the trimming of a
 * single-line value (main.go:95-108).
 */
module LineSyntax {
  import opened Wrappers
  import opened Codec

  /** RE2's `\s`: tab, newline, form feed, carriage return and space (no vertical tab). */
  predicate IsRegexSpace(c: char)
  {
    c == ' ' || c == '\t' || c == '\n' || c == '\U{C}' || c == '\r'
  }

  /** Go's unicode.IsSpace, used by strings.TrimSpace. */
  predicate IsTrimSpace(c: char)
  {
    c == ' ' || c == '\t' || c == '\n' || c == '\U{B}' || c == '\U{C}' || c == '\r'
    || c == '\U{85}' || c == '\U{A0}' || c == '\U{1680}' || ('\U{2000}' <= c <= '\U{200A}')
    || c == '\U{2028}' || c == '\U{2029}' || c == '\U{202F}' || c == '\U{205F}' || c == '\U{3000}'
  }

  function TrimLeftSpace(s: string): (r: string)
    ensures |r| <= |s| && s[|s| - |r|..] == r
    ensures forall i :: 0 <= i < |s| - |r| ==> IsTrimSpace(s[i])
    ensures r != [] ==> !IsTrimSpace(r[0])
  {
    if s != [] && IsTrimSpace(s[0]) then TrimLeftSpace(s[1..]) else s
  }

  function TrimRightSpace(s: string): (r: string)
    ensures |r| <= |s| && r == s[..|r|]
    ensures forall i :: |r| <= i < |s| ==> IsTrimSpace(s[i])
    ensures r != [] ==> !IsTrimSpace(r[|r| - 1])
  {
    if s != [] && IsTrimSpace(s[|s| - 1]) then TrimRightSpace(s[..|s| - 1]) else s
  }

  /** strings.TrimSpace: the line without its leading and trailing white space. */
  function TrimSpace(s: string): (r: string)
    ensures r == [] <==> forall i :: 0 <= i < |s| ==> IsTrimSpace(s[i])
    ensures r != [] ==> !IsTrimSpace(r[0]) && !IsTrimSpace(r[|r| - 1])
  {
    var l := TrimLeftSpace(s);
    var r := TrimRightSpace(l);
    assert (forall i :: 0 <= i < |s| ==> IsTrimSpace(s[i])) ==> r == [] by {
      if l != [] { assert l[0] == s[|s| - |l|]; }
    }
    r
  }

  /** The first index at or after `i` that does not hold a `\s` character. */
  function SkipSpaces(s: string, i: nat): (j: nat)
    requires i <= |s|
    ensures i <= j <= |s|
    ensures forall k :: i <= k < j ==> IsRegexSpace(s[k])
    ensures j < |s| ==> !IsRegexSpace(s[j])
    decreases |s| - i
  {
    if i < |s| && IsRegexSpace(s[i]) then SkipSpaces(s, i + 1) else i
  }

  /** Whether `\s*:` matches at `q`: the part of reKV between the key group and the value. */
  predicate ColonAfter(s: string, q: nat)
    requires q <= |s|
  {
    var p := SkipSpaces(s, q);
    p < |s| && s[p] == ':'
  }

  /**
   * Where the key group `((?:\\.|[^:\s])*)` of reKV ends when it starts at `i`. Go's matcher
   * returns the leftmost-first match, that is the first success of a backtracking search that
   * tries the escape alternative, then a plain character, then ending the group.
   */
  function KeyEnd(s: string, i: nat): (r: Option<nat>)
    requires i <= |s|
    ensures r.Some? ==> i <= r.value <= |s| && ColonAfter(s, r.value)
    ensures ColonAfter(s, i) ==> r.Some?
    decreases |s| - i
  {
    var viaEscape := if i + 1 < |s| && s[i] == '\\' && s[i + 1] != '\n' then KeyEnd(s, i + 2) else None;
    if viaEscape.Some? then viaEscape
    else
      var viaChar := if i < |s| && s[i] != ':' && !IsRegexSpace(s[i]) then KeyEnd(s, i + 1) else None;
      if viaChar.Some? then viaChar
      else if ColonAfter(s, i) then Some(i)
      else None
  }

  /** The end of the run of '#' started at `i`. */
  function HashesEnd(s: string, i: nat): (j: nat)
    requires i <= |s|
    ensures i <= j <= |s|
    ensures forall k :: i <= k < j ==> s[k] == '#'
    ensures j < |s| ==> s[j] != '#'
    decreases |s| - i
  {
    if i < |s| && s[i] == '#' then HashesEnd(s, i + 1) else i
  }

  /**
   * reKV (main.go:56), `^\s*\+\s*((?:\\.|[^:\s])*)\s*:\s*((?:\\.|.)*?)$`, on a line without
   * '\n': Some((key, value)) where the value is the rest of the line after the colon and the
   * white space that follows it.
   */
  function MatchKV(line: string): (r: Option<(string, string)>)
    ensures r.Some? ==> |r.value.1| <= |line| && line[|line| - |r.value.1|..] == r.value.1
    ensures r.Some? && r.value.1 != [] ==> !IsRegexSpace(r.value.1[0])
    ensures r.Some? ==> '+' in line && ':' in line
  {
    var p0 := SkipSpaces(line, 0);
    if p0 < |line| && line[p0] == '+' then
      var p1 := SkipSpaces(line, p0 + 1);
      match KeyEnd(line, p1)
      case None => None
      case Some(p2) =>
        var p3 := SkipSpaces(line, p2);
        var p4 := SkipSpaces(line, p3 + 1);
        Some((line[p1..p2], line[p4..]))
    else None
  }

  /**
   * reSectionHeader (main.go:55), `^\s*(#+)\s*((?:\\.|.)*)\s*$`, on a line without '\n':
   * Some((level, title)) where level counts the '#' and the title is the rest of the line after
   * the white space that follows them (the greedy title keeps any trailing white space).
   */
  function MatchHeader(line: string): (r: Option<(nat, string)>)
    ensures r.Some? ==> r.value.0 >= 1
    ensures r.Some? ==> |r.value.1| <= |line| && line[|line| - |r.value.1|..] == r.value.1
    ensures r.Some? && r.value.1 != [] ==> !IsRegexSpace(r.value.1[0])
  {
    var p0 := SkipSpaces(line, 0);
    var p1 := HashesEnd(line, p0);
    if p1 > p0 then
      var p2 := SkipSpaces(line, p1);
      Some((p1 - p0, line[p2..]))
    else None
  }

  /** strings.Repeat(c, n). */
  function Repeat(c: char, n: nat): (r: string)
    ensures |r| == n && forall i :: 0 <= i < n ==> r[i] == c
  {
    if n == 0 then "" else [c] + Repeat(c, n - 1)
  }

  /** strings.Join(frags, "\n"). */
  function Join(frags: seq<string>): (r: string)
  {
    if |frags| == 0 then ""
    else if |frags| == 1 then frags[0]
    else frags[0] + "\n" + Join(frags[1..])
  }

  /** The index of the first '\n' of `s` at or after `i`, if any. */
  function NewlineFrom(s: string, i: nat): (r: Option<nat>)
    requires i <= |s|
    ensures r.Some? ==> i <= r.value < |s| && s[r.value] == '\n'
    ensures forall k :: i <= k < (if r.Some? then r.value else |s|) ==> s[k] != '\n'
    decreases |s| - i
  {
    if i == |s| then None else if s[i] == '\n' then Some(i) else NewlineFrom(s, i + 1)
  }

  /** The position of a newline, when none comes before it. */
  lemma {:induction false} NewlineAt(s: string, i: nat, j: nat)
    requires i <= j < |s| && s[j] == '\n'
    requires forall k :: i <= k < j ==> s[k] != '\n'
    ensures NewlineFrom(s, i) == Some(j)
    decreases j - i
  {
    if i < j { NewlineAt(s, i + 1, j); }
  }

  /** strings.Split(s, "\n"): the pieces between newlines, never empty. */
  function Split(s: string): (r: seq<string>)
    ensures |r| >= 1
    ensures forall i :: 0 <= i < |r| ==> NoNewline(r[i])
    decreases |s|
  {
    match NewlineFrom(s, 0)
    case None => [s]
    case Some(i) => [s[..i]] + Split(s[i + 1..])
  }

  /** Joining the pieces gives the string back. */
  lemma {:induction false} JoinSplit(s: string)
    ensures Join(Split(s)) == s
    decreases |s|
  {
    match NewlineFrom(s, 0)
    case None =>
    case Some(i) =>
      var rest := Split(s[i + 1..]);
      JoinSplit(s[i + 1..]);
      assert Join([s[..i]] + rest) == s[..i] + "\n" + Join(rest);
      assert s == s[..i] + "\n" + s[i + 1..];
  }

  /** There is one piece exactly when there is no newline. */
  lemma SplitOne(s: string)
    ensures |Split(s)| == 1 <==> NoNewline(s)
  {
    match NewlineFrom(s, 0)
    case None =>
    case Some(i) =>
  }

  /** Splitting the join of newline-free fragments gives the fragments back. */
  lemma {:induction false} SplitJoin(frags: seq<string>)
    requires |frags| >= 1
    requires forall i :: 0 <= i < |frags| ==> NoNewline(frags[i])
    ensures Split(Join(frags)) == frags
  {
    if |frags| == 1 {
      SplitOfNoNewline(frags[0]);
    } else {
      SplitJoin(frags[1..]);
      SplitPrefix(frags[0], Join(frags[1..]));
      assert frags == [frags[0]] + frags[1..];
    }
  }

  lemma SplitOfNoNewline(s: string)
    requires NoNewline(s)
    ensures Split(s) == [s]
  {
    assert NewlineFrom(s, 0).None?;
  }

  lemma SplitPrefix(a: string, b: string)
    requires NoNewline(a)
    ensures Split(a + "\n" + b) == [a] + Split(b)
  {
    var s := a + "\n" + b;
    NewlineAt(s, 0, |a|);
    assert s[..|a|] == a;
    assert s[|a| + 1..] == b;
  }

  /** The largest index j <= i whose character is not white, or -1 (the loop of main.go:97). */
  function LastNonWhite(val: string, i: int): (j: int)
    requires -1 <= i < |val|
    ensures -1 <= j <= i
    ensures j >= 0 ==> !IsWhite(val[j])
    ensures forall k :: j < k <= i ==> IsWhite(val[k])
    decreases i + 1
  {
    if i >= 0 && IsWhite(val[i]) then LastNonWhite(val, i - 1) else i
  }
}
