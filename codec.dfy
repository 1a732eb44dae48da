/**
 * The escaping codec of mdconf (main.go:45-53 and main.go:151-171):
 * `isWhite`, `unescape` and `escapeValue`.
 */
module Codec {

  /** The string `whitespaceStr` of main.go:45: space, tab, CR, LF, VT, BS and FF. */
  const WhitespaceStr: string := " \t\r\n\U{B}\U{8}\U{C}"

  /** `isWhite` (main.go:46-48): one of the seven characters of WhitespaceStr. */
  predicate IsWhite(c: char)
  {
    c == ' ' || c == '\t' || c == '\r' || c == '\n' || c == '\U{B}' || c == '\U{8}' || c == '\U{C}'
  }

  /** isWhite and whitespaceStr (main.go:45) name the same seven characters. */
  lemma IsWhiteWhitespaceStr(c: char)
    ensures IsWhite(c) <==> c in WhitespaceStr
  {
  }

  predicate NoBackslash(s: string)
  {
    forall i :: 0 <= i < |s| ==> s[i] != '\\'
  }

  predicate NoNewline(s: string)
  {
    forall i :: 0 <= i < |s| ==> s[i] != '\n'
  }

  /**
   * `unescape` (main.go:50-53): every match of the regular expression `\\(.)` is replaced by the
   * character after the backslash, scanning left to right without overlap. `.` does not match a
   * newline, so a backslash before '\n', like a lone trailing backslash, is kept.
   */
  function Unescape(s: string): (r: string)
    ensures |r| <= |s|
  {
    if |s| == 0 then ""
    else if s[0] == '\\' && |s| >= 2 && s[1] != '\n' then [s[1]] + Unescape(s[2..])
    else [s[0]] + Unescape(s[1..])
  }

  /** Unescaping a backslash-free prefix leaves it as it is and goes on with the rest. */
  lemma {:induction false} UnescapeAppend(a: string, b: string)
    requires NoBackslash(a)
    ensures Unescape(a + b) == a + Unescape(b)
  {
    if a == [] {
      assert a + b == b;
    } else {
      var t := a[1..];
      assert NoBackslash(t) by {
        forall i | 0 <= i < |t| ensures t[i] != '\\' { assert t[i] == a[i + 1]; }
      }
      var ab := a + b;
      assert ab[0] == a[0] && a[0] != '\\';
      assert ab[1..] == t + b;
      assert Unescape(ab) == [a[0]] + Unescape(t + b);
      UnescapeAppend(t, b);
      assert a == [a[0]] + t;
    }
  }

  /** A backslash-free string is its own unescaping. */
  lemma UnescapePlain(s: string)
    requires NoBackslash(s)
    ensures Unescape(s) == s
  {
    UnescapeAppend(s, []);
    assert s + [] == s;
  }

  /** An escape pair collapses to its character. */
  lemma UnescapePair(c: char, b: string)
    requires c != '\n'
    ensures Unescape(['\\', c] + b) == [c] + Unescape(b)
  {
    assert (['\\', c] + b)[2..] == b;
  }

  /**
   * `escapeValue` (main.go:151-171): a backslash goes in front of the first character and in
   * front of the last character when that character is white space; nothing else is escaped.
   */
  function EscapeValue(s: string): (r: string)
    ensures s == "" ==> r == ""
    ensures r == s <==> (s == "" || (!IsWhite(s[0]) && !IsWhite(s[|s| - 1])))
    ensures r != "" ==> !IsWhite(r[0])
    ensures |r| >= 2 && IsWhite(r[|r| - 1]) ==> r[|r| - 2] == '\\'
    ensures |s| <= |r| <= |s| + 2
  {
    if |s| >= 2 then
      if IsWhite(s[0]) then
        if IsWhite(s[|s| - 1]) then "\\" + s[..|s| - 1] + "\\" + s[|s| - 1..]
        else "\\" + s
      else if IsWhite(s[|s| - 1]) then s[..|s| - 1] + "\\" + s[|s| - 1..]
      else s
    else if |s| == 1 then
      if IsWhite(s[0]) then "\\" + s else s
    else ""
  }

  /** escapeValue keeps the last character last, escaped when it is white. */
  lemma EscapeValueLast(s: string)
    requires s != ""
    ensures var r := EscapeValue(s); r != "" && r[|r| - 1] == s[|s| - 1]
    ensures var r := EscapeValue(s); IsWhite(s[|s| - 1]) ==> |r| >= 2 && r[|r| - 2] == '\\'
  {
    var r := EscapeValue(s);
    var n := |s|;
    if n >= 2 && IsWhite(s[n - 1]) {
      assert r == (if IsWhite(s[0]) then "\\" + s[..n - 1] else s[..n - 1]) + "\\" + s[n - 1..];
    } else if n == 1 && IsWhite(s[0]) {
      assert r == "\\" + s;
    }
  }

  /** A backslash-free value escapes to one that ends in a non-white or an escaped character. */
  lemma EscapeValueEnd(s: string)
    requires s != "" && NoBackslash(s)
    ensures var r := EscapeValue(s); r != "" && r[|r| - 1] != '\\'
    ensures var r := EscapeValue(s); !IsWhite(r[|r| - 1]) || (|r| >= 2 && r[|r| - 2] == '\\')
  {
    EscapeValueLast(s);
    assert s[|s| - 1] != '\\';
  }

  /** How many backslashes escapeValue inserts: one per white end, one only for a 1-char string. */
  lemma EscapeValueLength(s: string)
    ensures |EscapeValue(s)| == |s|
      + (if s != [] && IsWhite(s[0]) then 1 else 0)
      + (if |s| >= 2 && IsWhite(s[|s| - 1]) then 1 else 0)
  {
  }

  /**
   * Escape/unescape inverse: for a value without backslashes and newlines, unescaping the
   * escaped value gives the value back.
   */
  lemma {:induction false} UnescapeEscapeValue(s: string)
    requires NoBackslash(s) && NoNewline(s)
    ensures Unescape(EscapeValue(s)) == s
  {
    var n := |s|;
    if n >= 2 {
      if IsWhite(s[0]) && IsWhite(s[n - 1]) {
        assert NoBackslash(s[1..n - 1]);
        UnescapeBothEnds(s);
      } else if IsWhite(s[0]) {
        assert EscapeValue(s) == ['\\', s[0]] + s[1..];
        assert NoBackslash(s[1..]);
        UnescapePair(s[0], s[1..]);
        UnescapePlain(s[1..]);
        assert s == [s[0]] + s[1..];
      } else if IsWhite(s[n - 1]) {
        assert EscapeValue(s) == s[..n - 1] + ['\\', s[n - 1]];
        assert NoBackslash(s[..n - 1]);
        UnescapeAppend(s[..n - 1], ['\\', s[n - 1]]);
        UnescapePair(s[n - 1], []);
        assert s == s[..n - 1] + [s[n - 1]];
      } else {
        UnescapePlain(s);
      }
    } else if n == 1 && IsWhite(s[0]) {
      assert EscapeValue(s) == ['\\', s[0]] + [];
      UnescapePair(s[0], []);
    } else {
      UnescapePlain(s);
    }
  }

  lemma UnescapeBothEnds(s: string)
    requires |s| >= 2 && IsWhite(s[0]) && IsWhite(s[|s| - 1])
    requires s[0] != '\n' && s[|s| - 1] != '\n' && NoBackslash(s[1..|s| - 1])
    ensures Unescape(EscapeValue(s)) == s
  {
    var n := |s|;
    var mid := s[1..n - 1];
    EscapeBothEnds(s);
    UnescapeWrapped(s[0], mid, s[n - 1]);
    assert s == [s[0]] + mid + [s[n - 1]];
  }

  lemma EscapeBothEnds(s: string)
    requires |s| >= 2 && IsWhite(s[0]) && IsWhite(s[|s| - 1])
    ensures EscapeValue(s) == ['\\', s[0]] + (s[1..|s| - 1] + ['\\', s[|s| - 1]])
  {
    var n := |s|;
    var e := "\\" + s[..n - 1] + "\\" + s[n - 1..];
    assert EscapeValue(s) == e;
    assert e == ['\\', s[0]] + (s[1..n - 1] + ['\\', s[n - 1]]) by {
      assert |e| == n + 2;
      forall k | 0 <= k < n + 2 ensures e[k] == (['\\', s[0]] + (s[1..n - 1] + ['\\', s[n - 1]]))[k] { }
    }
  }

  lemma UnescapeWrapped(a: char, mid: string, b: char)
    requires a != '\n' && b != '\n' && NoBackslash(mid)
    ensures Unescape(['\\', a] + (mid + ['\\', b])) == [a] + mid + [b]
  {
    UnescapePair(a, mid + ['\\', b]);
    UnescapeAppend(mid, ['\\', b]);
    UnescapePair(b, []);
  }

  /** escapeValue adds only backslashes, so a value without a line break keeps none. */
  lemma EscapeNoNewline(v: string)
    requires NoNewline(v)
    ensures NoNewline(EscapeValue(v))
  {
    var e := EscapeValue(v);
    var n := |v|;
    if n >= 2 && IsWhite(v[0]) && IsWhite(v[n - 1]) {
      EscapeBothEnds(v);
      assert e == ['\\', v[0]] + (v[1..n - 1] + ['\\', v[n - 1]]);
    }
    forall i | 0 <= i < |e| ensures e[i] != '\n' {
      assert e[i] in v || e[i] == '\\';
    }
  }
}
