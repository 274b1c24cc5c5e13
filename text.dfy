/**
 * Text normalisation and the two CSS helpers of the resolver:
 * `norm` (case folding, whitespace collapsing, accent folding),
 * `safe_css_ident` and `css_attr_equals`, plus the small CSS readers
 * that show what a rendered identifier or attribute value reads back as.
 */
module Text {
  import opened Wrappers

  // ---------------------------------------------------------------
  // Characters
  // ---------------------------------------------------------------

  /** The characters Python's `\s` and `str.strip()` treat as whitespace. */
  predicate IsSpace(c: char) {
    c == ' ' || ('\t' <= c <= '\r') || ('\U{001C}' <= c <= '\U{001F}')
    || c == '\U{0085}' || c == '\U{00A0}' || c == '\U{1680}'
    || ('\U{2000}' <= c <= '\U{200A}') || c == '\U{2028}' || c == '\U{2029}'
    || c == '\U{202F}' || c == '\U{205F}' || c == '\U{3000}'
  }

  /** Capital letters that `Lower` folds: ASCII and the Latin-1 capitals. */
  predicate IsUpper(c: char) {
    ('A' <= c <= 'Z') || ('\U{00C0}' <= c <= '\U{00DE}' && c != '\U{00D7}')
  }

  function Lower(c: char): (r: char)
    ensures !IsUpper(r)
    ensures IsSpace(r) <==> IsSpace(c)
    ensures !IsUpper(c) ==> r == c
  {
    if IsUpper(c) then (c as int + 32) as char else c
  }

  /** The accented small letters that `norm` replaces by their base letter. */
  predicate IsAccent(c: char) {
    c in {'á', 'ã', 'â', 'é', 'ê', 'í', 'ó', 'ô', 'õ', 'ú', 'ç'}
  }

  function FoldAccent(c: char): (r: char)
    ensures !IsAccent(r)
    ensures IsSpace(r) <==> IsSpace(c)
    ensures !IsUpper(c) ==> !IsUpper(r)
    ensures !IsAccent(c) ==> r == c
  {
    if c == 'á' || c == 'ã' || c == 'â' then 'a'
    else if c == 'é' || c == 'ê' then 'e'
    else if c == 'í' then 'i'
    else if c == 'ó' || c == 'ô' || c == 'õ' then 'o'
    else if c == 'ú' then 'u'
    else if c == 'ç' then 'c'
    else c
  }

  // ---------------------------------------------------------------
  // The steps of norm
  // ---------------------------------------------------------------

  /** Leading whitespace removed; the result is a suffix of `s`. */
  function TrimLeft(s: string): (r: string)
    ensures |r| <= |s|
    ensures r == [] || !IsSpace(r[0])
    ensures s != [] && IsSpace(s[0]) ==> |r| < |s|
    ensures s == [] || !IsSpace(s[0]) ==> r == s
    ensures s != [] && !IsSpace(s[|s| - 1]) ==> r != []
  {
    if s != [] && IsSpace(s[0]) then TrimLeft(s[1..]) else s
  }

  lemma {:induction false} TrimLeftSuffix(s: string)
    ensures TrimLeft(s) == s[|s| - |TrimLeft(s)|..]
    decreases |s|
  {
    if s != [] && IsSpace(s[0]) {
      TrimLeftSuffix(s[1..]);
    }
  }

  /** Trailing whitespace removed; the result is a prefix of `s`. */
  function TrimRight(s: string): (r: string)
    ensures |r| <= |s| && r == s[..|r|]
    ensures r == [] || !IsSpace(r[|r| - 1])
    ensures s == [] || !IsSpace(s[|s| - 1]) ==> r == s
  {
    if s != [] && IsSpace(s[|s| - 1]) then TrimRight(s[..|s| - 1]) else s
  }

  /** Python's `str.strip()`. */
  function Strip(s: string): (r: string)
    ensures NoOuterSpace(r)
    ensures NoOuterSpace(s) ==> r == s
    ensures forall c :: c in r ==> c in s
  {
    var l := TrimLeft(s);
    var r := TrimRight(l);
    TrimLeftSuffix(s);
    assert r == [] || r[0] == l[0];
    assert forall c :: c in r ==> c in l;
    assert forall c :: c in l ==> c in s;
    r
  }

  predicate NoOuterSpace(s: string) {
    s == [] || (!IsSpace(s[0]) && !IsSpace(s[|s| - 1]))
  }

  /** Python's `str.lower()` on the letters `Lower` knows. */
  function LowerStr(s: string): (r: string)
    ensures |r| == |s|
    ensures forall i :: 0 <= i < |s| ==> r[i] == Lower(s[i])
  {
    seq(|s|, i requires 0 <= i < |s| => Lower(s[i]))
  }

  /** `re.sub(r"\s+", " ", s)`: every maximal run of whitespace becomes one space. */
  function Collapse(s: string): (r: string)
    decreases |s|
  {
    if s == [] then []
    else if IsSpace(s[0]) then [' '] + Collapse(TrimLeft(s))
    else [s[0]] + Collapse(s[1..])
  }

  /** The chain of `.replace` calls that folds the listed accents. */
  function FoldAccents(s: string): (r: string)
    ensures |r| == |s|
    ensures forall i :: 0 <= i < |s| ==> r[i] == FoldAccent(s[i])
  {
    seq(|s|, i requires 0 <= i < |s| => FoldAccent(s[i]))
  }

  /** What `norm` promises of its output. */
  predicate IsNormal(t: string) {
    && NoOuterSpace(t)
    && (forall i :: 0 <= i < |t| ==> !IsUpper(t[i]) && !IsAccent(t[i]) && (IsSpace(t[i]) ==> t[i] == ' '))
    && NoRuns(t)
  }

  /** `norm(s)`: strip, lower-case, collapse whitespace runs, fold accents. */
  function Norm(s: string): string
  {
    FoldAccents(Collapse(LowerStr(Strip(s))))
  }

  /** `norm` always returns a normal string. */
  lemma NormIsNormal(s: string)
    ensures IsNormal(Norm(s))
  {
    var a := Strip(s);
    var b := LowerStr(a);
    NormSteps(a, b, Collapse(b));
  }

  /** The shape each step of `Norm` leaves behind, ending in a normal string. */
  lemma NormSteps(a: string, b: string, c: string)
    requires NoOuterSpace(a) && b == LowerStr(a) && c == Collapse(b)
    ensures IsNormal(FoldAccents(c))
  {
    CollapseEnds(b);
    CollapseChars(b);
    CollapseNoRuns(b);
    forall i | 0 <= i < |c|
      ensures !IsUpper(c[i]) && (IsSpace(c[i]) ==> c[i] == ' ')
    {
      assert c[i] in c;
    }
    FoldKeepsNormal(c);
  }

  /** Folding accents keeps a lower-case, single-spaced, trimmed string so, and removes its accents. */
  lemma FoldKeepsNormal(c: string)
    requires NoOuterSpace(c) && NoRuns(c)
    requires forall i :: 0 <= i < |c| ==> !IsUpper(c[i]) && (IsSpace(c[i]) ==> c[i] == ' ')
    ensures IsNormal(FoldAccents(c))
  {
    var d := FoldAccents(c);
    assert NoOuterSpace(d) by {
      if d != [] {
        assert d[0] == FoldAccent(c[0]) && d[|d| - 1] == FoldAccent(c[|c| - 1]);
      }
    }
    forall i | 0 <= i < |d| - 1 ensures !(IsSpace(d[i]) && IsSpace(d[i + 1])) {
      assert d[i] == FoldAccent(c[i]) && d[i + 1] == FoldAccent(c[i + 1]);
    }
  }

  /** `Collapse` keeps a non-space first and last character where they stand. */
  lemma {:induction false} CollapseEnds(s: string)
    ensures var r := Collapse(s);
      && (r == [] <==> s == [])
      && (s != [] && !IsSpace(s[0]) ==> r[0] == s[0])
      && (s != [] && !IsSpace(s[|s| - 1]) ==> !IsSpace(r[|r| - 1]))
    decreases |s|
  {
    if s != [] {
      var t := if IsSpace(s[0]) then TrimLeft(s) else s[1..];
      TrimLeftSuffix(s);
      CollapseEnds(t);
      if !IsSpace(s[|s| - 1]) && t != [] {
        assert t[|t| - 1] == s[|s| - 1];
      }
    }
  }

  /** Every character `Collapse` emits is a space or a non-space character of its input. */
  lemma {:induction false} CollapseChars(s: string)
    ensures forall c :: c in Collapse(s) ==> c == ' ' || (c in s && !IsSpace(c))
    decreases |s|
  {
    if s != [] {
      var t := if IsSpace(s[0]) then TrimLeft(s) else s[1..];
      TrimLeftSuffix(s);
      CollapseChars(t);
      assert forall c :: c in t ==> c in s;
    }
  }

  /** `Collapse` never emits two whitespace characters in a row. */
  lemma {:induction false} CollapseNoRuns(s: string)
    ensures NoRuns(Collapse(s))
    decreases |s|
  {
    if s != [] {
      var t := if IsSpace(s[0]) then TrimLeft(s) else s[1..];
      CollapseNoRuns(t);
      CollapseEnds(t);
      var x := if IsSpace(s[0]) then ' ' else s[0];
      var rt := Collapse(t);
      var r := Collapse(s);
      assert r == [x] + rt;
      forall i | 0 <= i < |r| - 1 ensures !(IsSpace(r[i]) && IsSpace(r[i + 1])) {
        if i > 0 {
          assert r[i] == rt[i - 1] && r[i + 1] == rt[i];
        } else if IsSpace(s[0]) {
          assert t != [] && !IsSpace(t[0]);
          assert r[1] == rt[0] == t[0];
        }
      }
    }
  }

  predicate NoRuns(r: string) {
    forall i :: 0 <= i < |r| - 1 ==> !(IsSpace(r[i]) && IsSpace(r[i + 1]))
  }

  /** A string whose only whitespace is isolated single spaces is left alone by `Collapse`. */
  lemma {:induction false} CollapseFixed(s: string)
    requires forall i :: 0 <= i < |s| ==> (IsSpace(s[i]) ==> s[i] == ' ')
    requires NoRuns(s)
    ensures Collapse(s) == s
    decreases |s|
  {
    if s == [] {
    } else if IsSpace(s[0]) {
      assert TrimLeft(s[1..]) == s[1..];
      assert TrimLeft(s) == s[1..];
      CollapseFixed(s[1..]);
    } else {
      CollapseFixed(s[1..]);
    }
  }

  /** Every normal string is a fixed point of `Norm`. */
  lemma {:induction false} NormFixed(t: string)
    requires IsNormal(t)
    ensures Norm(t) == t
  {
    assert Strip(t) == t;
    assert LowerStr(t) == t;
    CollapseFixed(t);
    assert FoldAccents(t) == t;
  }

  /** A word of plain lower-case ASCII letters is its own normal form. */
  lemma PlainWordNormal(w: string)
    requires forall i :: 0 <= i < |w| ==> 'a' <= w[i] <= 'z' || w[i] == '-'
    ensures Norm(w) == w
  {
    forall i | 0 <= i < |w| ensures !IsSpace(w[i]) && !IsUpper(w[i]) && !IsAccent(w[i]) {
    }
    NormFixed(w);
  }

  lemma NormEmpty()
    ensures Norm("") == ""
  {
    NormFixed("");
  }

  /** `norm` is idempotent. */
  lemma NormIdempotent(s: string)
    ensures Norm(Norm(s)) == Norm(s)
  {
    NormIsNormal(s);
    NormFixed(Norm(s));
  }

  // ---------------------------------------------------------------
  // Substrings
  // ---------------------------------------------------------------

  /** Python's `t in s` on strings. */
  predicate Contains(s: string, t: string)
    decreases |s|
  {
    t <= s || (s != [] && Contains(s[1..], t))
  }

  // ---------------------------------------------------------------
  // CSS identifiers
  // ---------------------------------------------------------------

  predicate IsAsciiLetter(c: char) { ('A' <= c <= 'Z') || ('a' <= c <= 'z') }
  predicate IsDigit(c: char) { '0' <= c <= '9' }

  /** `safe_css_ident` as written: `[A-Za-z_][A-Za-z0-9\-_:.]*`, whole string. */
  predicate SafeIdentAsWritten(s: string) {
    && s != []
    && (IsAsciiLetter(s[0]) || s[0] == '_')
    && forall i :: 1 <= i < |s| ==> IsAsciiLetter(s[i]) || IsDigit(s[i]) || s[i] in {'-', '_', ':', '.'}
  }

  /** A character CSS reads as part of an (ASCII) identifier. */
  predicate IsIdentChar(c: char) { IsAsciiLetter(c) || IsDigit(c) || c == '-' || c == '_' }

  /** `safe_css_ident` with `:` and `.` left out, the characters that CSS reads as syntax. */
  predicate SafeIdent(s: string) {
    && s != []
    && (IsAsciiLetter(s[0]) || s[0] == '_')
    && forall i :: 1 <= i < |s| ==> IsIdentChar(s[i])
  }

  /** The identifier a CSS reader takes after `#` or `.`: the longest run of identifier characters. */
  function ReadIdent(s: string): (r: string)
    ensures r <= s
    ensures forall i :: 0 <= i < |r| ==> IsIdentChar(r[i])
    ensures |r| < |s| ==> !IsIdentChar(s[|r|])
  {
    if s != [] && IsIdentChar(s[0]) then [s[0]] + ReadIdent(s[1..]) else []
  }

  /** A corrected identifier reads back whole, whatever non-identifier text follows it. */
  lemma {:induction false} ReadIdentRoundTrip(id: string, rest: string)
    requires SafeIdent(id)
    requires rest == [] || !IsIdentChar(rest[0])
    ensures ReadIdent(id + rest) == id
  {
    ReadRun(id, rest);
  }

  lemma {:induction false} ReadRun(id: string, rest: string)
    requires forall i :: 0 <= i < |id| ==> IsIdentChar(id[i])
    requires rest == [] || !IsIdentChar(rest[0])
    ensures ReadIdent(id + rest) == id
    decreases |id|
  {
    if id != [] {
      assert (id + rest)[1..] == id[1..] + rest;
      ReadRun(id[1..], rest);
    }
  }

  /** The identifier check as written lets `a.b` through; after `#` CSS reads only `a`,
      and `.b` becomes a class condition. */
  lemma SafeIdentAdmitsClassDot()
    ensures SafeIdentAsWritten("a.b")
    ensures ReadIdent("a.b") == "a" != "a.b"
    ensures !SafeIdent("a.b")
  {
    assert ReadIdent("a.b") == ['a'] + ReadIdent(".b");
  }

  // ---------------------------------------------------------------
  // Attribute-equality selectors
  // ---------------------------------------------------------------

  /** `value.replace('"', '\\"')`: the escaping `css_attr_equals` does. */
  function EscapeQuotes(v: string): (r: string)
    ensures forall i :: 0 <= i < |r| && r[i] == '"' ==> i > 0 && r[i - 1] == '\\'
  {
    if v == [] then []
    else
      var rest := EscapeQuotes(v[1..]);
      var head := if v[0] == '"' then "\\\"" else [v[0]];
      assert forall i :: |head| <= i < |head| + |rest| ==> (head + rest)[i] == rest[i - |head|];
      head + rest
  }

  /** `css_attr_equals(attr, value)` as written: `[attr="value"]` with quotes escaped. */
  function AttrEqualsAsWritten(attr: string, v: string): (r: string)
    ensures "[" + attr + "=\"" <= r
    ensures |r| >= |attr| + 5 && r[|r| - 2..] == "\"]"
  {
    "[" + attr + "=\"" + EscapeQuotes(v) + "\"]"
  }

  /** Escaping that also doubles backslashes, so a reader gets the value back. */
  function EscapeCss(v: string): (r: string)
    ensures forall i :: 0 <= i < |r| && r[i] == '"' ==> i > 0 && r[i - 1] == '\\'
  {
    if v == [] then []
    else
      var rest := EscapeCss(v[1..]);
      var head := if v[0] == '"' || v[0] == '\\' then ['\\', v[0]] else [v[0]];
      assert forall i :: |head| <= i < |head| + |rest| ==> (head + rest)[i] == rest[i - |head|];
      head + rest
  }

  /** `css_attr_equals` with the corrected escaping; the selectors the model renders use it. */
  function AttrEquals(attr: string, v: string): (r: string)
    ensures "[" + attr + "=\"" <= r
    ensures |r| >= |attr| + 5 && r[|r| - 2..] == "\"]"
  {
    "[" + attr + "=\"" + EscapeCss(v) + "\"]"
  }

  predicate IsHexDigit(c: char) { IsDigit(c) || ('a' <= c <= 'f') || ('A' <= c <= 'F') }

  /**
   * Reads the body of a double-quoted CSS string (the opening quote already read):
   * a backslash followed by a character that is not a hex digit or a line break
   * stands for that character, and an unescaped `"` ends the string.  Gives the
   * decoded value and the text after the closing quote; None for an unterminated
   * string or an escape this reader does not decode.
   */
  function ReadString(s: string): Option<(string, string)>
  {
    if s == [] then None
    else if s[0] == '"' then Some(([], s[1..]))
    else if s[0] == '\\' then
      if |s| < 2 || IsHexDigit(s[1]) || s[1] == '\n' || s[1] == '\r' || s[1] == '\U{000C}' then None
      else match ReadString(s[2..])
        case None => None
        case Some(p) => Some(([s[1]] + p.0, p.1))
    else match ReadString(s[1..])
      case None => None
      case Some(p) => Some(([s[0]] + p.0, p.1))
  }

  /** With the corrected escaping the value reads back exactly, and the reader stops at its closing quote. */
  lemma {:induction false} EscapeCssRoundTrip(v: string, rest: string)
    ensures ReadString(EscapeCss(v) + "\"" + rest) == Some((v, rest))
  {
    if v == [] {
      assert EscapeCss(v) + "\"" + rest == ['"'] + rest;
    } else {
      EscapeCssRoundTrip(v[1..], rest);
      var tail := EscapeCss(v[1..]) + "\"" + rest;
      if v[0] == '"' || v[0] == '\\' {
        var whole := ['\\', v[0]] + tail;
        assert EscapeCss(v) + "\"" + rest == whole;
        assert whole[0] == '\\' && whole[1] == v[0] && whole[2..] == tail;
        assert !IsHexDigit(whole[1]) && |whole| >= 2;
        assert ReadString(whole) == Some(([v[0]] + v[1..], rest));
      } else {
        var whole := [v[0]] + tail;
        assert EscapeCss(v) + "\"" + rest == whole;
        assert whole[1..] == tail;
        assert ReadString(whole) == Some(([v[0]] + v[1..], rest));
      }
      assert [v[0]] + v[1..] == v;
    }
  }

  /** As written, a value ending in a backslash followed by a quote closes the string early:
      `\"` is escaped to `\\"`, which reads back as a lone backslash followed by the closing quote. */
  lemma EscapeQuotesClosesEarly()
    ensures var v := "\\\"";
      ReadString(EscapeQuotes(v) + "\"]") == Some(("\\", "\"]"))
  {
    var v := "\\\"";
    assert EscapeQuotes(v) == "\\\\\"" by {
      assert EscapeQuotes(v[1..]) == "\\\"";
    }
    assert ReadString("\\\\\"\"]") == Some(("\\", "\"]")) by {
      var w := "\\\\\"\"]";
      assert w[0] == '\\' && w[1] == '\\' && w[2..] == "\"\"]";
      assert ReadString(w[2..]) == Some(([], "\"]"));
      assert !IsHexDigit(w[1]) && w[1] != '\n' && w[1] != '\r' && w[1] != '\U{000C}';
      assert w[0] != '"';
      assert [w[1]] + [] == ['\\'];
      assert ReadString(w) == Some((['\\'], "\"]"));
    }
  }
}
