/** `String.prototype.trim` of ECMAScript: removes leading and trailing
    characters of the WhiteSpace and LineTerminator productions. */
module JsString {

  /** WhiteSpace (TAB, VT, FF, ZWNBSP and the space separators of Unicode
      category Zs) and LineTerminator (LF, CR, LS, PS) of ECMAScript. */
  predicate IsJsWhitespace(c: char)
  {
    || c == '\t' || c == '\U{000B}' || c == '\U{000C}' || c == ' ' || c == '\U{00A0}'
    || c == '\U{1680}' || ('\U{2000}' <= c <= '\U{200A}') || c == '\U{202F}'
    || c == '\U{205F}' || c == '\U{3000}' || c == '\U{FEFF}'
    || c == '\n' || c == '\r' || c == '\U{2028}' || c == '\U{2029}'
  }

  /** Every character of `s` is white space (vacuously so for `""`). */
  predicate IsBlank(s: string)
  {
    forall i :: 0 <= i < |s| ==> IsJsWhitespace(s[i])
  }

  /** Drops the leading white space. */
  function TrimStart(s: string): (r: string)
    ensures |r| <= |s|
  {
    if |s| > 0 && IsJsWhitespace(s[0]) then TrimStart(s[1..]) else s
  }

  /** `TrimStart` removes exactly the longest blank prefix. */
  lemma {:induction false} TrimStartSpec(s: string)
    ensures var r := TrimStart(s);
            && r == s[|s| - |r|..]
            && (|r| > 0 ==> !IsJsWhitespace(r[0]))
            && IsBlank(s[..|s| - |r|])
    decreases |s|
  {
    if |s| > 0 && IsJsWhitespace(s[0]) {
      TrimStartSpec(s[1..]);
      var r := TrimStart(s);
      assert s[1..][|s[1..]| - |r|..] == s[|s| - |r|..];
      assert s[..|s| - |r|] == [s[0]] + s[1..][..|s[1..]| - |r|];
      BlankConcat([s[0]], s[1..][..|s[1..]| - |r|]);
    }
  }

  /** Drops the trailing white space. */
  function TrimEnd(s: string): (r: string)
    ensures |r| <= |s|
  {
    if |s| > 0 && IsJsWhitespace(s[|s| - 1]) then TrimEnd(s[..|s| - 1]) else s
  }

  /** `TrimEnd` removes exactly the longest blank suffix. */
  lemma {:induction false} TrimEndSpec(s: string)
    ensures var r := TrimEnd(s);
            && r == s[..|r|]
            && (|r| > 0 ==> !IsJsWhitespace(r[|r| - 1]))
            && IsBlank(s[|r|..])
    decreases |s|
  {
    if |s| > 0 && IsJsWhitespace(s[|s| - 1]) {
      var p := s[..|s| - 1];
      TrimEndSpec(p);
      var r := TrimEnd(s);
      assert p[..|r|] == s[..|r|];
      assert s[|r|..] == p[|r|..] + [s[|s| - 1]];
      BlankConcat(p[|r|..], [s[|s| - 1]]);
    }
  }

  lemma BlankConcat(x: string, y: string)
    ensures IsBlank(x + y) <==> IsBlank(x) && IsBlank(y)
  {
    if IsBlank(x) && IsBlank(y) {
      forall i | 0 <= i < |x + y|
        ensures IsJsWhitespace((x + y)[i])
      {
        if i >= |x| {
          assert (x + y)[i] == y[i - |x|];
        }
      }
    }
    if IsBlank(x + y) {
      forall i | 0 <= i < |x|
        ensures IsJsWhitespace(x[i])
      {
        assert (x + y)[i] == x[i];
      }
      forall i | 0 <= i < |y|
        ensures IsJsWhitespace(y[i])
      {
        assert (x + y)[|x| + i] == y[i];
      }
    }
  }

  lemma TrimStartBlank(s: string)
    ensures TrimStart(s) == "" <==> IsBlank(s)
  {
    var a := TrimStart(s);
    var k := |s| - |a|;
    TrimStartSpec(s);
    assert s == s[..k] + a;
    BlankConcat(s[..k], a);
  }

  lemma TrimEndBlank(a: string)
    ensures TrimEnd(a) == "" <==> IsBlank(a)
  {
    var r := TrimEnd(a);
    TrimEndSpec(a);
    assert a == r + a[|r|..];
    BlankConcat(r, a[|r|..]);
  }

  /** `s.trim()`: neither starts nor ends with white space, and is empty
      exactly when `s` is blank. */
  function Trim(s: string): (r: string)
    ensures |r| > 0 ==> !IsJsWhitespace(r[0]) && !IsJsWhitespace(r[|r| - 1])
    ensures r == "" <==> IsBlank(s)
  {
    var a := TrimStart(s);
    TrimStartSpec(s);
    TrimEndSpec(a);
    TrimStartBlank(s);
    TrimEndBlank(a);
    TrimEnd(a)
  }

  /** The trimmed text is the part of `s` between a blank prefix and a blank suffix. */
  lemma TrimIsInfix(s: string)
    ensures var r := Trim(s);
            exists k :: 0 <= k <= |s| - |r| && r == s[k..k + |r|] && IsBlank(s[..k]) && IsBlank(s[k + |r|..])
  {
    var a := TrimStart(s);
    var r := TrimEnd(a);
    var k := |s| - |a|;
    TrimStartSpec(s);
    TrimEndSpec(a);
    assert r == s[k..k + |r|];
    assert s[k + |r|..] == a[|r|..];
  }
}
