/** `toSnakeCase` of MetaTemplates.js: four global regular-expression rewrites
    followed by `toLowerCase`, stated stage by stage over `seq<char>`.

    Character classes follow JavaScript regular expressions without the `u`
    flag: `\w` is exactly `[A-Za-z0-9_]`, so every other character (white space,
    punctuation, any non-ASCII letter) is `\W`, and `\s` adds nothing to `\W`.
    A character outside the Basic Multilingual Plane is two UTF-16 code units
    in JavaScript, both `\W`; since a run of `\W` collapses to one `_`, treating
    it as one `char` here gives the same result. */
module SnakeCase {
  import opened Common

  predicate IsUpper(c: char) { 'A' <= c <= 'Z' }

  predicate IsAsciiAlnum(c: char) { 'a' <= c <= 'z' || 'A' <= c <= 'Z' || '0' <= c <= '9' }

  /** `\w` of a JavaScript regular expression without the `u` flag. */
  predicate IsWordChar(c: char) { IsAsciiAlnum(c) || c == '_' }

  /** The alphabet of every identifier `toSnakeCase` produces: `[a-z0-9_]`. */
  predicate IsSnakeChar(c: char) { 'a' <= c <= 'z' || '0' <= c <= '9' || c == '_' }

  predicate AllWordChars(s: string) { forall i :: 0 <= i < |s| ==> IsWordChar(s[i]) }

  predicate NoUpper(s: string) { forall i :: 0 <= i < |s| ==> !IsUpper(s[i]) }

  /** Positions `i` and `i + 1` of `s` both hold an underscore. */
  predicate DoubleAt(s: string, i: int)
  {
    0 <= i < |s| - 1 && s[i] == '_' && s[i + 1] == '_'
  }

  /** No two adjacent underscores. */
  predicate NoDoubleUnderscore(s: string)
  {
    forall i :: 0 <= i < |s| - 1 ==> !DoubleAt(s, i)
  }

  /** Neither the first nor the last character is an underscore. */
  predicate NoEdgeUnderscore(s: string)
  {
    |s| > 0 ==> s[0] != '_' && s[|s| - 1] != '_'
  }

  /** The ASCII letters and digits of `s`, in order. */
  function Alnums(s: string): string
  {
    if |s| == 0 then ""
    else (if IsAsciiAlnum(s[0]) then [s[0]] else "") + Alnums(s[1..])
  }

  function LowerChar(c: char): char
  {
    if IsUpper(c) then (c as int + 32) as char else c
  }

  /** Lower-cases ASCII letters and leaves every other character alone. */
  function LowerAscii(s: string): (r: string)
    ensures |r| == |s|
    ensures forall i :: 0 <= i < |s| && IsUpper(s[i]) ==>
              'a' <= r[i] <= 'z' && r[i] as int - 'a' as int == s[i] as int - 'A' as int
    ensures forall i :: 0 <= i < |s| && !IsUpper(s[i]) ==> r[i] == s[i]
  {
    seq(|s|, i requires 0 <= i < |s| => LowerChar(s[i]))
  }

  /** Drops the leading run of non-word characters. */
  function DropNonWord(s: string): (r: string)
    ensures |r| <= |s|
  {
    if |s| > 0 && !IsWordChar(s[0]) then DropNonWord(s[1..]) else s
  }

  /** `DropNonWord` removes exactly the longest non-word prefix. */
  lemma {:induction false} DropNonWordSpec(s: string)
    ensures var r := DropNonWord(s);
            && r == s[|s| - |r|..]
            && (|r| > 0 ==> IsWordChar(r[0]))
            && (forall i :: 0 <= i < |s| - |r| ==> !IsWordChar(s[i]))
    decreases |s|
  {
    if |s| > 0 && !IsWordChar(s[0]) {
      DropNonWordSpec(s[1..]);
      var r := DropNonWord(s);
      assert s[1..][|s[1..]| - |r|..] == s[|s| - |r|..];
      forall i | 0 <= i < |s| - |r|
        ensures !IsWordChar(s[i])
      {
        if i > 0 {
          assert s[i] == s[1..][i - 1];
        }
      }
    }
  }

  lemma WordCharsConcat(a: string, b: string)
    ensures AllWordChars(a + b) <==> AllWordChars(a) && AllWordChars(b)
  {
    if AllWordChars(a + b) {
      forall i | 0 <= i < |a|
        ensures IsWordChar(a[i])
      {
        assert a[i] == (a + b)[i];
      }
      forall i | 0 <= i < |b|
        ensures IsWordChar(b[i])
      {
        assert b[i] == (a + b)[|a| + i];
      }
    }
    if AllWordChars(a) && AllWordChars(b) {
      forall i | 0 <= i < |a + b|
        ensures IsWordChar((a + b)[i])
      {
        if i >= |a| {
          assert (a + b)[i] == b[i - |a|];
        }
      }
    }
  }

  lemma NoUpperConcat(a: string, b: string)
    ensures NoUpper(a + b) <==> NoUpper(a) && NoUpper(b)
  {
    if NoUpper(a + b) {
      forall i | 0 <= i < |a|
        ensures !IsUpper(a[i])
      {
        assert a[i] == (a + b)[i];
      }
      forall i | 0 <= i < |b|
        ensures !IsUpper(b[i])
      {
        assert b[i] == (a + b)[|a| + i];
      }
    }
    if NoUpper(a) && NoUpper(b) {
      forall i | 0 <= i < |a + b|
        ensures !IsUpper((a + b)[i])
      {
        if i >= |a| {
          assert (a + b)[i] == b[i - |a|];
        }
      }
    }
  }

  /** Stage 1, `replace(/[\s\W]+/g, '_')`: each maximal run of non-word
      characters becomes a single `_`; word characters are kept. */
  function CollapseNonWord(s: string): string
    decreases |s|
  {
    if |s| == 0 then ""
    else if IsWordChar(s[0]) then [s[0]] + CollapseNonWord(s[1..])
    else "_" + CollapseNonWord(DropNonWord(s[1..]))
  }

  /** After stage 1 only word characters remain, and a string of word
      characters passes through unchanged. */
  lemma {:induction false} CollapseNonWordSpec(s: string)
    ensures AllWordChars(CollapseNonWord(s))
    ensures AllWordChars(s) ==> CollapseNonWord(s) == s
    decreases |s|
  {
    if |s| > 0 {
      if IsWordChar(s[0]) {
        CollapseNonWordSpec(s[1..]);
        WordCharsConcat([s[0]], CollapseNonWord(s[1..]));
        WordCharsConcat([s[0]], s[1..]);
        assert s == [s[0]] + s[1..];
      } else {
        CollapseNonWordSpec(DropNonWord(s[1..]));
        WordCharsConcat("_", CollapseNonWord(DropNonWord(s[1..])));
      }
    }
  }

  /** A string of non-word characters only. */
  predicate AllNonWord(s: string) { forall i :: 0 <= i < |s| ==> !IsWordChar(s[i]) }

  /** Stage 1 copies a leading run of word characters. */
  lemma {:induction false} CollapseNonWordWordPrefix(w: string, x: string)
    requires AllWordChars(w)
    ensures CollapseNonWord(w + x) == w + CollapseNonWord(x)
    decreases |w|
  {
    if |w| > 0 {
      assert (w + x)[0] == w[0] && IsWordChar(w[0]);
      assert (w + x)[1..] == w[1..] + x;
      forall i | 0 <= i < |w| - 1
        ensures IsWordChar(w[1..][i])
      {
        assert w[1..][i] == w[i + 1];
      }
      CollapseNonWordWordPrefix(w[1..], x);
      assert CollapseNonWord(w + x) == [w[0]] + CollapseNonWord(w[1..] + x);
      assert w == [w[0]] + w[1..];
      assert [w[0]] + (w[1..] + CollapseNonWord(x)) == w + CollapseNonWord(x);
    } else {
      assert w + x == x;
    }
  }

  lemma {:induction false} DropNonWordRun(n: string, v: string)
    requires AllNonWord(n)
    requires |v| > 0 ==> IsWordChar(v[0])
    ensures DropNonWord(n + v) == v
    decreases |n|
  {
    if |n| == 0 {
      assert n + v == v;
    } else {
      assert (n + v)[1..] == n[1..] + v;
      DropNonWordRun(n[1..], v);
    }
  }

  /** Stage 1 turns a whole run of non-word characters, between word
      characters, into exactly one `_`. */
  lemma CollapseNonWordRun(w: string, n: string, v: string)
    requires AllWordChars(w)
    requires |n| > 0 && AllNonWord(n)
    requires |v| > 0 ==> IsWordChar(v[0])
    ensures CollapseNonWord(w + n + v) == w + "_" + CollapseNonWord(v)
  {
    var x := n + v;
    assert w + n + v == w + x;
    CollapseNonWordWordPrefix(w, x);
    assert x[1..] == n[1..] + v;
    DropNonWordRun(n[1..], v);
    assert CollapseNonWord(x) == "_" + CollapseNonWord(v);
  }

  /** Stage 2, `replace(/([A-Z])/g, '_$1')`: an `_` goes in front of every
      upper-case ASCII letter. */
  function MarkUpper(s: string): string
  {
    if |s| == 0 then ""
    else (if IsUpper(s[0]) then ['_', s[0]] else [s[0]]) + MarkUpper(s[1..])
  }

  /** Stage 2 inserts only underscores and changes nothing without capitals. */
  lemma {:induction false} MarkUpperSpec(s: string)
    ensures AllWordChars(s) ==> AllWordChars(MarkUpper(s))
    ensures NoUpper(s) ==> MarkUpper(s) == s
  {
    if |s| > 0 {
      var head := if IsUpper(s[0]) then ['_', s[0]] else [s[0]];
      MarkUpperSpec(s[1..]);
      assert s == [s[0]] + s[1..];
      WordCharsConcat([s[0]], s[1..]);
      NoUpperConcat([s[0]], s[1..]);
      WordCharsConcat(head, MarkUpper(s[1..]));
    }
  }

  /** The number of upper-case ASCII letters in `s`. */
  function CountUpper(s: string): nat
  {
    if |s| == 0 then 0 else (if IsUpper(s[0]) then 1 else 0) + CountUpper(s[1..])
  }

  /** Stage 2 adds exactly one character per capital. */
  lemma {:induction false} MarkUpperLength(s: string)
    ensures |MarkUpper(s)| == |s| + CountUpper(s)
    decreases |s|
  {
    if |s| > 0 {
      MarkUpperLength(s[1..]);
    }
  }

  /** Every capital of `r` has an `_` right before it. */
  predicate CapitalsMarked(r: string)
  {
    forall i :: 0 <= i < |r| && IsUpper(r[i]) ==> i > 0 && r[i - 1] == '_'
  }

  /** After stage 2 every capital has an `_` right before it. */
  lemma {:induction false} MarkUpperMarksCapitals(s: string)
    ensures CapitalsMarked(MarkUpper(s))
    decreases |s|
  {
    if |s| > 0 {
      MarkUpperMarksCapitals(s[1..]);
      var head := if IsUpper(s[0]) then ['_', s[0]] else [s[0]];
      var rest := MarkUpper(s[1..]);
      var r := MarkUpper(s);
      assert r == head + rest;
      forall i | 0 <= i < |r| && IsUpper(r[i])
        ensures i > 0 && r[i - 1] == '_'
      {
        if 0 < i < |head| {
          assert r[i - 1] == head[i - 1];
        } else if i > |head| {
          var k := i - |head|;
          assert r[i] == rest[k] && IsUpper(rest[k]);
          assert k > 0 && rest[k - 1] == '_';
          assert r[i - 1] == rest[k - 1];
        }
      }
    }
  }

  /** Stage 2 works character by character, so it distributes over
      concatenation. */
  lemma {:induction false} MarkUpperConcat(a: string, b: string)
    ensures MarkUpper(a + b) == MarkUpper(a) + MarkUpper(b)
    decreases |a|
  {
    if |a| == 0 {
      assert a + b == b;
    } else {
      assert (a + b)[1..] == a[1..] + b;
      MarkUpperConcat(a[1..], b);
      var head := if IsUpper(a[0]) then ['_', a[0]] else [a[0]];
      assert head + (MarkUpper(a[1..]) + MarkUpper(b)) == head + MarkUpper(a[1..]) + MarkUpper(b);
    }
  }

  /** Drops the leading run of underscores. */
  function DropUnderscores(s: string): (r: string)
    ensures |r| <= |s|
  {
    if |s| > 0 && s[0] == '_' then DropUnderscores(s[1..]) else s
  }

  /** `DropUnderscores` removes exactly the longest run of leading underscores. */
  lemma {:induction false} DropUnderscoresSpec(s: string)
    ensures var r := DropUnderscores(s);
            && r == s[|s| - |r|..]
            && (|r| > 0 ==> r[0] != '_')
            && (forall i :: 0 <= i < |s| - |r| ==> s[i] == '_')
    decreases |s|
  {
    if |s| > 0 && s[0] == '_' {
      DropUnderscoresSpec(s[1..]);
      var r := DropUnderscores(s);
      assert s[1..][|s[1..]| - |r|..] == s[|s| - |r|..];
      forall i | 0 <= i < |s| - |r|
        ensures s[i] == '_'
      {
        if i > 0 {
          assert s[i] == s[1..][i - 1];
        }
      }
    }
  }

  /** Stage 3, `replace(/__+/g, '_')`: a run of two or more underscores becomes
      one; a lone underscore is left where it is. */
  function CollapseUnderscores(s: string): (r: string)
    ensures |r| > 0 <==> |s| > 0
    ensures |s| > 0 ==> r[0] == s[0]
    decreases |s|
  {
    if |s| == 0 then ""
    else if |s| >= 2 && s[0] == '_' && s[1] == '_' then "_" + CollapseUnderscores(DropUnderscores(s[2..]))
    else [s[0]] + CollapseUnderscores(s[1..])
  }

  /** After stage 3 no two underscores are adjacent; the stage adds no
      character outside `\w` and no capital, and changes nothing when no two
      underscores were adjacent to begin with. */
  lemma CollapseUnderscoresSpec(s: string)
    ensures NoDoubleUnderscore(CollapseUnderscores(s))
    ensures AllWordChars(s) ==> AllWordChars(CollapseUnderscores(s))
    ensures NoUpper(s) ==> NoUpper(CollapseUnderscores(s))
    ensures NoDoubleUnderscore(s) ==> CollapseUnderscores(s) == s
  {
    CollapseUnderscoresNoDouble(s);
    CollapseUnderscoresKeepsClass(s);
    if NoDoubleUnderscore(s) {
      CollapseUnderscoresIdentity(s);
    }
  }

  lemma {:induction false} CollapseUnderscoresNoDouble(s: string)
    ensures NoDoubleUnderscore(CollapseUnderscores(s))
    decreases |s|
  {
    if |s| >= 2 && s[0] == '_' && s[1] == '_' {
      var d := DropUnderscores(s[2..]);
      DropUnderscoresSpec(s[2..]);
      CollapseUnderscoresNoDouble(d);
      ConsNoDouble('_', CollapseUnderscores(d));
    } else if |s| > 0 {
      CollapseUnderscoresNoDouble(s[1..]);
      ConsNoDouble(s[0], CollapseUnderscores(s[1..]));
    }
  }

  /** Stage 3 only drops underscores, so it keeps word strings word strings
      and adds no capital. */
  lemma {:induction false} CollapseUnderscoresKeepsClass(s: string)
    ensures AllWordChars(s) ==> AllWordChars(CollapseUnderscores(s))
    ensures NoUpper(s) ==> NoUpper(CollapseUnderscores(s))
    decreases |s|
  {
    if |s| >= 2 && s[0] == '_' && s[1] == '_' {
      var d := DropUnderscores(s[2..]);
      DropUnderscoresSpec(s[2..]);
      CollapseUnderscoresKeepsClass(d);
      var k := |s| - |d|;
      assert s[k..] == d;
      assert s[..k] + s[k..] == s;
      WordCharsConcat(s[..k], d);
      NoUpperConcat(s[..k], d);
      WordCharsConcat("_", CollapseUnderscores(d));
      NoUpperConcat("_", CollapseUnderscores(d));
    } else if |s| > 0 {
      CollapseUnderscoresKeepsClass(s[1..]);
      assert [s[0]] + s[1..] == s;
      WordCharsConcat([s[0]], s[1..]);
      NoUpperConcat([s[0]], s[1..]);
      WordCharsConcat([s[0]], CollapseUnderscores(s[1..]));
      NoUpperConcat([s[0]], CollapseUnderscores(s[1..]));
    }
  }

  lemma {:induction false} CollapseUnderscoresIdentity(s: string)
    requires NoDoubleUnderscore(s)
    ensures CollapseUnderscores(s) == s
    decreases |s|
  {
    if |s| > 0 {
      assert !DoubleAt(s, 0);
      TailNoDouble(s);
      CollapseUnderscoresIdentity(s[1..]);
      assert [s[0]] + s[1..] == s;
    }
  }

  /** A string of underscores only. */
  predicate AllUnderscores(s: string) { forall i :: 0 <= i < |s| ==> s[i] == '_' }

  /** Stage 3 copies a prefix without doubled underscores that does not end
      with `_`. */
  lemma {:induction false} CollapseUnderscoresPrefix(w: string, x: string)
    requires NoDoubleUnderscore(w)
    requires |w| > 0 ==> w[|w| - 1] != '_'
    ensures CollapseUnderscores(w + x) == w + CollapseUnderscores(x)
    decreases |w|
  {
    if |w| > 0 {
      var s := w + x;
      assert s[0] == w[0];
      if |w| >= 2 {
        assert !DoubleAt(w, 0);
        assert s[1] == w[1];
        assert w[1..][|w| - 2] == w[|w| - 1];
      }
      assert s[1..] == w[1..] + x;
      TailNoDouble(w);
      CollapseUnderscoresPrefix(w[1..], x);
      assert CollapseUnderscores(s) == [w[0]] + CollapseUnderscores(w[1..] + x);
      assert w == [w[0]] + w[1..];
      assert [w[0]] + (w[1..] + CollapseUnderscores(x)) == w + CollapseUnderscores(x);
    } else {
      assert w + x == x;
    }
  }

  lemma {:induction false} DropUnderscoresRun(u: string, v: string)
    requires AllUnderscores(u)
    requires |v| > 0 ==> v[0] != '_'
    ensures DropUnderscores(u + v) == v
    decreases |u|
  {
    if |u| == 0 {
      assert u + v == v;
    } else {
      assert (u + v)[1..] == u[1..] + v;
      DropUnderscoresRun(u[1..], v);
    }
  }

  /** Stage 3 turns a whole run of two or more underscores into exactly one. */
  lemma CollapseUnderscoresRun(w: string, u: string, v: string)
    requires NoDoubleUnderscore(w) && (|w| > 0 ==> w[|w| - 1] != '_')
    requires |u| >= 2 && AllUnderscores(u)
    requires |v| > 0 ==> v[0] != '_'
    ensures CollapseUnderscores(w + u + v) == w + "_" + CollapseUnderscores(v)
  {
    AppendAssoc(w, u, v);
    CollapseUnderscoresPrefix(w, u + v);
    CollapseUnderscoresOfRun(u, v);
    AppendAssoc(w, "_", CollapseUnderscores(v));
  }

  lemma CollapseUnderscoresOfRun(u: string, v: string)
    requires |u| >= 2 && AllUnderscores(u)
    requires |v| > 0 ==> v[0] != '_'
    ensures CollapseUnderscores(u + v) == "_" + CollapseUnderscores(v)
  {
    var x := u + v;
    assert x[0] == '_' && x[1] == '_';
    assert x[2..] == u[2..] + v;
    DropUnderscoresRun(u[2..], v);
  }

  lemma ConsNoDouble(c: char, t: string)
    requires NoDoubleUnderscore(t)
    requires c == '_' && |t| > 0 ==> t[0] != '_'
    ensures NoDoubleUnderscore([c] + t)
  {
    var r := [c] + t;
    forall i | 0 <= i < |r| - 1
      ensures !DoubleAt(r, i)
    {
      if i > 0 {
        assert !DoubleAt(t, i - 1);
      }
    }
  }

  lemma TailNoDouble(s: string)
    requires |s| > 0
    ensures NoDoubleUnderscore(s) ==> NoDoubleUnderscore(s[1..])
  {
    if NoDoubleUnderscore(s) {
      forall i | 0 <= i < |s| - 2
        ensures !DoubleAt(s[1..], i)
      {
        assert !DoubleAt(s, i + 1);
      }
    }
  }

  /** Stage 4, `replace(/^_|_$/g, '')`: removes one leading and one trailing
      underscore. */
  function StripEdgeUnderscore(s: string): string
  {
    DropEdges(s, '_', '_')
  }

  /** `toSnakeCase(str)`. The empty string is the only falsy string and yields
      `""`; the closing `toLowerCase` only ever sees `[A-Za-z0-9_]` (stage 1
      removed everything else), where it agrees with `LowerAscii`. */
  function ToSnakeCase(str: string): (r: string)
    ensures |str| == 0 ==> r == ""
    ensures forall i :: 0 <= i < |r| ==> IsSnakeChar(r[i])
    ensures NoDoubleUnderscore(r)
    ensures NoEdgeUnderscore(r)
  {
    if |str| == 0 then ""
    else
      var w := CollapseNonWord(str);
      CollapseNonWordSpec(str);
      var m := MarkUpper(w);
      MarkUpperSpec(w);
      var c := CollapseUnderscores(m);
      CollapseUnderscoresSpec(m);
      var t := StripEdgeUnderscore(c);
      StripEdgeKeepsShape(c);
      LowerAsciiKeepsShape(t);
      LowerAscii(t)
  }

  /** The closing `toLowerCase` keeps the underscore layout and leaves only
      `[a-z0-9_]` behind. */
  lemma LowerAsciiKeepsShape(t: string)
    requires AllWordChars(t) && NoDoubleUnderscore(t) && NoEdgeUnderscore(t)
    ensures forall i :: 0 <= i < |LowerAscii(t)| ==> IsSnakeChar(LowerAscii(t)[i])
    ensures NoDoubleUnderscore(LowerAscii(t)) && NoEdgeUnderscore(LowerAscii(t))
    ensures |LowerAscii(t)| == |t| && forall i :: 0 <= i < |t| ==> (LowerAscii(t)[i] == '_' <==> t[i] == '_')
  {
    var l := LowerAscii(t);
    forall i | 0 <= i < |l| - 1
      ensures !DoubleAt(l, i)
    {
      assert !DoubleAt(t, i);
    }
  }

  /** What stage 4 guarantees once stage 3 has run, and that it leaves a
      string already in final shape alone. */
  lemma StripEdgeKeepsShape(s: string)
    requires NoDoubleUnderscore(s)
    ensures NoDoubleUnderscore(StripEdgeUnderscore(s))
    ensures NoEdgeUnderscore(StripEdgeUnderscore(s))
    ensures AllWordChars(s) ==> AllWordChars(StripEdgeUnderscore(s))
    ensures NoUpper(s) ==> NoUpper(StripEdgeUnderscore(s))
    ensures NoEdgeUnderscore(s) ==> StripEdgeUnderscore(s) == s
  {
    var a := if |s| > 0 && s[0] == '_' then s[1..] else s;
    var off := |s| - |a|;
    assert forall i :: 0 <= i < |a| ==> a[i] == s[i + off];
    var r := StripEdgeUnderscore(s);
    assert |r| <= |a| && forall i :: 0 <= i < |r| ==> r[i] == a[i];
    forall i | 0 <= i < |r| - 1
      ensures !DoubleAt(r, i)
    {
      assert !DoubleAt(s, i + off);
    }
    if |r| > 0 && off == 1 {
      assert !DoubleAt(s, 0);
    }
    if |r| < |a| && |r| > 0 {
      assert !DoubleAt(s, |a| - 2 + off);
    }
  }

  lemma LowerAsciiNoUpper(s: string)
    requires NoUpper(s)
    ensures LowerAscii(s) == s
  {
  }

  /** `toSnakeCase` is idempotent: its output is already in the shape every
      stage leaves unchanged. */
  lemma SnakeCaseIdempotent(s: string)
    ensures ToSnakeCase(ToSnakeCase(s)) == ToSnakeCase(s)
  {
    var r := ToSnakeCase(s);
    if |r| > 0 {
      assert AllWordChars(r);
      assert NoUpper(r);
      CollapseNonWordSpec(r);
      MarkUpperSpec(r);
      CollapseUnderscoresSpec(r);
      StripEdgeKeepsShape(r);
      LowerAsciiNoUpper(r);
    }
  }

  predicate IsLowerAlnum(c: char) { 'a' <= c <= 'z' || '0' <= c <= '9' }

  /** A non-empty word of lower-case ASCII letters and digits. */
  predicate LowerAlnumWord(w: string)
  {
    |w| > 0 && forall i :: 0 <= i < |w| ==> IsLowerAlnum(w[i])
  }

  /** A string whose only `_` can sit at position `k` has no doubled underscore. */
  lemma UnderscoreOnlyAt(m: string, k: int)
    requires forall i :: 0 <= i < |m| && i != k ==> m[i] != '_'
    ensures NoDoubleUnderscore(m)
  {
    forall i | 0 <= i < |m| - 1
      ensures !DoubleAt(m, i)
    {
      if i == k {
        assert m[i + 1] != '_';
      }
    }
  }

  /** `ToSnakeCase` of a non-empty string, as the composition of its stages. */
  lemma SnakeCaseStages(s: string)
    requires |s| > 0
    ensures ToSnakeCase(s) == LowerAscii(StripEdgeUnderscore(CollapseUnderscores(MarkUpper(CollapseNonWord(s)))))
  {
  }

  /** Stages 3 to 5 leave a string without doubled or edge underscores and
      without capitals alone. */
  lemma LaterStagesFixed(m: string)
    requires NoUpper(m) && NoDoubleUnderscore(m) && NoEdgeUnderscore(m)
    ensures LowerAscii(StripEdgeUnderscore(CollapseUnderscores(m))) == m
  {
    CollapseUnderscoresSpec(m);
    StripEdgeKeepsShape(m);
    LowerAsciiNoUpper(m);
  }

  /** Every stage leaves a string in final shape alone. */
  lemma SnakeShapeFixed(m: string)
    requires |m| > 0 && AllWordChars(m) && NoUpper(m)
    requires NoDoubleUnderscore(m) && NoEdgeUnderscore(m)
    ensures ToSnakeCase(m) == m
  {
    SnakeCaseStages(m);
    CollapseNonWordSpec(m);
    MarkUpperSpec(m);
    LaterStagesFixed(m);
  }

  /** A lower-case word of letters and digits is its own snake case. */
  lemma SnakeCaseOfLowerWord(w: string)
    requires LowerAlnumWord(w)
    ensures ToSnakeCase(w) == w
  {
    UnderscoreOnlyAt(w, -1);
    SnakeShapeFixed(w);
  }

  /** Two lower-case words joined by one `_` are in final shape. */
  lemma JoinedShape(w1: string, w2: string)
    requires LowerAlnumWord(w1) && LowerAlnumWord(w2)
    ensures var m := w1 + "_" + w2;
            AllWordChars(m) && NoUpper(m) && NoDoubleUnderscore(m) && NoEdgeUnderscore(m)
  {
    var m := w1 + "_" + w2;
    forall i | 0 <= i < |m|
      ensures if i == |w1| then m[i] == '_' else IsLowerAlnum(m[i])
    {
      if i < |w1| {
        assert m[i] == w1[i];
      } else if i > |w1| {
        assert m[i] == w2[i - |w1| - 1];
      }
    }
    UnderscoreOnlyAt(m, |w1|);
  }

  /** Words split by any run of spaces or punctuation come out joined by
      exactly one `_`. */
  lemma SnakeCaseSeparatesWords(w1: string, sep: string, w2: string)
    requires LowerAlnumWord(w1) && LowerAlnumWord(w2)
    requires |sep| > 0 && AllNonWord(sep)
    ensures ToSnakeCase(w1 + sep + w2) == ToSnakeCase(w1) + "_" + ToSnakeCase(w2) == w1 + "_" + w2
  {
    SnakeCaseOfLowerWord(w1);
    SnakeCaseOfLowerWord(w2);
    var m := w1 + "_" + w2;
    CollapseNonWordRun(w1, sep, w2);
    UnderscoreOnlyAt(w2, -1);
    CollapseNonWordSpec(w2);
    JoinedShape(w1, w2);
    SnakeCaseStages(w1 + sep + w2);
    MarkUpperSpec(m);
    LaterStagesFixed(m);
  }

  /** Stage 2 on a lower-case word, a capital and more lower-case text. */
  lemma CamelMarked(w1: string, c: char, w2: string)
    requires LowerAlnumWord(w1) && IsUpper(c)
    requires forall i :: 0 <= i < |w2| ==> IsLowerAlnum(w2[i])
    ensures MarkUpper(w1 + [c] + w2) == w1 + "_" + [c] + w2
  {
    MarkUpperSpec(w1);
    MarkUpperSpec(w2);
    MarkUpperConcat(w1 + [c], w2);
    MarkUpperConcat(w1, [c]);
    assert [c][1..] == "";
    assert MarkUpper([c]) == ['_', c];
    assert ['_', c] == "_" + [c];
    AppendAssoc(w1, "_", [c]);
  }

  lemma CamelWordChars(w1: string, c: char, w2: string)
    requires LowerAlnumWord(w1) && IsUpper(c)
    requires forall i :: 0 <= i < |w2| ==> IsLowerAlnum(w2[i])
    ensures AllWordChars(w1 + [c] + w2)
  {
    var s := w1 + [c] + w2;
    forall i | 0 <= i < |s|
      ensures IsWordChar(s[i])
    {
      if i < |w1| {
        assert s[i] == w1[i];
      } else if i > |w1| {
        assert s[i] == w2[i - |w1| - 1];
      }
    }
  }

  /** The marked camel-case string has its only `_` in front of the capital. */
  lemma CamelShape(w1: string, c: char, w2: string)
    requires LowerAlnumWord(w1) && IsUpper(c)
    requires forall i :: 0 <= i < |w2| ==> IsLowerAlnum(w2[i])
    ensures var m := w1 + "_" + [c] + w2;
            NoDoubleUnderscore(m) && NoEdgeUnderscore(m)
  {
    var m := w1 + "_" + [c] + w2;
    forall i | 0 <= i < |m| && i != |w1|
      ensures m[i] != '_'
    {
      if i < |w1| {
        assert m[i] == w1[i];
      } else if i > |w1| + 1 {
        assert m[i] == w2[i - |w1| - 2];
      }
    }
    UnderscoreOnlyAt(m, |w1|);
  }

  /** Stage 5 lower-cases the one capital of the marked camel-case string. */
  lemma CamelLowered(w1: string, c: char, w2: string)
    requires LowerAlnumWord(w1) && IsUpper(c)
    requires forall i :: 0 <= i < |w2| ==> IsLowerAlnum(w2[i])
    ensures LowerAscii(w1 + "_" + [c] + w2) == w1 + "_" + [LowerChar(c)] + w2
  {
    var m := w1 + "_" + [c] + w2;
    var l := w1 + "_" + [LowerChar(c)] + w2;
    forall i | 0 <= i < |m|
      ensures LowerAscii(m)[i] == l[i]
    {
      if i < |w1| {
        assert m[i] == w1[i] && l[i] == w1[i];
      } else if i > |w1| + 1 {
        assert m[i] == w2[i - |w1| - 2] && l[i] == w2[i - |w1| - 2];
      }
    }
  }

  /** A capital inside a name starts a new word: it gets an `_` in front and
      is lower-cased. */
  lemma SnakeCaseSplitsCamel(w1: string, c: char, w2: string)
    requires LowerAlnumWord(w1) && IsUpper(c)
    requires forall i :: 0 <= i < |w2| ==> IsLowerAlnum(w2[i])
    ensures ToSnakeCase(w1 + [c] + w2) == w1 + "_" + [LowerChar(c)] + w2
  {
    var s := w1 + [c] + w2;
    CamelWordChars(w1, c, w2);
    CollapseNonWordSpec(s);
    CamelMarked(w1, c, w2);
    SnakeCaseStages(s);
    var m := w1 + "_" + [c] + w2;
    CamelShape(w1, c, w2);
    CollapseUnderscoresSpec(m);
    StripEdgeKeepsShape(m);
    CamelLowered(w1, c, w2);
  }

  lemma {:induction false} AlnumsConcat(a: string, b: string)
    ensures Alnums(a + b) == Alnums(a) + Alnums(b)
    decreases |a|
  {
    if |a| == 0 {
      assert a + b == b;
    } else {
      var head := if IsAsciiAlnum(a[0]) then [a[0]] else "";
      assert (a + b)[0] == a[0];
      assert (a + b)[1..] == a[1..] + b;
      AlnumsConcat(a[1..], b);
      assert Alnums(a + b) == head + (Alnums(a[1..]) + Alnums(b));
      assert head + (Alnums(a[1..]) + Alnums(b)) == (head + Alnums(a[1..])) + Alnums(b);
    }
  }

  lemma {:induction false} AlnumsOfNonWord(s: string)
    requires forall i :: 0 <= i < |s| ==> !IsWordChar(s[i])
    ensures Alnums(s) == ""
    decreases |s|
  {
    if |s| > 0 {
      AlnumsOfNonWord(s[1..]);
    }
  }

  lemma {:induction false} AlnumsOfUnderscores(s: string)
    requires forall i :: 0 <= i < |s| ==> s[i] == '_'
    ensures Alnums(s) == ""
    decreases |s|
  {
    if |s| > 0 {
      AlnumsOfUnderscores(s[1..]);
    }
  }

  /** A string with no letters or digits holds no letter or digit anywhere. */
  lemma {:induction false} AlnumsEmpty(s: string)
    requires Alnums(s) == ""
    ensures forall i :: 0 <= i < |s| ==> !IsAsciiAlnum(s[i])
    decreases |s|
  {
    if |s| > 0 {
      AlnumsEmpty(s[1..]);
      forall i | 1 <= i < |s|
        ensures !IsAsciiAlnum(s[i])
      {
        assert s[i] == s[1..][i - 1];
      }
    }
  }

  /** Splitting `s` at a suffix `t` splits its letters and digits the same way. */
  lemma {:induction false} AlnumsSuffix(s: string, t: string)
    requires |t| <= |s| && t == s[|s| - |t|..]
    ensures Alnums(s) == Alnums(s[..|s| - |t|]) + Alnums(t)
  {
    var k := |s| - |t|;
    assert s[..k] + s[k..] == s;
    AlnumsConcat(s[..k], s[k..]);
  }

  /** Stage 1 keeps every letter and digit, in order. */
  lemma {:induction false} CollapseNonWordKeepsAlnums(s: string)
    ensures Alnums(CollapseNonWord(s)) == Alnums(s)
    decreases |s|
  {
    if |s| > 0 {
      if IsWordChar(s[0]) {
        CollapseNonWordKeepsAlnums(s[1..]);
        AlnumsConcat([s[0]], CollapseNonWord(s[1..]));
        AlnumsConcat([s[0]], s[1..]);
        assert s == [s[0]] + s[1..];
      } else {
        var rest := DropNonWord(s[1..]);
        DropNonWordSpec(s[1..]);
        CollapseNonWordKeepsAlnums(rest);
        AlnumsConcat("_", CollapseNonWord(rest));
        AlnumsSuffix(s[1..], rest);
        AlnumsOfNonWord(s[1..][..|s[1..]| - |rest|]);
      }
    }
  }

  /** Stage 2 only inserts underscores. */
  lemma {:induction false} MarkUpperKeepsAlnums(s: string)
    ensures Alnums(MarkUpper(s)) == Alnums(s)
    decreases |s|
  {
    if |s| > 0 {
      var head := if IsUpper(s[0]) then ['_', s[0]] else [s[0]];
      MarkUpperKeepsAlnums(s[1..]);
      AlnumsConcat(head, MarkUpper(s[1..]));
      assert Alnums(head) == Alnums([s[0]]) by {
        if IsUpper(s[0]) {
          assert head[1..] == [s[0]];
        }
      }
      AlnumsConcat([s[0]], s[1..]);
      assert s == [s[0]] + s[1..];
    }
  }

  /** Stage 3 only removes underscores. */
  lemma {:induction false} CollapseUnderscoresKeepsAlnums(s: string)
    ensures Alnums(CollapseUnderscores(s)) == Alnums(s)
    decreases |s|
  {
    if |s| >= 2 && s[0] == '_' && s[1] == '_' {
      var rest := DropUnderscores(s[2..]);
      DropUnderscoresSpec(s[2..]);
      CollapseUnderscoresKeepsAlnums(rest);
      AlnumsConcat("_", CollapseUnderscores(rest));
      AlnumsSuffix(s, rest);
      AlnumsOfUnderscores(s[..|s| - |rest|]);
    } else if |s| > 0 {
      CollapseUnderscoresKeepsAlnums(s[1..]);
      AlnumsConcat([s[0]], CollapseUnderscores(s[1..]));
      AlnumsConcat([s[0]], s[1..]);
      assert s == [s[0]] + s[1..];
    }
  }

  /** Stage 4 only removes underscores. */
  lemma StripEdgeKeepsAlnums(s: string)
    ensures Alnums(StripEdgeUnderscore(s)) == Alnums(s)
  {
    var a := if |s| > 0 && s[0] == '_' then s[1..] else s;
    if |s| > 0 && s[0] == '_' {
      AlnumsConcat("_", a);
      assert s == "_" + a;
    }
    if |a| > 0 && a[|a| - 1] == '_' {
      AlnumsConcat(a[..|a| - 1], "_");
      assert a == a[..|a| - 1] + "_";
    }
  }

  lemma {:induction false} LowerKeepsAlnums(s: string)
    ensures Alnums(LowerAscii(s)) == LowerAscii(Alnums(s))
    decreases |s|
  {
    if |s| > 0 {
      LowerKeepsAlnums(s[1..]);
      assert LowerAscii(s)[1..] == LowerAscii(s[1..]);
      var h := if IsAsciiAlnum(s[0]) then [s[0]] else "";
      assert Alnums(s) == h + Alnums(s[1..]);
      assert LowerAscii(h + Alnums(s[1..])) == LowerAscii(h) + LowerAscii(Alnums(s[1..]));
    }
  }

  /** The letters and digits of `toSnakeCase(s)` are exactly those of `s`,
      lower-cased and in the same order: the rewrites only move underscores. */
  lemma SnakeCaseKeepsAlnums(s: string)
    ensures Alnums(ToSnakeCase(s)) == LowerAscii(Alnums(s))
  {
    if |s| > 0 {
      var w := CollapseNonWord(s);
      var m := MarkUpper(w);
      var c := CollapseUnderscores(m);
      var t := StripEdgeUnderscore(c);
      CollapseNonWordKeepsAlnums(s);
      MarkUpperKeepsAlnums(w);
      CollapseUnderscoresKeepsAlnums(m);
      StripEdgeKeepsAlnums(c);
      LowerKeepsAlnums(t);
    }
  }

  /** `toSnakeCase(s)` is empty exactly when `s` holds no ASCII letter or digit. */
  lemma SnakeCaseEmptyIff(s: string)
    ensures ToSnakeCase(s) == "" <==> Alnums(s) == ""
  {
    var r := ToSnakeCase(s);
    SnakeCaseKeepsAlnums(s);
    if Alnums(s) == "" && r != "" {
      assert Alnums(r) == "";
      AlnumsEmpty(r);
    }
  }
}
