/** Generic building blocks shared by the model: an optional value and the
    two array operations the compiler leans on, `find`/`findIndex` and `filter`. */
module Common {

  /** An optional value; `None` plays the part of JavaScript's `undefined`. */
  datatype Option<+T> = None | Some(value: T)

  /** Index of the first element that satisfies `p`, as `Array.prototype.findIndex`
      reports it (`None` for -1). */
  function FirstIndex<T>(s: seq<T>, p: T -> bool): (r: Option<nat>)
    ensures r.Some? ==> r.value < |s| && p(s[r.value])
    ensures r.Some? ==> forall j :: 0 <= j < r.value ==> !p(s[j])
    ensures r.None? <==> forall j :: 0 <= j < |s| ==> !p(s[j])
  {
    if |s| == 0 then None
    else if p(s[0]) then Some(0)
    else
      match FirstIndex(s[1..], p)
      case None => None
      case Some(i) => Some(i + 1)
  }

  /** `Array.prototype.find`: the first element that satisfies `p`. */
  function Find<T>(s: seq<T>, p: T -> bool): (r: Option<T>)
    ensures r.None? <==> forall j :: 0 <= j < |s| ==> !p(s[j])
    ensures r.Some? ==> exists i :: 0 <= i < |s| && s[i] == r.value && p(s[i]) &&
                                    forall j :: 0 <= j < i ==> !p(s[j])
  {
    match FirstIndex(s, p)
    case None => None
    case Some(i) => Some(s[i])
  }

  /** `Array.prototype.filter`: the elements that satisfy `p`, in their original order. */
  function Filter<T>(s: seq<T>, p: T -> bool): (r: seq<T>)
    ensures |r| <= |s|
    ensures forall i :: 0 <= i < |r| ==> p(r[i])
  {
    if |s| == 0 then []
    else (if p(s[0]) then [s[0]] else []) + Filter(s[1..], p)
  }

  /** `Filter` keeps exactly the elements that satisfy `p`: everything it
      returns comes from `s`, and nothing of `s` that satisfies `p` is lost. */
  lemma {:induction false} FilterMembers<T>(s: seq<T>, p: T -> bool)
    ensures forall i :: 0 <= i < |Filter(s, p)| ==> Filter(s, p)[i] in s
    ensures forall j :: 0 <= j < |s| && p(s[j]) ==> s[j] in Filter(s, p)
  {
    if |s| > 0 {
      FilterMembers(s[1..], p);
      var head: seq<T> := if p(s[0]) then [s[0]] else [];
      var tail := Filter(s[1..], p);
      assert Filter(s, p) == head + tail;
      forall i | 0 <= i < |Filter(s, p)|
        ensures Filter(s, p)[i] in s
      {
        if i >= |head| {
          assert Filter(s, p)[i] == tail[i - |head|];
          assert tail[i - |head|] in s[1..];
        }
      }
      forall j | 0 <= j < |s| && p(s[j])
        ensures s[j] in Filter(s, p)
      {
        if j > 0 {
          assert s[j] == s[1..][j - 1];
        }
      }
    }
  }

  /** The shape of `s.replace(/^x|y$/g, '')` for single characters `x` and
      `y`: one leading `first` and one trailing `last` go, and nothing else.
      The trailing match is looked for in what the leading one leaves, so a
      lone character that is both `first` and `last` is removed once. */
  function DropEdges<T(==)>(s: seq<T>, first: T, last: T): (r: seq<T>)
    ensures var i := if |s| > 0 && s[0] == first then 1 else 0;
            var j := if |s| > i && s[|s| - 1] == last then 1 else 0;
            r == s[i..|s| - j]
  {
    var a := if |s| > 0 && s[0] == first then s[1..] else s;
    if |a| > 0 && a[|a| - 1] == last then a[..|a| - 1] else a
  }

  /** An element of either part is an element of the concatenation. */
  lemma InAppend<T>(x: seq<T>, y: seq<T>, e: T)
    requires e in x || e in y
    ensures e in x + y
  {
    if e in x {
      var k :| 0 <= k < |x| && x[k] == e;
      assert (x + y)[k] == e;
    } else {
      var k :| 0 <= k < |y| && y[k] == e;
      assert (x + y)[|x| + k] == e;
    }
  }

  lemma AppendAssoc<T>(a: seq<T>, b: seq<T>, c: seq<T>)
    ensures a + (b + c) == a + b + c
  {
  }
}
