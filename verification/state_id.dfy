/** `generateUniqueStateId`: a state's identifier is its snake-cased name
    followed by its path with every `/` turned into `_`. */
module StateIds {
  import opened SnakeCase
  import opened Hfsm
  import opened Common

  function SlashToUnderscore(c: char): char
  {
    if c == '/' then '_' else c
  }

  /** `path.replace(/\//g, '_')`: for a path with no `_` of its own the
      replacement loses nothing, and `PathFromPart` reads the path back. */
  function PathPart(path: Path): (r: string)
    ensures |r| == |path|
    ensures forall i :: 0 <= i < |r| ==> r[i] != '/' && (r[i] == path[i] || (path[i] == '/' && r[i] == '_'))
    ensures '_' !in path ==> PathFromPart(r) == path
  {
    var r := seq(|path|, i requires 0 <= i < |path| => SlashToUnderscore(path[i]));
    assert forall i :: 0 <= i < |path| ==> path[i] in path;
    r
  }

  /** Reads a path back from its `PathPart` when the path has no `_` of its own. */
  function PathFromPart(part: string): Path
  {
    seq(|part|, i requires 0 <= i < |part| => if part[i] == '_' then '/' else part[i])
  }

  /** The identifier of a State or End State node: the snake-cased name,
      then one character per character of the path, with each `/` turned
      into `_`. */
  function StateId(node: Obj): (r: string)
    ensures var n := ToSnakeCase(node.name);
            && |r| == |n| + |node.path|
            && r[..|n|] == n
            && forall i :: 0 <= i < |node.path| ==>
                 r[|n| + i] != '/' && (r[|n| + i] == node.path[i] || (node.path[i] == '/' && r[|n| + i] == '_'))
  {
    ToSnakeCase(node.name) + PathPart(node.path)
  }

  /** Two nodes with equal names and distinct underscore-free paths get distinct
      identifiers; so do two nodes with distinct underscore-free paths of the
      same length, whatever their names. */
  lemma StateIdInjective(a: Obj, b: Obj)
    requires a.name == b.name || |a.path| == |b.path|
    requires '_' !in a.path && '_' !in b.path
    requires a.path != b.path
    ensures StateId(a) != StateId(b)
  {
    var ia, ib := StateId(a), StateId(b);
    assert ia[|ia| - |a.path|..] == PathPart(a.path);
    assert ib[|ib| - |b.path|..] == PathPart(b.path);
    if a.name == b.name {
      assert |ia| - |a.path| == |ib| - |b.path|;
    }
  }

  /** `PathPart` works character by character, so it splits over `+`. */
  lemma PathPartAppend(x: Path, y: Path)
    ensures PathPart(x + y) == PathPart(x) + PathPart(y)
  {
    var l, r := PathPart(x + y), PathPart(x) + PathPart(y);
    assert |l| == |r|;
    forall i | 0 <= i < |l|
      ensures l[i] == r[i]
    {
      if i < |x| {
        assert (x + y)[i] == x[i];
      } else {
        assert (x + y)[i] == y[i - |x|];
      }
    }
  }

  /** A path segment with no `/` is its own `PathPart`. */
  lemma PathPartOfSlashFree(w: Path)
    requires '/' !in w
    ensures PathPart(w) == w
  {
    assert forall i :: 0 <= i < |w| ==> w[i] in w;
  }

  /** The path part of `/w2` followed by `rest`, for a segment `w2` with no `/`. */
  lemma PathPartOfSegment(w2: Path, rest: Path)
    requires '/' !in w2
    ensures PathPart("/" + w2 + rest) == "_" + w2 + PathPart(rest)
  {
    PathPartOfSlashFree(w2);
    PathPartAppend("/" + w2, rest);
    PathPartAppend("/", w2);
    assert PathPart("/") == "_";
  }

  /** A lower-case word has no `/`. */
  lemma SlashFreeWord(w: string)
    requires LowerAlnumWord(w)
    ensures '/' !in w
  {
    forall i | 0 <= i < |w| ensures w[i] != '/' {
      assert IsLowerAlnum(w[i]);
    }
  }

  /** Without those conditions the identifiers can collide: a node named
      `w1` whose path starts with the segment `/w2` and a node named
      `w1 + sep + w2` one level higher get the same identifier whenever
      `w1` and `w2` are lower-case words and `sep` is a run of non-word
      characters; `a` at `/1/2` and `a 1` at `/2` both become `a_1_2`. */
  lemma StateIdCollides(a: Obj, b: Obj, w1: string, sep: string, w2: string)
    requires LowerAlnumWord(w1) && LowerAlnumWord(w2)
    requires |sep| > 0 && AllNonWord(sep)
    requires a.name == w1 && b.name == w1 + sep + w2
    requires a.path == "/" + w2 + b.path
    ensures StateId(a) == StateId(b) == w1 + "_" + w2 + PathPart(b.path)
  {
    var ta, tb, p := ToSnakeCase(a.name), ToSnakeCase(b.name), PathPart(b.path);
    SnakeCaseOfLowerWord(w1);
    SnakeCaseSeparatesWords(w1, sep, w2);
    assert ta == w1 && tb == w1 + "_" + w2;
    SlashFreeWord(w2);
    PathPartOfSegment(w2, b.path);
    var s := "_" + w2;
    assert PathPart(a.path) == s + p;
    AppendAssoc(w1, s, p);
    AppendAssoc(w1, "_", w2);
    assert StateId(a) == w1 + s + p;
    assert StateId(b) == w1 + s + p;
  }
}
