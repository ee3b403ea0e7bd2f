/** `buildActionSequence`: expands one transition into the action sequence
    Home Assistant runs when it fires, descending through Choice
    Pseudostates into nested `choose` blocks.

    The JavaScript function has neither a check for a missing destination nor
    a cycle guard: it throws a `TypeError` on the former, and on the latter it
    recurses until the engine throws a `RangeError`. `Resolvable` is the condition under which it does neither, and it
    is the precondition here. The ghost set `visited` holds the choices on the
    current recursion path; it only serves the precondition and the
    termination measure and has no influence on the result
    (`ResolveIgnoresVisited`). */
module Resolver {
  import opened Common
  import opened JsString
  import opened Hfsm
  import opened StateIds
  import opened Actions

  /** `input_select.<smSnakeName>` */
  function Entity(sm: string): string
  {
    "input_select." + sm
  }

  predicate HasGuard(t: Obj)
  {
    Truthy(t.attributes.guard)
  }

  predicate NoGuard(t: Obj)
  {
    !HasGuard(t)
  }

  predicate LeavesChoice(c: Path, o: Obj)
  {
    o.kind == ExternalTransition && o.src == Some(c)
  }

  /** External Transitions whose source is the choice at `c`, in object order. */
  function Outgoing(objs: Objects, c: Path): seq<Obj>
  {
    Filter(objs, o => LeavesChoice(c, o))
  }

  /** `outgoingFromChoice.filter(t => t.attributes.Guard)` */
  function GuardedBranches(objs: Objects, c: Path): seq<Obj>
  {
    Filter(Outgoing(objs, c), HasGuard)
  }

  /** `outgoingFromChoice.find(t => !t.attributes.Guard)` */
  function DefaultBranch(objs: Objects, c: Path): Option<Obj>
  {
    Find(Outgoing(objs, c), NoGuard)
  }

  /** The branches the resolver descends into: every guarded one, then the default. */
  function Branches(objs: Objects, c: Path): seq<Obj>
  {
    GuardedBranches(objs, c) + match DefaultBranch(objs, c) case Some(d) => [d] case None => []
  }

  /** `g.replace(/^\[|\]$/g, '')`: drops one leading `[` and one trailing `]`. */
  function StripBrackets(g: string): string
  {
    DropEdges(g, '[', ']')
  }

  /** No white space at either end. */
  predicate Trimmed(g: string)
  {
    |g| > 0 ==> !IsJsWhitespace(g[0]) && !IsJsWhitespace(g[|g| - 1])
  }

  /** `t` is `s` with a blank prefix and a blank suffix removed, and has no
      white space left at either end: what `trim()` returns for `s`. */
  predicate IsTrimOf(t: string, s: string)
  {
    Trimmed(t) && exists k :: 0 <= k <= |s| - |t| && t == s[k..k + |t|] && IsBlank(s[..k]) && IsBlank(s[k + |t|..])
  }

  /** The `value_template` of a choose arm built from a Guard: `{{ `, the guard
      without one leading `[` and one trailing `]` and then trimmed, and ` }}`.
      A guard written inside one pair of brackets, or without brackets at
      either end, appears in the template verbatim. */
  function GuardTemplate(g: string): (r: string)
    ensures |r| >= 6 && r[..3] == "{{ " && r[|r| - 3..] == " }}" && IsTrimOf(r[3..|r| - 3], StripBrackets(g))
    ensures Trimmed(g) && (|g| > 0 ==> g[0] != '[' && g[|g| - 1] != ']') ==> r == "{{ " + g + " }}"
    ensures |g| >= 2 && g[0] == '[' && g[|g| - 1] == ']' && Trimmed(g[1..|g| - 1]) ==>
              r == "{{ " + g[1..|g| - 1] + " }}"
  {
    var inner := StripBrackets(g);
    TrimOfTrimmed(inner);
    WrapTrimmed(inner);
    "{{ " + Trim(inner) + " }}"
  }

  /** The text between the template's braces is the trim of the guard. */
  lemma WrapTrimmed(s: string)
    ensures var r := "{{ " + Trim(s) + " }}";
            |r| >= 6 && r[..3] == "{{ " && r[|r| - 3..] == " }}" && IsTrimOf(r[3..|r| - 3], s)
  {
    var t := Trim(s);
    var r := "{{ " + t + " }}";
    TrimIsInfix(s);
    assert r[3..|r| - 3] == t;
  }

  lemma TrimOfTrimmed(g: string)
    ensures Trimmed(g) ==> Trim(g) == g
  {
    if Trimmed(g) {
      assert TrimStart(g) == g;
      assert TrimEnd(g) == g;
    }
  }

  /** `buildActionSequence(t)` neither reads a missing destination nor enters a
      choice already on the current recursion path, however deep it descends. */
  predicate Resolvable(objs: Objects, t: Obj, visited: set<Path>)
    decreases ChoicePaths(objs) - visited, 1
  {
    match Lookup(objs, t.dst)
    case None => false
    case Some(target) =>
      target.kind == ChoicePseudostate ==> ChoiceResolvable(objs, target.path, visited)
  }

  /** The choice at `c` is not on the recursion path `visited`, and every branch
      the resolver descends into from it is `Resolvable`. */
  predicate ChoiceResolvable(objs: Objects, c: Path, visited: set<Path>)
    decreases ChoicePaths(objs) - visited, 0
  {
    && c in ChoicePaths(objs)
    && c !in visited
    && var bs := Branches(objs, c);
       forall i :: 0 <= i < |bs| ==> Resolvable(objs, bs[i], visited + {c})
  }

  /** The `select_option` actions anywhere in `acts`, at any depth of `choose`,
      all target `entity` and name the id of some State or End State of `objs`. */
  predicate SelectsStates(acts: seq<Action>, entity: string, objs: Objects)
    decreases acts
  {
    forall i :: 0 <= i < |acts| ==> SelectsState(acts[i], entity, objs)
  }

  predicate SelectsState(a: Action, entity: string, objs: Objects)
    decreases a
  {
    match a
    case Opaque(_) => true
    case SelectOption(e, option) => e == entity && option in StateIdSet(objs)
    case Choose(arms, default) =>
      && (forall j :: 0 <= j < |arms| ==> SelectsStates(arms[j].sequence, entity, objs))
      && (default.Default? ==> SelectsStates(default.sequence, entity, objs))
  }

  function StateIdSet(objs: Objects): set<string>
  {
    set s | s in objs && IsStateNode(s) :: StateId(s)
  }

  /** `choose` blocks in `acts` nest at most `n` deep. */
  predicate NestedAtMost(acts: seq<Action>, n: nat)
    decreases acts
  {
    forall i :: 0 <= i < |acts| ==> ActionNestedAtMost(acts[i], n)
  }

  predicate ActionNestedAtMost(a: Action, n: nat)
    decreases a
  {
    match a
    case Choose(arms, default) =>
      && n > 0
      && (forall j :: 0 <= j < |arms| ==> NestedAtMost(arms[j].sequence, n - 1))
      && (default.Default? ==> NestedAtMost(default.sequence, n - 1))
    case _ => true
  }

  lemma InStateIdSet(objs: Objects, s: Obj)
    requires s in objs && IsStateNode(s)
    ensures StateId(s) in StateIdSet(objs)
  {
  }

  /** Loaded actions select nothing and open no `choose` block. */
  lemma OpaqueInert(acts: seq<Action>, entity: string, objs: Objects, n: nat)
    requires forall i :: 0 <= i < |acts| ==> acts[i].Opaque?
    ensures SelectsStates(acts, entity, objs) && NestedAtMost(acts, n)
  {
  }

  lemma SelectsStatesConcat(a: seq<Action>, b: seq<Action>, entity: string, objs: Objects)
    requires SelectsStates(a, entity, objs) && SelectsStates(b, entity, objs)
    ensures SelectsStates(a + b, entity, objs)
  {
    forall i | 0 <= i < |a + b|
      ensures SelectsState((a + b)[i], entity, objs)
    {
      if i >= |a| {
        assert (a + b)[i] == b[i - |a|];
      }
    }
  }

  lemma NestedConcat(a: seq<Action>, b: seq<Action>, n: nat)
    requires NestedAtMost(a, n) && NestedAtMost(b, n)
    ensures NestedAtMost(a + b, n)
  {
    forall i | 0 <= i < |a + b|
      ensures ActionNestedAtMost((a + b)[i], n)
    {
      if i >= |a| {
        assert (a + b)[i] == b[i - |a|];
      }
    }
  }

  /** `buildActionSequence(t, objects, sm, logger, stateIdMap)`. The result
      starts with the transition's own Action list; every `select_option` in
      it targets `input_select.<sm>` and names a state of the table; and its
      `choose` blocks nest no deeper than the number of choices not yet on the
      recursion path. */
  function Resolve(objs: Objects, sm: string, parse: string -> Parsed, t: Obj, ghost visited: set<Path>): (r: seq<Action>)
    requires Resolvable(objs, t, visited)
    ensures var own := SafeLoadYamlAction(t.attributes.action, parse);
            |own| <= |r| && r[..|own|] == own
    ensures SelectsStates(r, Entity(sm), objs)
    ensures NestedAtMost(r, |ChoicePaths(objs) - visited|)
    decreases ChoicePaths(objs) - visited, 4
  {
    var own := SafeLoadYamlAction(t.attributes.action, parse);
    var rest := EnterTarget(objs, sm, parse, Lookup(objs, t.dst).value, visited);
    SelectsStatesConcat(own, rest, Entity(sm), objs);
    NestedConcat(own, rest, |ChoicePaths(objs) - visited|);
    own + rest
  }

  /** What follows the transition's own Action list, by the kind of its
      destination: a `select_option` and the Entry list for a State or End
      State, one `choose` block for a Choice Pseudostate, nothing otherwise. */
  function EnterTarget(objs: Objects, sm: string, parse: string -> Parsed, target: Obj, ghost visited: set<Path>): (r: seq<Action>)
    requires target in objs
    requires target.kind == ChoicePseudostate ==> ChoiceResolvable(objs, target.path, visited)
    ensures SelectsStates(r, Entity(sm), objs)
    ensures NestedAtMost(r, |ChoicePaths(objs) - visited|)
    decreases ChoicePaths(objs) - visited, 3
  {
    if IsStateNode(target) then
      EnterState(objs, sm, parse, target, |ChoicePaths(objs) - visited|)
    else if target.kind == ChoicePseudostate then
      [ChooseBlock(objs, sm, parse, target.path, visited)]
    else
      []
  }

  /** Entering a State or End State: select its id, then run its Entry list. */
  function EnterState(objs: Objects, sm: string, parse: string -> Parsed, target: Obj, ghost n: nat): (r: seq<Action>)
    requires target in objs && IsStateNode(target)
    ensures SelectsStates(r, Entity(sm), objs)
    ensures NestedAtMost(r, n)
  {
    var select := SelectOption(Entity(sm), StateId(target));
    var entry := SafeLoadYamlAction(target.attributes.entry, parse);
    InStateIdSet(objs, target);
    assert SelectsStates([select], Entity(sm), objs) && NestedAtMost([select], n);
    OpaqueInert(entry, Entity(sm), objs, n);
    SelectsStatesConcat([select], entry, Entity(sm), objs);
    NestedConcat([select], entry, n);
    [select] + entry
  }

  /** The `innerChoose` object built for the choice at `c`: one arm per guarded
      branch, in order, and the default branch's sequence when there is one. */
  function ChooseBlock(objs: Objects, sm: string, parse: string -> Parsed, c: Path, ghost visited: set<Path>): (r: Action)
    requires ChoiceResolvable(objs, c, visited)
    ensures r.Choose? && SelectsState(r, Entity(sm), objs)
    ensures ActionNestedAtMost(r, |ChoicePaths(objs) - visited|)
    decreases ChoicePaths(objs) - visited, 2
  {
    EnterChoice(ChoicePaths(objs), visited, c);
    Choose(ChooseArms(objs, sm, parse, c, visited), ChooseDefault(objs, sm, parse, c, visited))
  }

  /** Entering a choice that is not yet on the recursion path leaves one
      choice fewer to enter. */
  lemma EnterChoice(choices: set<Path>, visited: set<Path>, c: Path)
    requires c in choices && c !in visited
    ensures choices - (visited + {c}) < choices - visited
    ensures |choices - (visited + {c})| == |choices - visited| - 1
  {
    assert choices - (visited + {c}) == (choices - visited) - {c};
  }

  /** The arms of the `choose` block for the choice at `c`: one per guarded
      branch, in order, each resolved with `c` on the recursion path. */
  function ChooseArms(objs: Objects, sm: string, parse: string -> Parsed, c: Path, ghost visited: set<Path>): (arms: seq<Arm>)
    requires ChoiceResolvable(objs, c, visited)
    ensures |arms| == |GuardedBranches(objs, c)|
    ensures forall j :: 0 <= j < |arms| ==> SelectsStates(arms[j].sequence, Entity(sm), objs)
    ensures forall j :: 0 <= j < |arms| ==> NestedAtMost(arms[j].sequence, |ChoicePaths(objs) - (visited + {c})|)
    decreases ChoicePaths(objs) - visited, 1
  {
    var guarded := GuardedBranches(objs, c);
    seq(|guarded|, i requires 0 <= i < |guarded| => ArmFor(objs, sm, parse, c, visited, i))
  }

  /** The arm for guarded branch `i` of the choice at `c`. */
  function ArmFor(objs: Objects, sm: string, parse: string -> Parsed, c: Path, ghost visited: set<Path>, i: nat): (arm: Arm)
    requires ChoiceResolvable(objs, c, visited) && i < |GuardedBranches(objs, c)|
    ensures SelectsStates(arm.sequence, Entity(sm), objs)
    ensures NestedAtMost(arm.sequence, |ChoicePaths(objs) - (visited + {c})|)
    decreases ChoicePaths(objs) - visited, 0
  {
    var g := GuardedBranches(objs, c)[i];
    assert Branches(objs, c)[i] == g;
    EnterChoice(ChoicePaths(objs), visited, c);
    Arm(GuardTemplate(g.attributes.guard.value), Resolve(objs, sm, parse, g, visited + {c}))
  }

  /** The default of the `choose` block for the choice at `c`: present exactly
      when some outgoing transition has no Guard. */
  function ChooseDefault(objs: Objects, sm: string, parse: string -> Parsed, c: Path, ghost visited: set<Path>): (d: Default)
    requires ChoiceResolvable(objs, c, visited)
    ensures d.Default? <==> DefaultBranch(objs, c).Some?
    ensures d.Default? ==> SelectsStates(d.sequence, Entity(sm), objs)
    ensures d.Default? ==> NestedAtMost(d.sequence, |ChoicePaths(objs) - (visited + {c})|)
    decreases ChoicePaths(objs) - visited, 1
  {
    match DefaultBranch(objs, c)
    case Some(b) =>
      assert Branches(objs, c)[|GuardedBranches(objs, c)|] == b;
      EnterChoice(ChoicePaths(objs), visited, c);
      Default(Resolve(objs, sm, parse, b, visited + {c}))
    case None => NoDefault
  }

  /** Taking choices off the recursion path keeps a transition resolvable. */
  lemma {:induction false} ResolvableShrink(objs: Objects, t: Obj, visited: set<Path>, fewer: set<Path>)
    requires fewer <= visited && Resolvable(objs, t, visited)
    ensures Resolvable(objs, t, fewer)
    decreases ChoicePaths(objs) - visited, 1
  {
    var target := Lookup(objs, t.dst).value;
    if target.kind == ChoicePseudostate {
      ChoiceResolvableShrink(objs, target.path, visited, fewer);
    }
  }

  lemma {:induction false} ChoiceResolvableShrink(objs: Objects, c: Path, visited: set<Path>, fewer: set<Path>)
    requires fewer <= visited && ChoiceResolvable(objs, c, visited)
    ensures ChoiceResolvable(objs, c, fewer)
    decreases ChoicePaths(objs) - visited, 0
  {
    var bs := Branches(objs, c);
    forall i | 0 <= i < |bs|
      ensures Resolvable(objs, bs[i], fewer + {c})
    {
      ResolvableShrink(objs, bs[i], visited + {c}, fewer + {c});
    }
  }

  /** The recursion path only witnesses termination: the resolved sequence does
      not depend on it. */
  lemma {:induction false} ResolveIgnoresVisited(objs: Objects, sm: string, parse: string -> Parsed, t: Obj,
                                                 visited: set<Path>, fewer: set<Path>)
    requires fewer <= visited && Resolvable(objs, t, visited) && Resolvable(objs, t, fewer)
    ensures Resolve(objs, sm, parse, t, visited) == Resolve(objs, sm, parse, t, fewer)
    decreases ChoicePaths(objs) - visited, 3
  {
    var target := Lookup(objs, t.dst).value;
    if target.kind == ChoicePseudostate {
      ChooseBlockIgnoresVisited(objs, sm, parse, target.path, visited, fewer);
    }
  }

  lemma {:induction false} ChooseBlockIgnoresVisited(objs: Objects, sm: string, parse: string -> Parsed, c: Path,
                                                     visited: set<Path>, fewer: set<Path>)
    requires fewer <= visited && ChoiceResolvable(objs, c, visited) && ChoiceResolvable(objs, c, fewer)
    ensures ChooseBlock(objs, sm, parse, c, visited) == ChooseBlock(objs, sm, parse, c, fewer)
    decreases ChoicePaths(objs) - visited, 2
  {
    ChooseBlockArmsIgnoreVisited(objs, sm, parse, c, visited, fewer);
    ChooseBlockDefaultIgnoresVisited(objs, sm, parse, c, visited, fewer);
  }

  lemma {:induction false} ChooseBlockArmsIgnoreVisited(objs: Objects, sm: string, parse: string -> Parsed, c: Path,
                                                        visited: set<Path>, fewer: set<Path>)
    requires fewer <= visited && ChoiceResolvable(objs, c, visited) && ChoiceResolvable(objs, c, fewer)
    ensures ChooseBlock(objs, sm, parse, c, visited).arms == ChooseBlock(objs, sm, parse, c, fewer).arms
    decreases ChoicePaths(objs) - visited, 1
  {
    var a := ChooseArms(objs, sm, parse, c, visited);
    var b := ChooseArms(objs, sm, parse, c, fewer);
    assert ChooseBlock(objs, sm, parse, c, visited).arms == a;
    assert ChooseBlock(objs, sm, parse, c, fewer).arms == b;
    forall i | 0 <= i < |a|
      ensures a[i] == b[i]
    {
      ArmIgnoresVisited(objs, sm, parse, c, visited, fewer, i);
    }
  }

  lemma {:induction false} ArmIgnoresVisited(objs: Objects, sm: string, parse: string -> Parsed, c: Path,
                                             visited: set<Path>, fewer: set<Path>, i: nat)
    requires fewer <= visited && ChoiceResolvable(objs, c, visited) && ChoiceResolvable(objs, c, fewer)
    requires i < |GuardedBranches(objs, c)|
    ensures ChooseArms(objs, sm, parse, c, visited)[i] == ChooseArms(objs, sm, parse, c, fewer)[i]
    decreases ChoicePaths(objs) - visited, 0
  {
    var g := GuardedBranches(objs, c)[i];
    assert Branches(objs, c)[i] == g;
    assert ChooseArms(objs, sm, parse, c, visited)[i] == ArmFor(objs, sm, parse, c, visited, i);
    assert ChooseArms(objs, sm, parse, c, fewer)[i] == ArmFor(objs, sm, parse, c, fewer, i);
    EnterChoice(ChoicePaths(objs), visited, c);
    ResolveIgnoresVisited(objs, sm, parse, g, visited + {c}, fewer + {c});
  }

  lemma {:induction false} ChooseBlockDefaultIgnoresVisited(objs: Objects, sm: string, parse: string -> Parsed, c: Path,
                                                            visited: set<Path>, fewer: set<Path>)
    requires fewer <= visited && ChoiceResolvable(objs, c, visited) && ChoiceResolvable(objs, c, fewer)
    ensures ChooseBlock(objs, sm, parse, c, visited).default == ChooseBlock(objs, sm, parse, c, fewer).default
    decreases ChoicePaths(objs) - visited, 1
  {
    var bs := Branches(objs, c);
    match DefaultBranch(objs, c)
    case Some(d) =>
      assert bs[|GuardedBranches(objs, c)|] == d;
      ResolveIgnoresVisited(objs, sm, parse, d, visited + {c}, fewer + {c});
    case None =>
  }

  /** `buildActionSequence` called for a transition fired from a state: no
      choice is on the recursion path yet. */
  function ResolveTransition(objs: Objects, sm: string, parse: string -> Parsed, t: Obj): (r: seq<Action>)
    requires Resolvable(objs, t, {})
    ensures SelectsStates(r, Entity(sm), objs)
    ensures NestedAtMost(r, |ChoicePaths(objs)|)
  {
    Resolve(objs, sm, parse, t, {})
  }

  lemma ResolveUnfold(objs: Objects, sm: string, parse: string -> Parsed, t: Obj)
    requires Resolvable(objs, t, {})
    ensures ResolveTransition(objs, sm, parse, t)
            == SafeLoadYamlAction(t.attributes.action, parse) + EnterTarget(objs, sm, parse, Lookup(objs, t.dst).value, {})
  {
  }

  lemma EnterTargetState(objs: Objects, sm: string, parse: string -> Parsed, dst: Obj)
    requires dst in objs && IsStateNode(dst)
    ensures EnterTarget(objs, sm, parse, dst, {})
            == [SelectOption(Entity(sm), StateId(dst))] + SafeLoadYamlAction(dst.attributes.entry, parse)
  {
    assert EnterTarget(objs, sm, parse, dst, {}) == EnterState(objs, sm, parse, dst, |ChoicePaths(objs) - {}|);
  }

  /** Into a State or End State: the transition's Action list, then one
      `select_option` of that state's id, then the state's Entry list. */
  lemma ResolveIntoState(objs: Objects, sm: string, parse: string -> Parsed, t: Obj)
    requires Resolvable(objs, t, {})
    requires Lookup(objs, t.dst).Some? && IsStateNode(Lookup(objs, t.dst).value)
    ensures var dst := Lookup(objs, t.dst).value;
            ResolveTransition(objs, sm, parse, t)
            == SafeLoadYamlAction(t.attributes.action, parse)
               + [SelectOption(Entity(sm), StateId(dst))]
               + SafeLoadYamlAction(dst.attributes.entry, parse)
  {
    var dst := Lookup(objs, t.dst).value;
    var own := SafeLoadYamlAction(t.attributes.action, parse);
    var select := SelectOption(Entity(sm), StateId(dst));
    var entry := SafeLoadYamlAction(dst.attributes.entry, parse);
    ResolveUnfold(objs, sm, parse, t);
    EnterTargetState(objs, sm, parse, dst);
    AppendAssoc(own, [select], entry);
  }

  /** Into any other node that is not a Choice Pseudostate: only the Action list. */
  lemma ResolveIntoOther(objs: Objects, sm: string, parse: string -> Parsed, t: Obj)
    requires Resolvable(objs, t, {})
    requires Lookup(objs, t.dst).Some?
    requires var k := Lookup(objs, t.dst).value.kind; k != State && k != EndState && k != ChoicePseudostate
    ensures ResolveTransition(objs, sm, parse, t) == SafeLoadYamlAction(t.attributes.action, parse)
  {
    var own := SafeLoadYamlAction(t.attributes.action, parse);
    ResolveUnfold(objs, sm, parse, t);
    assert EnterTarget(objs, sm, parse, Lookup(objs, t.dst).value, {}) == [];
    assert own + [] == own;
  }

  /** Into a Choice Pseudostate: the Action list, then exactly one `choose`
      block. Its arms follow the choice's guarded outgoing External
      Transitions one-to-one and in object order, each carrying the guard's
      template and that branch's own resolution; it has a default exactly when
      some outgoing External Transition has no Guard, and the default is the
      resolution of the first such transition. */
  lemma ResolveIntoChoice(objs: Objects, sm: string, parse: string -> Parsed, t: Obj)
    requires Resolvable(objs, t, {})
    requires Lookup(objs, t.dst).Some? && Lookup(objs, t.dst).value.kind == ChoicePseudostate
    ensures var c := Lookup(objs, t.dst).value.path;
            var own := SafeLoadYamlAction(t.attributes.action, parse);
            var r := ResolveTransition(objs, sm, parse, t);
            var out := Outgoing(objs, c);
            var guarded := GuardedBranches(objs, c);
            && |r| == |own| + 1 && r[..|own|] == own && r[|own|].Choose?
            && |r[|own|].arms| == |guarded|
            && (forall i :: 0 <= i < |guarded| ==>
                  && Resolvable(objs, guarded[i], {})
                  && r[|own|].arms[i].valueTemplate == GuardTemplate(guarded[i].attributes.guard.value)
                  && r[|own|].arms[i].sequence == ResolveTransition(objs, sm, parse, guarded[i]))
            && (r[|own|].default.Default? <==> exists j :: 0 <= j < |out| && NoGuard(out[j]))
            && (r[|own|].default.Default? ==>
                  exists k :: && 0 <= k < |out| && NoGuard(out[k])
                              && (forall j :: 0 <= j < k ==> HasGuard(out[j]))
                              && Resolvable(objs, out[k], {})
                              && r[|own|].default.sequence == ResolveTransition(objs, sm, parse, out[k]))
  {
    var c := Lookup(objs, t.dst).value.path;
    var own := SafeLoadYamlAction(t.attributes.action, parse);
    var block := ChooseBlock(objs, sm, parse, c, {});
    ResolveUnfold(objs, sm, parse, t);
    assert EnterTarget(objs, sm, parse, Lookup(objs, t.dst).value, {}) == [block];
    ChooseBlockArms(objs, sm, parse, c);
    ChooseBlockDefault(objs, sm, parse, c);
  }

  lemma BranchTopLevel(objs: Objects, sm: string, parse: string -> Parsed, c: Path, b: Obj)
    requires Resolvable(objs, b, {c})
    ensures Resolvable(objs, b, {})
    ensures Resolve(objs, sm, parse, b, {c}) == ResolveTransition(objs, sm, parse, b)
  {
    ResolvableShrink(objs, b, {c}, {});
    ResolveIgnoresVisited(objs, sm, parse, b, {c}, {});
  }

  lemma ChooseBlockArms(objs: Objects, sm: string, parse: string -> Parsed, c: Path)
    requires ChoiceResolvable(objs, c, {})
    ensures var block := ChooseBlock(objs, sm, parse, c, {});
            var guarded := GuardedBranches(objs, c);
            && |block.arms| == |guarded|
            && forall i :: 0 <= i < |guarded| ==>
                 && Resolvable(objs, guarded[i], {})
                 && block.arms[i].valueTemplate == GuardTemplate(guarded[i].attributes.guard.value)
                 && block.arms[i].sequence == ResolveTransition(objs, sm, parse, guarded[i])
  {
    var guarded := GuardedBranches(objs, c);
    var arms := ChooseArms(objs, sm, parse, c, {});
    assert ChooseBlock(objs, sm, parse, c, {}).arms == arms;
    forall i | 0 <= i < |guarded|
      ensures Resolvable(objs, guarded[i], {})
      ensures arms[i].valueTemplate == GuardTemplate(guarded[i].attributes.guard.value)
      ensures arms[i].sequence == ResolveTransition(objs, sm, parse, guarded[i])
    {
      ArmOfBranch(objs, sm, parse, c, i);
    }
  }

  /** Arm `i` of the top-level `choose` block for `c`, spelled out. */
  lemma ArmOfBranch(objs: Objects, sm: string, parse: string -> Parsed, c: Path, i: nat)
    requires ChoiceResolvable(objs, c, {}) && i < |GuardedBranches(objs, c)|
    ensures var g := GuardedBranches(objs, c)[i];
            var arm := ChooseArms(objs, sm, parse, c, {})[i];
            && Resolvable(objs, g, {})
            && arm.valueTemplate == GuardTemplate(g.attributes.guard.value)
            && arm.sequence == ResolveTransition(objs, sm, parse, g)
  {
    var g := GuardedBranches(objs, c)[i];
    assert Branches(objs, c)[i] == g;
    assert {} + {c} == {c};
    BranchTopLevel(objs, sm, parse, c, g);
  }

  lemma ChooseBlockDefault(objs: Objects, sm: string, parse: string -> Parsed, c: Path)
    requires ChoiceResolvable(objs, c, {})
    ensures var block := ChooseBlock(objs, sm, parse, c, {});
            var out := Outgoing(objs, c);
            && (block.default.Default? <==> exists j :: 0 <= j < |out| && NoGuard(out[j]))
            && (block.default.Default? ==>
                  exists k :: && 0 <= k < |out| && NoGuard(out[k])
                              && (forall j :: 0 <= j < k ==> HasGuard(out[j]))
                              && Resolvable(objs, out[k], {})
                              && block.default.sequence == ResolveTransition(objs, sm, parse, out[k]))
  {
    var bs := Branches(objs, c);
    var guarded := GuardedBranches(objs, c);
    var out := Outgoing(objs, c);
    assert {} + {c} == {c};
    match FirstIndex(out, NoGuard)
    case Some(k) =>
      assert bs[|guarded|] == out[k];
      BranchTopLevel(objs, sm, parse, c, out[k]);
    case None =>
  }

  /** A ranking of the choices that drops along every External Transition from
      one choice into another: the choice-to-choice graph is acyclic. Every
      transition leaving a choice must also have a destination. */
  predicate RankedChoices(objs: Objects, rank: Path -> nat)
  {
    forall i :: 0 <= i < |objs| && objs[i].kind == ExternalTransition &&
                objs[i].src.Some? && objs[i].src.value in ChoicePaths(objs) ==>
      match Lookup(objs, objs[i].dst)
      case None => false
      case Some(d) => d.kind == ChoicePseudostate ==> rank(d.path) < rank(objs[i].src.value)
  }

  lemma BranchLeavesChoice(objs: Objects, c: Path, b: Obj)
    requires b in Branches(objs, c)
    ensures b in objs && LeavesChoice(c, b)
  {
    var out := Outgoing(objs, c);
    FilterMembers(objs, o => LeavesChoice(c, o));
    FilterMembers(out, HasGuard);
    assert b in out by {
      if b !in GuardedBranches(objs, c) {
        var k := FirstIndex(out, NoGuard).value;
        assert b == out[k];
      }
    }
  }

  /** A branch out of choice `c` has a destination, ranked below `c` when it
      is a choice itself. */
  lemma BranchRanked(objs: Objects, rank: Path -> nat, c: Path, b: Obj)
    requires RankedChoices(objs, rank) && c in ChoicePaths(objs) && b in Branches(objs, c)
    ensures Lookup(objs, b.dst).Some?
    ensures var d := Lookup(objs, b.dst).value;
            d.kind == ChoicePseudostate ==> rank(d.path) < rank(c)
  {
    BranchLeavesChoice(objs, c, b);
    var j :| 0 <= j < |objs| && objs[j] == b;
  }

  /** With an acyclic choice graph and no dangling destination, every
      transition is resolvable: entering a choice ranked below everything on
      the recursion path can never close a cycle. */
  lemma {:induction false} AcyclicChoicesResolvable(objs: Objects, rank: Path -> nat, t: Obj, visited: set<Path>)
    requires RankedChoices(objs, rank)
    requires Lookup(objs, t.dst).Some?
    requires var d := Lookup(objs, t.dst).value;
             d.kind == ChoicePseudostate ==> forall v :: v in visited ==> rank(d.path) < rank(v)
    ensures Resolvable(objs, t, visited)
    decreases ChoicePaths(objs) - visited, 1
  {
    var d := Lookup(objs, t.dst).value;
    if d.kind == ChoicePseudostate {
      assert d.path in ChoicePaths(objs);
      AcyclicChoiceResolvable(objs, rank, d.path, visited);
    }
  }

  /** A choice ranked below every choice on the recursion path is resolvable. */
  lemma {:induction false} AcyclicChoiceResolvable(objs: Objects, rank: Path -> nat, c: Path, visited: set<Path>)
    requires RankedChoices(objs, rank) && c in ChoicePaths(objs)
    requires forall v :: v in visited ==> rank(c) < rank(v)
    ensures ChoiceResolvable(objs, c, visited)
    decreases ChoicePaths(objs) - visited, 0
  {
    EnterChoice(ChoicePaths(objs), visited, c);
    var bs := Branches(objs, c);
    forall i | 0 <= i < |bs|
      ensures Resolvable(objs, bs[i], visited + {c})
    {
      BranchRanked(objs, rank, c, bs[i]);
      AcyclicChoicesResolvable(objs, rank, bs[i], visited + {c});
    }
  }
}
