/** The assembly part of `renderHFSM`: find the State Machine root, list the
    state ids as the `input_select` options, pick the initial state, and build
    one rule of the main `choose` per (state, outgoing transition with an
    Event). The YAML and JSON text of the artifacts is not modelled: the
    result is the configuration value that `jsyaml.dump` would print. */
module Assembler {
  import opened Common
  import opened SnakeCase
  import opened Hfsm
  import opened StateIds
  import opened Actions
  import opened Resolver

  /** One entry of a rule's `conditions`. */
  datatype Condition =
    | StateCondition(entity: string, state: string)   // {condition: 'state', entity_id, state}
    | TemplateCondition(valueTemplate: string)         // {condition: 'template', value_template}

  /** One arm of the automation's main `choose`. */
  datatype Rule = Rule(conditions: seq<Condition>, sequence: seq<Action>)

  /** The `initial` of the `input_select`: `null` when there is no initial
      transition or its destination is missing; `undefined` when the
      destination is not a State or End State (`stateIdMap.get` finds nothing). */
  datatype InitialValue = NullInitial | UndefinedInitial | InitialId(id: string)

  /** `haConfig`: the `input_select` entry stored under key `smName`, and the
      one automation with its event trigger and rules. */
  datatype Config = Config(
    smName: string,
    displayName: string,
    options: seq<string>,
    initial: InitialValue,
    automationId: string,
    eventType: string,
    rules: seq<Rule>)

  /** `{}` when the table has no State Machine, otherwise the configuration. */
  datatype Rendered = NoStateMachine | Rendered(config: Config)

  predicate IsStateMachine(o: Obj)
  {
    o.kind == StateMachine
  }

  /** `Object.values(objects).find(o => o.type === 'State Machine')` */
  function FindRoot(objs: Objects): Option<Obj>
  {
    Find(objs, IsStateMachine)
  }

  /** The transition's source exists and is an Initial node. */
  predicate FromInitial(objs: Objects, t: Obj)
  {
    match Lookup(objs, t.src)
    case Some(o) => o.kind == Initial
    case None => false
  }

  /** The `initial` value a transition out of an Initial node gives: the id
      of its destination when that is a State or End State, `null` when the
      destination is missing, and `undefined` otherwise. */
  function InitialFrom(objs: Objects, t: Obj): InitialValue
  {
    match Lookup(objs, t.dst)
    case None => NullInitial
    case Some(d) => if IsStateNode(d) then InitialId(StateId(d)) else UndefinedInitial
  }

  /** No transition before index `k` leaves an Initial node. */
  predicate NoneFromInitialBefore(objs: Objects, tr: seq<Obj>, k: nat)
    requires k <= |tr|
  {
    forall j :: 0 <= j < k ==> !FromInitial(objs, tr[j])
  }

  /** `initialUniqueStateId`: `null` when no transition leaves an Initial
      node, and otherwise decided by the first transition that does. */
  function InitialValueOf(objs: Objects): (r: InitialValue)
    ensures var tr := Transitions(objs);
            NoneFromInitialBefore(objs, tr, |tr|) ==> r == NullInitial
    ensures var tr := Transitions(objs);
            forall k :: 0 <= k < |tr| && FromInitial(objs, tr[k]) && NoneFromInitialBefore(objs, tr, k) ==>
              r == InitialFrom(objs, tr[k])
  {
    var tr := Transitions(objs);
    var first := FirstIndex(tr, t => FromInitial(objs, t));
    FirstFromInitial(objs, tr);
    match first
    case None => NullInitial
    case Some(k) => InitialFrom(objs, tr[k])
  }

  /** `FirstIndex` with the Initial-node test, restated on `FromInitial`: the
      first transition that leaves an Initial node is the only index with no
      such transition before it. */
  lemma FirstFromInitial(objs: Objects, tr: seq<Obj>)
    ensures var first := FirstIndex(tr, t => FromInitial(objs, t));
            && (first.None? <==> NoneFromInitialBefore(objs, tr, |tr|))
            && (first.Some? ==> forall k :: 0 <= k < |tr| && FromInitial(objs, tr[k]) && NoneFromInitialBefore(objs, tr, k) ==>
                                 k == first.value)
  {
    var first := FirstIndex(tr, t => FromInitial(objs, t));
    if first.Some? {
      forall k | 0 <= k < |tr| && FromInitial(objs, tr[k]) && NoneFromInitialBefore(objs, tr, k)
        ensures k == first.value
      {
      }
    } else {
      forall j | 0 <= j < |tr|
        ensures !FromInitial(objs, tr[j])
      {
        assert !(t => FromInitial(objs, t))(tr[j]);
      }
    }
  }

  /** `states.map(s => stateIdMap.get(s))` */
  function StateOptions(objs: Objects): (r: seq<string>)
    ensures |r| == |States(objs)|
  {
    var st := States(objs);
    seq(|st|, i requires 0 <= i < |st| => StateId(st[i]))
  }

  /** The options are exactly the ids of the table's States and End States. */
  lemma StateOptionsAreStateIds(objs: Objects, id: string)
    ensures id in StateOptions(objs) <==> exists s :: s in objs && IsStateNode(s) && StateId(s) == id
  {
    var st := States(objs);
    var opts := StateOptions(objs);
    FilterMembers(objs, IsStateNode);
    if id in opts {
      var i :| 0 <= i < |opts| && opts[i] == id;
      assert st[i] in objs && IsStateNode(st[i]);
    }
    if s :| s in objs && IsStateNode(s) && StateId(s) == id {
      var j :| 0 <= j < |objs| && objs[j] == s;
      assert s in st;
      var i :| 0 <= i < |st| && st[i] == s;
      assert opts[i] == id;
    }
  }

  /** `{{ trigger.event.data.event == '<Event>' }}` (the Event text is not escaped). */
  function EventTemplate(event: string): string
  {
    "{{ trigger.event.data.event == '" + event + "' }}"
  }

  /** Transition `t` yields a rule for state `s`: it leaves `s` and has an Event. */
  predicate Fires(s: Obj, t: Obj)
  {
    t.src == Some(s.path) && Truthy(t.attributes.event)
  }

  /** The rule for state `s` and transition `t`: `s`'s Exit list and the
      resolved transition for an External Transition, only the transition's
      Action list for an Internal one. */
  function RuleFor(objs: Objects, sm: string, parse: string -> Parsed, s: Obj, t: Obj): Rule
    requires Fires(s, t)
    requires t.kind == ExternalTransition ==> Resolvable(objs, t, {})
  {
    var sequence :=
      if t.kind == ExternalTransition then
        SafeLoadYamlAction(s.attributes.exit, parse) + ResolveTransition(objs, sm, parse, t)
      else
        SafeLoadYamlAction(t.attributes.action, parse);
    Rule([StateCondition(Entity(sm), StateId(s)), TemplateCondition(EventTemplate(t.attributes.event.value))],
         sequence)
  }

  /** Every External Transition that yields a rule resolves without throwing. */
  predicate RulesResolvable(objs: Objects)
  {
    var st := States(objs);
    var tr := Transitions(objs);
    forall a, b :: 0 <= a < |st| && 0 <= b < |tr| && Fires(st[a], tr[b]) && tr[b].kind == ExternalTransition ==>
      Resolvable(objs, tr[b], {})
  }

  /** (state index, transition index) pairs of rule `a`'s row, transitions `0..b`. */
  function RowPairs(st: seq<Obj>, tr: seq<Obj>, a: nat, b: nat): (ps: seq<(nat, nat)>)
    requires a < |st| && b <= |tr|
    ensures forall k :: 0 <= k < |ps| ==> ps[k].0 == a && ps[k].1 < b && Fires(st[a], tr[ps[k].1])
  {
    if b == 0 then []
    else RowPairs(st, tr, a, b - 1) + (if Fires(st[a], tr[b - 1]) then [(a, b - 1)] else [])
  }

  /** The pairs of the rows of states `0..a`. */
  function PairsBefore(st: seq<Obj>, tr: seq<Obj>, a: nat): (ps: seq<(nat, nat)>)
    requires a <= |st|
    ensures forall k :: 0 <= k < |ps| ==> ps[k].0 < a && ps[k].1 < |tr| && Fires(st[ps[k].0], tr[ps[k].1])
  {
    if a == 0 then []
    else
      var prev := PairsBefore(st, tr, a - 1);
      var row := RowPairs(st, tr, a - 1, |tr|);
      AppendRowFires(st, tr, a - 1, prev, row);
      prev + row
  }

  lemma AppendRowFires(st: seq<Obj>, tr: seq<Obj>, a: nat, prev: seq<(nat, nat)>, row: seq<(nat, nat)>)
    requires a < |st|
    requires forall k :: 0 <= k < |prev| ==> prev[k].0 < a && prev[k].1 < |tr| && Fires(st[prev[k].0], tr[prev[k].1])
    requires forall k :: 0 <= k < |row| ==> row[k].0 == a && row[k].1 < |tr| && Fires(st[a], tr[row[k].1])
    ensures forall k :: 0 <= k < |prev + row| ==>
              (prev + row)[k].0 < a + 1 && (prev + row)[k].1 < |tr| && Fires(st[(prev + row)[k].0], tr[(prev + row)[k].1])
  {
    forall k | 0 <= k < |prev + row|
      ensures (prev + row)[k].0 < a + 1 && (prev + row)[k].1 < |tr| && Fires(st[(prev + row)[k].0], tr[(prev + row)[k].1])
    {
      if k >= |prev| {
        assert (prev + row)[k] == row[k - |prev|];
      }
    }
  }

  function FiringPairs(st: seq<Obj>, tr: seq<Obj>): (ps: seq<(nat, nat)>)
    ensures forall k :: 0 <= k < |ps| ==> ps[k].0 < |st| && ps[k].1 < |tr| && Fires(st[ps[k].0], tr[ps[k].1])
  {
    PairsBefore(st, tr, |st|)
  }

  predicate LexLess(p: (nat, nat), q: (nat, nat))
  {
    p.0 < q.0 || (p.0 == q.0 && p.1 < q.1)
  }

  predicate StrictlySorted(ps: seq<(nat, nat)>)
  {
    forall k, l :: 0 <= k < l < |ps| ==> LexLess(ps[k], ps[l])
  }

  lemma SortedConcat(x: seq<(nat, nat)>, y: seq<(nat, nat)>)
    requires StrictlySorted(x) && StrictlySorted(y)
    requires forall k, l :: 0 <= k < |x| && 0 <= l < |y| ==> LexLess(x[k], y[l])
    ensures StrictlySorted(x + y)
  {
    forall k, l | 0 <= k < l < |x + y|
      ensures LexLess((x + y)[k], (x + y)[l])
    {
      if l < |x| {
        assert (x + y)[k] == x[k] && (x + y)[l] == x[l];
      } else if k < |x| {
        assert (x + y)[k] == x[k] && (x + y)[l] == y[l - |x|];
      } else {
        assert (x + y)[k] == y[k - |x|] && (x + y)[l] == y[l - |x|];
      }
    }
  }

  lemma {:induction false} RowPairsSorted(st: seq<Obj>, tr: seq<Obj>, a: nat, b: nat)
    requires a < |st| && b <= |tr|
    ensures StrictlySorted(RowPairs(st, tr, a, b))
    decreases b
  {
    if b > 0 {
      RowPairsSorted(st, tr, a, b - 1);
      var prev := RowPairs(st, tr, a, b - 1);
      var last: seq<(nat, nat)> := if Fires(st[a], tr[b - 1]) then [(a, b - 1)] else [];
      SortedConcat(prev, last);
    }
  }

  /** A firing transition `j < b` has its pair in row `a`. */
  lemma {:induction false} RowPairsHas(st: seq<Obj>, tr: seq<Obj>, a: nat, b: nat, j: nat)
    requires a < |st| && j < b <= |tr| && Fires(st[a], tr[j])
    ensures (a, j) in RowPairs(st, tr, a, b)
    decreases b
  {
    var prev := RowPairs(st, tr, a, b - 1);
    var last: seq<(nat, nat)> := if Fires(st[a], tr[b - 1]) then [(a, b - 1)] else [];
    assert RowPairs(st, tr, a, b) == prev + last;
    if j < b - 1 {
      RowPairsHas(st, tr, a, b - 1, j);
    } else {
      assert last[0] == (a, j);
    }
    InAppend(prev, last, (a, j));
  }

  lemma PairsBeforeComplete(st: seq<Obj>, tr: seq<Obj>, a: nat)
    requires a <= |st|
    ensures StrictlySorted(PairsBefore(st, tr, a))
    ensures forall i, j :: 0 <= i < a && 0 <= j < |tr| && Fires(st[i], tr[j]) ==> (i, j) in PairsBefore(st, tr, a)
  {
    PairsBeforeSorted(st, tr, a);
    PairsBeforeCovers(st, tr, a);
  }

  lemma {:induction false} PairsBeforeSorted(st: seq<Obj>, tr: seq<Obj>, a: nat)
    requires a <= |st|
    ensures StrictlySorted(PairsBefore(st, tr, a))
    decreases a
  {
    if a > 0 {
      PairsBeforeSorted(st, tr, a - 1);
      RowPairsSorted(st, tr, a - 1, |tr|);
      var prev := PairsBefore(st, tr, a - 1);
      var row := RowPairs(st, tr, a - 1, |tr|);
      SortedRows(a - 1, prev, row);
      assert PairsBefore(st, tr, a) == prev + row;
    }
  }

  /** Sorted earlier rows followed by sorted row `a` stay sorted. */
  lemma SortedRows(a: nat, prev: seq<(nat, nat)>, row: seq<(nat, nat)>)
    requires StrictlySorted(prev) && StrictlySorted(row)
    requires forall k :: 0 <= k < |prev| ==> prev[k].0 < a
    requires forall l :: 0 <= l < |row| ==> row[l].0 == a
    ensures StrictlySorted(prev + row)
  {
    SortedConcat(prev, row);
  }

  lemma PairsBeforeCovers(st: seq<Obj>, tr: seq<Obj>, a: nat)
    requires a <= |st|
    ensures forall i, j :: 0 <= i < a && 0 <= j < |tr| && Fires(st[i], tr[j]) ==> (i, j) in PairsBefore(st, tr, a)
  {
    forall i, j | 0 <= i < a && 0 <= j < |tr| && Fires(st[i], tr[j])
      ensures (i, j) in PairsBefore(st, tr, a)
    {
      PairsBeforeHas(st, tr, a, i, j);
    }
  }

  /** A firing pair of rows `0..a` is among `PairsBefore(st, tr, a)`. */
  lemma {:induction false} PairsBeforeHas(st: seq<Obj>, tr: seq<Obj>, a: nat, i: nat, j: nat)
    requires i < a <= |st| && j < |tr| && Fires(st[i], tr[j])
    ensures (i, j) in PairsBefore(st, tr, a)
    decreases a
  {
    var prev := PairsBefore(st, tr, a - 1);
    var row := RowPairs(st, tr, a - 1, |tr|);
    assert PairsBefore(st, tr, a) == prev + row;
    if i < a - 1 {
      PairsBeforeHas(st, tr, a - 1, i, j);
    } else {
      RowPairsHas(st, tr, a - 1, |tr|, j);
    }
    InAppend(prev, row, (i, j));
  }

  /** The rule pairs are exactly the (state, transition) pairs where the
      transition leaves the state and has an Event, ordered by state and then
      by transition, each pair once. */
  lemma FiringPairsExact(st: seq<Obj>, tr: seq<Obj>)
    ensures var ps := FiringPairs(st, tr);
            && StrictlySorted(ps)
            && (forall k :: 0 <= k < |ps| ==> ps[k].0 < |st| && ps[k].1 < |tr| && Fires(st[ps[k].0], tr[ps[k].1]))
            && (forall i, j :: 0 <= i < |st| && 0 <= j < |tr| && Fires(st[i], tr[j]) ==> (i, j) in ps)
  {
    PairsBeforeComplete(st, tr, |st|);
  }

  /** `rule` is defined on every pair that fires. */
  ghost predicate RuleReady(st: seq<Obj>, tr: seq<Obj>, rule: (Obj, Obj) --> Rule)
  {
    forall i, j :: 0 <= i < |st| && 0 <= j < |tr| && Fires(st[i], tr[j]) ==> rule.requires(st[i], tr[j])
  }

  /** `rules` holds, in order, the rule of each pair of `ps`. */
  ghost predicate RulesOf(st: seq<Obj>, tr: seq<Obj>, rule: (Obj, Obj) --> Rule, ps: seq<(nat, nat)>, rules: seq<Rule>)
  {
    && |rules| == |ps|
    && forall k :: 0 <= k < |ps| ==>
         && ps[k].0 < |st| && ps[k].1 < |tr| && rule.requires(st[ps[k].0], tr[ps[k].1])
         && rules[k] == rule(st[ps[k].0], tr[ps[k].1])
  }

  lemma RulesOfAppend(st: seq<Obj>, tr: seq<Obj>, rule: (Obj, Obj) --> Rule, ps: seq<(nat, nat)>, rules: seq<Rule>, a: nat, b: nat)
    requires a < |st| && b < |tr| && rule.requires(st[a], tr[b])
    requires RulesOf(st, tr, rule, ps, rules)
    ensures RulesOf(st, tr, rule, ps + [(a, b)], rules + [rule(st[a], tr[b])])
  {
    var ps' := ps + [(a, b)];
    assert forall k :: 0 <= k < |ps| ==> ps'[k] == ps[k];
  }

  /** One step of the inner loop over a transition that fires: its rule is
      appended, and the row prefix grows by its pair. */
  lemma RowStepFires(st: seq<Obj>, tr: seq<Obj>, rule: (Obj, Obj) --> Rule, before: seq<(nat, nat)>, a: nat, b: nat, rules: seq<Rule>)
    requires RuleReady(st, tr, rule)
    requires a < |st| && b < |tr| && Fires(st[a], tr[b])
    requires RulesOf(st, tr, rule, before + RowPairs(st, tr, a, b), rules)
    ensures rule.requires(st[a], tr[b])
    ensures RulesOf(st, tr, rule, before + RowPairs(st, tr, a, b + 1), rules + [rule(st[a], tr[b])])
  {
    var ps := before + RowPairs(st, tr, a, b);
    RulesOfAppend(st, tr, rule, ps, rules, a, b);
    assert before + RowPairs(st, tr, a, b + 1) == ps + [(a, b)];
  }

  /** One step of the inner loop over a transition that does not fire. */
  lemma RowStepSkips(st: seq<Obj>, tr: seq<Obj>, rule: (Obj, Obj) --> Rule, before: seq<(nat, nat)>, a: nat, b: nat, rules: seq<Rule>)
    requires a < |st| && b < |tr| && !Fires(st[a], tr[b])
    requires RulesOf(st, tr, rule, before + RowPairs(st, tr, a, b), rules)
    ensures RulesOf(st, tr, rule, before + RowPairs(st, tr, a, b + 1), rules)
  {
    assert before + RowPairs(st, tr, a, b + 1) == before + RowPairs(st, tr, a, b);
  }

  /** The rule list of the main `choose`: for each state in object order, for
      each transition in object order that leaves it and has an Event, one rule
      (kept even when its sequence is empty). The rule itself is built by
      `rule`, which `RenderHfsm` instantiates with `RuleFor`. */
  method BuildRules(st: seq<Obj>, tr: seq<Obj>, rule: (Obj, Obj) --> Rule) returns (rules: seq<Rule>)
    requires RuleReady(st, tr, rule)
    ensures RulesOf(st, tr, rule, FiringPairs(st, tr), rules)
  {
    rules := [];
    var a := 0;
    while a < |st|
      invariant 0 <= a <= |st|
      invariant RulesOf(st, tr, rule, PairsBefore(st, tr, a), rules)
    {
      rules := AppendStateRules(st, tr, rule, a, rules);
      a := a + 1;
    }
  }

  /** The inner loop of the rule list: appends the rules of state `a`, one per
      transition in object order that leaves it and has an Event. */
  method AppendStateRules(st: seq<Obj>, tr: seq<Obj>, rule: (Obj, Obj) --> Rule, a: nat, rules0: seq<Rule>)
    returns (rules: seq<Rule>)
    requires RuleReady(st, tr, rule)
    requires a < |st|
    requires RulesOf(st, tr, rule, PairsBefore(st, tr, a), rules0)
    ensures RulesOf(st, tr, rule, PairsBefore(st, tr, a + 1), rules)
  {
    var state := st[a];
    ghost var before := PairsBefore(st, tr, a);
    rules := rules0;
    var b := 0;
    // `transitions.filter(t => t.pointers.src === state.path)` followed by
    // `if (!eventName) continue;`, fused into one test per transition.
    while b < |tr|
      invariant 0 <= b <= |tr|
      invariant RulesOf(st, tr, rule, before + RowPairs(st, tr, a, b), rules)
    {
      var trans := tr[b];
      if trans.src == Some(state.path) && Truthy(trans.attributes.event) {
        RowStepFires(st, tr, rule, before, a, b, rules);
        rules := rules + [rule(state, trans)];
      } else {
        RowStepSkips(st, tr, rule, before, a, b, rules);
      }
      b := b + 1;
    }
  }

  /** `renderHFSM`, up to the point where the configuration is dumped. */
  method RenderHfsm(objs: Objects, parse: string -> Parsed) returns (out: Rendered)
    requires FindRoot(objs).Some? ==> RulesResolvable(objs)
    ensures out.NoStateMachine? <==> forall i :: 0 <= i < |objs| ==> !IsStateMachine(objs[i])
    ensures out.Rendered? ==> FindRoot(objs).Some?
    ensures out.Rendered? && FindRoot(objs).Some? ==>
              var root := FindRoot(objs).value;
              var sm := ToSnakeCase(root.name);
              var st := States(objs);
              var tr := Transitions(objs);
              var ps := FiringPairs(st, tr);
              && out.config.smName == sm
              && out.config.displayName == root.name
              && |out.config.options| == |st|
              && (forall i :: 0 <= i < |st| ==> out.config.options[i] == StateId(st[i]))
              && out.config.initial == InitialValueOf(objs)
              && out.config.automationId == sm + "_automation"
              && out.config.eventType == sm + "_event"
              && |out.config.rules| == |ps|
              && (forall k :: 0 <= k < |ps| ==> out.config.rules[k] == RuleFor(objs, sm, parse, st[ps[k].0], tr[ps[k].1]))
  {
    var root := FindRoot(objs);
    if root.None? {
      return NoStateMachine;
    }
    var sm := ToSnakeCase(root.value.name);
    var rule := (s: Obj, t: Obj) requires Fires(s, t) && (t.kind == ExternalTransition ==> Resolvable(objs, t, {})) =>
      RuleFor(objs, sm, parse, s, t);
    var rules := BuildRules(States(objs), Transitions(objs), rule);
    out := Rendered(Config(sm, root.value.name, StateOptions(objs), InitialValueOf(objs),
                           sm + "_automation", sm + "_event", rules));
  }
}
