/** The flat object table `model.objects` that the generator reads: WebGME
    nodes keyed by path, each with a type, a sanitized name, free-text
    attributes and, for transitions, `src`/`dst` pointers. */
module Hfsm {
  import opened Common

  type Path = string

  /** The `type` strings the generator compares against; any other meta type
      is `Other`, which the generator never distinguishes further. */
  datatype Kind =
    | StateMachine        // 'State Machine'
    | State               // 'State'
    | EndState            // 'End State'
    | ChoicePseudostate   // 'Choice Pseudostate'
    | Initial             // 'Initial'
    | ExternalTransition  // 'External Transition'
    | InternalTransition  // 'Internal Transition'
    | Other

  /** `attributes`; an absent attribute is `None`. */
  datatype Attributes = Attributes(
    action: Option<string>,
    entry: Option<string>,
    exit: Option<string>,
    guard: Option<string>,
    event: Option<string>)

  /** One entry of `model.objects`. Its key in the table is its `path`;
      `src`/`dst` are `pointers.src`/`pointers.dst` (`None` when unset). */
  datatype Obj = Obj(
    path: Path,
    kind: Kind,
    name: string,
    attributes: Attributes,
    src: Option<Path>,
    dst: Option<Path>)

  /** `model.objects`, listed in `Object.values` order. */
  type Objects = seq<Obj>

  /** JavaScript truthiness of an optional string attribute: present and non-empty. */
  predicate Truthy(a: Option<string>)
  {
    a.Some? && |a.value| > 0
  }

  predicate IsStateNode(o: Obj)
  {
    o.kind == State || o.kind == EndState
  }

  predicate IsTransition(o: Obj)
  {
    o.kind == ExternalTransition || o.kind == InternalTransition
  }

  predicate HasPath(p: Path, o: Obj)
  {
    o.path == p
  }

  /** `objects[p]`: the object stored under key `p`, if any. */
  function Lookup(objs: Objects, p: Option<Path>): (r: Option<Obj>)
    ensures r.Some? ==> p.Some? && r.value in objs && r.value.path == p.value
    ensures r.None? <==> p.None? || forall i :: 0 <= i < |objs| ==> objs[i].path != p.value
  {
    match p
    case None => None
    case Some(k) => Find(objs, o => HasPath(k, o))
  }

  /** `Object.values(objects).filter(o => o.type === 'State' || o.type === 'End State')`. */
  function States(objs: Objects): seq<Obj>
  {
    Filter(objs, IsStateNode)
  }

  /** `Object.values(objects).filter(o => o.type === 'External Transition' || o.type === 'Internal Transition')`. */
  function Transitions(objs: Objects): seq<Obj>
  {
    Filter(objs, IsTransition)
  }

  /** Paths of the Choice Pseudostates in the table. */
  function ChoicePaths(objs: Objects): set<Path>
  {
    set o | o in objs && o.kind == ChoicePseudostate :: o.path
  }
}
