/** The action values the generator emits, and `safeLoadYamlAction`, which
    turns a free-text attribute into a list of actions. The YAML parser
    (`jsyaml.load`) is not modelled: its outcome on a given text is an input. */
module Actions {
  import opened Common
  import opened JsString

  /** A value produced by the YAML parser. The generator never looks inside it. */
  datatype Yaml = Yaml(handle: nat)

  /** What `jsyaml.load(text)` gives: it throws, or returns an array, a
      non-null object, or null / a primitive. */
  datatype Parsed =
    | ParseFailure
    | ParsedArray(items: seq<Yaml>)
    | ParsedObject(item: Yaml)
    | ParsedNullOrPrimitive

  /** One entry of a Home Assistant action sequence. */
  datatype Action =
    | Opaque(value: Yaml)
      /** `{service: 'input_select.select_option', target: {entity_id}, data: {option}}` */
    | SelectOption(entity: string, option: string)
      /** `{choose: [...], default?: [...]}` */
    | Choose(arms: seq<Arm>, default: Default)

  /** `{conditions: [{condition: 'template', value_template}], sequence}` */
  datatype Arm = Arm(valueTemplate: string, sequence: seq<Action>)

  /** The optional `default` key of a choose block. */
  datatype Default = NoDefault | Default(sequence: seq<Action>)

  function AsAction(y: Yaml): Action
  {
    Opaque(y)
  }

  /** `safeLoadYamlAction(text)`. Falsy and blank texts are not parsed; a parsed
      array is passed through element by element, a parsed object becomes a
      one-element list, and anything else (null, a primitive, a parse error)
      becomes the empty list. It never fails. */
  function SafeLoadYamlAction(text: Option<string>, parse: string -> Parsed): (r: seq<Action>)
    ensures text.None? || IsBlank(text.value) ==> r == []
    ensures text.Some? && !IsBlank(text.value) ==>
              match parse(text.value)
              case ParsedArray(items) => |r| == |items| && forall i :: 0 <= i < |r| ==> r[i] == Opaque(items[i])
              case ParsedObject(item) => r == [Opaque(item)]
              case _ => r == []
    ensures forall i :: 0 <= i < |r| ==> r[i].Opaque?
  {
    if text.None? || |text.value| == 0 || Trim(text.value) == "" then []
    else
      match parse(text.value)
      case ParsedArray(items) => seq(|items|, i requires 0 <= i < |items| => AsAction(items[i]))
      case ParsedObject(item) => [Opaque(item)]
      case ParsedNullOrPrimitive => []
      case ParseFailure => []
  }
}
