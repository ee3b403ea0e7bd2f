# Home Assistant generator for hierarchical state machines, in Dafny

The generator `MetaTemplates.js` reads a WebGME state-machine model and turns it
into a Home Assistant configuration. The model is a flat table of nodes:
- a State Machine root;
- States, End States, Choice Pseudostates and Initial nodes;
- External and Internal Transitions with `src`/`dst` pointers.

Nodes carry free-text YAML attributes: Action, Entry, Exit, Guard and Event.

The configuration has two parts:
- an `input_select` that holds the current state;
- one automation. It fires on a custom event and runs a `choose` with one rule per (state, outgoing transition with an Event).

This project models the core of that generator and proves its properties:

- `toSnakeCase` (`snake_case.dfy`). The four regular-expression stages and the
  final lower-casing are written out one by one over `seq<char>`, using
  JavaScript's `\w`/`\W` classes.
- `String.prototype.trim` (`js_string.dfy`). Uses the ECMAScript white-space
  and line-terminator set.
- `safeLoadYamlAction` (`yaml_action.dfy`). It classifies what the YAML parser
  returns. The parser is a parameter.
- `generateUniqueStateId` (`state_id.dfy`).
- `buildActionSequence` (`resolver.dfy`). Covers the descent through Choice
  Pseudostates into nested `choose` blocks.
- The assembly part of `renderHFSM` (`assembler.dfy`):
  - the root;
  - the `input_select` options and `initial`;
  - the rule list;
  - the automation id and event type.
- The object table (`hfsm.dfy`) and small generic helpers (`common.dfy`).

`buildActionSequence` has neither a check for a missing destination nor a
cycle guard. On a dangling `dst` it throws a `TypeError`. On a cycle of
Choice Pseudostates it recurses until the JavaScript engine throws a
`RangeError` (stack overflow). `Resolver.Resolvable` states exactly when neither
happens, and it is the precondition of the resolver. A ghost set of the
choices on the current recursion path serves only the precondition and the
termination measure. `Resolver.ResolveIgnoresVisited` proves that the result
does not depend on it. `Resolver.AcyclicChoicesResolvable` gives a sufficient
condition that is easy to check: a ranking of the choices.

## Model

| member | source | states |
|---|---|---|
| SnakeCase.ToSnakeCase | src/plugins/SoftwareGenerator/templates/MetaTemplates.js:15-22 | The falsy (empty) name gives `""`. Every result uses only `[a-z0-9_]`, has no two adjacent underscores, and neither starts nor ends with `_`. |
| SnakeCase.SnakeCaseIdempotent | src/plugins/SoftwareGenerator/templates/MetaTemplates.js:15-22 | Snake-casing a snake-cased name changes nothing. |
| SnakeCase.SnakeCaseKeepsAlnums | src/plugins/SoftwareGenerator/templates/MetaTemplates.js:15-22 | The ASCII letters and digits of the result are those of the input, in order, lower-cased. No letter or digit is lost or invented. |
| SnakeCase.SnakeCaseEmptyIff | src/plugins/SoftwareGenerator/templates/MetaTemplates.js:15-22 | The result is empty exactly when the input has no ASCII letter or digit. |
| SnakeCase.SnakeCaseSeparatesWords | src/plugins/SoftwareGenerator/templates/MetaTemplates.js:15-22 | Two non-empty lower-case words of letters and digits, separated by any non-empty run of non-word characters, come out joined by exactly one `_`: `toSnakeCase(w1 + sep + w2)` is `toSnakeCase(w1) + "_" + toSnakeCase(w2)`, which is `w1 + "_" + w2`. |
| SnakeCase.SnakeCaseSplitsCamel | src/plugins/SoftwareGenerator/templates/MetaTemplates.js:15-22 | A capital after a non-empty lower-case word starts a new word. `w1 + C + w2` gives `w1 + "_" + c + w2`, with `c` the lower-case form of `C`. |
| SnakeCase.CollapseNonWordSpec | src/plugins/SoftwareGenerator/templates/MetaTemplates.js:17 | After `replace(/[\s\W]+/g, '_')` only `\w` characters remain, and a string of `\w` characters is left unchanged. |
| SnakeCase.CollapseNonWordRun | src/plugins/SoftwareGenerator/templates/MetaTemplates.js:17 | A whole run of non-word characters becomes exactly one `_`. The run must follow word characters `w` and be followed by nothing or a word character. Then the result is `w + "_"` followed by the stage applied to the rest. |
| SnakeCase.CollapseNonWordKeepsAlnums | src/plugins/SoftwareGenerator/templates/MetaTemplates.js:17 | The first stage keeps every letter and digit, in order. |
| SnakeCase.MarkUpperSpec | src/plugins/SoftwareGenerator/templates/MetaTemplates.js:18 | `replace(/([A-Z])/g, '_$1')` adds no character outside `\w`, and changes nothing in a string without capitals. |
| SnakeCase.MarkUpperMarksCapitals | src/plugins/SoftwareGenerator/templates/MetaTemplates.js:18 | Every capital of the result has an `_` right before it. |
| SnakeCase.MarkUpperLength | src/plugins/SoftwareGenerator/templates/MetaTemplates.js:18 | The result is longer than the input by exactly the number of capitals. |
| SnakeCase.MarkUpperConcat | src/plugins/SoftwareGenerator/templates/MetaTemplates.js:18 | The stage works character by character: it distributes over concatenation. |
| SnakeCase.MarkUpperKeepsAlnums | src/plugins/SoftwareGenerator/templates/MetaTemplates.js:18 | The second stage keeps the letters and digits, in order. |
| SnakeCase.CollapseUnderscoresSpec | src/plugins/SoftwareGenerator/templates/MetaTemplates.js:19 | After `replace(/__+/g, '_')` no two underscores are adjacent. The stage adds neither a non-word character nor a capital, and it changes nothing when no two underscores were adjacent. |
| SnakeCase.CollapseUnderscoresRun | src/plugins/SoftwareGenerator/templates/MetaTemplates.js:19 | A whole run of two or more underscores becomes exactly one `_`. The run must follow a prefix `w` with no doubled underscore and no trailing `_`, and be followed by nothing or a non-`_`. Then the result is `w + "_"` followed by the stage applied to the rest. |
| SnakeCase.CollapseUnderscoresKeepsAlnums | src/plugins/SoftwareGenerator/templates/MetaTemplates.js:19 | The third stage keeps the letters and digits, in order. |
| Common.DropEdges | src/plugins/SoftwareGenerator/templates/MetaTemplates.js:20 | Stage 4, `StripEdgeUnderscore`, is `DropEdges` with `_` at both ends; `StripBrackets` (line 89) is the same with `[` in front and `]` at the end. Removing the matches of `^x` and `y$` leaves the slice of the input without its first character when that is `x`, and without its last character when what remains ends with `y`. Nothing else is removed. |
| SnakeCase.StripEdgeKeepsShape | src/plugins/SoftwareGenerator/templates/MetaTemplates.js:20 | The fourth stage, which strips one underscore at each end, on a string without doubled underscores leaves none at either edge. It keeps the character classes, and it is the identity on a string with no edge underscore. |
| SnakeCase.LowerAscii | src/plugins/SoftwareGenerator/templates/MetaTemplates.js:21 | `toLowerCase` on ASCII keeps the length, turns each capital into the matching lower-case letter, and leaves every other character as it is. |
| SnakeCase.LowerAsciiKeepsShape | src/plugins/SoftwareGenerator/templates/MetaTemplates.js:21 | On a word string without doubled or edge underscores, `toLowerCase` leaves only `[a-z0-9_]`. It keeps the length and the exact positions of the underscores. |
| JsString.Trim | src/plugins/SoftwareGenerator/templates/MetaTemplates.js:26 | `trim()` gives a string that neither starts nor ends with white space. It is empty exactly when the input is blank. |
| JsString.TrimIsInfix | src/plugins/SoftwareGenerator/templates/MetaTemplates.js:26 | The trimmed string is the input with a blank prefix and a blank suffix removed. |
| JsString.TrimStartSpec | src/plugins/SoftwareGenerator/templates/MetaTemplates.js:26 | Removing leading white space drops exactly the longest blank prefix. |
| JsString.TrimEndSpec | src/plugins/SoftwareGenerator/templates/MetaTemplates.js:26 | Removing trailing white space drops exactly the longest blank suffix. |
| Actions.SafeLoadYamlAction | src/plugins/SoftwareGenerator/templates/MetaTemplates.js:24-37 | Cases on the attribute and the parse outcome:<br>- absent, empty or blank: nothing, and the parser is not consulted;<br>- parses to an array: its elements, one for one and in order;<br>- parses to an object: a one-element list;<br>- parses to null or a primitive, or fails to parse: nothing.<br>Every result is a loaded (opaque) action. |
| StateIds.PathPart | src/plugins/SoftwareGenerator/templates/MetaTemplates.js:62 | `path.replace(/\//g, '_')` keeps the length. Each `/` becomes `_`, and every other character stays. For a path without `_` of its own, the path can be read back. |
| StateIds.StateId | src/plugins/SoftwareGenerator/templates/MetaTemplates.js:59-64 | The id is the snake-cased name followed by the path, character for character, with each `/` turned into `_`. |
| StateIds.StateIdInjective | src/plugins/SoftwareGenerator/templates/MetaTemplates.js:59-64 | Two nodes with distinct `_`-free paths get distinct ids when their names are equal or their paths have equal length. |
| StateIds.StateIdCollides | src/plugins/SoftwareGenerator/templates/MetaTemplates.js:59-64 | Without those conditions ids can collide: for lower-case words `w1`, `w2` and a non-empty run `sep` of non-word characters, a node named `w1` at `/w2` + `p` and a node named `w1 + sep + w2` at `p` both get `w1_w2` followed by `p` with its `/` turned into `_` (`a` at `/1/2` and `a 1` at `/2` both get `a_1_2`). |
| Resolver.Resolve | src/plugins/SoftwareGenerator/templates/MetaTemplates.js:66-102 | The sequence starts with the transition's own Action list. Every `select_option` in it, at any depth, targets `input_select.<sm>` and names the id of a State or End State of the table. `choose` blocks nest no deeper than the number of choices not yet entered. |
| Resolver.EnterTarget | src/plugins/SoftwareGenerator/templates/MetaTemplates.js:72-100 | What follows the Action list, by the destination's kind, keeps both of those invariants. |
| Resolver.ChooseBlock | src/plugins/SoftwareGenerator/templates/MetaTemplates.js:80-99 | The block built for a choice is a `choose` that keeps both invariants, one level deeper. |
| Resolver.ChooseDefault | src/plugins/SoftwareGenerator/templates/MetaTemplates.js:83-98 | The block has a `default` exactly when the choice has an outgoing External Transition without a Guard. |
| Resolver.ResolvableShrink | src/plugins/SoftwareGenerator/templates/MetaTemplates.js:66-102 | Taking choices off the recursion path keeps a transition resolvable. |
| Resolver.ResolveIgnoresVisited | src/plugins/SoftwareGenerator/templates/MetaTemplates.js:66-102 | The result does not depend on the recursion-path bookkeeping. |
| Resolver.ResolveIntoState | src/plugins/SoftwareGenerator/templates/MetaTemplates.js:70-79 | Into a State or End State, the result is, in order:<br>1. the Action list;<br>2. one `select_option` of that state's id;<br>3. the state's Entry list. |
| Resolver.ResolveIntoOther | src/plugins/SoftwareGenerator/templates/MetaTemplates.js:66-101 | Into any other node that is not a choice, the result is only the Action list. |
| Resolver.ResolveIntoChoice | src/plugins/SoftwareGenerator/templates/MetaTemplates.js:80-99 | Into a Choice Pseudostate, the result is the Action list plus exactly one `choose` block:<br>- one arm per guarded outgoing External Transition, in object order;<br>- each arm carries that guard's template and that branch's own resolution;<br>- a default exactly when some outgoing External Transition has no Guard;<br>- the default is the resolution of the first such transition. |
| Resolver.GuardTemplate | src/plugins/SoftwareGenerator/templates/MetaTemplates.js:89 | The template is `{{ `, then the trim of the guard with its brackets stripped, then ` }}`. The trim drops a blank prefix and a blank suffix and leaves no white space at either end. A guard written inside one pair of brackets, or without a bracket at either end, that has no white space at its ends appears verbatim. |
| Resolver.AcyclicChoicesResolvable | src/plugins/SoftwareGenerator/templates/MetaTemplates.js:80-99 | The recursion neither throws nor loops when two things hold:<br>- a ranking of the choices strictly drops along every transition from a choice into a choice;<br>- every transition leaving a choice has a destination. |
| Assembler.InitialValueOf | src/plugins/SoftwareGenerator/templates/MetaTemplates.js:129-137 | `initial` is `null` when no transition leaves an Initial node. Otherwise the first transition that does decides it:<br>- the id of its destination, when that is a State or End State;<br>- `null`, when the destination is missing;<br>- `undefined`, otherwise. |
| Assembler.StateOptionsAreStateIds | src/plugins/SoftwareGenerator/templates/MetaTemplates.js:145 | A string is an option of the `input_select` exactly when it is the id of some State or End State of the table. |
| Assembler.FiringPairsExact | src/plugins/SoftwareGenerator/templates/MetaTemplates.js:150-173 | The rules correspond one-to-one to the (state, transition) pairs where the transition leaves the state and has an Event. They are ordered by state, then by transition. |
| Assembler.BuildRules | src/plugins/SoftwareGenerator/templates/MetaTemplates.js:150-173 | The two nested loops emit, in order, the rule of each such pair, and nothing else. |
| Assembler.AppendStateRules | src/plugins/SoftwareGenerator/templates/MetaTemplates.js:152-172 | The inner loop appends the rules of one state, one per outgoing transition with an Event, in object order. |
| Assembler.RenderHfsm | src/plugins/SoftwareGenerator/templates/MetaTemplates.js:110-175 | With no State Machine, the result is empty. Otherwise the configuration has:<br>- the snake-cased name;<br>- the state ids as options, in object order;<br>- the initial value;<br>- `<sm>_automation` and `<sm>_event`;<br>- exactly the rules above, each with the state condition, the Event template and the state's Exit list followed by the resolved transition (the Action list alone for an Internal Transition). |

## Left out

- **YAML.** `jsyaml.load` and `jsyaml.dump` are not modelled.
  - The outcome of parsing an attribute is an input (`parse`).
  - The parsed values are opaque handles.
  - The result of `renderHFSM` is the configuration value, not its YAML text.
- **Other output.** These do not influence the configuration:
  - the file header with its date;
  - the artifact file names;
  - the JSON debug dump with `getCircularReplacer`;
  - the logger's warnings;
  - `renderTestCode`;
  - the AMD `define` wrapper.
- **Fixed fields.** The constant fields of the output are not carried in `Config`:
  - `icon`;
  - `mode`;
  - the `alias`/`description` texts;
  - the `platform: 'event'` trigger.
- **Non-string attributes.** The `typeof yamlString !== 'string'` branch of `safeLoadYamlAction` cannot occur. In this model an attribute is either absent or a string.
- **Errors the source does not handle.** A missing destination, and a cycle of Choice Pseudostates, are not modelled as results. The source throws a `TypeError` on the first. On the second it recurses until the engine throws a `RangeError`, so `renderHFSM` throws in both cases. Both are excluded by `Resolver.Resolvable`, which is the precondition of `Resolver.Resolve` and, through `Assembler.RulesResolvable`, of `Assembler.RenderHfsm`. The source has no check that would log a warning for either.
- **Empty rules.** A rule whose action sequence comes out empty is kept, as the code does. It is not dropped.
- **Path in state ids.** The path part of a state id only replaces `/` by `_`, as the code does. It is not normalized further.
- **`initial` encoding.** `initial` distinguishes `null` (no initial transition, or its destination is missing) from `undefined` (the destination is not a State or End State). The model keeps the two apart and does not model how `jsyaml.dump` prints them.
- **Object table order.** The object table is a sequence in `Object.values` order. A lookup `objects[p]` is the first node whose path is `p`, which assumes each node is stored under its own path.
- **Characters outside the Basic Multilingual Plane.** Such a character is one `char` here and two UTF-16 code units in JavaScript. `toSnakeCase` turns either form into a single `_`. `trim` only strips Basic Multilingual Plane white space.
- SnakeCase.ToSnakeCase: its own contract states only the shape of the result (alphabet, no doubled or edge `_`). Where the underscores go is stated by `SnakeCase.SnakeCaseSeparatesWords` and `SnakeCase.SnakeCaseSplitsCamel` for words, and by the per-stage lemmas for arbitrary input. No single closed-form contract over every input is given.
- Assembler.BuildRules: is stated for any rule constructor defined on every firing pair. `Assembler.RenderHfsm` instantiates it with `Assembler.RuleFor`.
