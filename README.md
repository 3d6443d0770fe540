# Execution engine model

A Dafny model of the execution engine of a configuration-driven automation
tool (`execution_engine.js`). The engine holds an operation registry and a
context `{ user_input, utils, project }`. It runs the steps of a
configuration in order. Each step is compiled first: every string field is
rendered as a template against the flattened context. The compiled step is
then handed to the operation registered under its `type`. An `ask_user`
step stores its result in `user_input[variable]`, where later steps can read
it through `{{user_input_<variable>}}` placeholders.

Modules, one file each:

- `Values` (`values.dfy`): JSON-like values whose objects keep their
  properties in insertion order, property lookup, property assignment
  (`Put`), and `String(v)`.
- `Flattening` (`flatten.dfy`): `object_flatten` and its inner `recurse`.
  The loop method `Recurse` is proved equal to the recursive function
  `FlattenInto`. That function is related to an independent description of
  flattening, the list of assignments made (`Writes`) under "last
  assignment wins" (`LastWrite`), and to leaf paths (`LeafAt`).
- `Template` (`template.dfy`): a `{{name}}` substitution renderer that
  stands in for Handlebars.
- `Compile` (`compile.dfy`): `compile_step`.
- `Engine` (`engine.dfy`): the class `ExecutionEngine` (constructor,
  `ExecuteStep`, `Execute`). Its methods are proved against the functions
  `StepSpec` (one step) and `RunSteps` (a whole run), and the run-level
  properties are proved about those functions.

Two points of the code shape the model:

- `compile_step` rebuilds arrays inside a step into plain objects keyed
  "0", "1", …, because the `typeof value === "object"` test at line 89
  admits arrays.
- The class body is closed early by a brace at line 18. The model takes
  `execute`, `execute_step`, `object_flatten` and `compile_step` to be
  methods of `ExecutionEngine`, as the file evidently intends.

## Model

| member | source | states |
|---|---|---|
| Values.Lookup | execution_engine.js:40 | `obj[k]` finds a value exactly when `k` is one of the object's keys |
| Values.LookupAt | execution_engine.js:40 | in an object with distinct keys, `obj[k]` reads the property named `k`, wherever it stands |
| Values.Put | execution_engine.js:49 | `obj[k] = v`: afterwards `k` holds `v`, every other key reads as before, the key set gains exactly `k`, a new key is appended at the end, an existing key keeps its position while every other property stays where and what it was, and distinct keys stay distinct |
| Values.NatToStringInjective | execution_engine.js:84 | the keys "0", "1", … that `Object.entries` gives array elements are equal exactly when the indices are |
| Values.JsString | execution_engine.js:86-88 | `String(v)` as a template prints a value: a string prints as itself, a number as a numeral that starts with "-" exactly when it is negative, and null, booleans and objects print with neither digits nor "-" |
| Values.IntToStringInjective | execution_engine.js:40 | two numbers print as the same `String(n)`, and so name the same property, exactly when they are equal |
| Values.PropertyKey | execution_engine.js:40 | the property name a key value converts to: a string names itself, a number its numeral, a missing property "undefined" |
| Flattening.FlattenInto | execution_engine.js:61-73 | `recurse` writes only leaves (never an object) into `flattened` and keeps its keys distinct |
| Flattening.Flatten | execution_engine.js:58-77 | the result of `object_flatten` holds only leaves (null, arrays and scalars) and has distinct keys |
| Flattening.FlattenLookup | execution_engine.js:61-72 | every flattened key holds the value of the last leaf assignment made to it during the traversal |
| Flattening.LeafIsWritten | execution_engine.js:61-70 | every leaf reached through keys k1…kn is assigned under `prefix + k1_…_kn` |
| Flattening.WrittenIsLeaf | execution_engine.js:61-70 | every assignment the traversal makes is of a leaf, under the joined path of the keys leading to it |
| Flattening.LastWriteAt | execution_engine.js:70 | of several assignments to one key of `flattened`, the one that no later assignment to that key follows is the value that stays |
| Flattening.FlattenedLeaf | execution_engine.js:61-70 | a leaf at path k1…kn appears in the flattened object under `k1_…_kn` when no assignment made after its own has the same key; paths visited earlier may collide with it and are overwritten |
| Flattening.CollisionExample | execution_engine.js:61-72 | `{a_b: 1, a: {b: 2}}` flattens to `{a_b: 2}`: a later colliding path overwrites an earlier one |
| Flattening.FlattenOfFlat | execution_engine.js:58-77 | flattening an object that is already flat, with distinct keys, returns it unchanged |
| Flattening.FlattenIdempotent | execution_engine.js:87-88 | flattening twice equals flattening once |
| Flattening.Recurse | execution_engine.js:61-73 | the `for…in` loop of `recurse`, descending into nested objects, computes `FlattenInto` of its arguments |
| Flattening.ObjectFlatten | execution_engine.js:58-77 | `object_flatten` computes `Flatten`, so its result holds only leaves under distinct keys |
| Template.FindClose | execution_engine.js:86-88 | finds the first "}}" at or after a position, and reports none exactly when there is none |
| Template.Render | execution_engine.js:86-88 | a template with no "{" renders as itself |
| Template.RenderPlainText | execution_engine.js:86-88 | text without braces is copied through rendering unchanged, whatever follows it |
| Template.TrimPadded | execution_engine.js:86-88 | the whitespace around a placeholder's name is dropped and the name itself is kept whole |
| Template.RenderSpacedPlaceholder | execution_engine.js:86-88 | `{{ name }}` renders exactly as `{{name}}` does |
| Template.RenderPlaceholder | execution_engine.js:86-88 | `{{name}}` is replaced by the printed value of `name` in the flat context, and rendering carries on after it |
| Template.MissingPlaceholderIsEmpty | execution_engine.js:86-88 | a placeholder whose name, without surrounding whitespace, is no flattened key renders as the empty string |
| Compile.CompileEntries | execution_engine.js:84-95 | the reduction over `Object.entries` produces exactly the accumulator's keys plus the entries' keys, and keeps them distinct |
| Compile.CompileStep | execution_engine.js:83-96 | the compiled step has exactly the key set of the step, with distinct keys |
| Compile.CompileField | execution_engine.js:85-93 | the reducer's callback: a string stays a string, an object becomes an object with the same keys, an array becomes an object keyed "0", …, "n-1", and numbers, booleans and null are copied |
| Compile.CompileItems | execution_engine.js:89-90 | the reduction over an array's entries adds exactly the keys `String(index)`, … for its elements to the accumulator's keys, and keeps keys distinct |
| Compile.CompileFieldArrayFree | execution_engine.js:89-90 | a compiled value contains no array at any depth: every array is rebuilt into an object |
| Compile.CompileEntriesArrayFree | execution_engine.js:84-95 | the reduction over an object's entries adds no array to an array-free accumulator |
| Compile.CompileItemsArrayFree | execution_engine.js:89-90 | the reduction over an array's entries adds no array to an array-free accumulator |
| Compile.CompileStepArrayFree | execution_engine.js:83-96 | a compiled step holds no array at any depth |
| Compile.CompileEntriesPointwise | execution_engine.js:84-95 | for distinct keys, the reduction appends each entry, in order, under its own key with its compiled value |
| Compile.CompileStepPointwise | execution_engine.js:84-95 | a compiled step has the step's keys in the step's order, each with the compiled original value |
| Compile.CompileItemsIndexed | execution_engine.js:89-90 | the reduction over an array appends the element at index i under the key `String(i)`, in index order, after the keys already present |
| Compile.CompileArray | execution_engine.js:89-90 | an array field becomes an object whose keys are "0", "1", … and whose values are the compiled elements |
| Compile.CompilePlainUnchanged | execution_engine.js:91-92 | numbers, booleans, null and objects built only from them come out of compilation unchanged |
| Compile.CompileString | execution_engine.js:85-88 | a string field is rendered against the context flattened once; the second flattening changes nothing |
| Engine.ContextFields | execution_engine.js:16 | `this.context` as an object: `user_input`, `utils` and, once set, `project` read back what the engine holds, under distinct keys |
| Engine.PropertyOf | execution_engine.js:40-49 | a compiled field used as a property key, as `operations[compiled_step.type]` and `user_input[compiled_step.variable]` are: the field itself when it is a string, and "undefined" when the step has none |
| Engine.IsAskUser | execution_engine.js:48 | a step whose compiled type is "ask_user" was dispatched to the operation registered as "ask_user" |
| Engine.StepSpec | execution_engine.js:38-51 | one step keeps `utils` and `project`; a failed step leaves the context unchanged; an operation is called, with the compiled step, unless the type is unknown; `user_input` keys are never removed and stay distinct; how the operation's outcome decides the step is stated by `StepUserInput` |
| Engine.StepUserInput | execution_engine.js:40-50 | the step fails as unknown exactly when the compiled type is not registered, and then nothing is called and nothing changes; only a successful `ask_user` step changes `user_input`, setting exactly key `variable` to the operation's result; for a registered type, the step fails exactly when the operation throws, and then with that error |
| Engine.RunFromInOrder | execution_engine.js:27-30 | the loop from step i on, after steps 0..i-1 succeeded: it stops at the first failing step, the j-th call received step j compiled against the context the earlier steps left, nothing after the failing step is called, and the final context is the one the attempted steps left |
| Engine.RunInOrder | execution_engine.js:24-31 | a run dispatches the steps in declaration order; a failure at step k means steps 0..k-1 succeeded, step k failed with that failure, and no later step was compiled or called; the final context is the one the attempted steps left |
| Engine.CompiledPrefixAt | execution_engine.js:39-46 | the j-th operation call of a run receives step j compiled against the context that steps 0..j-1 left |
| Engine.RunFromCalls | execution_engine.js:27-30 | the loop never alters or drops the calls made before it reached step i |
| Engine.RunFromBounds | execution_engine.js:27-30 | the loop from step i on makes at most one operation call per remaining step, and a failure it stops at is one of those steps |
| Engine.RunFromKeeps | execution_engine.js:27-30 | the loop from step i on never changes `utils` or `project` |
| Engine.RunSteps | execution_engine.js:24-31 | a run makes at most one operation call per step, a failure names one of the steps, and `utils` and `project` are kept |
| Engine.ContextAfterGrows | execution_engine.js:46-50 | a sequence of steps never changes `utils` or `project`, never removes a `user_input` key, and keeps keys distinct |
| Engine.RunKeepsContext | execution_engine.js:27-30 | a whole run never removes a `user_input` entry and never changes `project` or `utils` |
| Engine.OtherWritesMiss | execution_engine.js:16 | no `utils` or `project` property path flattens to a key that starts with "us", so none collides with a `user_input_` key |
| Engine.FlattenedUserInput | execution_engine.js:16 | with leaf answers, the flattened context holds `user_input[v]` under `user_input_<v>` and nothing there when `v` is unanswered |
| Engine.UserInputPlaceholder | execution_engine.js:85-88 | a `{{user_input_<v>}}` placeholder compiles to the answer stored for `v`, or to "" before `v` is answered (for a `v` without trailing whitespace) |
| Engine.MissingOrPresent | execution_engine.js:86-88 | a lone placeholder renders as the printed value found under its whitespace-trimmed name, "" when there is none |
| Engine.StepKeepsAnswer | execution_engine.js:48-50 | a step that is not a successful `ask_user` for `v` leaves `user_input[v]` as it was |
| Engine.StepStoresAnswer | execution_engine.js:46-50 | a successful `ask_user` step for `v` stores the value its operation returned under `user_input[v]` |
| Engine.NoAnswerBetween | execution_engine.js:27-30 | steps none of which answers `v` leave `user_input[v]` as they found it |
| Engine.AnswerPersists | execution_engine.js:27-30 | the answer given for `v` at step k is what `user_input[v]` holds for every later step, until another step answers `v` |
| Engine.NoAnswerYet | execution_engine.js:27-30 | until some step answers `v`, `user_input[v]` is what it was when the run started |
| Engine.UnansweredRendersEmpty | execution_engine.js:24-31 | in a run that starts with empty `user_input`, every step up to and including the first one that answers `v` is handed `{{user_input_<v>}}` rendered as "" |
| Engine.AnswerRenderedLater | execution_engine.js:85-88 | a later step's `{{user_input_<v>}}` property is handed to its operation holding the answer given at step k, when no step in between answered `v` again |
| Engine.ExecutionEngine.constructor | execution_engine.js:14-17 | the engine keeps the registry and starts with empty `user_input`, the given `utils` and no `project` |
| Engine.ExecutionEngine.ExecuteStep | execution_engine.js:38-51 | `execute_step` fails, changes the context and calls an operation exactly as `StepSpec` says |
| Engine.ExecutionEngine.Execute | execution_engine.js:24-31 | `execute` stores the project and then ends, leaves the context and makes the operation calls exactly as `RunSteps` says; `user_input` only grows |

## Left out

- Handlebars is replaced by `{{name}}` substitution up to the first "}}", against the flat context. Spaces, tabs and line breaks around the name are dropped, as in `{{ name }}`. Helpers, blocks, partials, dotted paths, HTML escaping, the unescaped triple-stash `{{{name}}}`, the escaped `\{{` and the `~` whitespace control are not modelled: `{{{a}}}` renders as the value of `{a` followed by "}". Handlebars parse errors are not modelled either: an unclosed "{{" is kept as text, and a name with inner spaces is looked up as it stands.
- Engine.AnswerRenderedLater: asks that the answers stored in `user_input` be leaves (strings, as the interactive prompt returns), because an object answer would be flattened into further `user_input_<v>_…` keys.
- Engine.UnansweredRendersEmpty: asks the same of the answers stored before the step, for the same reason.
- `Template.LeafText` prints values with a simplified `String(v)`: numbers are integers, and an object prints as "[object Object]".
- Numbers are integers; floating point is not modelled.
- `utils` is `{ logger }` (index.js:60-62), and line 28 logs through `utils.logger`. Flattening descends through `logger` into the Logger instance's own data fields (`logDir`, `logLevel`, `logToConsole`, `logToFile`, `logFileName`, `levels`), giving keys such as `utils_logger_logDir`. Its methods live on the prototype, so the model takes `utils` as a plain value. `undefined` property values are not represented.
- `logger.info` at line 28 only logs, so the model treats it as doing nothing.
- Operations are pure functions of the compiled step and the context that return a value or throw. The model leaves out their I/O: files, shell commands, prompts, HTTP. It also leaves out any change an operation makes to the context through the reference it receives.
- The registry is a map from names to operations. Names inherited from `Object.prototype` (such as "toString") are not modelled, and neither is a registered value that is falsy.
- JavaScript lists integer-like keys first when it enumerates an object. The model keeps every key in insertion order.
- A step is modelled as an object, and `config.steps` as a sequence of them. Badly shaped input is not modelled:
  - a step that is a string or an array at top level;
  - a `null` or `undefined` step, which throws at line 28 (`step.name`) before it is compiled;
  - a number or boolean step, which compiles to `{}` through `Object.entries` at line 84 and then fails as an unknown operation of type "undefined";
  - a config whose `steps` is missing or not iterable: `execute` stores `project` at line 25 and then throws a TypeError at the `for…of` on line 27, so the run fails after the context has changed.
- `async`/`await`: each step is awaited before the next, so a run is a sequential loop. Concurrency is not modelled.
- `operation_loader.js`, `config_loader.js`, `index.js`, `upload.js`, `utils/upload-log.js` and `utils/logger.js` are not part of this model. They do filesystem, network, YAML and command-line work.
