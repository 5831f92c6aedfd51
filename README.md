# Rewrite pass of the live React editor

The editor compiles the text in its box into a function of `React`, `render`
and `require`. Babel transforms the JSX and Acorn parses the result into an
ESTree program. Then a small rewrite pass runs: it finds the first top-level
statement of the form `React.createElement(...);` and replaces that one slot
of the program body with `render(React.createElement(...));`. When the
function is called, the element that would otherwise be thrown away reaches the
preview. A fault raised while compiling is caught. The caller then gets the
fault's message, shown in the preview, and a callable that does nothing.

This project models that pass:

- `estree.dfy` (module `Estree`) describes the tree as plain JavaScript data:
  objects with named fields, arrays, strings, numbers, booleans and null. It
  also models the safe path lookup of the object-path library (`ObjPath.get`).
  The lookup follows own fields of objects and yields `None`, standing for
  `undefined`, at the first missing segment. It never faults.
- `editor.dfy` (module `Editor`) holds the rest:
  - the shape matcher `IsReactNode` and the locator `FindReactNode`
    (`Array.find`);
  - the index search `IndexOf` (`Array.indexOf`) and the replacement
    statement `RenderCall`;
  - the specification `Spliced` of the rewritten body, and the class
    `Program`, whose method `SpliceRenderCall` overwrites one slot of its
    `body` array in place;
  - `GetWrapperFunction`, which gives the outcome of a compile.
- `wrappers.dfy` holds the `Option` type.

The replacement statement is built structurally as
`ExpressionStatement(CallExpression(Identifier("render"), [expression]))`.
Here `expression` is the matched statement's own expression. The source
instead generates the statement's text, drops its final semicolon and
re-parses `render(<text>)`. The structural node stands for that round trip
and assumes that the code generator and the parser agree.

`Array.indexOf` compares by identity; the model compares by value.
`FindThenIndexOf` shows that both find the same slot. A statement before the
located one that was equal to it would have matched first.

## Model

| member | source | states |
|---|---|---|
| `Editor.IsReactNode` | src/components/Editor.jsx:10-19 | the matcher itself; a node it accepts has an "expression" field (so reading it never faults), and `IsReactNodeShape` gives its exact characterisation |
| `Editor.IsReactNodeShape` | src/components/Editor.jsx:10-19 | the matcher holds exactly when the node is an object with type "ExpressionStatement" whose expression has a callee whose "object" and "property" are objects named "React" and "createElement" (both directions) |
| `Editor.MissingSegmentRejects` | src/components/Editor.jsx:11-18 | a node lacking "type", or any segment of either callee path, is rejected rather than faulting |
| `Editor.ExpressionKindIgnored` | src/components/Editor.jsx:12-17 | the kind of the expression is not checked: any expression kind, e.g. a NewExpression, whose callee is `React.createElement` matches |
| `Estree.Get` | src/components/Editor.jsx:12-13 | the safe lookup: the empty path gives the node, a one-segment lookup gives the own field's value when the object has it and `None` otherwise, a non-empty lookup succeeds only through an own field of an object, null and strings yield `None`; `GetAppend` and `AbsentStaysAbsent` characterise longer paths |
| `Estree.GetAppend` | src/components/Editor.jsx:12-13 | looking up a dotted path is looking up its prefix and then the rest from what was found |
| `Estree.AbsentStaysAbsent` | src/components/Editor.jsx:12-13 | once a segment is absent every longer path is absent too (the lookup returns undefined, never a fault) |
| `Editor.FindReactNode` | src/components/Editor.jsx:21-24 | the result is a body statement that the matcher accepts and that no earlier statement matches; it is absent exactly when no statement matches |
| `Editor.IndexOf` | src/components/Editor.jsx:60 | the result is -1 exactly when the value is not in the body, otherwise the lowest index holding it |
| `Editor.FindThenIndexOf` | src/components/Editor.jsx:55-60 | the index computed from the located statement is the lowest index whose statement matches, and no earlier statement matches |
| `Editor.Argument` | src/components/Editor.jsx:61-66 | the render argument is the matched statement's expression, and it is the construction call itself: its callee's object is named "React" and its property "createElement" |
| `Editor.RenderCall` | src/components/Editor.jsx:62-68 | the replacement is an expression statement calling the identifier `render` with the single given argument, and it does not itself match |
| `Editor.Spliced` | src/components/Editor.jsx:59-73 | the rewritten body has the same length as the original |
| `Editor.SplicedNoTarget` | src/components/Editor.jsx:59-73 | with no matching statement the body is returned exactly as it was |
| `Editor.SplicedAtFirstTarget` | src/components/Editor.jsx:60-72 | with the first match at k, the result is the body with only slot k replaced by the render call of its expression |
| `Editor.SplicedChangesOnlyFirstTarget` | src/components/Editor.jsx:59-73 | any slot that changes is the first matching statement, it becomes the render call of its expression, and every other slot is unchanged |
| `Editor.NonTargetKept` | src/components/Editor.jsx:22-23 | a statement the matcher rejects keeps its slot; so a createElement call nested in a declaration or another statement is never selected |
| `Editor.LaterTargetsKept` | src/components/Editor.jsx:23-24 | when several top-level statements match, every match after the first stays unchanged |
| `Editor.SplicedWrapsOne` | src/components/Editor.jsx:59-73 | exactly one matching statement is consumed when there is one, none otherwise |
| `Editor.GreetExample` | src/components/SandBox.jsx:12-16 | in these lines of the default sample after JSX is transformed, behind the `"use strict"` directive (the import's declarations omitted), the directive and the nested call are untouched and the trailing `React.createElement(Greet, null)` becomes `render(...)` of it |
| `Editor.Program.constructor` | src/components/Editor.jsx:49-51 | the program's body array holds the parsed statements |
| `Editor.Program.SpliceRenderCall` | src/components/Editor.jsx:55-73 | the in-place update leaves the body array equal to `Spliced` of its old contents |
| `Editor.GetWrapperFunction` | src/components/Editor.jsx:40-83 | a transform or parse fault yields the error outcome with its message; a parsed program yields the wrapper over the spliced body |

## Left out

- Babel's transform and Acorn's parser are foreign libraries. Their combined
  result is the parameter `Front`: parsed statements or a fault message.
- The text round trip that builds `render(...)` is replaced by structural
  construction: escodegen's generation of the matched statement, the
  `.slice(0, -1)` and the re-parse. Position fields (`start`, `end`) and
  Acorn's `optional` flag on the call are not modelled.
- `new Function("React", "render", "require", ...)` builds a function from
  the generated text; `run` is what calls it. Neither is modelled. `Wrapper`
  stands for the function built over the body.
- GetWrapperFunction: does not model four faults that the surrounding `try`
  also catches. They are escodegen generating the matched statement (Editor.jsx
  line 62), the re-parse of the `render(...)` text (line 67), and, on line 76,
  escodegen generating the whole program and `new Function` building the
  wrapper. The model assumes all four succeed, so a parsed program always
  yields `Wrapper`.
- The preview: `render`, `ReactDOM.createRoot`, the red `<pre>` error display
  and the no-op callable's logging are DOM and console I/O. `ErrorShown`
  carries only the message.
- `require` (Editor.jsx lines 36-38) forwards a module name to the
  caller's `moduleResolver`, which is outside the pass.
- `compile` (lines 87-89) only returns `getWrapperFunction(code)`, which
  `GetWrapperFunction` models. `run` (lines 92-95) calls the compiled function
  and `getCompiledCode` (lines 98-100) stringifies it; neither is modelled.
- `SandBox.jsx` (text area, debounce timer, DOM refs) is UI glue.
- object-path's code is not modelled line by line. Its `get` is modelled
  (`Estree.Get`) from its documented behaviour for the segments used here. Named lookups on strings
  and arrays (`length`, numeric indexes) yield `None` in the model, and no
  matcher path uses them.
- Numbers in the tree are integers. The pass never inspects them.
