/**
 * The rewrite pass of the live editor: after the source has been transformed
 * and parsed, find the first top-level statement that is a
 * `React.createElement(...)` expression statement and replace it, in place,
 * by the statement `render(<that expression>)`, where `render` is the
 * callback the compiled unit receives.  Compile-time faults are contained:
 * the caller gets either the rewritten program or the fault's message.
 */
module Editor {
  import opened Wrappers
  import opened Estree

  // ---------------------------------------------------------------------
  // Names the matcher and the splice use

  const StatementKind := "ExpressionStatement"
  const LibraryName := "React"
  const FactoryName := "createElement"
  const RenderName := "render"

  /** `node.type`, read directly. */
  const TypePath: Path := ["type"]
  /** "expression.callee.object.name", split at its dots. */
  const ObjectNamePath: Path := ["expression", "callee", "object", "name"]
  /** "expression.callee.property.name", split at its dots. */
  const PropertyNamePath: Path := ["expression", "callee", "property", "name"]

  /** An ESTree node: an object whose "type" field names its kind. */
  function Node(kind: string, fields: map<string, Value>): Value
  {
    Obj(fields["type" := Str(kind)])
  }

  /** An Identifier node. */
  function Ident(name: string): Value
  {
    Node("Identifier", map["name" := Str(name)])
  }

  /** A Literal node holding `value`. */
  function Literal(value: Value): Value
  {
    Node("Literal", map["value" := value])
  }

  /** The callee `React.createElement` as a MemberExpression node. */
  function FactoryCallee(): Value
  {
    Node("MemberExpression", map["object" := Ident(LibraryName), "property" := Ident(FactoryName)])
  }

  // ---------------------------------------------------------------------
  // Shape matcher (isReactNode)

  /** `v` is an object whose own "name" field is the string `name`. */
  predicate NamedAs(v: Value, name: string)
  {
    v.Obj? && "name" in v.fields && v.fields["name"] == Str(name)
  }

  /**
   * The target shape written out field by field, without the path lookup:
   * an expression statement holding an object with a callee object whose
   * "object" and "property" fields are named "React" and "createElement".
   */
  predicate HasTargetShape(n: Value)
  {
    && n.Obj? && "type" in n.fields && n.fields["type"] == Str(StatementKind)
    && "expression" in n.fields
    && var e := n.fields["expression"];
    && e.Obj? && "callee" in e.fields
    && var c := e.fields["callee"];
    && c.Obj? && "object" in c.fields && "property" in c.fields
    && NamedAs(c.fields["object"], LibraryName)
    && NamedAs(c.fields["property"], FactoryName)
  }

  /**
   * The matcher: the statement is an expression statement whose
   * `expression.callee.object.name` is "React" and whose
   * `expression.callee.property.name` is "createElement".  Every lookup is
   * safe, so a node lacking any segment is simply not a match.  Nothing checks
   * the kind of the expression itself.  A node it accepts has an
   * "expression" field, which the splice reads.
   */
  predicate IsReactNode(node: Value)
    ensures IsReactNode(node) ==> node.Obj? && "expression" in node.fields
  {
    && Get(node, TypePath) == Some(Str(StatementKind))
    && Get(node, ObjectNamePath) == Some(Str(LibraryName))
    && Get(node, PropertyNamePath) == Some(Str(FactoryName))
  }

  /** The matcher holds exactly of the nodes of the target shape. */
  lemma IsReactNodeShape(n: Value)
    ensures IsReactNode(n) <==> HasTargetShape(n)
  {
  }

  /**
   * A node missing any segment of either path (its expression, the callee,
   * the callee's object or property, or their name) is rejected, and so is
   * one without a "type"; the lookup itself never faults.
   */
  lemma MissingSegmentRejects(n: Value, k: nat)
    requires 1 <= k <= 4
    requires || Get(n, TypePath) == None
             || Get(n, ObjectNamePath[..k]) == None
             || Get(n, PropertyNamePath[..k]) == None
    ensures !IsReactNode(n)
  {
    if Get(n, ObjectNamePath[..k]) == None {
      AbsentStaysAbsent(n, ObjectNamePath[..k], ObjectNamePath[k..]);
      assert ObjectNamePath[..k] + ObjectNamePath[k..] == ObjectNamePath;
    } else if Get(n, PropertyNamePath[..k]) == None {
      AbsentStaysAbsent(n, PropertyNamePath[..k], PropertyNamePath[k..]);
      assert PropertyNamePath[..k] + PropertyNamePath[k..] == PropertyNamePath;
    }
  }

  /**
   * The kind of the expression is not examined: an expression statement
   * holding `new React.createElement(...)` (a NewExpression) matches just as
   * a call does, whatever else the expression holds.
   */
  lemma ExpressionKindIgnored(kind: string, rest: map<string, Value>)
    ensures IsReactNode(Node(StatementKind, map["expression" := Node(kind, rest["callee" := FactoryCallee()])]))
  {
  }

  /**
   * The matched statement's expression: what generating the statement's text
   * and dropping its trailing semicolon denotes.  It is the construction call
   * itself, its callee being `React.createElement`.
   */
  function Argument(stmt: Value): (e: Value)
    requires IsReactNode(stmt)
    ensures Get(stmt, ["expression"]) == Some(e)
    ensures Get(e, ["callee", "object", "name"]) == Some(Str(LibraryName))
    ensures Get(e, ["callee", "property", "name"]) == Some(Str(FactoryName))
  {
    stmt.fields["expression"]
  }

  // ---------------------------------------------------------------------
  // The replacement statement

  /**
   * `render(argument)` as an expression statement, built structurally: an
   * expression statement calling the identifier `render` with the single
   * argument given.  It is not itself a target: its callee has no "object"
   * or "property".
   */
  function RenderCall(argument: Value): (r: Value)
    ensures Get(r, TypePath) == Some(Str(StatementKind))
    ensures Get(r, ["expression", "type"]) == Some(Str("CallExpression"))
    ensures Get(r, ["expression", "callee", "type"]) == Some(Str("Identifier"))
    ensures Get(r, ["expression", "callee", "name"]) == Some(Str(RenderName))
    ensures Get(r, ["expression", "arguments"]) == Some(Arr([argument]))
    ensures !IsReactNode(r)
  {
    Node(StatementKind, map["expression" :=
      Node("CallExpression", map["callee" := Ident(RenderName), "arguments" := Arr([argument])])])
  }

  // ---------------------------------------------------------------------
  // Target locator (findReactNode) and the index search (indexOf)

  /** `body.find(isReactNode)`: the first statement the matcher accepts. */
  function FindReactNode(body: seq<Value>): (r: Option<Value>)
    ensures r.Some? ==> IsReactNode(r.value) && r.value in body
    ensures r.Some? ==> exists k :: 0 <= k < |body| && r.value == body[k] &&
                                   forall j :: 0 <= j < k ==> !IsReactNode(body[j])
    ensures r.None? <==> forall i :: 0 <= i < |body| ==> !IsReactNode(body[i])
  {
    if body == [] then None
    else if IsReactNode(body[0]) then Some(body[0])
    else FindReactNode(body[1..])
  }

  /** `body.indexOf(x)`: the lowest index holding `x`, or -1. */
  function IndexOf(body: seq<Value>, x: Value): (r: int)
    ensures -1 <= r < |body|
    ensures r == -1 <==> x !in body
    ensures 0 <= r ==> body[r] == x && forall j :: 0 <= j < r ==> body[j] != x
  {
    if body == [] then -1
    else if body[0] == x then 0
    else
      var k := IndexOf(body[1..], x);
      if k == -1 then -1 else k + 1
  }

  /**
   * The index the splice computes from the located statement is the lowest
   * index whose statement the matcher accepts.  (An earlier statement equal
   * to the located one would have matched first, so searching by value finds
   * the same slot as searching by identity.)
   */
  lemma {:induction false} FindThenIndexOf(body: seq<Value>)
    requires FindReactNode(body).Some?
    ensures var k := IndexOf(body, FindReactNode(body).value);
      && 0 <= k < |body|
      && body[k] == FindReactNode(body).value
      && IsReactNode(body[k])
      && forall j :: 0 <= j < k ==> !IsReactNode(body[j])
  {
    if !IsReactNode(body[0]) {
      var n := FindReactNode(body[1..]).value;
      assert FindReactNode(body).value == n;
      FindThenIndexOf(body[1..]);
      assert body[0] != n;
      assert IndexOf(body, n) == IndexOf(body[1..], n) + 1;
    }
  }

  // ---------------------------------------------------------------------
  // Splice: the specification of the in-place replacement

  /**
   * The program body after the rewrite: the first statement the matcher
   * accepts becomes `render(<its expression>)`; every other statement stays.
   */
  function Spliced(body: seq<Value>): (r: seq<Value>)
    ensures |r| == |body|
  {
    if body == [] then []
    else if IsReactNode(body[0]) then [RenderCall(Argument(body[0]))] + body[1..]
    else [body[0]] + Spliced(body[1..])
  }

  /** With no target the body passes through unchanged. */
  lemma {:induction false} SplicedNoTarget(body: seq<Value>)
    requires forall i :: 0 <= i < |body| ==> !IsReactNode(body[i])
    ensures Spliced(body) == body
  {
    if body != [] {
      SplicedNoTarget(body[1..]);
    }
  }

  /** With a first target at `k`, exactly slot `k` is replaced by the render call. */
  lemma {:induction false} SplicedAtFirstTarget(body: seq<Value>, k: nat)
    requires k < |body| && IsReactNode(body[k])
    requires forall j :: 0 <= j < k ==> !IsReactNode(body[j])
    ensures Spliced(body) == body[k := RenderCall(Argument(body[k]))]
  {
    if k > 0 {
      SplicedAtFirstTarget(body[1..], k - 1);
      assert body[1..][k - 1 := RenderCall(Argument(body[k]))] == body[k := RenderCall(Argument(body[k]))][1..];
    }
  }

  /**
   * The rewrite keeps the length, and any slot it changes is the first
   * statement the matcher accepts, which becomes the render call of its
   * expression; so at most one slot changes.
   */
  lemma SplicedChangesOnlyFirstTarget(body: seq<Value>, i: nat)
    requires i < |body| && Spliced(body)[i] != body[i]
    ensures IsReactNode(body[i])
    ensures forall j :: 0 <= j < i ==> !IsReactNode(body[j])
    ensures Spliced(body) == body[i := RenderCall(Argument(body[i]))]
  {
    var f := FindReactNode(body);
    if f.None? {
      SplicedNoTarget(body);
      assert false;
    }
    FindThenIndexOf(body);
    var k := IndexOf(body, f.value);
    SplicedAtFirstTarget(body, k);
    var r := RenderCall(Argument(body[k]));
    assert Spliced(body) == body[k := r];
    assert i == k;
  }

  /**
   * Only top-level statements the matcher accepts can be rewritten: a
   * statement it rejects, such as a function declaration whose body builds
   * an element, or a call that merely passes one along, keeps its slot.
   */
  lemma NonTargetKept(body: seq<Value>, i: nat)
    requires i < |body| && !IsReactNode(body[i])
    ensures Spliced(body)[i] == body[i]
  {
    if Spliced(body)[i] != body[i] {
      SplicedChangesOnlyFirstTarget(body, i);
    }
  }

  /** When several statements match, the later ones stay as they were. */
  lemma LaterTargetsKept(body: seq<Value>, i: nat, j: nat)
    requires i < j < |body| && IsReactNode(body[i]) && IsReactNode(body[j])
    ensures Spliced(body)[j] == body[j]
  {
    if Spliced(body)[j] != body[j] {
      SplicedChangesOnlyFirstTarget(body, j);
    }
  }

  /** How many top-level statements the matcher accepts. */
  function TargetCount(body: seq<Value>): nat
  {
    if body == [] then 0
    else (if IsReactNode(body[0]) then 1 else 0) + TargetCount(body[1..])
  }

  /**
   * Exactly one target is consumed when there is one: the render call is
   * not a target, and the remaining targets are left for nobody to wrap.
   */
  lemma {:induction false} SplicedWrapsOne(body: seq<Value>)
    ensures TargetCount(Spliced(body)) == if TargetCount(body) == 0 then 0 else TargetCount(body) - 1
  {
    if body != [] {
      if IsReactNode(body[0]) {
        assert ([RenderCall(Argument(body[0]))] + body[1..])[1..] == body[1..];
      } else {
        SplicedWrapsOne(body[1..]);
        assert ([body[0]] + Spliced(body[1..]))[1..] == Spliced(body[1..]);
      }
    }
  }

  /** The `"use strict";` directive the transformer puts first: an expression
      statement holding a string literal, so it has no callee. */
  function UseStrict(): Value
  {
    Node(StatementKind, map["expression" := Literal(Str("use strict")),
                            "directive" := Str("use strict")])
  }

  /** `function Greet() { return React.createElement("span", null, "Hello World!"); }` */
  function GreetDeclaration(): Value
  {
    var inner := Node("CallExpression", map["callee" := FactoryCallee(),
                                            "arguments" := Arr([Literal(Str("span")), Literal(Null), Literal(Str("Hello World!"))])]);
    Node("FunctionDeclaration", map["id" := Ident("Greet"),
      "body" := Node("BlockStatement", map["body" := Arr([Node("ReturnStatement", map["argument" := inner])])])])
  }

  /** `React.createElement(Greet, null)` */
  function GreetElement(): Value
  {
    Node("CallExpression", map["callee" := FactoryCallee(), "arguments" := Arr([Ident("Greet"), Literal(Null)])])
  }

  /** The directive has the statement kind of a target but no callee. */
  lemma DirectiveRejected()
    ensures !IsReactNode(UseStrict())
  {
    IsReactNodeShape(UseStrict());
  }

  /** A declaration is not a target, whatever calls its body holds. */
  lemma GreetDeclarationRejected()
    ensures !IsReactNode(GreetDeclaration())
  {
    IsReactNodeShape(GreetDeclaration());
  }

  /**
   * Lines 12-16 of the editor's sample program after transformation, behind
   * the `"use strict";` directive (the declarations its import line becomes
   * are not included): the declaration of `Greet`, whose body builds an
   * element, followed by the statement `React.createElement(Greet, null);`.
   * The directive and the call nested in the declaration are not touched; the
   * trailing statement becomes `render(React.createElement(Greet, null));`.
   */
  lemma GreetExample()
    ensures Spliced([UseStrict(), GreetDeclaration(), Node(StatementKind, map["expression" := GreetElement()])])
              == [UseStrict(), GreetDeclaration(), RenderCall(GreetElement())]
  {
    var stmt := Node(StatementKind, map["expression" := GreetElement()]);
    var body := [UseStrict(), GreetDeclaration(), stmt];
    DirectiveRejected();
    GreetDeclarationRejected();
    IsReactNodeShape(stmt);
    SplicedAtFirstTarget(body, 2);
  }

  // ---------------------------------------------------------------------
  // The parsed program, whose body the splice updates in place

  class Program {
    var body: array<Value>

    /** The program tree as the parser delivers it. */
    constructor (statements: seq<Value>)
      ensures fresh(body) && body[..] == statements
    {
      body := new Value[|statements|](i requires 0 <= i < |statements| => statements[i]);
    }

    /**
     * Locate the target, find its index, and overwrite that one slot with
     * the render call; with no target nothing is written.
     */
    method SpliceRenderCall()
      modifies body
      ensures body[..] == Spliced(old(body[..]))
    {
      var rnode := FindReactNode(body[..]);
      if rnode.Some? {
        var nodeIndex := IndexOf(body[..], rnode.value);
        FindThenIndexOf(body[..]);
        SplicedAtFirstTarget(body[..], nodeIndex);
        body[nodeIndex] := RenderCall(Argument(rnode.value));
      } else {
        SplicedNoTarget(body[..]);
      }
    }
  }

  // ---------------------------------------------------------------------
  // Compile outcome with failure containment

  /** What the source transformer and the parser produce together: the
      top-level statements of the program, or the message of the fault they
      raised. */
  datatype Front = Parsed(statements: seq<Value>) | Rejected(message: string)

  /**
   * What compiling yields: a wrapper over the rewritten statements, with
   * `React`, `render` and `require` as its parameters; or, after a caught
   * fault, the fault's message (rendered as the preview) and a callable that
   * does nothing.
   */
  datatype Outcome = Wrapper(statements: seq<Value>) | ErrorShown(message: string)

  /** Parse, rewrite in place, and wrap; a fault never escapes. */
  method GetWrapperFunction(front: Front) returns (out: Outcome)
    ensures front.Rejected? ==> out == ErrorShown(front.message)
    ensures front.Parsed? ==> out == Wrapper(Spliced(front.statements))
  {
    match front
    case Rejected(message) =>
      out := ErrorShown(message);
    case Parsed(statements) =>
      var ast := new Program(statements);
      ast.SpliceRenderCall();
      out := Wrapper(ast.body[..]);
  }
}
