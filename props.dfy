/**
 * The parameter-shape extractor: finding a named function in a parsed source
 * file and folding the types of its parameters into a tree of named props.
 *
 * The TypeScript type checker is not modelled; what the extractor asks of it
 * is part of the input instead. A `Ty` carries the type's text
 * (`getText()`) and, when the checker calls it an object type
 * (`isObject()`, which holds for arrays and functions too), its properties
 * in declaration order; each property carries the type of its first
 * declaration, or nothing when it has none.
 */
module Props {
  import opened Wrappers

  datatype Ty = Plain(text: string) | Object(text: string, members: seq<Member>)

  /** A property of an object type and the type at its first declaration site. */
  datatype Member = Member(name: string, declared: Option<Ty>)

  datatype Param = Param(name: string, ty: Ty)

  /** The three kinds of declaration the lookup can return. */
  datatype FnKind = FunctionDecl | ArrowFunction | FunctionExpression

  datatype FunctionLike = FunctionLike(kind: FnKind, params: seq<Param>)

  /** A top-level `function` declaration; anonymous ones have no name. */
  datatype FunctionDeclaration = FunctionDeclaration(name: Option<string>, params: seq<Param>)

  /** The syntax kind of a variable's initializer. */
  datatype ExprKind = ArrowExpr | FunctionExpr | OtherExpr

  /** An initializer, with the number of call signatures of its type. */
  datatype Initializer = Initializer(kind: ExprKind, callSignatures: nat, params: seq<Param>)

  datatype VariableDeclaration = VariableDeclaration(name: string, initializer: Option<Initializer>)

  datatype SourceFile = SourceFile(functions: seq<FunctionDeclaration>, variables: seq<VariableDeclaration>)

  /** The extractor's output: `type` is either type text or nested props. */
  datatype PropType = Text(text: string) | Nested(props: seq<Prop>)

  datatype Prop = Prop(name: string, shape: PropType)

  /** The property name that is always reported as `string` at the first level. */
  const StyleName: string := "style"

  // ---------------------------------------------------------------------
  // Finding the function
  // ---------------------------------------------------------------------

  /** Index of the first function declaration named `name`, or `|fns|`. */
  function FindFunction(fns: seq<FunctionDeclaration>, name: string): (i: nat)
    ensures i <= |fns|
    ensures i < |fns| ==> fns[i].name == Some(name)
    ensures forall k :: 0 <= k < i ==> fns[k].name != Some(name)
    decreases |fns|
  {
    if fns == [] then 0
    else if fns[0].name == Some(name) then 0
    else 1 + FindFunction(fns[1..], name)
  }

  /** The test the variable search applies: an initializer with a call signature, and the name. */
  predicate IsCallableNamed(v: VariableDeclaration, name: string) {
    v.initializer.Some? && v.initializer.value.callSignatures > 0 && v.name == name
  }

  /** Index of the first variable passing `IsCallableNamed`, or `|vars|`. */
  function FindCallableVariable(vars: seq<VariableDeclaration>, name: string): (i: nat)
    ensures i <= |vars|
    ensures i < |vars| ==> IsCallableNamed(vars[i], name)
    ensures forall k :: 0 <= k < i ==> !IsCallableNamed(vars[k], name)
    decreases |vars|
  {
    if vars == [] then 0
    else if IsCallableNamed(vars[0], name) then 0
    else 1 + FindCallableVariable(vars[1..], name)
  }

  /** `getFunctionDeclaration(source, name)` */
  function GetFunctionDeclaration(source: SourceFile, name: string): Option<FunctionLike> {
    var fi := FindFunction(source.functions, name);
    if fi < |source.functions| then
      Some(FunctionLike(FunctionDecl, source.functions[fi].params))
    else
      var vi := FindCallableVariable(source.variables, name);
      if vi == |source.variables| then None
      else
        var init := source.variables[vi].initializer.value;
        match init.kind
        case ArrowExpr => Some(FunctionLike(ArrowFunction, init.params))
        case FunctionExpr => Some(FunctionLike(FunctionExpression, init.params))
        case OtherExpr => None
  }

  /** A function declaration with the name wins over every variable, and the first such declaration is the one returned. */
  lemma FunctionDeclarationWins(source: SourceFile, name: string, i: nat)
    requires i < |source.functions| && source.functions[i].name == Some(name)
    ensures var r := GetFunctionDeclaration(source, name);
      r.Some? && r.value.kind == FunctionDecl
      && (exists j :: (0 <= j <= i && source.functions[j].name == Some(name)
        && r.value.params == source.functions[j].params
        && forall k :: 0 <= k < j ==> source.functions[k].name != Some(name)))
  {
    var fi := FindFunction(source.functions, name);
    assert fi <= i;
  }

  /**
   * Without a function declaration of that name, the result comes from the
   * first variable with that name whose initializer has a call signature:
   * its parameters when the initializer is an arrow function or a function
   * expression, nothing for any other initializer, and nothing when there is
   * no such variable.
   */
  lemma VariableFallback(source: SourceFile, name: string)
    requires forall k :: 0 <= k < |source.functions| ==> source.functions[k].name != Some(name)
    ensures var r := GetFunctionDeclaration(source, name);
      var vars := source.variables;
      && ((forall i :: 0 <= i < |vars| ==> !IsCallableNamed(vars[i], name)) ==> r == None)
      && (forall i :: (0 <= i < |vars| && IsCallableNamed(vars[i], name)
                       && (forall k :: 0 <= k < i ==> !IsCallableNamed(vars[k], name))) ==>
            var init := vars[i].initializer.value;
            && (init.kind == ArrowExpr ==> r == Some(FunctionLike(ArrowFunction, init.params)))
            && (init.kind == FunctionExpr ==> r == Some(FunctionLike(FunctionExpression, init.params)))
            && (init.kind == OtherExpr ==> r == None))
  {
    var fi := FindFunction(source.functions, name);
    assert fi == |source.functions|;
    var vi := FindCallableVariable(source.variables, name);
    forall i | 0 <= i < |source.variables| && IsCallableNamed(source.variables[i], name)
        && (forall k :: 0 <= k < i ==> !IsCallableNamed(source.variables[k], name))
      ensures vi == i
    {
    }
  }

  /** A name that neither a function nor a callable variable carries yields nothing, not an error. */
  lemma AbsentNameIsNone(source: SourceFile, name: string)
    requires forall k :: 0 <= k < |source.functions| ==> source.functions[k].name != Some(name)
    requires forall k :: 0 <= k < |source.variables| ==> source.variables[k].name != name
    ensures GetFunctionDeclaration(source, name) == None
  {
    var vi := FindCallableVariable(source.variables, name);
    assert vi == |source.variables|;
  }

  // ---------------------------------------------------------------------
  // Extracting the parameter shapes
  // ---------------------------------------------------------------------

  predicate IsObject(t: Ty) {
    t.Object?
  }

  /**
   * One property of an object type at nesting budget `depth`. At the first
   * level (`topLevel`) a property named `style` is reported as `string`
   * before its declaration is looked at. A property without a declaration
   * fails: `getDeclarations()[0]` is undefined and `.getType()` throws.
   */
  function ExtractMember(m: Member, depth: int, topLevel: bool): (r: Result<Prop>)
    ensures r.Success? ==> r.value.name == m.name
    ensures topLevel && m.name == StyleName ==> r == Success(Prop(StyleName, Text("string")))
    ensures !(topLevel && m.name == StyleName) && m.declared.None? ==> r.Failure?
    ensures (!(topLevel && m.name == StyleName) && m.declared.Some?
      && (!IsObject(m.declared.value) || depth <= 1)) ==> r == Success(Prop(m.name, Text(m.declared.value.text)))
    decreases depth, 0, 0
  {
    if topLevel && m.name == StyleName then
      Success(Prop(StyleName, Text("string")))
    else if m.declared.None? then
      Failure("Cannot read properties of undefined (reading 'getType')")
    else
      var t := m.declared.value;
      if IsObject(t) && depth > 1 then
        match ExtractObjectProps(t.members, depth - 1)
        case Success(ps) => Success(Prop(m.name, Nested(ps)))
        case Failure(e) => Failure(e)
      else
        Success(Prop(m.name, Text(t.text)))
  }

  /** `properties.map(...)`: every member in order, stopping at the first that throws. */
  function ExtractMembers(ms: seq<Member>, depth: int, topLevel: bool): (r: Result<seq<Prop>>)
    ensures r.Success? ==> (|r.value| == |ms|
      && forall i :: 0 <= i < |ms| ==> Success(r.value[i]) == ExtractMember(ms[i], depth, topLevel))
    ensures r.Failure? <==> exists i :: 0 <= i < |ms| && ExtractMember(ms[i], depth, topLevel).Failure?
    decreases depth, 1, |ms|
  {
    if ms == [] then Success([])
    else
      match ExtractMember(ms[0], depth, topLevel)
      case Failure(e) => Failure(e)
      case Success(p) =>
        match ExtractMembers(ms[1..], depth, topLevel)
        case Failure(e) => Failure(e)
        case Success(ps) =>
          assert forall i :: 1 <= i < |ms| ==> ms[i] == ms[1..][i - 1];
          Success([p] + ps)
  }

  /** `extractObjectProps(type, depth)` over the properties of an object type. */
  function ExtractObjectProps(ms: seq<Member>, depth: int): (r: Result<seq<Prop>>)
    decreases depth, 2, 0
  {
    if depth <= 0 then Success([]) else ExtractMembers(ms, depth, false)
  }

  /** One parameter: an object type with budget left becomes nested props, anything else its type text. */
  function ExtractParam(p: Param, depth: int): Result<Prop> {
    if IsObject(p.ty) && depth > 0 then
      match ExtractMembers(p.ty.members, depth, true)
      case Success(ps) => Success(Prop(p.name, Nested(ps)))
      case Failure(e) => Failure(e)
    else
      Success(Prop(p.name, Text(p.ty.text)))
  }

  /** `extractParamTypes(fnDecl, depth)`: one prop per parameter, in order. */
  function ExtractParamTypes(params: seq<Param>, depth: int): (r: Result<seq<Prop>>)
    decreases |params|
  {
    if params == [] then Success([])
    else
      match ExtractParam(params[0], depth)
      case Failure(e) => Failure(e)
      case Success(p) =>
        match ExtractParamTypes(params[1..], depth)
        case Failure(e) => Failure(e)
        case Success(ps) => Success([p] + ps)
  }

  /** The default budget of `extractParamTypes`. */
  const DefaultDepth: int := 3

  /**
   * The extraction fails exactly when the members of some object-typed
   * parameter with budget left fail. A successful extraction has exactly one
   * entry per parameter, in order and named by the parameter: an object type
   * with budget left becomes the props of its members, extracted as the
   * first level, and any other parameter is its type text.
   */
  lemma {:induction false} ParamsOnePerParameter(params: seq<Param>, depth: int)
    ensures var r := ExtractParamTypes(params, depth);
      r.Failure? <==> exists i :: 0 <= i < |params| && IsObject(params[i].ty) && depth > 0
                                   && ExtractMembers(params[i].ty.members, depth, true).Failure?
    ensures var r := ExtractParamTypes(params, depth);
      r.Success? ==> (|r.value| == |params|
        && forall i :: 0 <= i < |params| ==> (r.value[i].name == params[i].name
          && ((!IsObject(params[i].ty) || depth <= 0) ==> r.value[i].shape == Text(params[i].ty.text))
          && ((IsObject(params[i].ty) && depth > 0) ==>
                ExtractMembers(params[i].ty.members, depth, true).Success?
                && r.value[i].shape == Nested(ExtractMembers(params[i].ty.members, depth, true).value))))
    ensures params == [] ==> ExtractParamTypes(params, depth) == Success([])
    decreases |params|
  {
    if params != [] {
      ParamsOnePerParameter(params[1..], depth);
      var r := ExtractParamTypes(params, depth);
      var rest := ExtractParamTypes(params[1..], depth);
      forall i | 1 <= i < |params|
        ensures params[i] == params[1..][i - 1]
      {
      }
      if r.Success? {
        assert r.value[1..] == rest.value;
        forall i | 1 <= i < |params|
          ensures r.value[i] == rest.value[i - 1]
        {
        }
      } else if ExtractParam(params[0], depth).Success? {
        var i :| 0 <= i < |params[1..]| && IsObject(params[1..][i].ty) && depth > 0
                 && ExtractMembers(params[1..][i].ty.members, depth, true).Failure?;
        assert params[i + 1] == params[1..][i];
      }
    }
  }

  /** Only a property without a declaration makes the extraction fail; without such properties it always succeeds. */
  lemma {:induction false} ParamsFailOnlyOnMissingDeclaration(params: seq<Param>, depth: int)
    requires forall i :: 0 <= i < |params| ==> FullyDeclared(params[i].ty)
    ensures ExtractParamTypes(params, depth).Success?
    decreases |params|
  {
    if params != [] {
      ParamsFailOnlyOnMissingDeclaration(params[1..], depth);
      var p := params[0];
      if IsObject(p.ty) && depth > 0 {
        MembersSucceed(p.ty.members, depth, true);
      }
    }
  }

  /** Every property reachable through the object types of `t` has a declaration. */
  predicate FullyDeclared(t: Ty) {
    t.Object? ==> forall m | m in t.members :: m.declared.Some? && FullyDeclared(m.declared.value)
  }

  /** Every member has a declaration, and so has every property reachable through it. */
  predicate MembersDeclared(ms: seq<Member>) {
    forall m | m in ms :: m.declared.Some? && FullyDeclared(m.declared.value)
  }

  lemma {:induction false} MembersSucceed(ms: seq<Member>, depth: int, topLevel: bool)
    requires MembersDeclared(ms)
    ensures ExtractMembers(ms, depth, topLevel).Success?
    decreases depth, |ms|
  {
    if ms != [] {
      assert forall m | m in ms[1..] :: m in ms;
      MembersSucceed(ms[1..], depth, topLevel);
      var m := ms[0];
      if !(topLevel && m.name == StyleName) {
        var t := m.declared.value;
        if IsObject(t) && depth > 1 {
          MembersSucceed(t.members, depth - 1, false);
          assert ExtractObjectProps(t.members, depth - 1) == ExtractMembers(t.members, depth - 1, false);
        }
        assert ExtractMember(m, depth, topLevel).Success?;
      }
    }
  }

  // ---------------------------------------------------------------------
  // The nesting bound
  // ---------------------------------------------------------------------

  /** Levels of `Nested` in a prop type: type text has height 0. */
  function Height(t: PropType): nat
    decreases t, 1
  {
    match t
    case Text(_) => 0
    case Nested(ps) => 1 + MaxHeight(ps)
  }

  function MaxHeight(ps: seq<Prop>): nat
    decreases ps, 0
  {
    if ps == [] then 0
    else
      var h := Height(ps[0].shape);
      var rest := MaxHeight(ps[1..]);
      if h < rest then rest else h
  }

  /** `MaxHeight` bounds every member's height. */
  lemma {:induction false} MaxHeightBound(ps: seq<Prop>, bound: nat)
    requires forall i :: 0 <= i < |ps| ==> Height(ps[i].shape) <= bound
    ensures MaxHeight(ps) <= bound
    decreases |ps|
  {
    if ps != [] {
      MaxHeightBound(ps[1..], bound);
    }
  }

  /** The props of one member list at budget `depth` nest at most `depth - 1` levels below it. */
  lemma {:induction false} MembersHeight(ms: seq<Member>, depth: int, topLevel: bool)
    requires depth >= 1
    ensures var r := ExtractMembers(ms, depth, topLevel);
      r.Success? ==> forall i :: 0 <= i < |r.value| ==> Height(r.value[i].shape) <= depth - 1
    decreases depth, |ms|
  {
    var r := ExtractMembers(ms, depth, topLevel);
    if r.Success? {
      forall i | 0 <= i < |r.value|
        ensures Height(r.value[i].shape) <= depth - 1
      {
        var m := ms[i];
        if !(topLevel && m.name == StyleName) && m.declared.Some? {
          var t := m.declared.value;
          if IsObject(t) && depth > 1 {
            var inner := ExtractObjectProps(t.members, depth - 1);
            MembersHeight(t.members, depth - 1, false);
            MaxHeightBound(inner.value, depth - 2);
          }
        }
      }
    }
  }

  /** No extracted parameter nests deeper than the budget: nesting never exceeds `depth` levels. */
  lemma {:induction false} ParamsHeight(params: seq<Param>, depth: int)
    ensures var r := ExtractParamTypes(params, depth);
      r.Success? ==> forall i :: 0 <= i < |r.value| ==> Height(r.value[i].shape) <= if depth < 0 then 0 else depth
    decreases |params|
  {
    var r := ExtractParamTypes(params, depth);
    if params != [] && r.Success? {
      ParamsHeight(params[1..], depth);
      var p := params[0];
      if IsObject(p.ty) && depth > 0 {
        var ps := ExtractMembers(p.ty.members, depth, true);
        MembersHeight(p.ty.members, depth, true);
        MaxHeightBound(ps.value, depth - 1);
      }
      assert r.value[1..] == ExtractParamTypes(params[1..], depth).value;
      assert forall i :: 1 <= i < |r.value| ==> r.value[i] == r.value[1..][i - 1];
    }
  }

  /** `extractObjectProps` has no budget left at `depth <= 0` and returns nothing. */
  lemma ObjectPropsExhausted(ms: seq<Member>, depth: int)
    requires depth <= 0
    ensures ExtractObjectProps(ms, depth) == Success([])
  {
  }

  /** Below the first level a property named `style` is treated like any other property. */
  lemma {:induction false} NestedStyleNotOverridden(t: Ty, depth: int)
    requires IsObject(t) && depth > 1
    ensures ExtractMember(Member(StyleName, Some(t)), depth, false)
      == match ExtractObjectProps(t.members, depth - 1)
         case Success(ps) => Success(Prop(StyleName, Nested(ps)))
         case Failure(e) => Failure(e)
  {
  }
}
