/**
 * Inlay parameter hints for Groovy calls: the hint provider of the Groovy
 * plugin (GroovyInlayParameterHintsProvider).
 *
 * Everything the provider asks of the IDE platform is an input here: the
 * resolved signature of a call (its parameter list), the binding of call
 * arguments to those parameters, and the method a call resolves to. The
 * provider turns these into hints (a text and a source offset each) and into
 * the method information that the host matches against its deny-list.
 */
module GroovyInlayParameterHintsProvider {
  import opened Wrappers
  import opened KotlinCollections

  /** A declared parameter of the resolved signature; its name may be absent. */
  datatype Param = Param(name: Option<string>)

  /** A call argument: whether it is a named argument (`name: value`) and where its text starts. */
  datatype Arg = Arg(isNamed: bool, startOffset: nat)

  /**
   * The arguments bound to one parameter. `isMultiArg` marks a vararg binding,
   * which may collect several (or no) arguments.
   */
  datatype ArgInfo = ArgInfo(args: seq<Arg>, isMultiArg: bool)

  /** An inlay hint (InlayInfo): the text shown and the offset it is shown at. */
  datatype Hint = Hint(text: string, offset: nat)

  /**
   * A resolved method. `containingClassName` is the qualified name of its
   * containing class, absent when there is no containing class or it has no
   * qualified name. `gdkStaticMethod` is present when the method is a GDK
   * method (GrGdkMethod) that stands for a static method.
   */
  datatype Method = Method(
    name: string,
    containingClassName: Option<string>,
    parameters: seq<Param>,
    gdkStaticMethod: Option<Method>)

  /** What the host matches against its deny-list (MethodInfo). */
  datatype MethodInfo = MethodInfo(fullyQualifiedName: string, paramNames: seq<string>)

  /**
   * The PSI element the provider is asked about. For a call (GrCall), the
   * results of the platform's signature creation, argument mapping and method
   * resolution are given; each may be absent.
   */
  datatype PsiElement =
    | GrCall(signature: Option<seq<Param>>, argumentMapping: Option<seq<ArgInfo>>, resolvedMethod: Option<Method>)
    | OtherElement

  /** A parameter paired with its binding, as produced by `zip`. */
  type Binding = (Param, ArgInfo)

  /** An entry of the name-keyed binding map. */
  type Entry = (string, ArgInfo)

  /* ---------------------------------------------------------------------- */
  /* The hint pipeline                                                       */
  /* ---------------------------------------------------------------------- */

  /** `mapNotNull { name?.let { name to binding } }`: the named parameters' bindings, in order. */
  function NamedBindings(pairs: seq<Binding>): seq<Entry>
  {
    if pairs == [] then []
    else
      var n := |pairs| - 1;
      NamedBindings(pairs[..n]) +
        match pairs[n].0.name
        case Some(k) => [(k, pairs[n].1)]
        case None => []
  }

  /** The `filterValues` test: a vararg binding survives only if none of its arguments is named. */
  predicate KeepBinding(info: ArgInfo)
  {
    !info.isMultiArg || forall a :: a in info.args ==> !a.isNamed
  }

  /** `filterValues`: the entries whose binding passes KeepBinding, in order. */
  function DropNamedVarargs(m: seq<Entry>): seq<Entry>
  {
    if m == [] then []
    else
      var n := |m| - 1;
      DropNamedVarargs(m[..n]) + if KeepBinding(m[n].1) then [m[n]] else []
  }

  /** The hint text: the name, prefixed with `...` for a vararg binding. */
  function InlayText(name: string, info: ArgInfo): string
  {
    if info.isMultiArg then "..." + name else name
  }

  /** The hint for a binding with at least one argument: shown where its first argument starts. */
  function HintFor(name: string, info: ArgInfo): Hint
    requires info.args != []
  {
    Hint(InlayText(name, info), info.args[0].startOffset)
  }

  /** The final `mapNotNull`: one hint per entry whose binding has a first argument. */
  function ToHints(m: seq<Entry>): seq<Hint>
  {
    if m == [] then []
    else
      var n := |m| - 1;
      ToHints(m[..n]) + if m[n].1.args != [] then [HintFor(m[n].0, m[n].1)] else []
  }

  /** The name-keyed, declaration-ordered binding map built from a signature and an argument mapping. */
  function Bindings(params: seq<Param>, infos: seq<ArgInfo>): seq<Entry>
  {
    ToMap(NamedBindings(Zip(params, infos)))
  }

  /**
   * `GrCall.doGetParameterHints`: absent when the signature or the argument
   * mapping is absent, otherwise the hints of the binding map.
   */
  function DoGetParameterHints(signature: Option<seq<Param>>, argumentMapping: Option<seq<ArgInfo>>): (r: Option<seq<Hint>>)
    ensures r.None? <==> signature.None? || argumentMapping.None?
  {
    match (signature, argumentMapping)
    case (Some(params), Some(infos)) => Some(ToHints(DropNamedVarargs(Bindings(params, infos))))
    case _ => None
  }

  /** `getParameterHints`: hints for a call, and no hints for anything else or when resolution fails. */
  function GetParameterHints(element: PsiElement): (r: seq<Hint>)
    ensures !element.GrCall? ==> r == []
    ensures element.GrCall? && (element.signature.None? || element.argumentMapping.None?) ==> r == []
    ensures element.GrCall? && element.signature.Some? && element.argumentMapping.Some? ==>
      r == DoGetParameterHints(element.signature, element.argumentMapping).value
  {
    match element
    case GrCall(signature, argumentMapping, _) => DoGetParameterHints(signature, argumentMapping).GetOr([])
    case OtherElement => []
  }

  /* ---------------------------------------------------------------------- */
  /* Method information                                                      */
  /* ---------------------------------------------------------------------- */

  /** `StringUtil.getQualifiedName(className, methodName)`, taken to be the dotted concatenation. */
  function QualifiedName(className: string, methodName: string): string
  {
    className + "." + methodName
  }

  /** The parameter names, with `""` standing for an unnamed parameter. */
  function ParamNames(params: seq<Param>): (r: seq<string>)
    ensures |r| == |params|
    ensures forall i :: 0 <= i < |params| ==>
      (params[i].name == Some(r[i])) || (params[i].name.None? && r[i] == "")
  {
    if params == [] then []
    else [params[0].name.GetOr("")] + ParamNames(params[1..])
  }

  /** `PsiMethod.getMethodInfo`: absent without a qualified containing class. */
  function MethodInfoOf(m: Method): (r: Option<MethodInfo>)
    ensures r.Some? <==> m.containingClassName.Some?
    ensures r.Some? ==>
      && var qualified := r.value.fullyQualifiedName;
      && var cls := m.containingClassName.value;
      && |qualified| == |cls| + 1 + |m.name|
      && qualified[..|cls|] == cls && qualified[|cls|] == '.' && qualified[|cls| + 1..] == m.name
      && |r.value.paramNames| == |m.parameters|
      && forall i :: 0 <= i < |m.parameters| ==>
           (m.parameters[i].name == Some(r.value.paramNames[i])) ||
           (m.parameters[i].name.None? && r.value.paramNames[i] == "")
  {
    match m.containingClassName
    case Some(cls) => Some(MethodInfo(QualifiedName(cls, m.name), ParamNames(m.parameters)))
    case None => None
  }

  /** A GDK method stands for its static method; any other method for itself. */
  function Unwrapped(m: Method): Method
  {
    m.gdkStaticMethod.GetOr(m)
  }

  /** `getMethodInfo`: the method information of the method a call resolves to. */
  function GetMethodInfo(element: PsiElement): (r: Option<MethodInfo>)
    ensures r.Some? <==>
      element.GrCall? && element.resolvedMethod.Some? &&
      Unwrapped(element.resolvedMethod.value).containingClassName.Some?
    ensures element.GrCall? && element.resolvedMethod.Some? && element.resolvedMethod.value.gdkStaticMethod.None? ==>
      r == MethodInfoOf(element.resolvedMethod.value)
    ensures element.GrCall? && element.resolvedMethod.Some? && element.resolvedMethod.value.gdkStaticMethod.Some? ==>
      r == MethodInfoOf(element.resolvedMethod.value.gdkStaticMethod.value)
  {
    if element.GrCall? && element.resolvedMethod.Some? then
      MethodInfoOf(Unwrapped(element.resolvedMethod.value))
    else
      None
  }

  /** The default deny-list: one wildcard pattern covering every DefaultGroovyMethods method. */
  const BlackList: set<string> := {"org.codehaus.groovy.runtime.DefaultGroovyMethods.*"}

  /** A pattern naming all members of one class: it ends in `.*`. */
  predicate IsClassWildcard(pattern: string)
  {
    |pattern| >= 2 && pattern[|pattern| - 2..] == ".*"
  }

  /** `defaultBlackList`: a fixed set of one class-wide wildcard pattern. */
  function DefaultBlackList(): (r: set<string>)
    ensures |r| == 1
    ensures forall p :: p in r ==> IsClassWildcard(p)
  {
    BlackList
  }

  /* ---------------------------------------------------------------------- */
  /* What the hint pipeline computes                                         */
  /* ---------------------------------------------------------------------- */

  /** A binding produces a hint: it survives the vararg filter and has a first argument. */
  predicate Emits(info: ArgInfo)
  {
    KeepBinding(info) && info.args != []
  }

  /** Position of the first pair whose parameter is named `k`, or `|pairs|` when there is none. */
  ghost function FirstNamed(pairs: seq<Binding>, k: string): (i: nat)
    ensures i <= |pairs|
    ensures i < |pairs| ==> pairs[i].0.name == Some(k)
  {
    if pairs == [] then 0
    else if pairs[0].0.name == Some(k) then 0
    else 1 + FirstNamed(pairs[1..], k)
  }

  /** Position of the last pair whose parameter is named `k`, or -1 when there is none. */
  ghost function LastNamed(pairs: seq<Binding>, k: string): (i: int)
    ensures -1 <= i < |pairs|
    ensures 0 <= i ==> pairs[i].0.name == Some(k)
  {
    if pairs == [] then -1
    else if pairs[|pairs| - 1].0.name == Some(k) then |pairs| - 1
    else LastNamed(pairs[..|pairs| - 1], k)
  }

  lemma {:induction false} FirstNamedIsFirst(pairs: seq<Binding>, k: string, j: nat)
    requires j < |pairs| && pairs[j].0.name == Some(k)
    ensures FirstNamed(pairs, k) <= j
  {
    if pairs[0].0.name != Some(k) {
      FirstNamedIsFirst(pairs[1..], k, j - 1);
    }
  }

  lemma {:induction false} LastNamedIsLast(pairs: seq<Binding>, k: string, j: nat)
    requires j < |pairs| && pairs[j].0.name == Some(k)
    ensures j <= LastNamed(pairs, k)
  {
    if pairs[|pairs| - 1].0.name != Some(k) {
      LastNamedIsLast(pairs[..|pairs| - 1], k, j);
    }
  }

  lemma FirstNamedSnoc(pairs: seq<Binding>, p: Binding, k: string)
    ensures FirstNamed(pairs + [p], k) ==
      if FirstNamed(pairs, k) < |pairs| then FirstNamed(pairs, k)
      else if p.0.name == Some(k) then |pairs| else |pairs| + 1
  {
    var a, b := FirstNamed(pairs + [p], k), FirstNamed(pairs, k);
    if b < |pairs| {
      FirstNamedIsFirst(pairs + [p], k, b);
    } else if p.0.name == Some(k) {
      FirstNamedIsFirst(pairs + [p], k, |pairs|);
    }
    if a < |pairs| {
      assert (pairs + [p])[a] == pairs[a];
      FirstNamedIsFirst(pairs, k, a);
    }
  }

  lemma LastNamedSnoc(pairs: seq<Binding>, p: Binding, k: string)
    ensures LastNamed(pairs + [p], k) == if p.0.name == Some(k) then |pairs| else LastNamed(pairs, k)
  {
  }

  /**
   * `es` lists each named parameter's binding under its name, in declaration
   * order: a name is listed iff some parameter carries it, names are first
   * listed in the order their first parameters are declared, and the last
   * listing of a name holds the binding of its last parameter.
   */
  ghost predicate ListsNamedBindings(pairs: seq<Binding>, es: seq<Entry>)
  {
    && (forall k :: KeyIndex(es, k) < |es| <==> FirstNamed(pairs, k) < |pairs|)
    && (forall k1, k2 :: KeyIndex(es, k1) < KeyIndex(es, k2) ==> FirstNamed(pairs, k1) < FirstNamed(pairs, k2))
    && (forall k :: 0 <= LastKeyIndex(es, k) ==>
          0 <= LastNamed(pairs, k) && es[LastKeyIndex(es, k)].1 == pairs[LastNamed(pairs, k)].1)
  }

  /** An unnamed parameter adds nothing to the named bindings. */
  lemma UnnamedStep(pre: seq<Binding>, p: Binding, es: seq<Entry>)
    requires ListsNamedBindings(pre, es)
    requires p.0.name.None?
    ensures ListsNamedBindings(pre + [p], es)
  {
    var n := |pre|;
    forall k ensures FirstNamed(pre + [p], k) == (if FirstNamed(pre, k) < n then FirstNamed(pre, k) else n + 1)
      && LastNamed(pre + [p], k) == LastNamed(pre, k)
    {
      FirstNamedSnoc(pre, p, k);
      LastNamedSnoc(pre, p, k);
    }
  }

  /** A named parameter appends its binding under its name. */
  lemma NamedStep(pre: seq<Binding>, p: Binding, es: seq<Entry>)
    requires ListsNamedBindings(pre, es)
    requires p.0.name.Some?
    ensures ListsNamedBindings(pre + [p], es + [(p.0.name.value, p.1)])
  {
    var n, k0 := |pre|, p.0.name.value;
    var pairs, es' := pre + [p], es + [(k0, p.1)];
    forall k ensures FirstNamed(pairs, k) == (if FirstNamed(pre, k) < n then FirstNamed(pre, k) else if k0 == k then n else n + 1)
      && LastNamed(pairs, k) == (if k0 == k then n else LastNamed(pre, k))
      && KeyIndex(es', k) == (if KeyIndex(es, k) < |es| then KeyIndex(es, k) else if k0 == k then |es| else |es| + 1)
      && LastKeyIndex(es', k) == (if k0 == k then |es| else LastKeyIndex(es, k))
    {
      FirstNamedSnoc(pre, p, k);
      LastNamedSnoc(pre, p, k);
      KeyIndexSnoc(es, (k0, p.1), k);
      LastKeyIndexSnoc(es, (k0, p.1), k);
    }
  }

  /** `mapNotNull` over the zipped pairs lists the named bindings as ListsNamedBindings says. */
  lemma {:induction false} NamedBindingsSpec(pairs: seq<Binding>)
    ensures ListsNamedBindings(pairs, NamedBindings(pairs))
  {
    if pairs != [] {
      var n := |pairs| - 1;
      var pre, p := pairs[..n], pairs[n];
      assert pairs == pre + [p];
      NamedBindingsSpec(pre);
      if p.0.name.Some? {
        assert NamedBindings(pairs) == NamedBindings(pre) + [(p.0.name.value, p.1)];
        NamedStep(pre, p, NamedBindings(pre));
      } else {
        assert NamedBindings(pairs) == NamedBindings(pre);
        UnnamedStep(pre, p, NamedBindings(pre));
      }
    }
  }

  /**
   * The binding map (`toMap` of the named bindings) holds one entry per
   * parameter name: entries are ordered by the position of the FIRST parameter
   * with that name, each entry holds the binding of the LAST parameter with
   * that name, and no named parameter is missing.
   */
  lemma BindingsSpec(pairs: seq<Binding>)
    ensures var b := ToMap(NamedBindings(pairs));
      && (forall j1, j2 :: 0 <= j1 < j2 < |b| ==> FirstNamed(pairs, b[j1].0) < FirstNamed(pairs, b[j2].0))
      && (forall j :: 0 <= j < |b| ==> 0 <= LastNamed(pairs, b[j].0) && b[j].1 == pairs[LastNamed(pairs, b[j].0)].1)
      && (forall i :: 0 <= i < |pairs| && pairs[i].0.name.Some? ==> KeyIndex(b, pairs[i].0.name.value) < |b|)
  {
    var es := NamedBindings(pairs);
    var b := ToMap(es);
    NamedBindingsSpec(pairs);
    ToMapSpec(es);
    forall j1, j2 | 0 <= j1 < j2 < |b| ensures FirstNamed(pairs, b[j1].0) < FirstNamed(pairs, b[j2].0) {
      assert KeyIndex(es, b[j1].0) < KeyIndex(es, b[j2].0);
    }
    forall j | 0 <= j < |b| ensures 0 <= LastNamed(pairs, b[j].0) && b[j].1 == pairs[LastNamed(pairs, b[j].0)].1 {
      assert 0 <= LastKeyIndex(es, b[j].0);
    }
    forall i | 0 <= i < |pairs| && pairs[i].0.name.Some? ensures KeyIndex(b, pairs[i].0.name.value) < |b| {
      var k := pairs[i].0.name.value;
      FirstNamedIsFirst(pairs, k, i);
      assert KeyIndex(b, es[KeyIndex(es, k)].0) < |b|;
    }
  }

  /** Positions of the entries whose binding produces a hint, in increasing order. */
  ghost function EmittingIndices(m: seq<Entry>): (r: seq<nat>)
    ensures forall j :: 0 <= j < |r| ==> r[j] < |m|
  {
    if m == [] then []
    else
      var n := |m| - 1;
      EmittingIndices(m[..n]) + if Emits(m[n].1) then [n] else []
  }

  /**
   * Filtering named varargs and emitting hints yields, in map order, exactly
   * one hint per entry whose binding Emits, with that entry's name and binding.
   */
  lemma {:induction false} HintsOfEntries(m: seq<Entry>)
    ensures var idx, h := EmittingIndices(m), ToHints(DropNamedVarargs(m));
      && |h| == |idx|
      && (forall j :: 0 <= j < |idx| ==> Emits(m[idx[j]].1) && h[j] == HintFor(m[idx[j]].0, m[idx[j]].1))
      && (forall j1, j2 :: 0 <= j1 < j2 < |idx| ==> idx[j1] < idx[j2])
      && (forall i :: 0 <= i < |m| && Emits(m[i].1) ==> i in idx)
  {
    if m != [] {
      var n := |m| - 1;
      var pre, e := m[..n], m[n];
      HintsOfEntries(pre);
      var f0 := DropNamedVarargs(pre);
      if KeepBinding(e.1) {
        assert DropNamedVarargs(m) == f0 + [e];
        assert (f0 + [e])[..|f0|] == f0;
      } else {
        assert DropNamedVarargs(m) == f0;
      }
      forall i | 0 <= i < n ensures m[i] == pre[i] { }
    }
  }

  /** The names that receive a hint, in the order of the hints. */
  ghost function HintedNames(params: seq<Param>, infos: seq<ArgInfo>): seq<string>
  {
    var b := Bindings(params, infos);
    var idx := EmittingIndices(b);
    seq(|idx|, j requires 0 <= j < |idx| => b[idx[j]].0)
  }

  /**
   * The hints of a resolved call, stated on the signature and the argument
   * mapping alone. Only the first min(|params|, |infos|) parameters count
   * (`zip`). There is one hint per hinted name, at most one per name:
   *  - each hinted name is the name of some considered parameter, and its hint
   *    is built from the binding of the LAST parameter with that name, which
   *    Emits; the text is the name (`...name` for a vararg binding) and the
   *    offset is where the binding's first argument starts;
   *  - hints follow the declaration order of the FIRST parameter of each name;
   *  - every parameter that is the last of its name and whose binding Emits
   *    has its name hinted.
   */
  lemma ParameterHintsSpec(params: seq<Param>, infos: seq<ArgInfo>)
    ensures DoGetParameterHints(Some(params), Some(infos)).Some?
    ensures var r, pairs, names :=
        DoGetParameterHints(Some(params), Some(infos)).value, Zip(params, infos), HintedNames(params, infos);
      && |r| == |names|
      && (forall j :: 0 <= j < |names| ==>
            && 0 <= LastNamed(pairs, names[j])
            && Emits(infos[LastNamed(pairs, names[j])])
            && r[j] == HintFor(names[j], infos[LastNamed(pairs, names[j])]))
      && (forall j1, j2 :: 0 <= j1 < j2 < |names| ==> FirstNamed(pairs, names[j1]) < FirstNamed(pairs, names[j2]))
      && (forall i ::
            (0 <= i < |pairs| && params[i].name.Some? && LastNamed(pairs, params[i].name.value) == i && Emits(infos[i]))
            ==> params[i].name.value in names)
  {
    var pairs := Zip(params, infos);
    var b := Bindings(params, infos);
    var idx := EmittingIndices(b);
    var names := HintedNames(params, infos);
    BindingsSpec(pairs);
    HintsOfEntries(b);
    forall i | 0 <= i < |pairs| && params[i].name.Some? && LastNamed(pairs, params[i].name.value) == i && Emits(infos[i])
      ensures params[i].name.value in names
    {
      var k := params[i].name.value;
      assert pairs[i].0 == params[i];
      var p := KeyIndex(b, k);
      assert b[p].0 == k;
      assert p in idx;
      var j :| 0 <= j < |idx| && idx[j] == p;
      assert names[j] == k;
    }
  }

  /* ---------------------------------------------------------------------- */
  /* Consequences for callers                                                */
  /* ---------------------------------------------------------------------- */

  /** `i` is the last of the zipped parameters that carries its name. */
  ghost predicate LastOfItsName(params: seq<Param>, infos: seq<ArgInfo>, i: nat)
  {
    && i < |params| && i < |infos| && params[i].name.Some?
    && forall j :: i < j < |params| && j < |infos| ==> params[j].name != params[i].name
  }

  lemma LastOfItsNameIsLastNamed(params: seq<Param>, infos: seq<ArgInfo>, i: nat)
    requires LastOfItsName(params, infos, i)
    ensures LastNamed(Zip(params, infos), params[i].name.value) == i
  {
    var pairs := Zip(params, infos);
    LastNamedIsLast(pairs, params[i].name.value, i);
  }

  /** A signature whose parameters all lack names yields no hints. */
  lemma UnnamedParametersGiveNoHints(params: seq<Param>, infos: seq<ArgInfo>)
    requires forall i :: 0 <= i < |params| ==> params[i].name.None?
    ensures DoGetParameterHints(Some(params), Some(infos)) == Some([])
  {
    NoNamesNoBindings(Zip(params, infos));
  }

  lemma {:induction false} NoNamesNoBindings(pairs: seq<Binding>)
    requires forall i :: 0 <= i < |pairs| ==> pairs[i].0.name.None?
    ensures NamedBindings(pairs) == []
  {
    if pairs != [] {
      NoNamesNoBindings(pairs[..|pairs| - 1]);
    }
  }

  /**
   * A parameter that is the last of its name gets no hint when its binding is
   * dropped: a vararg binding holding a named argument, or a binding without
   * arguments.
   */
  lemma DroppedBindingGetsNoHint(params: seq<Param>, infos: seq<ArgInfo>, i: nat)
    requires LastOfItsName(params, infos, i)
    requires infos[i].args == [] || (infos[i].isMultiArg && exists a :: a in infos[i].args && a.isNamed)
    ensures params[i].name.value !in HintedNames(params, infos)
  {
    ParameterHintsSpec(params, infos);
    LastOfItsNameIsLastNamed(params, infos, i);
  }

  /**
   * A parameter that is the last of its name and whose binding Emits gets a
   * hint: its name (`...name` for a vararg binding) at the start of its first
   * argument. A non-vararg binding qualifies even when its argument is named.
   */
  lemma KeptBindingGetsHint(params: seq<Param>, infos: seq<ArgInfo>, i: nat)
    requires LastOfItsName(params, infos, i)
    requires infos[i].args != []
    requires !infos[i].isMultiArg || forall a :: a in infos[i].args ==> !a.isNamed
    ensures var r, names := DoGetParameterHints(Some(params), Some(infos)).value, HintedNames(params, infos);
      exists j :: 0 <= j < |names| && j < |r| && names[j] == params[i].name.value &&
        r[j] == Hint(if infos[i].isMultiArg then "..." + params[i].name.value else params[i].name.value,
                     infos[i].args[0].startOffset)
  {
    ParameterHintsSpec(params, infos);
    LastOfItsNameIsLastNamed(params, infos, i);
    var names := HintedNames(params, infos);
    var k := params[i].name.value;
    assert Zip(params, infos)[i].0 == params[i];
    assert k in names;
  }

  /** The names carried by the parameters of a signature. */
  ghost function DeclaredNames(params: seq<Param>): set<string>
  {
    set i | 0 <= i < |params| && params[i].name.Some? :: params[i].name.value
  }

  lemma {:induction false} DistinctCard(s: seq<string>)
    requires forall j1, j2 :: 0 <= j1 < j2 < |s| ==> s[j1] != s[j2]
    ensures |set x | x in s| == |s|
  {
    if s != [] {
      var n := |s| - 1;
      DistinctCard(s[..n]);
      assert (set x | x in s) == (set x | x in s[..n]) + {s[n]};
    }
  }

  /** There are never more hints than distinct parameter names. */
  lemma HintCountBound(params: seq<Param>, infos: seq<ArgInfo>)
    ensures |DoGetParameterHints(Some(params), Some(infos)).value| <= |DeclaredNames(params)|
  {
    ParameterHintsSpec(params, infos);
    var names, pairs := HintedNames(params, infos), Zip(params, infos);
    var hinted, declared := (set x | x in names), DeclaredNames(params);
    DistinctCard(names);
    forall x | x in hinted ensures x in declared {
      var j :| 0 <= j < |names| && names[j] == x;
      var i := LastNamed(pairs, x);
      assert pairs[i].0 == params[i];
      assert params[i].name.Some? && params[i].name.value == x;
    }
    assert declared == hinted + (declared - hinted);
  }

  /** Parameters or bindings beyond the shorter of the two lists never matter (`zip`). */
  lemma OnlyZippedPairsCount(params: seq<Param>, infos: seq<ArgInfo>)
    ensures var n := Min(|params|, |infos|);
      DoGetParameterHints(Some(params), Some(infos)) == DoGetParameterHints(Some(params[..n]), Some(infos[..n]))
  {
    var n := Min(|params|, |infos|);
    assert Zip(params, infos) == Zip(params[..n], infos[..n]);
  }

  /** `f(int a, String... b)` called as `f(1, "x", "y")`: `a` at `1`, `...b` at `"x"`. */
  lemma VarargCallExample()
    ensures GetParameterHints(GrCall(
        Some([Param(Some("a")), Param(Some("b"))]),
        Some([ArgInfo([Arg(false, 2)], false), ArgInfo([Arg(false, 5), Arg(false, 10)], true)]),
        None))
      == [Hint("a", 2), Hint("...b", 5)]
  {
    var a, b := ArgInfo([Arg(false, 2)], false), ArgInfo([Arg(false, 5), Arg(false, 10)], true);
    var es := [("a", a), ("b", b)];
    TwoNamedParameters("a", "b", a, b);
    assert es[..1] == [("a", a)];
    assert DropNamedVarargs(es[..1]) == [("a", a)];
    assert DropNamedVarargs(es) == es;
    assert ToHints(es[..1]) == [Hint("a", 2)];
    assert "..." + "b" == "...b";
  }

  /** `f(int a, Object... b)` called as `f(1, x: 2)`: the named argument in the vararg leaves only `a`. */
  lemma NamedVarargCallExample()
    ensures GetParameterHints(GrCall(
        Some([Param(Some("a")), Param(Some("b"))]),
        Some([ArgInfo([Arg(false, 2)], false), ArgInfo([Arg(true, 5)], true)]),
        None))
      == [Hint("a", 2)]
  {
    var a, b := ArgInfo([Arg(false, 2)], false), ArgInfo([Arg(true, 5)], true);
    var es := [("a", a), ("b", b)];
    TwoNamedParameters("a", "b", a, b);
    assert es[..1] == [("a", a)];
    assert DropNamedVarargs(es[..1]) == [("a", a)];
    assert !KeepBinding(b);
    assert DropNamedVarargs(es) == [("a", a)];
  }

  /** Two parameters with different names keep their own bindings, in declaration order. */
  lemma TwoNamedParameters(k1: string, k2: string, a: ArgInfo, b: ArgInfo)
    requires k1 != k2
    ensures Bindings([Param(Some(k1)), Param(Some(k2))], [a, b]) == [(k1, a), (k2, b)]
  {
    var pairs := Zip([Param(Some(k1)), Param(Some(k2))], [a, b]);
    assert pairs == [(Param(Some(k1)), a), (Param(Some(k2)), b)];
    assert pairs[..1] == [(Param(Some(k1)), a)];
    assert NamedBindings(pairs[..1]) == [(k1, a)];
    assert NamedBindings(pairs) == [(k1, a), (k2, b)];
    TwoKeysToMap(k1, k2, a, b);
  }

  lemma TwoKeysToMap(k1: string, k2: string, a: ArgInfo, b: ArgInfo)
    requires k1 != k2
    ensures ToMap([(k1, a), (k2, b)]) == [(k1, a), (k2, b)]
  {
    var es := [(k1, a), (k2, b)];
    assert es[..1] == [(k1, a)];
    assert ToMap(es[..1]) == [(k1, a)];
  }

  /** A GDK method is replaced by its static method; the wrapper's own class and parameters play no part. */
  lemma GdkMethodIsUnwrapped(signature: Option<seq<Param>>, argumentMapping: Option<seq<ArgInfo>>, gdk: Method)
    requires gdk.gdkStaticMethod.Some?
    ensures GetMethodInfo(GrCall(signature, argumentMapping, Some(gdk))) == MethodInfoOf(gdk.gdkStaticMethod.value)
  {
  }

  /** A GDK wrapper around `some.package.Foo.bar(String s)` gives `("some.package.Foo.bar", ["s"])`. */
  lemma GdkCallExample()
    ensures GetMethodInfo(GrCall(None, None, Some(Method(
        "bar", Some("org.codehaus.groovy.runtime.DefaultGroovyMethods"), [],
        Some(Method("bar", Some("some.package.Foo"), [Param(Some("s"))], None))))))
      == Some(MethodInfo("some.package.Foo.bar", ["s"]))
  {
    assert QualifiedName("some.package.Foo", "bar") == "some.package.Foo.bar";
    assert ParamNames([Param(Some("s"))]) == ["s"];
  }
}
