# Groovy inlay parameter hints

This project models the inlay parameter hint provider of the IntelliJ Groovy
plugin (`GroovyInlayParameterHintsProvider`). Given a Groovy call, the provider
gives at most one inline hint per parameter name: the name, placed where the
first argument bound to that parameter starts. A vararg parameter whose
arguments form a group gets a single `...name` hint at the group's first
argument. For the same call it also gives the host
the method's fully qualified name and its parameter names, and it publishes a
default deny-list of methods that never get hints.

The provider is a chain of pure list and map operations over what the IDE
platform has already computed. The model takes that computed data as input:

- the resolved signature, a list of `Param`s whose names may be absent;
- the argument mapping, one `ArgInfo` per parameter, holding the bound `Arg`s
  (named or not, with a start offset) and a vararg (`isMultiArg`) flag;
- the resolved `Method`, with its containing class's qualified name and, for
  a GDK method, the static method it stands for.

Each of these may be absent (`Option`). A PSI element is either a `GrCall`
carrying these three inputs or some `OtherElement`.

Files:

- `wrappers.dfy`: `Option`, for Kotlin's nullable values and the `?:` operator.
- `kotlin_collections.dfy`: the Kotlin library operations the provider relies
  on. It holds `zip` and `toMap`. An insertion-ordered map (LinkedHashMap) is
  modelled as its entry sequence in iteration order. `Put` keeps an existing
  key in place and appends a new one.
- `groovy_inlay_hints.dfy`: the provider, with its pipeline, its method
  information and its deny-list. The properties of the pipeline follow.

The main theorem is `ParameterHintsSpec`. It describes the hints of a resolved
call using the signature and the argument mapping only:

- only the first min(|params|, |infos|) parameters count;
- each hinted name belongs to some parameter, and no name is hinted twice;
- the hint uses the binding of the LAST parameter with that name;
- hints follow the position of the FIRST parameter with each name;
- a binding gives a hint exactly when it has an argument and is not a vararg
  binding holding a named argument;
- the hint text is `name`, or `...name` for a vararg binding;
- the hint offset is the start of the binding's first argument.

Only a vararg binding that holds a named argument is dropped (line 52). A
plain binding whose argument is named keeps its hint (`KeptBindingGetsHint`).

## Model

| member | source | states |
|---|---|---|
| `KotlinCollections.Zip` | plugins/groovy/src/org/jetbrains/plugins/groovy/codeInsight/hint/GroovyInlayParameterHintsProvider.kt:43 | pairing stops at the shorter list; pair i holds the i-th parameter and the i-th binding |
| `KotlinCollections.Put` | plugins/groovy/src/org/jetbrains/plugins/groovy/codeInsight/hint/GroovyInlayParameterHintsProvider.kt:48 | putting a key already in the map replaces its value at its position; putting a new key appends it |
| `KotlinCollections.ToMapSpec` | plugins/groovy/src/org/jetbrains/plugins/groovy/codeInsight/hint/GroovyInlayParameterHintsProvider.kt:46-48 | `toMap` keeps each key once, ordered by its first occurrence, holding its last occurrence's value; no key is lost or invented |
| `GroovyInlayParameterHintsProvider.NamedBindingsSpec` | plugins/groovy/src/org/jetbrains/plugins/groovy/codeInsight/hint/GroovyInlayParameterHintsProvider.kt:46-47 | unnamed parameters are dropped; a name is listed iff a parameter carries it; names first appear in declaration order; a name's last listing holds its last parameter's binding |
| `GroovyInlayParameterHintsProvider.BindingsSpec` | plugins/groovy/src/org/jetbrains/plugins/groovy/codeInsight/hint/GroovyInlayParameterHintsProvider.kt:43-48 | the binding map has one entry per parameter name, at the first such parameter's position, holding the last such parameter's binding; every named parameter is present |
| `GroovyInlayParameterHintsProvider.HintsOfEntries` | plugins/groovy/src/org/jetbrains/plugins/groovy/codeInsight/hint/GroovyInlayParameterHintsProvider.kt:50-61 | after filtering, exactly one hint is made per entry that has an argument and is not a vararg holding a named argument; map order is kept; text and offset come from that entry |
| `GroovyInlayParameterHintsProvider.DoGetParameterHints` | plugins/groovy/src/org/jetbrains/plugins/groovy/codeInsight/hint/GroovyInlayParameterHintsProvider.kt:40-42 | the result is null exactly when the signature or the argument mapping is absent |
| `GroovyInlayParameterHintsProvider.GetParameterHints` | plugins/groovy/src/org/jetbrains/plugins/groovy/codeInsight/hint/GroovyInlayParameterHintsProvider.kt:38 | an element that is not a call, or a call without a signature or an argument mapping, gets the empty list; a resolved call gets the hints of `DoGetParameterHints` |
| `GroovyInlayParameterHintsProvider.ParameterHintsSpec` | plugins/groovy/src/org/jetbrains/plugins/groovy/codeInsight/hint/GroovyInlayParameterHintsProvider.kt:40-62 | hints are one per hinted name, ordered by each name's first parameter, built from the last parameter's binding; hinted names are exactly the names whose last binding qualifies; text is the name or `...name`; offset is where the first argument starts |
| `GroovyInlayParameterHintsProvider.UnnamedParametersGiveNoHints` | plugins/groovy/src/org/jetbrains/plugins/groovy/codeInsight/hint/GroovyInlayParameterHintsProvider.kt:46-48 | a signature whose parameters all lack names yields no hints |
| `GroovyInlayParameterHintsProvider.DroppedBindingGetsNoHint` | plugins/groovy/src/org/jetbrains/plugins/groovy/codeInsight/hint/GroovyInlayParameterHintsProvider.kt:51-57 | a name gets no hint when its last parameter's binding has no argument, or is a vararg binding with a named argument |
| `GroovyInlayParameterHintsProvider.KeptBindingGetsHint` | plugins/groovy/src/org/jetbrains/plugins/groovy/codeInsight/hint/GroovyInlayParameterHintsProvider.kt:51-59 | a name whose last binding has an argument and is not a vararg holding a named argument gets a hint; a plain binding qualifies even when its argument is named; text is `name` or `...name`; offset is the first argument's start |
| `GroovyInlayParameterHintsProvider.HintCountBound` | plugins/groovy/src/org/jetbrains/plugins/groovy/codeInsight/hint/GroovyInlayParameterHintsProvider.kt:46-61 | there are never more hints than distinct parameter names |
| `GroovyInlayParameterHintsProvider.OnlyZippedPairsCount` | plugins/groovy/src/org/jetbrains/plugins/groovy/codeInsight/hint/GroovyInlayParameterHintsProvider.kt:43 | parameters or bindings past the shorter of the two lists do not change the hints |
| `GroovyInlayParameterHintsProvider.TwoNamedParameters` | plugins/groovy/src/org/jetbrains/plugins/groovy/codeInsight/hint/GroovyInlayParameterHintsProvider.kt:43-48 | two differently named parameters each keep their own binding, in declaration order |
| `GroovyInlayParameterHintsProvider.VarargCallExample` | plugins/groovy/src/org/jetbrains/plugins/groovy/codeInsight/hint/GroovyInlayParameterHintsProvider.kt:55-59 | `f(int a, String... b)` called as `f(1, "x", "y")` gets `a` at `1` and `...b` at `"x"` |
| `GroovyInlayParameterHintsProvider.NamedVarargCallExample` | plugins/groovy/src/org/jetbrains/plugins/groovy/codeInsight/hint/GroovyInlayParameterHintsProvider.kt:51-53 | a vararg that captures a named argument gets no hint; the other parameter keeps its hint |
| `GroovyInlayParameterHintsProvider.ParamNames` | plugins/groovy/src/org/jetbrains/plugins/groovy/codeInsight/hint/GroovyInlayParameterHintsProvider.kt:74 | one name per parameter: the parameter's own name, or `""` when it has none |
| `GroovyInlayParameterHintsProvider.MethodInfoOf` | plugins/groovy/src/org/jetbrains/plugins/groovy/codeInsight/hint/GroovyInlayParameterHintsProvider.kt:71-76 | absent exactly when there is no qualified containing class; otherwise the name is `class.method` and entry i of the parameter names is parameter i's name, or `""` when it has none |
| `GroovyInlayParameterHintsProvider.GetMethodInfo` | plugins/groovy/src/org/jetbrains/plugins/groovy/codeInsight/hint/GroovyInlayParameterHintsProvider.kt:64-69 | present exactly for a call that resolves to a method whose unwrapped form has a qualified containing class; its value is the method info of the GDK static method, or of the resolved method itself when it is not a GDK method |
| `GroovyInlayParameterHintsProvider.GdkMethodIsUnwrapped` | plugins/groovy/src/org/jetbrains/plugins/groovy/codeInsight/hint/GroovyInlayParameterHintsProvider.kt:67 | a GDK method is replaced by its static method; the wrapper's own class and parameters play no part |
| `GroovyInlayParameterHintsProvider.GdkCallExample` | plugins/groovy/src/org/jetbrains/plugins/groovy/codeInsight/hint/GroovyInlayParameterHintsProvider.kt:64-76 | a GDK wrapper around `some.package.Foo.bar(String s)` gives `("some.package.Foo.bar", ["s"])` |
| `GroovyInlayParameterHintsProvider.DefaultBlackList` | plugins/groovy/src/org/jetbrains/plugins/groovy/codeInsight/hint/GroovyInlayParameterHintsProvider.kt:32-35 | the default deny-list (the constant `BlackList`) is a fixed set holding one class-wide wildcard pattern (ending in `.*`) |
| `KotlinCollections.ToMap` | plugins/groovy/src/org/jetbrains/plugins/groovy/codeInsight/hint/GroovyInlayParameterHintsProvider.kt:48 | `toMap`: the entries put one after another into an empty insertion-ordered map; no contract of its own, specified by `ToMapSpec` |
| `GroovyInlayParameterHintsProvider.NamedBindings` | plugins/groovy/src/org/jetbrains/plugins/groovy/codeInsight/hint/GroovyInlayParameterHintsProvider.kt:46-47 | `mapNotNull` keeping each named parameter as `(name, binding)`; no contract of its own, specified by `NamedBindingsSpec` |
| `GroovyInlayParameterHintsProvider.Bindings` | plugins/groovy/src/org/jetbrains/plugins/groovy/codeInsight/hint/GroovyInlayParameterHintsProvider.kt:43-48 | the name-keyed binding map `zip` + `mapNotNull` + `toMap`; no contract of its own, specified by `BindingsSpec` |
| `GroovyInlayParameterHintsProvider.KeepBinding` | plugins/groovy/src/org/jetbrains/plugins/groovy/codeInsight/hint/GroovyInlayParameterHintsProvider.kt:52 | the `filterValues` test: not a vararg, or no argument is named; no contract of its own, used by `HintsOfEntries`, `DroppedBindingGetsNoHint`, `KeptBindingGetsHint` |
| `GroovyInlayParameterHintsProvider.DropNamedVarargs` | plugins/groovy/src/org/jetbrains/plugins/groovy/codeInsight/hint/GroovyInlayParameterHintsProvider.kt:51-53 | `filterValues` with `KeepBinding`; no contract of its own, specified by `HintsOfEntries` |
| `GroovyInlayParameterHintsProvider.InlayText` | plugins/groovy/src/org/jetbrains/plugins/groovy/codeInsight/hint/GroovyInlayParameterHintsProvider.kt:58 | `...name` for a vararg binding, `name` otherwise; no contract of its own, stated by `KeptBindingGetsHint` |
| `GroovyInlayParameterHintsProvider.HintFor` | plugins/groovy/src/org/jetbrains/plugins/groovy/codeInsight/hint/GroovyInlayParameterHintsProvider.kt:57-59 | the hint at the first argument's start offset; no contract of its own, stated by `ParameterHintsSpec` and `KeptBindingGetsHint` |
| `GroovyInlayParameterHintsProvider.ToHints` | plugins/groovy/src/org/jetbrains/plugins/groovy/codeInsight/hint/GroovyInlayParameterHintsProvider.kt:55-61 | the final `mapNotNull`: one hint per entry with a first argument; no contract of its own, specified by `HintsOfEntries` |
| `GroovyInlayParameterHintsProvider.Unwrapped` | plugins/groovy/src/org/jetbrains/plugins/groovy/codeInsight/hint/GroovyInlayParameterHintsProvider.kt:67 | a GDK method's static method, otherwise the method itself; no contract of its own, stated by `GetMethodInfo` and `GdkMethodIsUnwrapped` |
| `GroovyInlayParameterHintsProvider.QualifiedName` | plugins/groovy/src/org/jetbrains/plugins/groovy/codeInsight/hint/GroovyInlayParameterHintsProvider.kt:73 | `class + "." + method`, an assumption about `StringUtil.getQualifiedName`; no contract of its own, stated by `MethodInfoOf` |

## Left out

- Signature creation and argument mapping (`GrClosureSignatureUtil.createSignature`, `mapParametersToArguments`) are given inputs. They do overload and vararg binding in code that is not part of this model.
- Method resolution (`resolveMethod`), `GrGdkMethod.staticMethod` and `containingClass.qualifiedName` are given inputs. A missing containing class and a class without a qualified name are one absent value. A GDK method whose static method is null behaves like a plain method, as the `?:` fallback makes it.
- `StringUtil.getQualifiedName` is not part of this model. It is taken to be `class + "." + method`. The platform helper returns the bare method name when the class prefix is empty; a qualified class name is never empty, so the model does not treat that case (`QualifiedName`).
- `textRange.startOffset` is the given `Arg.startOffset`. Rendering of `InlayInfo` and `MethodInfo` is not modelled.
- `getBlackListDependencyLanguage` (`JavaLanguage.INSTANCE`) is a platform constant with no logic, and is left out.
- The host applies the deny-list. Matching names against its wildcard patterns is not done by this provider and is not modelled.
- Purity and idempotence need no lemma: every operation is a Dafny function, so equal inputs give equal results.
