/** Matching a callable's actual types against a registry signature with type parameters
    (artifact-model/src/callable_registry.rs). */
module TemplateMatch {
  import opened Wrappers

  datatype Template =
    | TypeParameter(ordinal: nat)
    | Builtin(name: string, arguments: seq<Template>)
    | PackageSymbol(packageId: string, path: string)

  datatype PackageRef = PackageId(id: string) | Dependency(alias: string)

  datatype Symbol = Symbol(package: PackageRef, path: string, abi: Option<string>)

  datatype NominalBase = SymbolBase(symbol: Symbol) | OtherBase(description: string)

  /** The kinds of type no template can name are kept together. */
  datatype Type =
    | BuiltinType(name: string, arguments: seq<Type>)
    | NullableType(inner: Type)
    | SymbolType(symbol: Symbol)
    | AppliedNominal(base: NominalBase, arguments: seq<Type>)
    | OtherType(description: string, parts: seq<Type>)

  // ----- Instances -----

  /** The arguments of a builtin type of the given name. */
  function BuiltinArguments(name: string, actual: Type): Option<seq<Type>> {
    match actual
    case BuiltinType(actualName, arguments) => if actualName == name then Some(arguments) else None
    case NullableType(inner) => if name == "Nullable" then Some([inner]) else None
    case _ => None
  }

  function SymbolOf(actual: Type): Option<Symbol> {
    match actual
    case SymbolType(symbol) => Some(symbol)
    case AppliedNominal(SymbolBase(symbol), arguments) => if arguments == [] then Some(symbol) else None
    case _ => None
  }

  predicate NamesSymbol(packageId: string, path: string, actual: Type) {
    match SymbolOf(actual)
    case Some(symbol) =>
      symbol.package == PackageId(packageId) && symbol.path == path && symbol.abi.Some? && symbol.abi.value != ""
    case None => false
  }

  /** The type is an instance of the template under a substitution for its parameters. */
  ghost predicate Instance(template: Template, actual: Type, subst: seq<Type>) {
    match template
    case TypeParameter(o) => o < |subst| && subst[o] == actual
    case Builtin(name, arguments) =>
      BuiltinArguments(name, actual).Some? && Instances(arguments, BuiltinArguments(name, actual).value, subst)
    case PackageSymbol(packageId, path) => NamesSymbol(packageId, path, actual)
  }

  ghost predicate Instances(templates: seq<Template>, actuals: seq<Type>, subst: seq<Type>) {
    |templates| == |actuals| && forall i :: 0 <= i < |templates| ==> Instance(templates[i], actuals[i], subst)
  }

  ghost predicate Uses(template: Template, o: nat) {
    match template
    case TypeParameter(ordinal) => ordinal == o
    case Builtin(_, arguments) => AnyUses(arguments, o)
    case PackageSymbol(_, _) => false
  }

  ghost predicate AnyUses(templates: seq<Template>, o: nat) {
    exists i :: 0 <= i < |templates| && Uses(templates[i], o)
  }

  /** Putting the substitution into a template. */
  function Instantiate(template: Template, subst: seq<Type>): Type {
    match template
    case TypeParameter(o) => if o < |subst| then subst[o] else OtherType("", [])
    case Builtin(name, arguments) =>
      BuiltinType(name, seq(|arguments|, i requires 0 <= i < |arguments| => Instantiate(arguments[i], subst)))
    case PackageSymbol(packageId, path) => SymbolType(Symbol(PackageId(packageId), path, Some("abi")))
  }

  ghost predicate InRange(template: Template, count: nat) {
    forall o: nat :: Uses(template, o) ==> o < count
  }

  /** No part of the template can be spelled in two ways. */
  ghost predicate OneSpelling(template: Template) {
    match template
    case TypeParameter(_) => true
    case Builtin(name, arguments) => name != "Nullable" && forall i :: 0 <= i < |arguments| ==> OneSpelling(arguments[i])
    case PackageSymbol(_, _) => false
  }

  lemma ArgumentInRange(template: Template, count: nat, i: nat)
    requires template.Builtin? && i < |template.arguments| && InRange(template, count)
    ensures InRange(template.arguments[i], count)
  {
    forall o: nat | Uses(template.arguments[i], o)
      ensures o < count
    {
      assert AnyUses(template.arguments, o);
      assert Uses(template, o);
    }
  }

  lemma {:induction false} InstantiateIsInstance(template: Template, subst: seq<Type>)
    requires InRange(template, |subst|)
    ensures Instance(template, Instantiate(template, subst), subst)
  {
    match template
    case TypeParameter(o) =>
      assert Uses(template, o);
    case Builtin(name, arguments) =>
      forall i | 0 <= i < |arguments|
        ensures Instance(arguments[i], Instantiate(arguments[i], subst), subst)
      {
        ArgumentInRange(template, |subst|, i);
        InstantiateIsInstance(arguments[i], subst);
      }
    case PackageSymbol(_, _) =>
  }

  /** Where nothing can be spelled in two ways, the one instance is the instantiated template. */
  lemma {:induction false} InstanceIsInstantiate(template: Template, actual: Type, subst: seq<Type>)
    requires OneSpelling(template) && Instance(template, actual, subst)
    ensures actual == Instantiate(template, subst)
  {
    match template
    case TypeParameter(_) =>
    case Builtin(name, arguments) =>
      forall i | 0 <= i < |arguments|
        ensures actual.arguments[i] == Instantiate(arguments[i], subst)
      {
        InstanceIsInstantiate(arguments[i], actual.arguments[i], subst);
      }
  }

  /** The type spells out the template with its parameters filled in: a builtin type by name
      and arguments, a nullable type also by its own form, a package symbol by owner, path
      and some ABI, bare or applied to nothing. */
  ghost predicate Spells(template: Template, actual: Type, subst: seq<Type>) {
    match template
    case TypeParameter(o) => o < |subst| && actual == subst[o]
    case Builtin(name, ts) =>
      || (exists args: seq<Type> :: actual == BuiltinType(name, args) && AllSpell(ts, args, subst))
      || (name == "Nullable" && exists inner :: actual == NullableType(inner) && AllSpell(ts, [inner], subst))
    case PackageSymbol(packageId, path) =>
      exists abi: string :: abi != "" && SpellsSymbol(Symbol(PackageId(packageId), path, Some(abi)), actual)
  }

  ghost predicate AllSpell(ts: seq<Template>, args: seq<Type>, subst: seq<Type>) {
    |ts| == |args| && forall i :: 0 <= i < |ts| ==> Spells(ts[i], args[i], subst)
  }

  predicate SpellsSymbol(symbol: Symbol, actual: Type) {
    actual == SymbolType(symbol) || actual == AppliedNominal(SymbolBase(symbol), [])
  }

  lemma SymbolExactly(packageId: string, path: string, actual: Type, subst: seq<Type>)
    ensures NamesSymbol(packageId, path, actual) <==> Spells(PackageSymbol(packageId, path), actual, subst)
  {
    if NamesSymbol(packageId, path, actual) {
      var symbol := SymbolOf(actual).value;
      assert symbol == Symbol(PackageId(packageId), path, Some(symbol.abi.value));
      assert SpellsSymbol(Symbol(PackageId(packageId), path, Some(symbol.abi.value)), actual);
    }
  }

  /** The instances of a template are the types that spell it out. */
  lemma {:induction false} InstanceExactly(template: Template, actual: Type, subst: seq<Type>)
    ensures Instance(template, actual, subst) <==> Spells(template, actual, subst)
  {
    match template
    case TypeParameter(_) =>
    case Builtin(name, ts) =>
      forall i, a | 0 <= i < |ts|
        ensures Instance(ts[i], a, subst) <==> Spells(ts[i], a, subst)
      {
        InstanceExactly(ts[i], a, subst);
      }
      BuiltinExactly(name, ts, actual, subst);
    case PackageSymbol(packageId, path) =>
      SymbolExactly(packageId, path, actual, subst);
  }

  lemma BuiltinExactly(name: string, ts: seq<Template>, actual: Type, subst: seq<Type>)
    requires forall i, a :: 0 <= i < |ts| ==> (Instance(ts[i], a, subst) <==> Spells(ts[i], a, subst))
    ensures Instance(Builtin(name, ts), actual, subst) <==> Spells(Builtin(name, ts), actual, subst)
  {
    forall args
      ensures Instances(ts, args, subst) <==> AllSpell(ts, args, subst)
    {
      hide Instance, Spells;
    }
    match actual
    case BuiltinType(actualName, args) =>
      assert actual == BuiltinType(actualName, args);
      hide Instances, AllSpell;
    case NullableType(inner) =>
      assert actual == NullableType(inner);
      hide Instances, AllSpell;
    case _ =>
      hide Instances, AllSpell;
  }

  // ----- Slots -----

  type Slots = seq<Option<Type>>

  /** A substitution agrees with the slots filled so far. */
  ghost predicate Extends(subst: seq<Type>, slots: Slots) {
    && |subst| == |slots|
    && forall i :: 0 <= i < |slots| && slots[i].Some? ==> subst[i] == slots[i].value
  }

  datatype Verdict = Matched | Mismatch | OutOfRange

  /** What matching the templates from `slots` to `slots'` must achieve: on success the
      new slots stand for exactly the solutions that agree with the old ones, and fill
      exactly the parameters in use; otherwise there is no such solution. */
  ghost predicate Solved(slots: Slots, slots': Slots, templates: seq<Template>, actuals: seq<Type>, v: Verdict) {
    && |slots'| == |slots|
    && (v.Matched? ==> forall s :: Extends(s, slots') <==> Extends(s, slots) && Instances(templates, actuals, s))
    && (v.Matched? ==> forall o :: 0 <= o < |slots| ==> (slots'[o].Some? <==> slots[o].Some? || AnyUses(templates, o)))
    && (!v.Matched? ==> forall s :: Extends(s, slots) ==> !Instances(templates, actuals, s))
    && (v.OutOfRange? ==> exists o: nat :: o >= |slots| && AnyUses(templates, o))
  }

  lemma InstancesAppend(ts: seq<Template>, t: Template, actuals: seq<Type>, a: Type, s: seq<Type>)
    requires |ts| == |actuals|
    ensures Instances(ts + [t], actuals + [a], s) <==> Instances(ts, actuals, s) && Instance(t, a, s)
  {
    hide Instance;
    if Instances(ts + [t], actuals + [a], s) {
      forall i | 0 <= i < |ts|
        ensures Instance(ts[i], actuals[i], s)
      {
        assert (ts + [t])[i] == ts[i] && (actuals + [a])[i] == actuals[i];
      }
      assert (ts + [t])[|ts|] == t && (actuals + [a])[|ts|] == a;
    }
  }

  lemma AnyUsesAppend(ts: seq<Template>, t: Template, o: nat)
    ensures AnyUses(ts + [t], o) <==> AnyUses(ts, o) || Uses(t, o)
  {
    hide Uses;
    if AnyUses(ts, o) {
      var i :| 0 <= i < |ts| && Uses(ts[i], o);
      assert (ts + [t])[i] == ts[i];
    }
    assert (ts + [t])[|ts|] == t;
  }

  /** What matching one template must achieve. */
  ghost predicate SolvedOne(slots: Slots, slots': Slots, template: Template, actual: Type, v: Verdict) {
    && |slots'| == |slots|
    && (v.Matched? ==> forall s :: Extends(s, slots') <==> Extends(s, slots) && Instance(template, actual, s))
    && (v.Matched? ==> forall o :: 0 <= o < |slots| ==> (slots'[o].Some? <==> slots[o].Some? || Uses(template, o)))
    && (!v.Matched? ==> forall s :: Extends(s, slots) ==> !Instance(template, actual, s))
    && (v.OutOfRange? ==> exists o: nat :: o >= |slots| && Uses(template, o))
  }

  lemma SolvedNone(slots: Slots)
    ensures Solved(slots, slots, [], [], Matched)
  {
  }

  lemma SolvedStep(
    slots: Slots, mid: Slots, slots': Slots, ts: seq<Template>, t: Template, actuals: seq<Type>, a: Type, v: Verdict)
    requires |ts| == |actuals| && Solved(slots, mid, ts, actuals, Matched) && SolvedOne(mid, slots', t, a, v)
    ensures Solved(slots, slots', ts + [t], actuals + [a], v)
  {
    hide Instances, Instance, AnyUses, Uses, Extends;
    forall s
      ensures Instances(ts + [t], actuals + [a], s) <==> Instances(ts, actuals, s) && Instance(t, a, s)
    {
      InstancesAppend(ts, t, actuals, a, s);
    }
    forall o: nat
      ensures AnyUses(ts + [t], o) <==> AnyUses(ts, o) || Uses(t, o)
    {
      AnyUsesAppend(ts, t, o);
    }
  }

  /** Once a prefix has no solution, neither has the whole. */
  lemma SolvedFails(slots: Slots, slots': Slots, templates: seq<Template>, actuals: seq<Type>, k: nat, v: Verdict)
    requires k <= |templates| == |actuals| && !v.Matched?
    requires Solved(slots, slots', templates[..k], actuals[..k], v)
    ensures Solved(slots, slots', templates, actuals, v)
  {
    hide Instance, Uses, Extends;
    forall s | Instances(templates, actuals, s)
      ensures Instances(templates[..k], actuals[..k], s)
    {
    }
    forall o: nat | AnyUses(templates[..k], o)
      ensures AnyUses(templates, o)
    {
    }
    hide Instances, AnyUses;
  }

  method MatchType(template: Template, actual: Type, slots: array<Option<Type>>) returns (verdict: Verdict)
    modifies slots
    ensures SolvedOne(old(slots[..]), slots[..], template, actual, verdict)
    decreases template, 1
  {
    match template {
      case TypeParameter(o) =>
        ghost var before := slots[..];
        if o >= slots.Length {
          assert Uses(template, o);
          return OutOfRange;
        }
        if slots[o].Some? {
          verdict := if slots[o].value != actual then Mismatch else Matched;
          SlotKept(before, o, actual);
        } else {
          slots[o] := Some(actual);
          assert slots[..] == before[o := Some(actual)];
          SlotFilled(before, o, actual);
          verdict := Matched;
        }
      case Builtin(name, arguments) =>
        var parts := BuiltinArguments(name, actual);
        if parts.None? || |parts.value| != |arguments| {
          return Mismatch;
        }
        verdict := MatchAll(arguments, parts.value, slots, template);
        SolvedBuiltin(old(slots[..]), slots[..], template, actual, verdict);
      case PackageSymbol(packageId, path) =>
        verdict := if NamesSymbol(packageId, path, actual) then Matched else Mismatch;
    }
  }

  lemma SlotKept(slots: Slots, o: nat, actual: Type)
    requires o < |slots| && slots[o].Some?
    ensures SolvedOne(slots, slots, TypeParameter(o), actual, if slots[o].value != actual then Mismatch else Matched)
  {
  }

  lemma SlotFilled(slots: Slots, o: nat, actual: Type)
    requires o < |slots| && slots[o].None?
    ensures SolvedOne(slots, slots[o := Some(actual)], TypeParameter(o), actual, Matched)
  {
    var slots' := slots[o := Some(actual)];
    forall s
      ensures Extends(s, slots') <==> Extends(s, slots) && Instance(TypeParameter(o), actual, s)
    {
      if Extends(s, slots') {
        assert slots'[o].Some?;
        forall i | 0 <= i < |slots| && slots[i].Some?
          ensures s[i] == slots[i].value
        {
          assert slots'[i] == slots[i];
        }
      }
    }
  }

  lemma SolvedBuiltin(slots: Slots, slots': Slots, template: Template, actual: Type, v: Verdict)
    requires template.Builtin? && BuiltinArguments(template.name, actual).Some?
    requires Solved(slots, slots', template.arguments, BuiltinArguments(template.name, actual).value, v)
    ensures SolvedOne(slots, slots', template, actual, v)
  {
    hide Instances, AnyUses, Extends, BuiltinArguments;
    if v.OutOfRange? {
      var o: nat :| o >= |slots| && AnyUses(template.arguments, o);
      assert Uses(template, o);
    }
  }

  /** Matches a list of templates, all of them below `parent`, up to the first failure. */
  method MatchAll(templates: seq<Template>, actuals: seq<Type>, slots: array<Option<Type>>, ghost parent: Template)
    returns (verdict: Verdict)
    requires |templates| == |actuals|
    requires forall i :: 0 <= i < |templates| ==> templates[i] < parent
    modifies slots
    ensures Solved(old(slots[..]), slots[..], templates, actuals, verdict)
    decreases parent, 0
  {
    hide Solved, SolvedOne;
    SolvedNone(slots[..]);
    ghost var before := slots[..];
    for i := 0 to |templates|
      invariant Solved(before, slots[..], templates[..i], actuals[..i], Matched)
    {
      ghost var mid := slots[..];
      verdict := MatchType(templates[i], actuals[i], slots);
      SolvedStep(before, mid, slots[..], templates[..i], templates[i], actuals[..i], actuals[i], verdict);
      assert templates[..i] + [templates[i]] == templates[..i + 1];
      assert actuals[..i] + [actuals[i]] == actuals[..i + 1];
      if !verdict.Matched? {
        SolvedFails(before, slots[..], templates, actuals, i + 1, verdict);
        return;
      }
    }
    assert templates[..|templates|] == templates && actuals[..|actuals|] == actuals;
    verdict := Matched;
  }

  // ----- Signatures -----

  datatype Mode = Value | InOut

  datatype Plan = FromType(ty: Template)

  datatype Effects = Effects(escapes: bool, sameHeap: bool, unknownTarget: bool, mayPending: bool, categories: seq<string>)

  datatype Signature = Signature(
    count: nat, parameters: seq<Template>, modes: seq<Mode>, parameterPlans: seq<Plan>,
    results: seq<Template>, resultPlans: seq<Plan>, effects: Effects)

  datatype TransferPlan = TransferPlan(description: string)

  datatype HostSignature = HostSignature(
    parameters: seq<Type>, modes: seq<Mode>, parameterPlans: seq<TransferPlan>,
    results: seq<Type>, resultPlans: seq<TransferPlan>, effects: Effects)

  datatype Outcome =
    | Success(arguments: seq<Type>)
    | Arity
    | ModeMismatch
    | EffectMismatch
    | TypeMismatch(verdict: Verdict)
    | Unbound(ordinal: nat)

  /** The arguments make every parameter and result an instance of its template. */
  ghost predicate Solution(expected: Signature, actual: HostSignature, subst: seq<Type>) {
    && |subst| == expected.count
    && Instances(expected.parameters, actual.parameters, subst)
    && Instances(expected.results, actual.results, subst)
  }

  ghost predicate SameArity(expected: Signature, actual: HostSignature) {
    && |expected.parameters| == |actual.parameters|
    && |expected.modes| == |actual.modes|
    && |expected.parameterPlans| == |actual.parameterPlans|
    && |expected.results| == |actual.results|
    && |expected.resultPlans| == |actual.resultPlans|
  }

  ghost predicate UsedBy(expected: Signature, o: nat) {
    AnyUses(expected.parameters, o) || AnyUses(expected.results, o)
  }

  /** The two calls of `MatchAll` together. */
  lemma BothSolved(count: nat, mid: Slots, slots: Slots, expected: Signature, actual: HostSignature, v: Verdict)
    requires count == expected.count
    requires Solved(Empty(count), mid, expected.parameters, actual.parameters, Matched)
    requires Solved(mid, slots, expected.results, actual.results, v)
    ensures |slots| == count
    ensures v.Matched? ==> forall s :: Extends(s, slots) <==> Solution(expected, actual, s)
    ensures v.Matched? ==> forall o :: 0 <= o < count ==> (slots[o].Some? <==> UsedBy(expected, o))
    ensures !v.Matched? ==> forall s :: !Solution(expected, actual, s)
    ensures v.OutOfRange? ==> exists o: nat :: o >= count && UsedBy(expected, o)
  {
    EmptyFree(count);
    hide Instances, AnyUses, Extends, Empty;
    if v.OutOfRange? {
      var o: nat :| o >= count && AnyUses(expected.results, o);
      assert UsedBy(expected, o);
    }
  }

  lemma FirstFails(count: nat, slots: Slots, expected: Signature, actual: HostSignature, v: Verdict)
    requires count == expected.count && !v.Matched?
    requires Solved(Empty(count), slots, expected.parameters, actual.parameters, v)
    ensures forall s :: !Solution(expected, actual, s)
    ensures v.OutOfRange? ==> exists o: nat :: o >= count && UsedBy(expected, o)
  {
    EmptyFree(count);
    hide Instances, AnyUses, Extends, Empty;
    if v.OutOfRange? {
      var o: nat :| o >= count && AnyUses(expected.parameters, o);
      assert UsedBy(expected, o);
    }
  }

  ghost function Empty(count: nat): Slots { seq(count, i => None) }

  lemma EmptyFree(count: nat)
    ensures |Empty(count)| == count
    ensures forall o :: 0 <= o < count ==> Empty(count)[o].None?
    ensures forall s :: Extends(s, Empty(count)) <==> |s| == count
  {
  }

  /** Some substitution agrees with any slots. */
  lemma SlotsHaveSolution(slots: Slots)
    ensures exists s :: Extends(s, slots)
  {
    var s := seq(|slots|, i requires 0 <= i < |slots| => if slots[i].Some? then slots[i].value else OtherType("", []));
    assert Extends(s, slots);
  }

  /** The type part of matching: success returns the one solution; a type mismatch means
      there is none; an unbound parameter is one that no template mentions. A validated
      signature has no unbound parameter and no ordinal out of range, so it matches
      exactly if a solution exists. */
  method MatchSignature(expected: Signature, actual: HostSignature) returns (outcome: Outcome)
    ensures outcome.Arity? <==> !SameArity(expected, actual)
    ensures outcome.ModeMismatch? <==> SameArity(expected, actual) && expected.modes != actual.modes
    ensures outcome.EffectMismatch? <==>
      SameArity(expected, actual) && expected.modes == actual.modes && expected.effects != actual.effects
    ensures outcome.Success? ==> forall s :: Solution(expected, actual, s) <==> s == outcome.arguments
    ensures outcome.TypeMismatch? ==> !outcome.verdict.Matched? && forall s :: !Solution(expected, actual, s)
    ensures outcome.TypeMismatch? && outcome.verdict.OutOfRange? ==> exists o: nat :: o >= expected.count && UsedBy(expected, o)
    ensures outcome.Unbound? ==> outcome.ordinal < expected.count && !UsedBy(expected, outcome.ordinal)
    ensures outcome.Unbound? ==> forall o :: 0 <= o < outcome.ordinal ==> UsedBy(expected, o)
    ensures outcome.Unbound? ==> exists s :: Solution(expected, actual, s)
    ensures Validated(expected) && outcome.TypeMismatch? ==> outcome.verdict.Mismatch?
    ensures Validated(expected) ==> !outcome.Unbound?
    ensures Validated(expected) && SameArity(expected, actual) && expected.modes == actual.modes && expected.effects == actual.effects ==>
      (outcome.Success? <==> exists s :: Solution(expected, actual, s))
  {
    if || |expected.parameters| != |actual.parameters|
       || |expected.modes| != |actual.modes|
       || |expected.parameterPlans| != |actual.parameterPlans|
       || |expected.results| != |actual.results|
       || |expected.resultPlans| != |actual.resultPlans| {
      return Arity;
    }
    if expected.modes != actual.modes {
      return ModeMismatch;
    }
    if expected.effects != actual.effects {
      return EffectMismatch;
    }
    hide Solved, Solution, Extends, UsedBy;
    var slots := new Option<Type>[expected.count](_ => None);
    assert slots[..] == Empty(expected.count);
    var verdict := MatchAll(expected.parameters, actual.parameters, slots, Builtin("", expected.parameters));
    if !verdict.Matched? {
      FirstFails(expected.count, slots[..], expected, actual, verdict);
      return TypeMismatch(verdict);
    }
    ghost var mid := slots[..];
    verdict := MatchAll(expected.results, actual.results, slots, Builtin("", expected.results));
    BothSolved(expected.count, mid, slots[..], expected, actual, verdict);
    if !verdict.Matched? {
      return TypeMismatch(verdict);
    }
    var arguments: seq<Type> := [];
    for i := 0 to slots.Length
      invariant |arguments| == i
      invariant forall j :: 0 <= j < i ==> slots[j] == Some(arguments[j])
    {
      if slots[i].None? {
        SlotsHaveSolution(slots[..]);
        assert slots[..][i] == slots[i];
        return Unbound(i);
      }
      arguments := arguments + [slots[i].value];
    }
    FullSlots(slots[..], arguments);
    outcome := Success(arguments);
    assert Solution(expected, actual, arguments);
  }

  lemma FullSlots(slots: Slots, arguments: seq<Type>)
    requires |arguments| == |slots| && forall j :: 0 <= j < |slots| ==> slots[j] == Some(arguments[j])
    ensures forall s :: Extends(s, slots) <==> s == arguments
  {
    forall s | Extends(s, slots)
      ensures s == arguments
    {
      forall j | 0 <= j < |slots|
        ensures s[j] == arguments[j]
      {
        assert slots[j].Some?;
      }
    }
  }

  // ----- Validated signatures -----

  /** What a registry signature must satisfy. */
  ghost predicate Validated(s: Signature) {
    && |s.parameters| == |s.modes| == |s.parameterPlans| && |s.results| == |s.resultPlans| <= 1
    && (forall i :: 0 <= i < |s.modes| ==> s.modes[i].Value?)
    && (forall i :: 0 <= i < |s.parameters| ==> s.parameterPlans[i] == FromType(s.parameters[i]))
    && (forall i :: 0 <= i < |s.results| ==> s.resultPlans[i] == FromType(s.results[i]))
    && (forall o: nat :: UsedBy(s, o) <==> o < s.count)
  }

  /** The flags after visiting: those of the parameters in use are set. */
  ghost predicate Marked(flags: seq<bool>, flags': seq<bool>, templates: seq<Template>, ok: bool) {
    && |flags'| == |flags|
    && (ok <==> forall o: nat :: AnyUses(templates, o) ==> o < |flags|)
    && (ok ==> forall o :: 0 <= o < |flags| ==> (flags'[o] <==> flags[o] || AnyUses(templates, o)))
  }

  ghost predicate MarkedOne(flags: seq<bool>, flags': seq<bool>, template: Template, ok: bool) {
    && |flags'| == |flags|
    && (ok <==> InRange(template, |flags|))
    && (ok ==> forall o :: 0 <= o < |flags| ==> (flags'[o] <==> flags[o] || Uses(template, o)))
  }

  lemma MarkedStep(flags: seq<bool>, mid: seq<bool>, flags': seq<bool>, ts: seq<Template>, t: Template, ok: bool)
    requires Marked(flags, mid, ts, true) && MarkedOne(mid, flags', t, ok)
    ensures Marked(flags, flags', ts + [t], ok)
  {
    forall o: nat
      ensures AnyUses(ts + [t], o) <==> AnyUses(ts, o) || Uses(t, o)
    {
      AnyUsesAppend(ts, t, o);
    }
    hide AnyUses, Uses;
  }

  method VisitType(template: Template, seen: array<bool>) returns (ok: bool)
    modifies seen
    ensures MarkedOne(old(seen[..]), seen[..], template, ok)
    decreases template, 1
  {
    match template {
      case TypeParameter(o) =>
        if o >= seen.Length {
          assert Uses(template, o);
          return false;
        }
        seen[o] := true;
        ok := true;
      case Builtin(_, arguments) =>
        ok := VisitAll(arguments, seen, template);
        assert forall o: nat :: Uses(template, o) <==> AnyUses(arguments, o);
        hide AnyUses, Uses;
      case PackageSymbol(_, _) =>
        ok := true;
    }
  }

  method VisitAll(templates: seq<Template>, seen: array<bool>, ghost parent: Template) returns (ok: bool)
    requires forall i :: 0 <= i < |templates| ==> templates[i] < parent
    modifies seen
    ensures Marked(old(seen[..]), seen[..], templates, ok)
    decreases parent, 0
  {
    hide MarkedOne, Uses;
    ghost var before := seen[..];
    assert Marked(before, before, [], true);
    for i := 0 to |templates|
      invariant Marked(before, seen[..], templates[..i], true)
    {
      ghost var mid := seen[..];
      ok := VisitType(templates[i], seen);
      MarkedStep(before, mid, seen[..], templates[..i], templates[i], ok);
      assert templates[..i] + [templates[i]] == templates[..i + 1];
      if !ok {
        MarkedFails(before, seen[..], templates, i + 1);
        return;
      }
    }
    assert templates[..|templates|] == templates;
    ok := true;
  }

  lemma MarkedFails(flags: seq<bool>, flags': seq<bool>, templates: seq<Template>, k: nat)
    requires k <= |templates| && Marked(flags, flags', templates[..k], false)
    ensures Marked(flags, flags', templates, false)
  {
    hide Uses;
    var o: nat :| AnyUses(templates[..k], o) && o >= |flags|;
    assert AnyUses(templates, o);
  }

  method ValidateSignature(s: Signature) returns (ok: bool)
    ensures ok <==> Validated(s)
  {
    hide AnyUses;
    if |s.parameters| != |s.modes| || |s.parameters| != |s.parameterPlans| || |s.results| != |s.resultPlans| {
      return false;
    }
    if |s.results| > 1 {
      return false;
    }
    if exists i :: 0 <= i < |s.modes| && s.modes[i] != Value {
      return false;
    }
    if (exists i :: 0 <= i < |s.parameters| && s.parameterPlans[i] != FromType(s.parameters[i]))
       || (exists i :: 0 <= i < |s.results| && s.resultPlans[i] != FromType(s.results[i])) {
      return false;
    }
    var seen := new bool[s.count](_ => false);
    ok := VisitAll(s.parameters, seen, Builtin("", s.parameters));
    if !ok {
      ghost var o: nat :| AnyUses(s.parameters, o) && o >= s.count;
      assert UsedBy(s, o);
      return;
    }
    ok := VisitAll(s.results, seen, Builtin("", s.results));
    if !ok {
      ghost var o: nat :| AnyUses(s.results, o) && o >= s.count;
      assert UsedBy(s, o);
      return;
    }
    ok := forall o :: 0 <= o < seen.Length ==> seen[o];
    assert forall o: nat :: o < s.count ==> (UsedBy(s, o) <==> seen[..][o]);
    if !ok {
      ghost var o: nat :| o < s.count && !seen[o];
      assert seen[..][o] == seen[o] && !UsedBy(s, o);
    }
  }

  /** Two solutions of a validated signature are equal. */
  lemma SolutionUnique(expected: Signature, actual: HostSignature, s: seq<Type>, t: seq<Type>)
    requires Validated(expected) && Solution(expected, actual, s) && Solution(expected, actual, t)
    ensures s == t
  {
    forall o: nat | o < expected.count
      ensures s[o] == t[o]
    {
      assert UsedBy(expected, o);
      if AnyUses(expected.parameters, o) {
        InstancesAgree(expected.parameters, actual.parameters, s, t, o);
      } else {
        InstancesAgree(expected.results, actual.results, s, t, o);
      }
    }
  }

  lemma {:induction false} InstancesAgree(ts: seq<Template>, actuals: seq<Type>, s: seq<Type>, t: seq<Type>, o: nat)
    requires Instances(ts, actuals, s) && Instances(ts, actuals, t) && AnyUses(ts, o)
    ensures o < |s| && o < |t| && s[o] == t[o]
    decreases ts, 1
  {
    var i :| 0 <= i < |ts| && Uses(ts[i], o);
    InstanceAgrees(ts[i], actuals[i], s, t, o);
  }

  lemma {:induction false} InstanceAgrees(template: Template, actual: Type, s: seq<Type>, t: seq<Type>, o: nat)
    requires Instance(template, actual, s) && Instance(template, actual, t) && Uses(template, o)
    ensures o < |s| && o < |t| && s[o] == t[o]
  {
    match template
    case TypeParameter(_) =>
    case Builtin(name, arguments) =>
      var parts := BuiltinArguments(name, actual).value;
      var i :| 0 <= i < |arguments| && Uses(arguments[i], o);
      InstanceAgrees(arguments[i], parts[i], s, t, o);
  }
}
