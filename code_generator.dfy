/** The stateful part of CodeGenerator.java. The effect of each generator method on the
    workspace index is first given as a function (ClassEffect, LayerEffect, ChainEffect);
    the Workspace class then performs the same edits step by step, as the source does,
    and each of its methods is proved to have exactly that effect. */
module CodeGenerator {
  import opened Wrappers
  import opened JavaStrings
  import opened JavaModel
  import opened CodeText

  /** Whether a generator call returned normally or threw. */
  datatype Outcome = Completed | Raised(failure: Failure)

  /** The index after a call, and how the call ended. Edits made before a throw stay. */
  datatype Effect = Effect(index: Index, outcome: Outcome)

  /** name == null || name.trim().isEmpty() */
  predicate IsAbsent(name: Option<string>) {
    name.None? || IsBlank(name.value)
  }

  predicate HasFieldNamed(fields: seq<Field>, name: string) {
    exists j :: 0 <= j < |fields| && fields[j].name == name
  }

  /** The field part of findOrAddFieldFor once the name is known: a private field of the
      interface type is appended unless some field already has that name. */
  function EnsureField(index: Index, cls: nat, interfaceName: string, name: string): (r: Index)
    requires cls < |index|
    ensures |r| == |index| && HasFieldNamed(r[cls].fields, name)
  {
    if HasFieldNamed(index[cls].fields, name) then index
    else
      var r := WithField(index, cls, Field(FieldDeclaration(interfaceName, name), name));
      assert r[cls].fields[|index[cls].fields|].name == name;
      r
  }

  /** The forwarding branch of addMethodToClass once the next layer's interface is known:
      import it, make sure the delegate field exists, then append the forwarding method. */
  function DelegateEffect(index: Index, cls: nat, nextIface: nat, sig: Signature): (r: Effect)
    requires cls < |index| && nextIface < |index|
    ensures |r.index| == |index|
  {
    var interfaceName := index[nextIface].elementName;
    var imported := WithImport(index, cls, index[nextIface].fullyQualifiedName);
    match DelegateFieldName(interfaceName)
    case Err(f) => Effect(imported, Raised(f))
    case Ok(field) =>
      var wired := EnsureField(imported, cls, interfaceName, field);
      match ExtractParameterNames(sig.parameters)
      case Err(f) => Effect(wired, Raised(f))
      case Ok(names) =>
        Effect(WithMethod(wired, cls, ClassMethod(sig, DelegateBody(field, sig, names))), Completed)
  }

  /** addMethodToClass: with a next layer, look up its class and interface and forward to
      it; without one, append the stub. */
  function ClassEffect(index: Index, cls: nat, sig: Signature, next: Option<string>): (r: Effect)
    requires cls < |index|
    ensures |r.index| == |index|
  {
    if IsAbsent(next) then
      Effect(WithMethod(index, cls, ClassMethod(sig, StubBody)), Completed)
    else
      match LastDeclaration(index, next.value)
      case None => Effect(index, Raised(NextClassNotFound(next.value)))
      case Some(nextClass) =>
        match InterfaceOf(index, nextClass)
        case None => Effect(index, Raised(NextInterfaceNotFound(next.value)))
        case Some(nextIface) => DelegateEffect(index, cls, nextIface, sig)
  }

  /** createMethodInLayer: nothing for an absent layer; otherwise the class and its interface
      must both be found before anything is edited; the interface receives the declaration,
      then the class its implementation. */
  function LayerEffect(index: Index, current: Option<string>, sig: Signature, next: Option<string>): (r: Effect)
    ensures |r.index| == |index|
  {
    if IsAbsent(current) then Effect(index, Completed)
    else
      match LastDeclaration(index, current.value)
      case None => Effect(index, Raised(ClassNotFound(current.value)))
      case Some(cls) =>
        match InterfaceOf(index, cls)
        case None => Effect(index, Raised(InterfaceNotFound(current.value)))
        case Some(iface) => ClassEffect(WithMethod(index, iface, InterfaceMethod(sig)), cls, sig, next)
  }

  /** generateMethodsForAllLayers: Facade forwarding to Business, Business to DataProvider,
      DataProvider to nothing, strictly in that order; a throw ends the chain. */
  function ChainEffect(index: Index, facade: Option<string>, business: Option<string>,
                       dataProvider: Option<string>, sig: Signature): (r: Effect)
    ensures |r.index| == |index|
  {
    var first := LayerEffect(index, facade, sig, business);
    if first.outcome.Raised? then first
    else
      var second := LayerEffect(first.index, business, sig, dataProvider);
      if second.outcome.Raised? then second
      else LayerEffect(second.index, dataProvider, sig, None)
  }

  /** The workspace the generator edits in place. */
  class Workspace {
    var index: Index

    constructor (initial: Index)
      ensures index == initial
    {
      index := initial;
    }

    /** findType: every reported match overwrites the result slot. */
    method FindType(fqn: string) returns (r: Option<nat>)
      ensures r == LastDeclaration(index, fqn)
    {
      r := None;
      for i := 0 to |index|
        invariant r == LastDeclaration(index[..i], fqn)
      {
        assert index[..i + 1][..i] == index[..i];
        if index[i].fullyQualifiedName == fqn {
          r := Some(i);
        }
      }
      assert index[..|index|] == index;
    }

    method FindImplementedInterface(t: nat) returns (r: Option<nat>)
      requires t < |index|
      ensures r == InterfaceOf(index, t)
    {
      var names := index[t].superInterfaceNames;
      if |names| == 0 {
        return None;
      }
      if names[0] !in index[t].resolutions || |index[t].resolutions[names[0]]| == 0 {
        return None;
      }
      var resolved := index[t].resolutions[names[0]][0];
      r := FindType(resolved.packageName + "." + resolved.typeName);
    }

    method AddMethodToInterface(iface: nat, sig: Signature)
      requires iface < |index|
      modifies this
      ensures index == WithMethod(old(index), iface, InterfaceMethod(sig))
    {
      index := WithMethod(index, iface, InterfaceMethod(sig));
    }

    method FindOrAddFieldFor(cls: nat, iface: nat) returns (r: Result<string, Failure>)
      requires cls < |index| && iface < |index|
      modifies this
      ensures r == DelegateFieldName(old(index)[iface].elementName)
      ensures r.Err? ==> index == old(index)
      ensures r.Ok? ==> index == EnsureField(old(index), cls, old(index)[iface].elementName, r.value)
    {
      var interfaceName := index[iface].elementName;
      r := DelegateFieldName(interfaceName);
      if r.Err? {
        return;
      }
      var expected := r.value;
      var fields := index[cls].fields;
      for j := 0 to |fields|
        invariant forall k :: 0 <= k < j ==> fields[k].name != expected
      {
        if fields[j].name == expected {
          return;
        }
      }
      index := WithField(index, cls, Field(FieldDeclaration(interfaceName, expected), expected));
    }

    method AddMethodToClass(cls: nat, sig: Signature, next: Option<string>) returns (outcome: Outcome)
      requires cls < |index|
      modifies this
      ensures Effect(index, outcome) == ClassEffect(old(index), cls, sig, next)
    {
      var body: string;
      if !IsAbsent(next) {
        var nextClass := FindType(next.value);
        if nextClass.None? {
          return Raised(NextClassNotFound(next.value));
        }
        var nextIface := FindImplementedInterface(nextClass.value);
        if nextIface.None? {
          return Raised(NextInterfaceNotFound(next.value));
        }
        index := WithImport(index, cls, index[nextIface.value].fullyQualifiedName);
        var field := FindOrAddFieldFor(cls, nextIface.value);
        if field.Err? {
          return Raised(field.error);
        }
        var names := ExtractParameterNames(sig.parameters);
        if names.Err? {
          return Raised(names.error);
        }
        body := DelegateBody(field.value, sig, names.value);
      } else {
        body := StubBody;
      }
      index := WithMethod(index, cls, ClassMethod(sig, body));
      outcome := Completed;
    }

    method CreateMethodInLayer(current: Option<string>, sig: Signature, next: Option<string>) returns (outcome: Outcome)
      modifies this
      ensures Effect(index, outcome) == LayerEffect(old(index), current, sig, next)
    {
      if IsAbsent(current) {
        return Completed;
      }
      var cls := FindType(current.value);
      if cls.None? {
        return Raised(ClassNotFound(current.value));
      }
      var iface := FindImplementedInterface(cls.value);
      if iface.None? {
        return Raised(InterfaceNotFound(current.value));
      }
      AddMethodToInterface(iface.value, sig);
      outcome := AddMethodToClass(cls.value, sig, next);
    }

    method GenerateMethodsForAllLayers(facade: Option<string>, business: Option<string>,
                                       dataProvider: Option<string>, sig: Signature) returns (outcome: Outcome)
      modifies this
      ensures Effect(index, outcome) == ChainEffect(old(index), facade, business, dataProvider, sig)
    {
      outcome := CreateMethodInLayer(facade, sig, business);
      if outcome.Raised? {
        return;
      }
      outcome := CreateMethodInLayer(business, sig, dataProvider);
      if outcome.Raised? {
        return;
      }
      outcome := CreateMethodInLayer(dataProvider, sig, None);
    }
  }

  // ------------------------------------------------------------------ properties

  /** A second findOrAddFieldFor for the same interface adds nothing. */
  lemma EnsureFieldIdempotent(index: Index, cls: nat, interfaceName: string, name: string)
    requires cls < |index|
    ensures var once := EnsureField(index, cls, interfaceName, name);
      EnsureField(once, cls, interfaceName, name) == once
  {
  }

  /** At most one field is added, and only when none has the name; nothing else changes. */
  lemma EnsureFieldAddsAtMostOne(index: Index, cls: nat, interfaceName: string, name: string)
    requires cls < |index|
    ensures var r := EnsureField(index, cls, interfaceName, name);
      && Grows(index, r)
      && (forall t :: 0 <= t < |index| && t != cls ==> r[t] == index[t])
      && r[cls] == index[cls].(fields := r[cls].fields)
      && r[cls].fields == index[cls].fields
           + (if HasFieldNamed(index[cls].fields, name) then []
              else [Field(FieldDeclaration(interfaceName, name), name)])
  {
  }

  lemma {:induction false} ClassEffectGrows(index: Index, cls: nat, sig: Signature, next: Option<string>)
    requires cls < |index|
    ensures Grows(index, ClassEffect(index, cls, sig, next).index)
  {
    if !IsAbsent(next) {
      var nextClass := LastDeclaration(index, next.value);
      if nextClass.Some? {
        var nextIface := InterfaceOf(index, nextClass.value);
        if nextIface.Some? {
          var interfaceName := index[nextIface.value].elementName;
          var imported := WithImport(index, cls, index[nextIface.value].fullyQualifiedName);
          assert ClassEffect(index, cls, sig, next) == DelegateEffect(index, cls, nextIface.value, sig);
          WithImportGrows(index, cls, index[nextIface.value].fullyQualifiedName);
          var field := DelegateFieldName(interfaceName);
          if field.Ok? {
            var wired := EnsureField(imported, cls, interfaceName, field.value);
            EnsureFieldAddsAtMostOne(imported, cls, interfaceName, field.value);
            GrowsTransitive(index, imported, wired);
            var names := ExtractParameterNames(sig.parameters);
            if names.Ok? {
              var body := DelegateBody(field.value, sig, names.value);
              WithMethodGrows(wired, cls, ClassMethod(sig, body));
              GrowsTransitive(index, wired, WithMethod(wired, cls, ClassMethod(sig, body)));
            }
          }
        }
      }
    } else {
      WithMethodGrows(index, cls, ClassMethod(sig, StubBody));
    }
  }

  /** Every layer only appends: no member, field or import present before is lost. */
  lemma LayerEffectGrows(index: Index, current: Option<string>, sig: Signature, next: Option<string>)
    ensures Grows(index, LayerEffect(index, current, sig, next).index)
  {
    if !IsAbsent(current) {
      var cls := LastDeclaration(index, current.value);
      if cls.Some? {
        var iface := InterfaceOf(index, cls.value);
        if iface.Some? {
          var declared := WithMethod(index, iface.value, InterfaceMethod(sig));
          WithMethodGrows(index, iface.value, InterfaceMethod(sig));
          ClassEffectGrows(declared, cls.value, sig, next);
          GrowsTransitive(index, declared, ClassEffect(declared, cls.value, sig, next).index);
        }
      }
    }
  }

  /** A layer whose class name is null or blank returns at once and edits nothing. */
  lemma AbsentLayerIsNoOp(index: Index, current: Option<string>, sig: Signature, next: Option<string>)
    requires IsAbsent(current)
    ensures LayerEffect(index, current, sig, next) == Effect(index, Completed)
  {
  }

  /** If the class is missing or has no resolvable first interface, the layer throws and
      neither the interface nor the class is edited. */
  lemma LayerAbortsBeforeEditing(index: Index, current: string, sig: Signature, next: Option<string>)
    requires !IsBlank(current)
    requires LastDeclaration(index, current).None? || InterfaceOf(index, LastDeclaration(index, current).value).None?
    ensures var r := LayerEffect(index, Some(current), sig, next);
      r.index == index
      && r.outcome == (if LastDeclaration(index, current).None? then Raised(ClassNotFound(current))
                       else Raised(InterfaceNotFound(current)))
  {
  }

  /** No rollback: when the next layer's class or interface cannot be found, the current
      interface keeps the declaration it has just received, and nothing else is edited. */
  lemma {:induction false} NextLayerFailureKeepsDeclaration(index: Index, current: string, sig: Signature, next: string,
                                                           cls: nat, iface: nat)
    requires !IsBlank(current) && !IsBlank(next)
    requires LastDeclaration(index, current) == Some(cls) && InterfaceOf(index, cls) == Some(iface)
    requires LastDeclaration(index, next).None? || InterfaceOf(index, LastDeclaration(index, next).value).None?
    ensures var r := LayerEffect(index, Some(current), sig, Some(next));
      r.index == WithMethod(index, iface, InterfaceMethod(sig))
      && r.outcome == (if LastDeclaration(index, next).None? then Raised(NextClassNotFound(next))
                       else Raised(NextInterfaceNotFound(next)))
  {
    var declared := WithMethod(index, iface, InterfaceMethod(sig));
    WithMethodGrows(index, iface, InterfaceMethod(sig));
    SearchSurvivesGrowth(index, declared, next);
    if LastDeclaration(index, next).Some? {
      InterfaceSurvivesGrowth(index, declared, LastDeclaration(index, next).value);
    }
  }

  /** With both layers found, the layer is the interface declaration followed by the
      forwarding branch (the lookups do not see the declaration just added). */
  lemma {:induction false} LayerReachesDelegate(index: Index, current: string, sig: Signature, next: string,
                                               cls: nat, iface: nat, nextClass: nat, nextIface: nat)
    requires !IsBlank(current) && !IsBlank(next)
    requires LastDeclaration(index, current) == Some(cls) && InterfaceOf(index, cls) == Some(iface)
    requires LastDeclaration(index, next) == Some(nextClass) && InterfaceOf(index, nextClass) == Some(nextIface)
    ensures LayerEffect(index, Some(current), sig, Some(next))
              == DelegateEffect(WithMethod(index, iface, InterfaceMethod(sig)), cls, nextIface, sig)
  {
    var declared := WithMethod(index, iface, InterfaceMethod(sig));
    assert LastDeclaration(declared, next) == Some(nextClass) && InterfaceOf(declared, nextClass) == Some(nextIface) by {
      WithMethodGrows(index, iface, InterfaceMethod(sig));
      SearchSurvivesGrowth(index, declared, next);
      InterfaceSurvivesGrowth(index, declared, nextClass);
    }
    assert LayerEffect(index, Some(current), sig, Some(next)) == ClassEffect(declared, cls, sig, Some(next));
  }

  /** No rollback, later in the class edit: when the delegate field name cannot be formed
      (charAt(1) on a one-character interface name), the declaration and the import stay;
      when a parameter has no name, the declaration, the import and the field stay, and the
      class gets no method. */
  lemma LateFailuresKeepEarlierEdits(index: Index, current: string, sig: Signature, next: string,
                                     cls: nat, iface: nat, nextClass: nat, nextIface: nat)
    requires !IsBlank(current) && !IsBlank(next)
    requires LastDeclaration(index, current) == Some(cls) && InterfaceOf(index, cls) == Some(iface)
    requires LastDeclaration(index, next) == Some(nextClass) && InterfaceOf(index, nextClass) == Some(nextIface)
    ensures var r := LayerEffect(index, Some(current), sig, Some(next));
      var interfaceName := index[nextIface].elementName;
      var imported := WithImport(WithMethod(index, iface, InterfaceMethod(sig)), cls, index[nextIface].fullyQualifiedName);
      && (|interfaceName| < 2 ==>
            r == Effect(imported, Raised(StringIndexOutOfBounds(1, |interfaceName|))))
      && (|interfaceName| >= 2 && ExtractParameterNames(sig.parameters).Err? ==>
            r == Effect(EnsureField(imported, cls, interfaceName, DelegateFieldName(interfaceName).value),
                        Raised(ExtractParameterNames(sig.parameters).error)))
  {
    LayerReachesDelegate(index, current, sig, next, cls, iface, nextClass, nextIface);
  }

  /** The forwarding branch, when it succeeds, edits the class and nothing else. */
  lemma DelegateEdits(index: Index, cls: nat, nextIface: nat, sig: Signature, field: string, names: string)
    requires cls < |index| && nextIface < |index|
    requires DelegateFieldName(index[nextIface].elementName) == Ok(field)
    requires ExtractParameterNames(sig.parameters) == Ok(names)
    ensures var r := DelegateEffect(index, cls, nextIface, sig);
      && r.outcome == Completed
      && |r.index| == |index|
      && r.index[cls] == index[cls].(methods := index[cls].methods + [ClassMethod(sig, DelegateBody(field, sig, names))],
                                     imports := index[cls].imports + [index[nextIface].fullyQualifiedName],
                                     fields := index[cls].fields
                                       + (if HasFieldNamed(index[cls].fields, field) then []
                                          else [Field(FieldDeclaration(index[nextIface].elementName, field), field)]))
      && (forall t :: 0 <= t < |index| && t != cls ==> r.index[t] == index[t])
  {
    var imported := WithImport(index, cls, index[nextIface].fullyQualifiedName);
    EnsureFieldAddsAtMostOne(imported, cls, index[nextIface].elementName, field);
  }

  /** A successful layer with a next layer: the interface gains the declaration; the class
      gains the import of the next interface, the delegate field if it had none of that name,
      and the implementation that forwards to the field; no other type changes. */
  lemma LayerDelegates(index: Index, current: string, sig: Signature, next: string,
                       cls: nat, iface: nat, nextClass: nat, nextIface: nat,
                       field: string, names: string)
    requires !IsBlank(current) && !IsBlank(next)
    requires LastDeclaration(index, current) == Some(cls) && InterfaceOf(index, cls) == Some(iface)
    requires cls != iface
    requires LastDeclaration(index, next) == Some(nextClass) && InterfaceOf(index, nextClass) == Some(nextIface)
    requires DelegateFieldName(index[nextIface].elementName) == Ok(field)
    requires ExtractParameterNames(sig.parameters) == Ok(names)
    ensures var r := LayerEffect(index, Some(current), sig, Some(next));
      && r.outcome == Completed
      && |r.index| == |index|
      && r.index[iface] == index[iface].(methods := index[iface].methods + [InterfaceMethod(sig)])
      && r.index[cls] == index[cls].(methods := index[cls].methods + [ClassMethod(sig, DelegateBody(field, sig, names))],
                                     imports := index[cls].imports + [index[nextIface].fullyQualifiedName],
                                     fields := index[cls].fields
                                       + (if HasFieldNamed(index[cls].fields, field) then []
                                          else [Field(FieldDeclaration(index[nextIface].elementName, field), field)]))
      && (forall t :: 0 <= t < |index| && t != cls && t != iface ==> r.index[t] == index[t])
  {
    var declared := WithMethod(index, iface, InterfaceMethod(sig));
    LayerReachesDelegate(index, current, sig, next, cls, iface, nextClass, nextIface);
    assert declared[cls] == index[cls];
    assert declared[nextIface].elementName == index[nextIface].elementName;
    assert declared[nextIface].fullyQualifiedName == index[nextIface].fullyQualifiedName;
    DelegateEdits(declared, cls, nextIface, sig, field, names);
    var r := LayerEffect(index, Some(current), sig, Some(next));
    forall t | 0 <= t < |index| && t != cls && t != iface
      ensures r.index[t] == index[t]
    {
      assert r.index[t] == declared[t];
    }
  }

  /** A successful layer without a next layer: the class receives the stub returning null. */
  lemma LayerStubs(index: Index, current: string, sig: Signature, next: Option<string>, cls: nat, iface: nat)
    requires !IsBlank(current) && IsAbsent(next)
    requires LastDeclaration(index, current) == Some(cls) && InterfaceOf(index, cls) == Some(iface)
    requires cls != iface
    ensures var r := LayerEffect(index, Some(current), sig, next);
      && r.outcome == Completed
      && |r.index| == |index|
      && r.index[iface] == index[iface].(methods := index[iface].methods + [InterfaceMethod(sig)])
      && r.index[cls] == index[cls].(methods := index[cls].methods + [ClassMethod(sig, StubBody)])
      && (forall t :: 0 <= t < |index| && t != cls && t != iface ==> r.index[t] == index[t])
  {
    var declared := WithMethod(index, iface, InterfaceMethod(sig));
    var r := LayerEffect(index, Some(current), sig, next);
    assert r == Effect(WithMethod(declared, cls, ClassMethod(sig, StubBody)), Completed);
    forall t | 0 <= t < |index| && t != cls && t != iface
      ensures r.index[t] == index[t]
    {
      assert r.index[t] == declared[t];
    }
  }

  /** The chain runs Facade, then Business, then DataProvider; a throw ends it, and the edits
      of the layers already run are kept. */
  lemma {:induction false} ChainKeepsEarlierEdits(index: Index, facade: Option<string>, business: Option<string>,
                                                 dataProvider: Option<string>, sig: Signature)
    ensures var first := LayerEffect(index, facade, sig, business);
      var second := LayerEffect(first.index, business, sig, dataProvider);
      var r := ChainEffect(index, facade, business, dataProvider, sig);
      && Grows(index, first.index)
      && Grows(first.index, r.index)
      && Grows(index, r.index)
      && (first.outcome.Raised? ==> r == first)
      && (first.outcome == Completed && second.outcome.Raised? ==> r == second)
      && (first.outcome == Completed && second.outcome == Completed ==>
            r == LayerEffect(second.index, dataProvider, sig, None))
  {
    var first := LayerEffect(index, facade, sig, business);
    var second := LayerEffect(first.index, business, sig, dataProvider);
    var third := LayerEffect(second.index, dataProvider, sig, None);
    var r := ChainEffect(index, facade, business, dataProvider, sig);
    assert r == if first.outcome.Raised? then first else if second.outcome.Raised? then second else third;
    assert Grows(index, first.index) && Grows(first.index, second.index) && Grows(second.index, third.index) by {
      LayerEffectGrows(index, facade, sig, business);
      LayerEffectGrows(first.index, business, sig, dataProvider);
      LayerEffectGrows(second.index, dataProvider, sig, None);
    }
    GrowsTransitive(first.index, second.index, third.index);
    GrowsTransitive(index, first.index, r.index);
  }

  /** A blank Business layer gives the Facade the stub (the chain does not skip ahead to the
      DataProvider), and the DataProvider then runs with no next layer. */
  lemma BlankBusinessStubsFacade(index: Index, facade: Option<string>, business: Option<string>,
                                 dataProvider: Option<string>, sig: Signature)
    requires IsAbsent(business)
    ensures var first := LayerEffect(index, facade, sig, None);
      ChainEffect(index, facade, business, dataProvider, sig)
        == if first.outcome.Raised? then first else LayerEffect(first.index, dataProvider, sig, None)
  {
    assert LayerEffect(index, facade, sig, business) == LayerEffect(index, facade, sig, None);
  }
}
