/** The part of the host IDE's Java model the generator touches, reduced to values:
    the workspace index is a sequence of type records in the order the search engine
    reports them, and a type is identified by its position. */
module JavaModel {
  import opened Wrappers

  /** One answer of IType.resolveType: a package name and a type name. */
  datatype QualifiedName = QualifiedName(packageName: string, typeName: string)

  /** A declared field: its source text and its element name. */
  datatype Field = Field(declaration: string, name: string)

  /** A type of the workspace. Declaration data (names, super-interfaces, how names resolve in
      its compilation unit) never changes; fields, methods and imports are appended to. */
  datatype TypeRecord = TypeRecord(
    fullyQualifiedName: string,
    elementName: string,
    superInterfaceNames: seq<string>,
    resolutions: map<string, seq<QualifiedName>>,
    fields: seq<Field>,
    methods: seq<string>,
    imports: seq<string>)

  type Index = seq<TypeRecord>

  /** findType: the search reports every type declared with the name, and the requestor
      overwrites its single slot with each report, so the LAST one is kept; none gives null. */
  function LastDeclaration(index: Index, fqn: string): (r: Option<nat>)
    ensures r.Some? ==> r.value < |index| && index[r.value].fullyQualifiedName == fqn
    ensures r.Some? ==> forall j :: r.value < j < |index| ==> index[j].fullyQualifiedName != fqn
    ensures r.None? <==> forall j :: 0 <= j < |index| ==> index[j].fullyQualifiedName != fqn
  {
    if index == [] then None
    else if index[|index| - 1].fullyQualifiedName == fqn then Some(|index| - 1)
    else LastDeclaration(index[..|index| - 1], fqn)
  }

  /** The fully-qualified name built from the first resolution: package + "." + type. */
  function Qualified(q: QualifiedName): string {
    q.packageName + "." + q.typeName
  }

  /** findImplementedInterface: the first declared super-interface name, resolved in the
      type's own context (first answer), then looked up in the index. */
  function InterfaceOf(index: Index, t: nat): (r: Option<nat>)
    requires t < |index|
    ensures r.Some? ==> r.value < |index|
    ensures r.Some? ==>
              && index[t].superInterfaceNames != []
              && index[t].superInterfaceNames[0] in index[t].resolutions
              && index[t].resolutions[index[t].superInterfaceNames[0]] != []
              && index[r.value].fullyQualifiedName == Qualified(index[t].resolutions[index[t].superInterfaceNames[0]][0])
    ensures var names := index[t].superInterfaceNames; var res := index[t].resolutions;
      names != [] && names[0] in res && res[names[0]] != [] ==>
        r == LastDeclaration(index, Qualified(res[names[0]][0]))
  {
    var names := index[t].superInterfaceNames;
    if |names| == 0 then None
    else if names[0] !in index[t].resolutions || |index[t].resolutions[names[0]]| == 0 then None
    else LastDeclaration(index, Qualified(index[t].resolutions[names[0]][0]))
  }

  /** IType.createMethod: the member text is appended to the type. */
  function WithMethod(index: Index, t: nat, text: string): (r: Index)
    requires t < |index|
  {
    index[t := index[t].(methods := index[t].methods + [text])]
  }

  /** ICompilationUnit.createImport: the import is recorded on the type's compilation unit. */
  function WithImport(index: Index, t: nat, name: string): (r: Index)
    requires t < |index|
  {
    index[t := index[t].(imports := index[t].imports + [name])]
  }

  /** IType.createField */
  function WithField(index: Index, t: nat, f: Field): (r: Index)
    requires t < |index|
  {
    index[t := index[t].(fields := index[t].fields + [f])]
  }

  predicate SameDeclaration(a: TypeRecord, b: TypeRecord) {
    a.fullyQualifiedName == b.fullyQualifiedName && a.elementName == b.elementName
    && a.superInterfaceNames == b.superInterfaceNames && a.resolutions == b.resolutions
  }

  /** after is before with members and imports only appended: nothing earlier was removed. */
  predicate Grows(before: Index, after: Index) {
    |before| == |after|
    && forall t :: 0 <= t < |before| ==>
         SameDeclaration(before[t], after[t])
         && before[t].fields <= after[t].fields
         && before[t].methods <= after[t].methods
         && before[t].imports <= after[t].imports
  }

  lemma WithMethodGrows(index: Index, t: nat, text: string)
    requires t < |index|
    ensures Grows(index, WithMethod(index, t, text))
  {
  }

  lemma WithImportGrows(index: Index, t: nat, name: string)
    requires t < |index|
    ensures Grows(index, WithImport(index, t, name))
  {
  }

  lemma GrowsTransitive(a: Index, b: Index, c: Index)
    requires Grows(a, b) && Grows(b, c)
    ensures Grows(a, c)
  {
  }

  /** Appending members never changes what a search finds. */
  lemma {:induction false} SearchSurvivesGrowth(a: Index, b: Index, fqn: string)
    requires Grows(a, b)
    ensures LastDeclaration(b, fqn) == LastDeclaration(a, fqn)
  {
    if a != [] {
      var n := |a|;
      assert Grows(a[..n - 1], b[..n - 1]);
      SearchSurvivesGrowth(a[..n - 1], b[..n - 1], fqn);
    }
  }

  /** ... nor what interface a type resolves to. */
  lemma InterfaceSurvivesGrowth(a: Index, b: Index, t: nat)
    requires Grows(a, b) && t < |a|
    ensures InterfaceOf(b, t) == InterfaceOf(a, t)
  {
    var names := a[t].superInterfaceNames;
    if names != [] && names[0] in a[t].resolutions && a[t].resolutions[names[0]] != [] {
      SearchSurvivesGrowth(a, b, Qualified(a[t].resolutions[names[0]][0]));
    }
  }
}
