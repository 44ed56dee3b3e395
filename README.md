# LayerSync code generator, modelled in Dafny

LayerSync is an Eclipse plugin that adds one method to a chain of layered classes:
Facade → Business → DataProvider. For every layer that is named, the generator:

- looks up the class by its fully-qualified name;
- finds the class's first super-interface;
- appends the method's declaration to that interface;
- appends an `@Override` implementation to the class. The implementation forwards the
  call to a field typed as the next layer's interface, and the field is created if the
  class has none with that name. The last layer, and any layer whose next layer is blank,
  gets a stub that returns `null`.

Nothing is rolled back: when a later step throws, the edits already made stay in place.

The model has five modules:

- `Wrappers` (wrappers.dfy): `Option`, standing for a nullable Java reference or a search
  that found nothing, and `Result`, standing for a call that may throw.
- `JavaStrings` (java_strings.dfy): the parts of `java.lang.String` the generator relies on.
  These are `trim` (removes characters up to U+0020), `split(",")` (drops trailing empty
  strings, gives the whole string when there is no comma) and `split("\\s+")` (keeps a
  leading empty string when the input starts with white space). The module also models
  the stream `reduce(... + ", " + ...)` as a left fold, plus ASCII `equalsIgnoreCase` and
  `toLowerCase`.
- `JavaModel` (java_model.dfy): the workspace seen by the generator. It is a sequence of
  type records in the order the search engine reports them. Each record holds a name,
  super-interface names, how names resolve in the type's compilation unit, fields, methods
  and imports. `createMethod`, `createField` and `createImport` append to a record.
- `CodeText` (code_text.dfy): the pure part of the generator.
  - the text of the interface declaration, the implementation, the forwarding statement,
    the stub and the field declaration;
  - the delegate field's name;
  - the extraction of parameter names from the raw parameter list.
- `CodeGenerator` (code_generator.dfy): the effect of each generator method, as a function
  from the index to the new index and how the call ended (`ClassEffect`, `LayerEffect`,
  `ChainEffect`). Next to these is the `Workspace` class, whose methods make the same edits
  in place, step by step, as the Java methods do. Each method is proved to have exactly the
  effect of its function. The properties are lemmas about those functions.

Two behaviours of the code are easy to misread, and the model keeps them as written:

- The name taken from a parameter is the second white-space token of its piece
  (`split("\\s+")[1]`), not the last. So `"final String name"` yields `String`
  (`CodeText.SecondWordNotLast`), and a piece of one word, such as `"String"`, throws
  `ArrayIndexOutOfBounds` (`CodeText.SingleWordThrows`, `CodeText.OneWordPieceThrows`).
- A type search keeps the last match it is told about, not the first: the requestor
  overwrites its single slot with each match (`JavaModel.LastDeclaration`,
  `CodeGenerator.Workspace.FindType`).

## Model

All source paths are src/br/com/layersyncplugin/generator/CodeGenerator.java.

| member | source | states |
|---|---|---|
| JavaStrings.Trim | src/br/com/layersyncplugin/generator/CodeGenerator.java:147 | `trim()` is no longer than its input, and a non-empty result neither starts nor ends with a character up to U+0020 |
| JavaStrings.TrimStartFacts | src/br/com/layersyncplugin/generator/CodeGenerator.java:153 | the leading part `trim()` removes is exactly the run of characters up to U+0020 at the front |
| JavaStrings.TrimEndFacts | src/br/com/layersyncplugin/generator/CodeGenerator.java:153 | the trailing part `trim()` removes is exactly the run of characters up to U+0020 at the end |
| JavaStrings.BlankIffAllTrimmable | src/br/com/layersyncplugin/generator/CodeGenerator.java:53 | `trim().isEmpty()` holds exactly when every character is at most U+0020 (both directions) |
| JavaStrings.TrimSkipsLeading | src/br/com/layersyncplugin/generator/CodeGenerator.java:153 | a leading space does not change what `trim()` returns |
| JavaStrings.JoinOfFields | src/br/com/layersyncplugin/generator/CodeGenerator.java:151 | the raw fields of a string at one character, before trailing empty strings are dropped, joined back with that character give the string |
| JavaStrings.SplitOnChar | src/br/com/layersyncplugin/generator/CodeGenerator.java:151 | `split(",")` gives exactly the whole string when it holds no comma; no piece contains a comma; and the last piece is never empty unless the result is the whole string (trailing empty strings are dropped) |
| JavaStrings.SplitOnCharThenJoin | src/br/com/layersyncplugin/generator/CodeGenerator.java:151 | the pieces of `split(",")`, joined back with ",", are the string without its trailing run of commas: a prefix of it that does not end in a comma, with only commas after it |
| JavaStrings.FieldsOfJoin | src/br/com/layersyncplugin/generator/CodeGenerator.java:151 | splitting delimiter-free pieces joined by ", " at ',' gives the pieces back, each after the first with its leading space |
| JavaStrings.FieldsAvoidDelimiters | src/br/com/layersyncplugin/generator/CodeGenerator.java:151 | no piece of a split contains the delimiter |
| JavaStrings.SplitOnSpacesWords | src/br/com/layersyncplugin/generator/CodeGenerator.java:154 | no word of `split("\\s+")` contains white space, and every word after the first is non-empty |
| JavaStrings.SplitOnSpaces | src/br/com/layersyncplugin/generator/CodeGenerator.java:154 | `split("\\s+")` returns no words exactly when the string is non-empty and made only of \s characters |
| JavaStrings.SplitOnSpacesOfTrimmed | src/br/com/layersyncplugin/generator/CodeGenerator.java:153-154 | a trimmed string splits on \s+ into at least two words exactly when it holds a \s character |
| JavaStrings.SplitOnSpacesOfJoin | src/br/com/layersyncplugin/generator/CodeGenerator.java:154 | `split("\\s+")` of non-empty, space-free words joined by single spaces gives the words back |
| JavaStrings.WordsOfSpaced | src/br/com/layersyncplugin/generator/CodeGenerator.java:154 | the non-empty pieces between \s characters of words separated by runs of \s are the words, in order |
| JavaStrings.SplitOnSpacesOfSpaced | src/br/com/layersyncplugin/generator/CodeGenerator.java:154 | `split("\\s+")` of non-empty, space-free words separated by arbitrary non-empty runs of \s characters gives the words back, in order |
| JavaStrings.JoinCons | src/br/com/layersyncplugin/generator/CodeGenerator.java:155 | the left-fold `reduce` join of `x` followed by `ys` is `x`, the separator, then the join of `ys` |
| JavaStrings.JoinPair | src/br/com/layersyncplugin/generator/CodeGenerator.java:155 | `reduce` over two strings puts the separator between them |
| CodeText.DelegateFieldName | src/br/com/layersyncplugin/generator/CodeGenerator.java:127-128 | throws StringIndexOutOfBounds(1, length) exactly when the interface name is shorter than 2; otherwise the name loses its first character and its second is lower-cased, the rest unchanged |
| CodeText.DelegateFieldNameOfPrefixed | src/br/com/layersyncplugin/generator/CodeGenerator.java:128 | round trip of the prefix convention: a prefix character, then the capitalised field name, gives that field name back ("IUserBusiness" → "userBusiness") |
| CodeText.IsVoid | src/br/com/layersyncplugin/generator/CodeGenerator.java:104 | the return type counts as void exactly when it is not null and its ASCII lower-case form is "void" |
| CodeText.InterfaceMethod | src/br/com/layersyncplugin/generator/CodeGenerator.java:75 | the declaration starts with "public " and ends with ");" |
| CodeText.ClassMethod | src/br/com/layersyncplugin/generator/CodeGenerator.java:114-117 | the implementation starts with "@Override\npublic " and ends with the body |
| CodeText.DelegateCall | src/br/com/layersyncplugin/generator/CodeGenerator.java:103-106 | the forwarding statement ends with ");" |
| CodeText.DelegateBody | src/br/com/layersyncplugin/generator/CodeGenerator.java:108 | the body is the forwarding statement between "{\n\t" and "\n}" |
| CodeText.FieldDeclaration | src/br/com/layersyncplugin/generator/CodeGenerator.java:136 | the declaration is "private ", the interface name, a space, the field name and ";" |
| CodeText.SecondWord | src/br/com/layersyncplugin/generator/CodeGenerator.java:153-154 | a piece throws ArrayIndexOutOfBounds at index 1 exactly when its trimmed text holds no white space (fewer than two tokens); otherwise it yields a non-empty word without white space |
| CodeText.SecondWords | src/br/com/layersyncplugin/generator/CodeGenerator.java:152-154 | the mapped pieces succeed exactly when every piece has a second word; then there is one name per piece, in order |
| CodeText.ExtractParameterNames | src/br/com/layersyncplugin/generator/CodeGenerator.java:146-156 | a null or blank list gives ""; otherwise the call succeeds exactly when every comma piece, trimmed, holds white space (has at least two tokens) |
| CodeText.SecondWordOfDeclaration | src/br/com/layersyncplugin/generator/CodeGenerator.java:153-154 | "T n", with or without a leading space, yields n |
| CodeText.SecondWordOfJoin | src/br/com/layersyncplugin/generator/CodeGenerator.java:153-154 | of two or more words joined by single spaces, the piece yields the second word, whatever follows it |
| CodeText.SecondWordOfSpaced | src/br/com/layersyncplugin/generator/CodeGenerator.java:153-154 | of two or more words separated by any non-empty runs of \s characters, the piece yields the second word: not the last one, and not a separator |
| CodeText.PiecesOfParameterList | src/br/com/layersyncplugin/generator/CodeGenerator.java:147-151 | a well-formed list is not blank and splits at ',' into its declarations |
| CodeText.SecondWordsOfAll | src/br/com/layersyncplugin/generator/CodeGenerator.java:152-154 | when each piece's second word is known, the map yields exactly those words |
| CodeText.SecondWordsOfPieces | src/br/com/layersyncplugin/generator/CodeGenerator.java:152-154 | the pieces of a well-formed list map to its parameter names, in order |
| CodeText.ExtractNamesOfParameterList | src/br/com/layersyncplugin/generator/CodeGenerator.java:143-156 | round trip: for "T1 n1, ..., Tk nk" the result is exactly "n1, ..., nk", in order (and "" for k = 0) |
| CodeText.ExtractNamesExample | src/br/com/layersyncplugin/generator/CodeGenerator.java:144 | "String name, List<User> users" gives "name, users" |
| CodeText.SecondWordNotLast | src/br/com/layersyncplugin/generator/CodeGenerator.java:154 | a three-word piece "a b c" gives b, not the last word |
| CodeText.SingleWordThrows | src/br/com/layersyncplugin/generator/CodeGenerator.java:154 | a one-word list throws ArrayIndexOutOfBounds(1, 1) |
| CodeText.OneWordPieceThrows | src/br/com/layersyncplugin/generator/CodeGenerator.java:151-154 | a list whose later piece is one word, such as "String name, users", throws |
| CodeText.ImplementationMatchesDeclaration | src/br/com/layersyncplugin/generator/CodeGenerator.java:114-117 | the class implementation is "@Override\n" then the interface declaration without its ';', then the body |
| CodeText.ReturnExactlyWhenNotVoid | src/br/com/layersyncplugin/generator/CodeGenerator.java:103-106 | the forwarding statement starts with "return " exactly when the return type is not "void", ignoring case |
| CodeText.VoidCallDropsReturn | src/br/com/layersyncplugin/generator/CodeGenerator.java:103-106 | the void statement is the non-void one with "return " removed |
| JavaModel.LastDeclaration | src/br/com/layersyncplugin/generator/CodeGenerator.java:180-199 | the result is a type with the name and no later type has it; null exactly when no type has the name |
| JavaModel.InterfaceOf | src/br/com/layersyncplugin/generator/CodeGenerator.java:162-175 | null when the class declares no super-interface or its first name does not resolve; otherwise exactly the last type named "package.Type" after the first resolution, or null when there is none |
| JavaModel.WithMethodGrows | src/br/com/layersyncplugin/generator/CodeGenerator.java:76 | `createMethod` only appends: every type keeps its declaration, fields, methods and imports |
| JavaModel.WithImportGrows | src/br/com/layersyncplugin/generator/CodeGenerator.java:98 | `createImport` only appends |
| JavaModel.GrowsTransitive | src/br/com/layersyncplugin/generator/CodeGenerator.java:37-39 | appending after appending is still appending |
| JavaModel.SearchSurvivesGrowth | src/br/com/layersyncplugin/generator/CodeGenerator.java:180-199 | adding members never changes what a type search finds |
| JavaModel.InterfaceSurvivesGrowth | src/br/com/layersyncplugin/generator/CodeGenerator.java:162-175 | adding members never changes the interface a type resolves to |
| CodeGenerator.EnsureField | src/br/com/layersyncplugin/generator/CodeGenerator.java:130-137 | afterwards the class has a field with the expected name |
| CodeGenerator.EnsureFieldIdempotent | src/br/com/layersyncplugin/generator/CodeGenerator.java:130-139 | a second call for the same interface adds nothing |
| CodeGenerator.EnsureFieldAddsAtMostOne | src/br/com/layersyncplugin/generator/CodeGenerator.java:130-139 | exactly one field "private I name;" is appended when no field has the name, none otherwise; nothing else changes |
| CodeGenerator.DelegateEffect | src/br/com/layersyncplugin/generator/CodeGenerator.java:98-119 | the forwarding branch keeps the number of types; what it adds is stated by DelegateEdits and LateFailuresKeepEarlierEdits |
| CodeGenerator.ClassEffect | src/br/com/layersyncplugin/generator/CodeGenerator.java:82-120 | the class edit keeps the number of types; ClassEffectGrows shows it only appends |
| CodeGenerator.LayerEffect | src/br/com/layersyncplugin/generator/CodeGenerator.java:52-69 | a layer keeps the number of types; its cases are stated by the lemmas below |
| CodeGenerator.ChainEffect | src/br/com/layersyncplugin/generator/CodeGenerator.java:34-40 | the chain keeps the number of types; its order is stated by ChainKeepsEarlierEdits |
| CodeGenerator.Workspace.FindType | src/br/com/layersyncplugin/generator/CodeGenerator.java:180-199 | the loop's result is the last type declared with the name, or null |
| CodeGenerator.Workspace.FindImplementedInterface | src/br/com/layersyncplugin/generator/CodeGenerator.java:162-175 | returns exactly `InterfaceOf` of the type |
| CodeGenerator.Workspace.AddMethodToInterface | src/br/com/layersyncplugin/generator/CodeGenerator.java:74-77 | the interface gains "public R m(P);" and nothing else changes |
| CodeGenerator.Workspace.FindOrAddFieldFor | src/br/com/layersyncplugin/generator/CodeGenerator.java:126-140 | always returns the derived field name (or throws before editing); the field is added exactly when the loop over the fields finds none with that name |
| CodeGenerator.Workspace.AddMethodToClass | src/br/com/layersyncplugin/generator/CodeGenerator.java:82-120 | the new index and outcome are exactly `ClassEffect` of the old index |
| CodeGenerator.Workspace.CreateMethodInLayer | src/br/com/layersyncplugin/generator/CodeGenerator.java:52-69 | the new index and outcome are exactly `LayerEffect` of the old index |
| CodeGenerator.Workspace.GenerateMethodsForAllLayers | src/br/com/layersyncplugin/generator/CodeGenerator.java:34-40 | the new index and outcome are exactly `ChainEffect` of the old index |
| CodeGenerator.ClassEffectGrows | src/br/com/layersyncplugin/generator/CodeGenerator.java:82-120 | the class edit only appends imports, fields and methods, whether or not it throws |
| CodeGenerator.LayerEffectGrows | src/br/com/layersyncplugin/generator/CodeGenerator.java:52-69 | a layer only appends, whether or not it throws |
| CodeGenerator.AbsentLayerIsNoOp | src/br/com/layersyncplugin/generator/CodeGenerator.java:53-55 | a null or blank class name completes with the index unchanged |
| CodeGenerator.LayerAbortsBeforeEditing | src/br/com/layersyncplugin/generator/CodeGenerator.java:57-65 | a missing class or interface throws the matching error with neither the interface nor the class edited |
| CodeGenerator.NextLayerFailureKeepsDeclaration | src/br/com/layersyncplugin/generator/CodeGenerator.java:67-96 | a missing next class or interface throws, but the current interface keeps its new declaration and nothing else changes |
| CodeGenerator.LayerReachesDelegate | src/br/com/layersyncplugin/generator/CodeGenerator.java:67-98 | with both layers found, the layer is the declaration followed by the forwarding branch |
| CodeGenerator.LateFailuresKeepEarlierEdits | src/br/com/layersyncplugin/generator/CodeGenerator.java:98-101 | a one-character next interface name throws after the import is added; a nameless parameter throws after the import and the field are added, and no method is added to the class |
| CodeGenerator.DelegateEdits | src/br/com/layersyncplugin/generator/CodeGenerator.java:98-119 | the successful forwarding branch adds the import, the field if missing and the forwarding method to the class, and edits no other type |
| CodeGenerator.LayerDelegates | src/br/com/layersyncplugin/generator/CodeGenerator.java:98-119 | a successful layer with a next layer: the interface gains "public R m(P);", the class gains the import, the field if missing and "@Override public R m(P) { [return ]this.f.m(names); }"; no other type changes |
| CodeGenerator.LayerStubs | src/br/com/layersyncplugin/generator/CodeGenerator.java:110-119 | a successful layer with no next layer: the interface gains the declaration, the class the stub returning null; no other type changes |
| CodeGenerator.ChainKeepsEarlierEdits | src/br/com/layersyncplugin/generator/CodeGenerator.java:37-39 | the chain runs Facade, then Business, then DataProvider with no next layer: a throw ends it, the earlier layers' edits are kept, and when both earlier layers complete the result is the DataProvider layer |
| CodeGenerator.BlankBusinessStubsFacade | src/br/com/layersyncplugin/generator/CodeGenerator.java:37-39 | a blank Business gives the Facade the stub; the DataProvider then runs with no next layer |

## Left out

- The plugin's view (LayerSyncView.java) is not part of this model. It is SWT widgets and dialogs; its only logic is a non-blank check on the facade, method name and return type before it calls the generator.
- The search engine's matching rules (case sensitivity, simple-name patterns, scopes) are not modelled: a type matches when its fully-qualified name is equal.
- `IType.resolveType` is modelled as a lookup table kept on each type record, not computed from imports.
- Where `createMethod`, `createField` and `createImport` insert text, how they format and re-parse it, and whether they refuse a duplicate member are host editing behaviours that cannot be seen here. The model appends the text, and a repeated import is recorded again.
- A compilation unit shared by several types is not modelled: each type record carries its own imports.
- Binary and read-only types, and the JavaModelException the host raises for them, are not modelled.
- The `catch` in `findType` that prints and swallows search failures is not modelled: a failed search is the same as no match.
- Java strings are sequences of UTF-16 code units; the model's strings are sequences of Unicode scalar values. `charAt(1)`, `substring(2)` and the length in StringIndexOutOfBounds (line 128) therefore differ for names holding characters outside the Basic Multilingual Plane: an interface name made of one such character has length 2 in Java, so `charAt(1)` returns its low surrogate instead of throwing, while the model throws; for longer such names the field name is built from different units (`CodeText.DelegateFieldName`).
- `Character.toLowerCase` and `equalsIgnoreCase` are modelled for ASCII letters only; other Unicode case mappings are not.
- The exception messages are not modelled; a failure records its kind and the class name or index involved.
- `getFullyQualifiedName` of nested types (with '$') is not modelled; a record carries its name as given.
- CodeGenerator.LayerDelegates: assumes the class is not its own interface (cls != iface), which a Java type cannot be; the general case is still covered by `LayerEffect` and the growth lemmas.
- CodeGenerator.LayerStubs: makes the same assumption (cls != iface), for the same reason.
