/** The pure, string-building part of CodeGenerator.java: the text of the generated
    declarations and bodies, the delegate field's name, and the extraction of parameter
    names from the raw parameter list. */
module CodeText {
  import opened Wrappers
  import opened JavaStrings

  /** What the generator throws. The first four are the IllegalArgumentException and
      IllegalStateExceptions it raises itself; the last two are the index errors the JVM
      raises from charAt(1) and from split(...)[1]. */
  datatype Failure =
    | ClassNotFound(className: string)
    | InterfaceNotFound(className: string)
    | NextClassNotFound(className: string)
    | NextInterfaceNotFound(className: string)
    | StringIndexOutOfBounds(index: int, length: int)
    | ArrayIndexOutOfBounds(index: int, length: int)

  /** The method to generate, as the caller hands it over; any of the three may be null. */
  datatype Signature = Signature(methodName: Option<string>, returnType: Option<string>, parameters: Option<string>)

  /** How String.format renders a %s argument. */
  function Show(s: Option<string>): string {
    if s.None? then "null" else s.value
  }

  /** "void".equalsIgnoreCase(returnType) */
  predicate IsVoid(returnType: Option<string>)
    ensures IsVoid(returnType) <==> returnType.Some? && LowerAscii(returnType.value) == "void"
  {
    assert LowerAscii("void") == "void";
    returnType.Some? && EqualsIgnoreCase("void", returnType.value)
  }

  /** The declaration appended to the interface: "public %s %s(%s);" */
  function InterfaceMethod(sig: Signature): (r: string)
    ensures |r| >= 9 && r[..7] == "public " && r[|r| - 2..] == ");"
  {
    "public " + Show(sig.returnType) + " " + Show(sig.methodName) + "(" + Show(sig.parameters) + ");"
  }

  /** The implementation appended to the class: "@Override\npublic %s %s(%s) %s" */
  function ClassMethod(sig: Signature, body: string): (r: string)
    ensures |r| >= 17 + |body| && r[..17] == "@Override\npublic " && r[|r| - |body|..] == body
  {
    "@Override\npublic " + Show(sig.returnType) + " " + Show(sig.methodName) + "(" + Show(sig.parameters) + ") " + body
  }

  /** The forwarding statement: "return this.%s.%s(%s);", or without "return " for void. */
  function DelegateCall(field: string, sig: Signature, names: string): (r: string)
    ensures |r| >= 9 + |field| && r[|r| - 2..] == ");"
  {
    var call := "this." + field + "." + Show(sig.methodName) + "(" + names + ");";
    if IsVoid(sig.returnType) then call else "return " + call
  }

  /** "{\n\t%s\n}" around the forwarding statement. */
  function DelegateBody(field: string, sig: Signature, names: string): (r: string)
    ensures |r| >= 5 && r[..3] == "{\n\t" && r[|r| - 2..] == "\n}"
    ensures r[3..|r| - 2] == DelegateCall(field, sig, names)
  {
    "{\n\t" + DelegateCall(field, sig, names) + "\n}"
  }

  /** The body used when there is no next layer. */
  const StubBody: string := "{\n\t// TODO Auto-generated method stub\n\treturn null;\n}"

  /** The field created for a missing delegate: "private %s %s;" */
  function FieldDeclaration(interfaceName: string, fieldName: string): (r: string)
    ensures |r| == 10 + |interfaceName| + |fieldName|
    ensures r[..8] == "private " && r[|r| - 1] == ';'
    ensures r[8..8 + |interfaceName|] == interfaceName && r[9 + |interfaceName|..|r| - 1] == fieldName
  {
    "private " + interfaceName + " " + fieldName + ";"
  }

  /** Character.toLowerCase(name.charAt(1)) + name.substring(2): the first character is
      dropped and the second lower-cased; charAt(1) throws on a name shorter than two. */
  function DelegateFieldName(interfaceName: string): (r: Result<string, Failure>)
    ensures r.Err? <==> |interfaceName| < 2
    ensures r.Err? ==> r.error == StringIndexOutOfBounds(1, |interfaceName|)
    ensures r.Ok? ==> |r.value| == |interfaceName| - 1
    ensures r.Ok? ==> r.value[0] == ToLowerAscii(interfaceName[1]) && r.value[1..] == interfaceName[2..]
  {
    if |interfaceName| < 2 then Err(StringIndexOutOfBounds(1, |interfaceName|))
    else Ok([ToLowerAscii(interfaceName[1])] + interfaceName[2..])
  }

  /** param.trim().split("\\s+")[1]: the SECOND whitespace-separated word of a piece
      (not its last); a piece with fewer than two words makes the index throw. */
  function SecondWord(piece: string): (r: Result<string, Failure>)
    ensures r.Ok? ==> r.value != [] && HasNone(r.value, RegexSpaces)
    ensures r.Err? ==> r.error.ArrayIndexOutOfBounds? && r.error.index == 1
    ensures r.Err? <==> HasNone(Trim(piece), RegexSpaces)
  {
    var words := SplitOnSpaces(Trim(piece));
    SplitOnSpacesWords(Trim(piece));
    SplitOnSpacesOfTrimmed(Trim(piece));
    if |words| > 1 then Ok(words[1]) else Err(ArrayIndexOutOfBounds(1, |words|))
  }

  /** The stream map over the pieces, in order; the first piece that throws ends it. */
  function SecondWords(pieces: seq<string>): (r: Result<seq<string>, Failure>)
    ensures r.Ok? <==> forall i :: 0 <= i < |pieces| ==> SecondWord(pieces[i]).Ok?
    ensures r.Ok? ==> |r.value| == |pieces|
    ensures r.Ok? ==> forall i :: 0 <= i < |pieces| ==> r.value[i] == SecondWord(pieces[i]).value
  {
    if pieces == [] then Ok([])
    else
      match SecondWord(pieces[0])
      case Err(f) => Err(f)
      case Ok(w) =>
        match SecondWords(pieces[1..])
        case Err(f) => Err(f)
        case Ok(ws) => Ok([w] + ws)
  }

  /** extractParameterNames: "" for a null or blank list; otherwise the list is split at
      every comma and the second word of each trimmed piece is kept, joined by ", ". */
  function ExtractParameterNames(parameters: Option<string>): (r: Result<string, Failure>)
    ensures parameters.None? || IsBlank(parameters.value) ==> r == Ok("")
    ensures parameters.Some? && !IsBlank(parameters.value) ==>
      (r.Ok? <==> forall i :: 0 <= i < |SplitOnChar(parameters.value, ',')| ==>
                    !HasNone(Trim(SplitOnChar(parameters.value, ',')[i]), RegexSpaces))
  {
    if parameters.None? || IsBlank(parameters.value) then Ok("")
    else
      match SecondWords(SplitOnChar(parameters.value, ','))
      case Err(f) => Err(f)
      case Ok(names) => Ok(Join(names, ", "))
  }

  // ------------------------------------------------- parameter lists and their names

  /** One "Type name" entry of a parameter list. */
  datatype Parameter = Parameter(typeName: string, name: string)

  /** A word of a well-formed parameter list: non-empty, no trimmable character, no comma. */
  predicate IsWord(w: string) {
    w != [] && forall k :: 0 <= k < |w| ==> !IsTrimmable(w[k]) && w[k] != ','
  }

  function Declarations(ps: seq<Parameter>): (r: seq<string>)
    ensures |r| == |ps|
  {
    seq(|ps|, i requires 0 <= i < |ps| => ps[i].typeName + " " + ps[i].name)
  }

  /** The parameter list as a user types it: "T1 n1, T2 n2, ..." */
  function ParameterList(ps: seq<Parameter>): string {
    Join(Declarations(ps), ", ")
  }

  function Names(ps: seq<Parameter>): (r: seq<string>)
    ensures |r| == |ps|
  {
    seq(|ps|, i requires 0 <= i < |ps| => ps[i].name)
  }

  lemma WordHasNoSpace(w: string)
    requires IsWord(w)
    ensures HasNone(w, RegexSpaces) && HasNone(w, {','})
  {
    forall k | 0 <= k < |w| ensures w[k] !in RegexSpaces && w[k] != ',' {
      assert !IsTrimmable(w[k]);
    }
  }

  /** The second word of "T n", with or without one leading space, is n. */
  lemma TrimOfDeclaration(t: string, n: string, lead: string)
    requires IsWord(t) && IsWord(n)
    requires lead == "" || lead == " "
    ensures Trim(lead + (t + " " + n)) == t + " " + n
  {
    var d := t + " " + n;
    if lead == " " {
      assert lead + d == [' '] + d;
      TrimSkipsLeading(' ', d);
    } else {
      assert lead + d == d;
    }
    TrimKeepsTrimmed(d);
  }

  lemma WordsOfDeclaration(t: string, n: string)
    requires IsWord(t) && IsWord(n)
    ensures SplitOnSpaces(t + " " + n) == [t, n]
  {
    WordHasNoSpace(t);
    WordHasNoSpace(n);
    assert [t, n][..1] == [t];
    assert Join([t, n], " ") == t + " " + n;
    SplitOnSpacesOfJoin([t, n]);
  }

  lemma SecondWordOfWords(piece: string, t: string, n: string)
    requires SplitOnSpaces(Trim(piece)) == [t, n]
    ensures SecondWord(piece) == Ok(n)
  {
  }

  /** Of words joined by single spaces, getParameterNames takes the second. */
  lemma SecondWordOfJoin(ws: seq<string>)
    requires |ws| >= 2 && forall i :: 0 <= i < |ws| ==> IsWord(ws[i])
    ensures SecondWord(Join(ws, " ")) == Ok(ws[1])
  {
    var gaps := seq(|ws| - 1, _ => " ");
    JoinIsSpaced(ws, " ");
    assert SpaceRuns(gaps) by {
      forall i | 0 <= i < |gaps| ensures gaps[i] == " " {}
    }
    SecondWordOfSpaced(ws, gaps);
  }

  /** Whatever runs of \s characters separate the words, getParameterNames takes the second
      word: not the last one, and not a separator. */
  lemma SecondWordOfSpaced(ws: seq<string>, gaps: seq<string>)
    requires |ws| >= 2 && |gaps| == |ws| - 1 && SpaceRuns(gaps)
    requires forall i :: 0 <= i < |ws| ==> IsWord(ws[i])
    ensures SecondWord(Spaced(ws, gaps)) == Ok(ws[1])
  {
    var s := Spaced(ws, gaps);
    forall i | 0 <= i < |ws| ensures ws[i] != [] && HasNone(ws[i], RegexSpaces) {
      WordHasNoSpace(ws[i]);
    }
    var last := ws[|ws| - 1];
    assert s[0] == ws[0][0] && s[|s| - 1] == last[|last| - 1];
    TrimKeepsTrimmed(s);
    SplitOnSpacesOfSpaced(ws, gaps);
  }

  lemma SecondWordOfDeclaration(t: string, n: string, lead: string)
    requires IsWord(t) && IsWord(n)
    requires lead == "" || lead == " "
    ensures SecondWord(lead + (t + " " + n)) == Ok(n)
  {
    TrimOfDeclaration(t, n, lead);
    WordsOfDeclaration(t, n);
    SecondWordOfWords(lead + (t + " " + n), t, n);
  }

  /** The list splits at its commas into the declarations, each after the first with the
      space that followed its comma. */
  lemma {:induction false} PiecesOfParameterList(ps: seq<Parameter>)
    requires |ps| > 0
    requires forall i :: 0 <= i < |ps| ==> IsWord(ps[i].typeName) && IsWord(ps[i].name)
    ensures var ds := Declarations(ps);
      !IsBlank(ParameterList(ps)) &&
      SplitOnChar(ParameterList(ps), ',') == [ds[0]] + Prefixed(ds[1..], " ")
  {
    var ds := Declarations(ps);
    var s := ParameterList(ps);
    forall i | 0 <= i < |ps|
      ensures HasNone(ds[i], {','}) && ds[i] != []
    {
      WordHasNoSpace(ps[i].typeName);
      WordHasNoSpace(ps[i].name);
    }
    JoinHead(ds, ", ");
    assert s[0] == ps[0].typeName[0];
    assert ", " == [','] + " ";
    FieldsOfJoin(ds, ',', " ", {','});
    var pieces := [ds[0]] + Prefixed(ds[1..], " ");
    if ',' !in s {
      FieldsWithout(s, {','});
    }
  }

  /** SecondWords succeeds with the given words when every piece has its second word. */
  lemma SecondWordsOfAll(pieces: seq<string>, names: seq<string>)
    requires |pieces| == |names|
    requires forall i :: 0 <= i < |pieces| ==> SecondWord(pieces[i]) == Ok(names[i])
    ensures SecondWords(pieces) == Ok(names)
  {
    var r := SecondWords(pieces);
    assert r.Ok?;
    assert r.value == names;
  }


  lemma SecondWordsOfPieces(ps: seq<Parameter>)
    requires |ps| > 0
    requires forall i :: 0 <= i < |ps| ==> IsWord(ps[i].typeName) && IsWord(ps[i].name)
    ensures var ds := Declarations(ps);
      SecondWords([ds[0]] + Prefixed(ds[1..], " ")) == Ok(Names(ps))
  {
    var ds := Declarations(ps);
    var pieces := [ds[0]] + Prefixed(ds[1..], " ");
    var names := Names(ps);
    forall i | 0 <= i < |ps|
      ensures SecondWord(pieces[i]) == Ok(names[i])
    {
      if i == 0 {
        SecondWordOfDeclaration(ps[0].typeName, ps[0].name, "");
        assert "" + ds[0] == ds[0];
      } else {
        assert pieces[i] == " " + ds[i];
        SecondWordOfDeclaration(ps[i].typeName, ps[i].name, " ");
      }
    }
    SecondWordsOfAll(pieces, names);
  }

  /** Round trip: the names extracted from a well-formed "T1 n1, T2 n2, ..." list are
      exactly n1, ..., nk, in order, joined by ", ". */
  lemma {:induction false} ExtractNamesOfParameterList(ps: seq<Parameter>)
    requires forall i :: 0 <= i < |ps| ==> IsWord(ps[i].typeName) && IsWord(ps[i].name)
    ensures ExtractParameterNames(Some(ParameterList(ps))) == Ok(Join(Names(ps), ", "))
  {
    if |ps| > 0 {
      var s := ParameterList(ps);
      var ds := Declarations(ps);
      var pieces := [ds[0]] + Prefixed(ds[1..], " ");
      assert !IsBlank(s) && SplitOnChar(s, ',') == pieces by {
        PiecesOfParameterList(ps);
      }
      assert SecondWords(pieces) == Ok(Names(ps)) by {
        SecondWordsOfPieces(ps);
      }
    } else {
      assert ParameterList(ps) == "";
    }
  }

  lemma ExampleWords(ps: seq<Parameter>)
    requires ps == [Parameter("String", "name"), Parameter("List<User>", "users")]
    ensures forall i :: 0 <= i < |ps| ==> IsWord(ps[i].typeName) && IsWord(ps[i].name)
  {
    forall i | 0 <= i < |ps| ensures IsWord(ps[i].typeName) && IsWord(ps[i].name) {
      if i == 0 {
        assert IsWord("String") && IsWord("name");
      } else {
        assert IsWord("List<User>") && IsWord("users");
      }
    }
  }

  /** A two-entry list and its names, written out. */
  lemma PairList(t1: string, n1: string, t2: string, n2: string)
    ensures var ps := [Parameter(t1, n1), Parameter(t2, n2)];
      && ParameterList(ps) == (t1 + " " + n1) + ", " + (t2 + " " + n2)
      && Join(Names(ps), ", ") == n1 + ", " + n2
  {
    var ps := [Parameter(t1, n1), Parameter(t2, n2)];
    var ds := Declarations(ps);
    assert ds == [t1 + " " + n1, t2 + " " + n2];
    JoinPair(ds[0], ds[1], ", ");
    assert Names(ps) == [n1, n2];
    JoinPair(n1, n2, ", ");
  }

  lemma ExampleList(list: string)
    requires list == "String name, List<User> users"
    ensures list == ("String" + " " + "name") + ", " + ("List<User>" + " " + "users")
  {
  }

  lemma ExampleParameters(ps: seq<Parameter>, list: string)
    requires ps == [Parameter("String", "name"), Parameter("List<User>", "users")]
    requires list == "String name, List<User> users"
    ensures ParameterList(ps) == list && Join(Names(ps), ", ") == "name, users"
  {
    PairList("String", "name", "List<User>", "users");
    ExampleList(list);
  }

  /** The example of the source's documentation comment. */
  lemma ExtractNamesExample(list: string)
    requires list == "String name, List<User> users"
    ensures ExtractParameterNames(Some(list)) == Ok("name, users")
  {
    var ps := [Parameter("String", "name"), Parameter("List<User>", "users")];
    ExampleWords(ps);
    ExampleParameters(ps, list);
    ExtractNamesOfParameterList(ps);
  }

  /** The name taken is the second word, not the last: "final String name" gives "String". */
  lemma {:induction false} SecondWordNotLast(a: string, b: string, c: string)
    requires IsWord(a) && IsWord(b) && IsWord(c)
    ensures ExtractParameterNames(Some(a + " " + b + " " + c)) == Ok(b)
  {
    var s := a + " " + b + " " + c;
    WordHasNoSpace(a);
    WordHasNoSpace(b);
    WordHasNoSpace(c);
    assert HasNone(s, {','});
    assert s[0] == a[0];
    assert ',' !in s;
    TrimKeepsTrimmed(s);
    assert [a, b, c][..2] == [a, b] && [a, b][..1] == [a];
    assert Join([a, b], " ") == a + " " + b;
    assert Join([a, b, c], " ") == s;
    SplitOnSpacesOfJoin([a, b, c]);
    assert SecondWord(s) == Ok(b);
    assert [s][0] == s && [s][1..] == [];
    assert [b] + [] == [b];
    assert SecondWords([s]) == Ok([b]);
  }

  /** A piece with a single word makes the extraction throw: "String" alone has no name. */
  lemma {:induction false} SingleWordThrows(w: string)
    requires IsWord(w)
    ensures ExtractParameterNames(Some(w)) == Err(ArrayIndexOutOfBounds(1, 1))
  {
    WordHasNoSpace(w);
    assert ',' !in w;
    TrimKeepsTrimmed(w);
  }

  /** A one-word piece after a well-formed one still throws: "String name, users" has no
      name in its second piece. */
  lemma OneWordPieceThrows(t: string, n: string, w: string)
    requires IsWord(t) && IsWord(n) && IsWord(w)
    ensures ExtractParameterNames(Some(t + " " + n + ", " + w)).Err?
  {
    var d := t + " " + n;
    var s := t + " " + n + ", " + w;
    WordHasNoSpace(t);
    WordHasNoSpace(n);
    WordHasNoSpace(w);
    assert HasNone(d, {','});
    JoinPair(d, w, ", ");
    assert ", " == [','] + " ";
    FieldsOfJoin([d, w], ',', " ", {','});
    assert s[|d|] == ',';
    assert [d, w][1..] == [w];
    var pieces := [d] + Prefixed([w], " ");
    assert SplitOnChar(s, ',') == pieces;
    assert pieces[1] == [' '] + w;
    TrimSkipsLeading(' ', w);
    TrimKeepsTrimmed(w);
    assert !IsBlank(s) by {
      assert s[0] == t[0];
      BlankIffAllTrimmable(s);
    }
  }

  // ------------------------------------------------------------- templates

  /** Prefix-convention round trip: an interface named by one prefix character followed by
      the capitalised field name yields that field name ("IUserBusiness" gives "userBusiness"). */
  lemma DelegateFieldNameOfPrefixed(prefix: char, field: string)
    requires field != [] && !('A' <= field[0] <= 'Z')
    ensures DelegateFieldName([prefix] + [ToUpperAscii(field[0])] + field[1..]) == Ok(field)
  {
    var name := [prefix] + [ToUpperAscii(field[0])] + field[1..];
    assert name[2..] == field[1..];
    assert [field[0]] + field[1..] == field;
  }

  /** The implementation repeats the interface declaration, without its semicolon,
      after "@Override" and before the body: the class implements what the interface declares. */
  lemma ImplementationMatchesDeclaration(sig: Signature, body: string)
    ensures var d := InterfaceMethod(sig);
      ClassMethod(sig, body) == "@Override\n" + d[..|d| - 1] + " " + body
  {
    var head := "public " + Show(sig.returnType) + " " + Show(sig.methodName) + "(" + Show(sig.parameters) + ")";
    assert InterfaceMethod(sig) == head + ";";
    assert (head + ";")[..|head|] == head;
  }

  /** The forwarding statement starts with "return " exactly when the return type is not void. */
  lemma ReturnExactlyWhenNotVoid(field: string, sig: Signature, names: string)
    ensures var call := DelegateCall(field, sig, names);
      |call| >= 7 && (call[..7] == "return " <==> !IsVoid(sig.returnType))
  {
    var call := DelegateCall(field, sig, names);
    if IsVoid(sig.returnType) {
      assert call[0] == 't';
    } else {
      assert call[..7] == "return ";
    }
  }

  /** The void statement is the non-void one with its "return " removed. */
  lemma VoidCallDropsReturn(field: string, value: Signature, void: Signature, names: string)
    requires value.methodName == void.methodName
    requires !IsVoid(value.returnType) && IsVoid(void.returnType)
    ensures DelegateCall(field, value, names) == "return " + DelegateCall(field, void, names)
  {
  }
}
