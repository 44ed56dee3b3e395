/** The behaviour of the few java.lang.String operations the generator relies on:
    trim(), split(",") with a one-character pattern, split("\\s+"), the
    reduce-based joining of a stream of strings, and equalsIgnoreCase. */
module JavaStrings {

  /** String.trim() removes every leading and trailing character whose code is at most U+0020. */
  predicate IsTrimmable(c: char) {
    c <= ' '
  }

  /** The predefined character class \s of java.util.regex: [ \t\n\x0B\f\r]. */
  const RegexSpaces: set<char> := {' ', '\t', '\n', '\U{000B}', '\U{000C}', '\r'}

  function TrimStart(s: string): (r: string)
    ensures |r| <= |s|
  {
    if s != [] && IsTrimmable(s[0]) then TrimStart(s[1..]) else s
  }

  function TrimEnd(s: string): (r: string)
    ensures |r| <= |s|
  {
    if s != [] && IsTrimmable(s[|s| - 1]) then TrimEnd(s[..|s| - 1]) else s
  }

  /** TrimStart removes exactly the leading trimmable characters. */
  lemma {:induction false} TrimStartFacts(s: string)
    ensures var r := TrimStart(s);
      && r == s[|s| - |r|..]
      && (forall k :: 0 <= k < |s| - |r| ==> IsTrimmable(s[k]))
      && (r == [] || !IsTrimmable(r[0]))
  {
    if s != [] && IsTrimmable(s[0]) {
      TrimStartFacts(s[1..]);
    }
  }

  /** TrimEnd removes exactly the trailing trimmable characters. */
  lemma {:induction false} TrimEndFacts(s: string)
    ensures var r := TrimEnd(s);
      && r == s[..|r|]
      && (forall k :: |r| <= k < |s| ==> IsTrimmable(s[k]))
      && (r == [] || !IsTrimmable(r[|r| - 1]))
  {
    if s != [] && IsTrimmable(s[|s| - 1]) {
      TrimEndFacts(s[..|s| - 1]);
    }
  }

  /** String.trim(): the result neither starts nor ends with a trimmable character. */
  function Trim(s: string): (r: string)
    ensures |r| <= |s|
    ensures r == [] || (!IsTrimmable(r[0]) && !IsTrimmable(r[|r| - 1]))
  {
    TrimStartFacts(s);
    TrimEndFacts(TrimStart(s));
    TrimEnd(TrimStart(s))
  }

  /** s.trim().isEmpty() */
  predicate IsBlank(s: string) {
    Trim(s) == []
  }

  /** trim() gives the empty string exactly when every character is trimmable. */
  lemma BlankIffAllTrimmable(s: string)
    ensures IsBlank(s) <==> forall k :: 0 <= k < |s| ==> IsTrimmable(s[k])
  {
    var t := TrimStart(s);
    TrimStartFacts(s);
    TrimEndFacts(t);
    if t != [] {
      assert t[0] == s[|s| - |t|];
    }
  }

  lemma TrimKeepsTrimmed(s: string)
    requires s == [] || (!IsTrimmable(s[0]) && !IsTrimmable(s[|s| - 1]))
    ensures Trim(s) == s
  {
  }

  lemma TrimSkipsLeading(c: char, s: string)
    requires IsTrimmable(c)
    ensures Trim([c] + s) == Trim(s)
  {
    assert ([c] + s)[1..] == s;
  }

  /** The pieces of s between single occurrences of a delimiter character (empty pieces kept). */
  function Fields(s: string, delims: set<char>): (r: seq<string>)
    ensures |r| >= 1
  {
    if s == [] then [[]]
    else
      var rest := Fields(s[1..], delims);
      if s[0] in delims then [[]] + rest else [[s[0]] + rest[0]] + rest[1..]
  }

  /** The left fold reduce((a, b) -> a + sep + b).orElse("") over a sequence of strings. */
  function Join(xs: seq<string>, sep: string): string
  {
    if |xs| == 0 then ""
    else if |xs| == 1 then xs[0]
    else Join(xs[..|xs| - 1], sep) + sep + xs[|xs| - 1]
  }

  lemma JoinPair(a: string, b: string, sep: string)
    ensures Join([a, b], sep) == a + sep + b
  {
    assert [a, b][..1] == [a];
  }

  predicate HasNone(s: string, delims: set<char>) {
    forall k :: 0 <= k < |s| ==> s[k] !in delims
  }

  /** Drops the empty strings at the end of a split result, as String.split with limit 0 does. */
  function DropTrailingEmpty(xs: seq<string>): (r: seq<string>)
    ensures |r| <= |xs| && r == xs[..|r|]
    ensures r == [] || r[|r| - 1] != []
    ensures forall k :: |r| <= k < |xs| ==> xs[k] == []
  {
    if xs != [] && xs[|xs| - 1] == [] then DropTrailingEmpty(xs[..|xs| - 1]) else xs
  }

  /** s.split(String.valueOf(c)) for a character that is not a regex metacharacter:
      the whole string when c does not occur, otherwise the fields without trailing empty ones. */
  function SplitOnChar(s: string, c: char): (r: seq<string>)
    ensures c !in s ==> r == [s]
    ensures r == [s] || r == [] || r[|r| - 1] != []
    ensures forall i :: 0 <= i < |r| ==> HasNone(r[i], {c})
  {
    if c !in s then [s]
    else
      FieldsAvoidDelimiters(s, {c});
      DropTrailingEmpty(Fields(s, {c}))
  }

  /** The non-empty strings of xs, in order. */
  function NonEmpty(xs: seq<string>): (r: seq<string>)
    ensures |r| <= |xs|
    ensures forall i :: 0 <= i < |r| ==> r[i] != [] && r[i] in xs
  {
    if xs == [] then []
    else if xs[0] == [] then NonEmpty(xs[1..])
    else [xs[0]] + NonEmpty(xs[1..])
  }

  /** s.split("\\s+"): the whole string when it holds no \s character; otherwise the maximal
      runs of non-space characters, preceded by "" when s starts with a space, and nothing
      at all when s is made only of spaces (trailing empty strings are removed). */
  function SplitOnSpaces(s: string): (r: seq<string>)
    ensures r == [] <==> s != [] && forall k :: 0 <= k < |s| ==> s[k] in RegexSpaces
  {
    FieldsAllEmpty(s, RegexSpaces);
    NonEmptyNone(Fields(s, RegexSpaces));
    if HasNone(s, RegexSpaces) then [s]
    else
      var words := NonEmpty(Fields(s, RegexSpaces));
      if words == [] then
        assert forall k :: 0 <= k < |s| ==> s[k] in RegexSpaces;
        []
      else
        assert !forall i :: 0 <= i < |Fields(s, RegexSpaces)| ==> Fields(s, RegexSpaces)[i] == [];
        assert !forall k :: 0 <= k < |s| ==> s[k] in RegexSpaces by {
          FieldsAllEmpty(s, RegexSpaces);
        }
        if s[0] in RegexSpaces then [""] + words else words
  }

  /** Character.toLowerCase restricted to ASCII letters. */
  function ToLowerAscii(c: char): (r: char)
  {
    if 'A' <= c <= 'Z' then (c as int + 32) as char else c
  }

  function ToUpperAscii(c: char): (r: char)
  {
    if 'a' <= c <= 'z' then (c as int - 32) as char else c
  }

  /** String.toLowerCase restricted to ASCII letters. */
  function LowerAscii(s: string): (r: string)
    ensures |r| == |s| && forall i :: 0 <= i < |s| ==> r[i] == ToLowerAscii(s[i])
  {
    seq(|s|, i requires 0 <= i < |s| => ToLowerAscii(s[i]))
  }

  /** String.equalsIgnoreCase restricted to ASCII case mapping. */
  predicate EqualsIgnoreCase(a: string, b: string) {
    |a| == |b| && forall i :: 0 <= i < |a| ==> ToLowerAscii(a[i]) == ToLowerAscii(b[i])
  }

  // ---------------------------------------------------------------- lemmas

  /** No field contains a delimiter. */
  lemma {:induction false} FieldsAvoidDelimiters(s: string, delims: set<char>)
    ensures forall i :: 0 <= i < |Fields(s, delims)| ==> HasNone(Fields(s, delims)[i], delims)
  {
    if s != [] {
      FieldsAvoidDelimiters(s[1..], delims);
    }
  }

  /** Every word of split("\\s+") is free of \s characters, and all but the first are non-empty. */
  lemma SplitOnSpacesWords(s: string)
    ensures forall i :: 0 <= i < |SplitOnSpaces(s)| ==> HasNone(SplitOnSpaces(s)[i], RegexSpaces)
    ensures forall i :: 1 <= i < |SplitOnSpaces(s)| ==> SplitOnSpaces(s)[i] != []
  {
    if !HasNone(s, RegexSpaces) {
      FieldsAvoidDelimiters(s, RegexSpaces);
    }
  }

  lemma {:induction false} FieldsWithout(s: string, delims: set<char>)
    requires HasNone(s, delims)
    ensures Fields(s, delims) == [s]
  {
    if s != [] {
      FieldsWithout(s[1..], delims);
      assert [s[0]] + s[1..] == s;
    }
  }

  /** Splitting at a delimiter splits the two sides independently. */
  lemma {:induction false} FieldsAppend(a: string, c: char, b: string, delims: set<char>)
    requires c in delims
    ensures Fields(a + [c] + b, delims) == Fields(a, delims) + Fields(b, delims)
  {
    if a == [] {
      assert (a + [c] + b)[1..] == b;
    } else {
      assert (a + [c] + b)[1..] == a[1..] + [c] + b;
      FieldsAppend(a[1..], c, b, delims);
    }
  }

  /** xs with t put in front of every element. */
  function Prefixed(xs: seq<string>, t: string): (r: seq<string>)
    ensures |r| == |xs| && forall i :: 0 <= i < |xs| ==> r[i] == t + xs[i]
  {
    seq(|xs|, i requires 0 <= i < |xs| => t + xs[i])
  }

  /** Splitting a joined string at the first character of the separator gives back the
      pieces, each after the first carrying the rest of the separator in front. */
  lemma {:induction false} FieldsOfJoin(xs: seq<string>, c: char, t: string, delims: set<char>)
    requires |xs| >= 1 && c in delims && HasNone(t, delims)
    requires forall i :: 0 <= i < |xs| ==> HasNone(xs[i], delims)
    ensures Fields(Join(xs, [c] + t), delims) == [xs[0]] + Prefixed(xs[1..], t)
  {
    var n := |xs|;
    if n == 1 {
      FieldsWithout(xs[0], delims);
    } else {
      var init := xs[..n - 1];
      FieldsOfJoin(init, c, t, delims);
      assert Join(xs, [c] + t) == Join(init, [c] + t) + [c] + (t + xs[n - 1]);
      FieldsAppend(Join(init, [c] + t), c, t + xs[n - 1], delims);
      FieldsWithout(t + xs[n - 1], delims);
      assert Prefixed(xs[1..], t) == Prefixed(init[1..], t) + [t + xs[n - 1]];
    }
  }

  lemma {:induction false} JoinConsHead(x: string, y: string, ys: seq<string>, sep: string)
    ensures Join([x + y] + ys, sep) == x + Join([y] + ys, sep)
  {
    if ys != [] {
      var m := |ys|;
      assert ([x + y] + ys)[..m] == [x + y] + ys[..m - 1];
      assert ([y] + ys)[..m] == [y] + ys[..m - 1];
      JoinConsHead(x, y, ys[..m - 1], sep);
    }
  }

  lemma {:induction false} JoinCons(x: string, ys: seq<string>, sep: string)
    requires ys != []
    ensures Join([x] + ys, sep) == x + sep + Join(ys, sep)
  {
    var m := |ys|;
    if m > 1 {
      assert ([x] + ys)[..m] == [x] + ys[..m - 1];
      JoinCons(x, ys[..m - 1], sep);
    }
  }

  /** Joining the fields with the delimiter gives back the string: Fields and Join are inverse. */
  lemma {:induction false} JoinOfFields(s: string, c: char)
    ensures Join(Fields(s, {c}), [c]) == s
  {
    if s != [] {
      var rest := Fields(s[1..], {c});
      JoinOfFields(s[1..], c);
      if s[0] == c {
        JoinCons([], rest, [c]);
      } else {
        JoinConsHead([s[0]], rest[0], rest[1..], [c]);
        assert [rest[0]] + rest[1..] == rest;
      }
      assert [s[0]] + s[1..] == s;
    }
  }

  lemma {:induction false} NonEmptyKeeps(xs: seq<string>)
    requires forall i :: 0 <= i < |xs| ==> xs[i] != []
    ensures NonEmpty(xs) == xs
  {
    if xs != [] {
      NonEmptyKeeps(xs[1..]);
    }
  }

  lemma {:induction false} JoinHead(xs: seq<string>, sep: string)
    requires |xs| >= 1
    ensures |Join(xs, sep)| >= |xs[0]| && Join(xs, sep)[..|xs[0]|] == xs[0]
  {
    if |xs| > 1 {
      JoinHead(xs[..|xs| - 1], sep);
    }
  }

  /** Splitting words joined by single spaces on \s+ gives the words back. */
  lemma {:induction false} SplitOnSpacesOfJoin(ws: seq<string>)
    requires |ws| >= 1
    requires forall i :: 0 <= i < |ws| ==> ws[i] != [] && HasNone(ws[i], RegexSpaces)
    ensures SplitOnSpaces(Join(ws, " ")) == ws
  {
    var s := Join(ws, " ");
    if |ws| > 1 {
      JoinCons(ws[0], ws[1..], " ");
      assert [ws[0]] + ws[1..] == ws;
      assert s == ws[0] + " " + Join(ws[1..], " ");
      assert s[|ws[0]|] == ' ';
      assert !HasNone(s, RegexSpaces);
      assert s[0] == ws[0][0];
      assert [' '] + "" == " ";
      FieldsOfJoin(ws, ' ', "", RegexSpaces);
      forall i | 0 <= i < |ws| - 1
        ensures Prefixed(ws[1..], "")[i] == ws[1..][i]
      {
        assert "" + ws[1..][i] == ws[1..][i];
      }
      assert Prefixed(ws[1..], "") == ws[1..];
      assert Fields(s, RegexSpaces) == ws;
      NonEmptyKeeps(ws);
    }
  }

  /** Words with a run of separator characters between each pair: ws[0] + gaps[0] + ws[1] + ... */
  function Spaced(ws: seq<string>, gaps: seq<string>): (r: string)
    requires |ws| >= 1 && |gaps| == |ws| - 1
    ensures |r| >= |ws[0]| && r[..|ws[0]|] == ws[0]
    ensures |r| >= |ws[|ws| - 1]| && r[|r| - |ws[|ws| - 1]|..] == ws[|ws| - 1]
  {
    if |ws| == 1 then ws[0] else ws[0] + gaps[0] + Spaced(ws[1..], gaps[1..])
  }

  /** Joining with one separator is spacing the words with that separator in every gap. */
  lemma {:induction false} JoinIsSpaced(ws: seq<string>, sep: string)
    requires |ws| >= 1
    ensures Join(ws, sep) == Spaced(ws, seq(|ws| - 1, _ => sep))
  {
    if |ws| > 1 {
      var gaps := seq(|ws| - 1, _ => sep);
      assert Join(ws, sep) == ws[0] + sep + Join(ws[1..], sep) by {
        assert [ws[0]] + ws[1..] == ws;
        JoinCons(ws[0], ws[1..], sep);
      }
      assert Join(ws[1..], sep) == Spaced(ws[1..], gaps[1..]) by {
        assert gaps[1..] == seq(|ws| - 2, _ => sep);
        JoinIsSpaced(ws[1..], sep);
      }
      assert Spaced(ws, gaps) == ws[0] + gaps[0] + Spaced(ws[1..], gaps[1..]);
    }
  }

  /** Every gap is a non-empty run of \s characters. */
  predicate SpaceRuns(gaps: seq<string>) {
    forall i :: 0 <= i < |gaps| ==> gaps[i] != [] && forall k :: 0 <= k < |gaps[i]| ==> gaps[i][k] in RegexSpaces
  }

  lemma {:induction false} NonEmptyAppend(xs: seq<string>, ys: seq<string>)
    ensures NonEmpty(xs + ys) == NonEmpty(xs) + NonEmpty(ys)
  {
    if xs != [] {
      assert (xs + ys)[0] == xs[0] && (xs + ys)[1..] == xs[1..] + ys;
      NonEmptyAppend(xs[1..], ys);
    } else {
      assert xs + ys == ys;
    }
  }

  /** Leading delimiters only contribute empty fields. */
  lemma {:induction false} NonEmptyFieldsAfterDelimiters(g: string, b: string, delims: set<char>)
    requires forall k :: 0 <= k < |g| ==> g[k] in delims
    ensures NonEmpty(Fields(g + b, delims)) == NonEmpty(Fields(b, delims))
  {
    if g != [] {
      var s := g + b;
      assert s[0] in delims && s[1..] == g[1..] + b;
      var fs := Fields(s, delims);
      assert fs == [[]] + Fields(g[1..] + b, delims);
      assert fs[0] == [] && fs[1..] == Fields(g[1..] + b, delims);
      NonEmptyFieldsAfterDelimiters(g[1..], b, delims);
    } else {
      assert g + b == b;
    }
  }

  lemma NonEmptyCons(w: string, xs: seq<string>)
    requires w != []
    ensures NonEmpty([w] + xs) == [w] + NonEmpty(xs)
  {
    assert ([w] + xs)[0] == w && ([w] + xs)[1..] == xs;
  }

  lemma FieldsOfWordThenDelimiter(w: string, c: char, b: string, delims: set<char>)
    requires HasNone(w, delims) && c in delims
    ensures Fields(w + [c] + b, delims) == [w] + Fields(b, delims)
  {
    FieldsWithout(w, delims);
    FieldsAppend(w, c, b, delims);
  }

  /** A word followed by a run of delimiters contributes exactly itself to the non-empty fields. */
  lemma WordThenDelimiters(w: string, g: string, rest: string, delims: set<char>)
    requires HasNone(w, delims) && w != []
    requires g != [] && forall k :: 0 <= k < |g| ==> g[k] in delims
    ensures NonEmpty(Fields(w + g + rest, delims)) == [w] + NonEmpty(Fields(rest, delims))
  {
    assert w + g + rest == w + [g[0]] + (g[1..] + rest);
    FieldsOfWordThenDelimiter(w, g[0], g[1..] + rest, delims);
    NonEmptyCons(w, Fields(g[1..] + rest, delims));
    NonEmptyFieldsAfterDelimiters(g[1..], rest, delims);
  }

  /** The non-empty \s-separated fields of spaced words are the words. */
  lemma {:induction false} WordsOfSpaced(ws: seq<string>, gaps: seq<string>)
    requires |ws| >= 1 && |gaps| == |ws| - 1 && SpaceRuns(gaps)
    requires forall i :: 0 <= i < |ws| ==> ws[i] != [] && HasNone(ws[i], RegexSpaces)
    ensures NonEmpty(Fields(Spaced(ws, gaps), RegexSpaces)) == ws
  {
    if |ws| == 1 {
      FieldsWithout(ws[0], RegexSpaces);
      assert NonEmpty([ws[0]]) == [ws[0]];
    } else {
      var rest := Spaced(ws[1..], gaps[1..]);
      assert NonEmpty(Fields(rest, RegexSpaces)) == ws[1..] by {
        forall i | 0 <= i < |gaps| - 1 ensures gaps[1..][i] == gaps[i + 1] {}
        forall i | 0 <= i < |ws| - 1 ensures ws[1..][i] == ws[i + 1] {}
        WordsOfSpaced(ws[1..], gaps[1..]);
      }
      WordThenDelimiters(ws[0], gaps[0], rest, RegexSpaces);
      assert [ws[0]] + ws[1..] == ws;
    }
  }

  /** Splitting words separated by arbitrary non-empty runs of \s characters on \s+ gives
      the words back, in order. */
  lemma SplitOnSpacesOfSpaced(ws: seq<string>, gaps: seq<string>)
    requires |ws| >= 1 && |gaps| == |ws| - 1 && SpaceRuns(gaps)
    requires forall i :: 0 <= i < |ws| ==> ws[i] != [] && HasNone(ws[i], RegexSpaces)
    ensures SplitOnSpaces(Spaced(ws, gaps)) == ws
  {
    var s := Spaced(ws, gaps);
    if |ws| > 1 {
      assert s == ws[0] + gaps[0] + Spaced(ws[1..], gaps[1..]);
      assert s[|ws[0]|] == gaps[0][0];
      assert !HasNone(s, RegexSpaces);
      assert s[0] == ws[0][0];
      WordsOfSpaced(ws, gaps);
    }
  }

  lemma {:induction false} NonEmptyNone(xs: seq<string>)
    ensures NonEmpty(xs) == [] <==> forall i :: 0 <= i < |xs| ==> xs[i] == []
  {
    if xs != [] {
      NonEmptyNone(xs[1..]);
      if xs[0] == [] {
        forall i | 1 <= i < |xs| ensures xs[i] == xs[1..][i - 1] {}
      }
    }
  }

  /** Every field is empty exactly when every character is a delimiter. */
  lemma {:induction false} FieldsAllEmpty(s: string, delims: set<char>)
    ensures (forall i :: 0 <= i < |Fields(s, delims)| ==> Fields(s, delims)[i] == [])
            <==> (forall k :: 0 <= k < |s| ==> s[k] in delims)
  {
    if s != [] {
      FieldsAllEmpty(s[1..], delims);
      if s[0] in delims {
        var rest := Fields(s[1..], delims);
        var fs := Fields(s, delims);
        assert fs == [[]] + rest;
        assert (forall i :: 0 <= i < |fs| ==> fs[i] == []) <==> (forall i :: 0 <= i < |rest| ==> rest[i] == []) by {
          forall i | 0 <= i < |rest| ensures fs[i + 1] == rest[i] {}
        }
        assert (forall k :: 0 <= k < |s| ==> s[k] in delims) <==> (forall k :: 0 <= k < |s[1..]| ==> s[1..][k] in delims) by {
          forall k | 1 <= k < |s| ensures s[k] == s[1..][k - 1] {}
        }
      } else {
        assert Fields(s, delims)[0] != [];
      }
    }
  }

  /** The last field of a string that ends in a non-delimiter is not empty. */
  lemma {:induction false} FieldsLastNonEmpty(s: string, delims: set<char>)
    requires s != [] && s[|s| - 1] !in delims
    ensures var fs := Fields(s, delims); fs[|fs| - 1] != []
  {
    if |s| > 1 {
      assert s[1..][|s| - 2] == s[|s| - 1];
      FieldsLastNonEmpty(s[1..], delims);
    }
  }

  /** A string holding a delimiter has at least two fields. */
  lemma {:induction false} FieldsOfDelimited(s: string, delims: set<char>)
    requires !HasNone(s, delims)
    ensures |Fields(s, delims)| >= 2
  {
    if s[0] !in delims {
      var k :| 0 <= k < |s| && s[k] in delims;
      assert s[1..][k - 1] == s[k];
      FieldsOfDelimited(s[1..], delims);
    }
  }

  lemma {:induction false} NonEmptyOfLast(xs: seq<string>)
    requires xs != [] && xs[|xs| - 1] != []
    ensures NonEmpty(xs) != []
  {
    if xs[0] == [] {
      assert xs[1..][|xs| - 2] == xs[|xs| - 1];
      NonEmptyOfLast(xs[1..]);
    }
  }

  /** split("\\s+") of a trimmed string has a second word exactly when the string holds white space. */
  lemma SplitOnSpacesOfTrimmed(s: string)
    requires s == [] || (!IsTrimmable(s[0]) && !IsTrimmable(s[|s| - 1]))
    ensures |SplitOnSpaces(s)| >= 2 <==> !HasNone(s, RegexSpaces)
  {
    if !HasNone(s, RegexSpaces) {
      var fs := Fields(s, RegexSpaces);
      assert s[0] !in RegexSpaces && s[|s| - 1] !in RegexSpaces;
      FieldsOfDelimited(s, RegexSpaces);
      FieldsLastNonEmpty(s, RegexSpaces);
      assert fs[0] != [];
      assert fs[1..][|fs| - 2] == fs[|fs| - 1];
      NonEmptyOfLast(fs[1..]);
      assert NonEmpty(fs) == [fs[0]] + NonEmpty(fs[1..]);
    }
  }

  /** Dropping the trailing empty strings removes only trailing separators from the join. */
  lemma {:induction false} JoinOfDropped(xs: seq<string>, c: char)
    ensures var j := Join(DropTrailingEmpty(xs), [c]); var whole := Join(xs, [c]);
      && |j| <= |whole| && whole[..|j|] == j
      && forall k :: |j| <= k < |whole| ==> whole[k] == c
  {
    var n := |xs|;
    if n > 1 && xs[n - 1] == [] {
      JoinOfDropped(xs[..n - 1], c);
      assert Join(xs, [c]) == Join(xs[..n - 1], [c]) + [c] + [];
    }
  }

  lemma {:induction false} JoinEndsWithLast(xs: seq<string>, sep: string)
    requires |xs| >= 1
    ensures var j := Join(xs, sep); var last := xs[|xs| - 1];
      |last| <= |j| && j[|j| - |last|..] == last
  {
  }

  /** split(c) joined back with c is the string without its trailing run of c: what is kept
      is a prefix of the string, everything after it is c, and it does not itself end in c. */
  lemma SplitOnCharThenJoin(s: string, c: char)
    ensures var j := Join(SplitOnChar(s, c), [c]);
      && |j| <= |s| && s[..|j|] == j
      && (forall k :: |j| <= k < |s| ==> s[k] == c)
      && (j == [] || j[|j| - 1] != c)
  {
    var r := SplitOnChar(s, c);
    if c in s {
      var fs := Fields(s, {c});
      JoinOfFields(s, c);
      JoinOfDropped(fs, c);
      if r != [] {
        FieldsAvoidDelimiters(s, {c});
        assert r[|r| - 1] == fs[|r| - 1];
        JoinEndsWithLast(r, [c]);
        var j := Join(r, [c]);
        var last := r[|r| - 1];
        assert j[|j| - 1] == last[|last| - 1];
      }
    }
  }
}
