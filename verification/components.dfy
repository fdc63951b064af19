/** Attributes, functional and multivalued dependencies, and relvars (relation variables):
    the building blocks of relational design theory that the normalisation algorithms work on. */
module Components {
  import opened Strings

  /** One column of a relvar's heading. Two attributes are equal exactly when their names are. */
  datatype Attribute = Attribute(name: string)

  /** The two dependency variants: X -> Y (functional) and X ->-> Y (multivalued). */
  datatype Kind = Functional | Multivalued

  /** A dependency of either kind: determinant X and dependant Y. */
  datatype Dependency = Dependency(kind: Kind, determinant: set<Attribute>, dependant: set<Attribute>)

  /** The two exceptions the components raise. */
  datatype Error = InvalidExpression | InvalidDependency(attribute: Attribute)

  datatype Result<T> = Ok(value: T) | Err(error: Error)

  datatype Outcome = Pass | Fail(error: Error)

  /** The text between the two brace lists of a dependency of the given kind. */
  function Separator(kind: Kind): string
  {
    match kind
    case Functional => "->"
    case Multivalued => "->->"
  }

  // ---------------------------------------------------------------------------------------------
  // The grammar of dependency expressions

  /** The character class `[A-z]`: every character from 'A' to 'z', which includes
      `[`, `\`, `]`, `^`, `_` and the backtick besides the letters. */
  predicate IsNameChar(c: char)
  {
    'A' <= c <= 'z'
  }

  /** `[A-z]+`: a non-empty run of name characters. */
  predicate IsName(s: string)
  {
    s != [] && forall i :: 0 <= i < |s| ==> IsNameChar(s[i])
  }

  /** Length of the longest prefix of s made of name characters. */
  function NameRun(s: string): (n: nat)
    ensures n <= |s|
    ensures forall i :: 0 <= i < n ==> IsNameChar(s[i])
    ensures n < |s| ==> !IsNameChar(s[n])
  {
    if s != [] && IsNameChar(s[0]) then 1 + NameRun(s[1..]) else 0
  }

  /** Recogniser for `[A-z]+(?:,[A-z]+)*`: maximal runs of name characters separated by single commas.
      Since a comma is not a name character, matching each run greedily decides the pattern. */
  predicate IsNameList(s: string)
    decreases |s|
  {
    var n := NameRun(s);
    n > 0 && (n == |s| || (s[n] == ',' && IsNameList(s[n + 1..])))
  }

  /** `{names}`: a list of names inside braces. */
  function Braced(names: string): (s: string)
    ensures |s| == |names| + 2 && s[0] == '{' && s[|s| - 1] == '}' && s[1..|s| - 1] == names
  {
    var s := "{" + names + "}";
    assert s[1..|s| - 1] == names;
    s
  }

  /** A string between an opening and a closing brace is the braced form of what lies between them. */
  lemma BracedInner(s: string)
    requires |s| >= 2 && s[0] == '{' && s[|s| - 1] == '}'
    ensures s == Braced(s[1..|s| - 1])
  {
    var b := Braced(s[1..|s| - 1]);
    forall i | 0 <= i < |s| ensures s[i] == b[i] {
      if 0 < i < |s| - 1 {
        assert s[i] == s[1..|s| - 1][i - 1] == b[1..|b| - 1][i - 1];
      }
    }
  }

  /** A brace list `\{[A-z]+(?:,[A-z]+)*\}`. */
  predicate IsBraceList(s: string)
  {
    |s| >= 2 && s[0] == '{' && s[|s| - 1] == '}' && IsNameList(s[1..|s| - 1])
  }

  /** Index of the first occurrence of c in s, or |s| when there is none. */
  function IndexOf(s: string, c: char): (i: nat)
    ensures i <= |s|
    ensures forall m :: 0 <= m < i ==> s[m] != c
    ensures i < |s| ==> s[i] == c
  {
    if s == [] || s[0] == c then 0 else 1 + IndexOf(s[1..], c)
  }

  /** Full-match recogniser for the kind's pattern `\{L\}->\{L\}` or `\{L\}->->\{L\}`, L a name list.
      A name list holds no closing brace, so the determinant ends at the first '}'. */
  predicate Matches(kind: Kind, s: string): (r: bool)
    ensures r ==> |s| >= 4 + |Separator(kind)| && s[0] == '{' && s[|s| - 1] == '}'
  {
    var j := IndexOf(s, '}') + 1;
    var k := j + |Separator(kind)|;
    k <= |s| && IsBraceList(s[..j]) && s[j..k] == Separator(kind) && IsBraceList(s[k..])
  }

  /** The expression built from two name lists and the kind's separator. */
  function Compose(kind: Kind, left: string, right: string): string
  {
    Braced(left) + Separator(kind) + Braced(right)
  }

  /** The language of the kind's pattern, stated as a decomposition into its parts. */
  ghost predicate InGrammar(kind: Kind, s: string)
  {
    exists left, right :: IsNameList(left) && IsNameList(right) && s == Compose(kind, left, right)
  }

  /** A name list is made of name characters and commas only. */
  lemma {:induction false} NameListChars(s: string)
    requires IsNameList(s)
    ensures forall i :: 0 <= i < |s| ==> IsNameChar(s[i]) || s[i] == ','
    decreases |s|
  {
    var n := NameRun(s);
    if n < |s| {
      NameListChars(s[n + 1..]);
      forall i | 0 <= i < |s| ensures IsNameChar(s[i]) || s[i] == ',' {
        if i > n { assert s[i] == s[n + 1..][i - n - 1]; }
      }
    }
  }

  /** A name list holds no space, brace or hyphen, and starts and ends with a name character. */
  lemma NameListAvoids(s: string)
    requires IsNameList(s)
    ensures ' ' !in s && '{' !in s && '}' !in s && '-' !in s
    ensures s != [] && IsNameChar(s[0]) && IsNameChar(s[|s| - 1])
  {
    NameListChars(s);
    var n := NameRun(s);
    if n < |s| {
      var t := s[n + 1..];
      NameListAvoids(t);
      assert s[|s| - 1] == t[|t| - 1];
    }
  }

  lemma {:induction false} IndexOfFirst(s: string, c: char, i: nat)
    requires i < |s| && s[i] == c
    requires forall m :: 0 <= m < i ==> s[m] != c
    ensures IndexOf(s, c) == i
    decreases i
  {
    if i > 0 {
      assert s[0] != c;
      IndexOfFirst(s[1..], c, i - 1);
    }
  }

  /** Where the recogniser finds the parts of a composed expression: the determinant's closing
      brace is the first one, and the three slices are the two brace lists and the separator. */
  lemma ComposeParts(kind: Kind, left: string, right: string)
    requires '}' !in left
    ensures var s := Compose(kind, left, right);
            var j := |left| + 2;
            var k := j + |Separator(kind)|;
            IndexOf(s, '}') + 1 == j && k <= |s|
            && s[..j] == Braced(left) && s[j..k] == Separator(kind) && s[k..] == Braced(right)
  {
    var a, sep, b := Braced(left), Separator(kind), Braced(right);
    var s := a + sep + b;
    var j := |a|;
    assert s[..j] == a;
    assert s[j..j + |sep|] == sep;
    assert s[j + |sep|..] == b;
    forall m | 0 <= m < j - 1 ensures s[m] != '}' {
      if m > 0 {
        assert s[m] == a[1..|a| - 1][m - 1];
      }
    }
    IndexOfFirst(s, '}', j - 1);
  }

  /** Every recognised string is composed from two name lists and the kind's separator. */
  lemma MatchedComposes(kind: Kind, s: string)
    requires Matches(kind, s)
    ensures InGrammar(kind, s)
  {
    var j := IndexOf(s, '}') + 1;
    var k := j + |Separator(kind)|;
    var a, b := s[..j], s[k..];
    BracedInner(a);
    BracedInner(b);
    assert s == a + s[j..k] + b;
    assert s == Compose(kind, a[1..|a| - 1], b[1..|b| - 1]);
  }

  /** The pattern recogniser accepts exactly the strings of the grammar. */
  lemma MatchesGrammar(kind: Kind, s: string)
    ensures Matches(kind, s) <==> InGrammar(kind, s)
  {
    if Matches(kind, s) {
      MatchedComposes(kind, s);
    }
    if InGrammar(kind, s) {
      var left, right :| IsNameList(left) && IsNameList(right) && s == Compose(kind, left, right);
      ComposedMatches(kind, left, right);
    }
  }

  /** Every composed expression is recognised. */
  lemma ComposedMatches(kind: Kind, left: string, right: string)
    requires IsNameList(left) && IsNameList(right)
    ensures Matches(kind, Compose(kind, left, right))
  {
    NameListAvoids(left);
    ComposeParts(kind, left, right);
  }

  /** No string is both a functional and a multivalued dependency expression: after the determinant
      a functional expression continues `->{`, a multivalued one `->-`. */
  lemma GrammarsDisjoint(s: string)
    ensures !(Matches(Functional, s) && Matches(Multivalued, s))
  {
  }

  // ---------------------------------------------------------------------------------------------
  // Decoding and rendering dependency expressions

  /** `_is_expression_valid`: the space-free expression fully matches the kind's pattern. */
  predicate IsExpressionValid(kind: Kind, expression: string): (r: bool)
    ensures r <==> InGrammar(kind, RemoveSpaces(expression))
  {
    MatchesGrammar(kind, RemoveSpaces(expression));
    Matches(kind, RemoveSpaces(expression))
  }

  /** The attributes named by a list of names; a repeated name gives one attribute. */
  function AttributesNamed(names: seq<string>): (attributes: set<Attribute>)
    ensures forall a :: a in attributes <==> a.name in names
  {
    set name | name in names :: Attribute(name)
  }

  /** `_get_set_from_expression`: drop spaces, strip the braces, split at commas, one attribute per name. */
  function SetFromExpression(expression: string): (attributes: set<Attribute>)
    ensures attributes != {}
  {
    var names := Split(Strip(RemoveSpaces(expression), {'{', '}'}), ",");
    assert Attribute(names[0]) in AttributesNamed(names);
    AttributesNamed(names)
  }

  /** A decoded dependency: both sides non-empty, every attribute name a `[A-z]+` name. */
  predicate WellFormed(d: Dependency)
  {
    d.determinant != {} && d.dependant != {} &&
    forall a :: a in d.determinant + d.dependant ==> IsName(a.name)
  }

  /** The pieces of a name list split at its commas are names. */
  lemma {:induction false} NameListSplit(s: string)
    requires IsNameList(s)
    ensures forall p :: p in Split(s, ",") ==> IsName(p)
    decreases |s|
  {
    var n := NameRun(s);
    NameListChars(s);
    if n == |s| {
      SplitWithoutSeparator(s, ",");
    } else {
      var head, tail := s[..n], s[n + 1..];
      assert s == head + "," + tail;
      SplitAfter(head, ",", tail);
      NameListSplit(tail);
    }
  }

  /** The attribute set read from a brace list is the set of attributes named in it: non-empty,
      and every name in it a `[A-z]+` name. */
  lemma BraceListSet(names: string)
    requires IsNameList(names)
    ensures SetFromExpression(Braced(names)) == AttributesNamed(Split(names, ","))
    ensures SetFromExpression(Braced(names)) != {}
    ensures forall a :: a in SetFromExpression(Braced(names)) ==> IsName(a.name)
  {
    NameListAvoids(names);
    var e := Braced(names);
    assert e == ['{'] + names + ['}'];
    assert ' ' !in e;
    StripEnclosed('{', names, '}', {'{', '}'});
    NameListSplit(names);
    var parts := Split(names, ",");
    assert parts[0] in parts;
  }

  /** A brace list holds no hyphen: it cannot contain the start of a separator. */
  lemma BraceListAvoids(s: string)
    requires IsBraceList(s)
    ensures '-' !in s
  {
    NameListAvoids(s[1..|s| - 1]);
    BracedInner(s);
  }

  /** Two brace lists joined by a separator split back into the two brace lists. */
  lemma SplitBraceLists(a: string, kind: Kind, b: string)
    requires IsBraceList(a) && IsBraceList(b)
    ensures Split(a + Separator(kind) + b, Separator(kind)) == [a, b]
  {
    var sep := Separator(kind);
    BraceListAvoids(a);
    BraceListAvoids(b);
    assert sep != [] && sep[0] == '-';
    SplitAfter(a, sep, b);
    SplitWithoutSeparator(b, sep);
  }

  /** Splitting a recognised expression at the kind's separator yields exactly its two brace lists,
      so Python's two-way unpacking of the split never fails. */
  lemma SplitMatched(kind: Kind, e: string)
    requires Matches(kind, e)
    ensures var parts, j := Split(e, Separator(kind)), IndexOf(e, '}') + 1;
            |parts| == 2 && parts[0] == e[..j] && parts[1] == e[j + |Separator(kind)|..]
  {
    var sep := Separator(kind);
    var j := IndexOf(e, '}') + 1;
    var k := j + |sep|;
    SplitAt(kind, e, e[..j], e[k..]);
  }

  lemma SplitAt(kind: Kind, e: string, a: string, b: string)
    requires IsBraceList(a) && IsBraceList(b)
    requires |a| + |Separator(kind)| <= |e| && a == e[..|a|] && b == e[|a| + |Separator(kind)|..]
    requires e[|a|..|a| + |Separator(kind)|] == Separator(kind)
    ensures var parts := Split(e, Separator(kind));
            |parts| == 2 && parts[0] == a && parts[1] == b
  {
    var sep := Separator(kind);
    assert e == a + sep + b by {
      SliceThree(e, |a|, |a| + |sep|);
    }
    SplitBraceLists(a, kind, b);
  }

  lemma SliceThree(s: string, j: nat, k: nat)
    requires j <= k <= |s|
    ensures s == s[..j] + s[j..k] + s[k..]
  {
  }

  /** `Dependency.__init__` of the kind's class: remove the spaces, validate against the kind's
      pattern, split at the separator and read both brace lists. A string outside the grammar
      gives InvalidExpression. */
  function Parse(kind: Kind, expression: string): (r: Result<Dependency>)
    ensures r.Ok? <==> IsExpressionValid(kind, expression)
    ensures r.Err? ==> r.error == InvalidExpression
    ensures r.Ok? ==> r.value.kind == kind && r.value.determinant != {} && r.value.dependant != {}
  {
    var e := RemoveSpaces(expression);
    if !IsExpressionValid(kind, e) then Err(InvalidExpression)
    else
      SplitMatched(kind, e);
      var parts := Split(e, Separator(kind));
      Ok(Dependency(kind, SetFromExpression(parts[0]), SetFromExpression(parts[1])))
  }

  /** A composed expression holds no space. */
  lemma ComposeNoSpaces(kind: Kind, left: string, right: string)
    requires IsNameList(left) && IsNameList(right)
    ensures ' ' !in Compose(kind, left, right)
  {
    NameListAvoids(left);
    NameListAvoids(right);
    assert ' ' !in Separator(kind);
  }

  /** A space-free recognised expression that splits into a and b decodes to the sets read from them. */
  lemma ParseSplit(kind: Kind, e: string, a: string, b: string)
    requires ' ' !in e && Matches(kind, e)
    requires Split(e, Separator(kind)) == [a, b]
    ensures Parse(kind, e) == Ok(Dependency(kind, SetFromExpression(a), SetFromExpression(b)))
  {
    assert RemoveSpaces(e) == e;
    assert IsExpressionValid(kind, e);
  }

  /** What a grammatical expression decodes to: the attributes named on each side. */
  lemma ParseComposed(kind: Kind, left: string, right: string)
    requires IsNameList(left) && IsNameList(right)
    ensures Parse(kind, Compose(kind, left, right))
            == Ok(Dependency(kind, AttributesNamed(Split(left, ",")), AttributesNamed(Split(right, ","))))
  {
    var a, b := Braced(left), Braced(right);
    assert IsBraceList(a) && IsBraceList(b);
    ComposeNoSpaces(kind, left, right);
    ComposedMatches(kind, left, right);
    SplitBraceLists(a, kind, b);
    ParseSplit(kind, Compose(kind, left, right), a, b);
    BraceListSet(left);
    BraceListSet(right);
  }

  /** Decoding accepts exactly the expressions whose space-free form is in the kind's grammar,
      rejects every other one with InvalidExpression, and yields a well-formed dependency of that kind. */
  lemma ParseAccepts(kind: Kind, expression: string)
    ensures Parse(kind, expression).Ok? <==> InGrammar(kind, RemoveSpaces(expression))
    ensures Parse(kind, expression).Err? ==> Parse(kind, expression).error == InvalidExpression
    ensures Parse(kind, expression).Ok? ==> Parse(kind, expression).value.kind == kind
                                             && WellFormed(Parse(kind, expression).value)
  {
    var e := RemoveSpaces(expression);
    MatchesGrammar(kind, e);
    if InGrammar(kind, e) {
      var left, right :| IsNameList(left) && IsNameList(right) && e == Compose(kind, left, right);
      SameCleanedSameParse(kind, expression, e);
      ParseComposed(kind, left, right);
      BraceListSet(left);
      BraceListSet(right);
    }
  }

  /** Decoding only sees the expression with its spaces removed. */
  lemma SameCleanedSameParse(kind: Kind, x: string, y: string)
    requires RemoveSpaces(x) == RemoveSpaces(y)
    ensures Parse(kind, x) == Parse(kind, y)
  {
  }

  /** Spaces are insignificant anywhere in an expression. */
  lemma SpacesIgnored(kind: Kind, before: string, after: string)
    ensures Parse(kind, before + " " + after) == Parse(kind, before + after)
  {
    RemoveSpacesAppend(before + " ", after);
    RemoveSpacesAppend(before, " ");
    RemoveSpacesAppend(before, after);
    assert RemoveSpaces(" ") == [];
    SameCleanedSameParse(kind, before + " " + after, before + after);
  }

  /** The name run of a name followed by a non-name character is the whole name. */
  lemma NameRunOf(name: string, rest: string)
    requires IsName(name)
    requires rest != [] ==> !IsNameChar(rest[0])
    ensures NameRun(name + rest) == |name|
  {
    var s := name + rest;
    assert forall i :: 0 <= i < |name| ==> s[i] == name[i];
    assert |name| < |s| ==> s[|name|] == rest[0];
  }

  /** Two grammatical expressions that name the same attributes on each side decode alike, so the
      order of the names and any repetition of a name are insignificant. */
  lemma SameNamesSameParse(kind: Kind, left1: string, right1: string, left2: string, right2: string)
    requires IsNameList(left1) && IsNameList(right1) && IsNameList(left2) && IsNameList(right2)
    requires AttributesNamed(Split(left1, ",")) == AttributesNamed(Split(left2, ","))
    requires AttributesNamed(Split(right1, ",")) == AttributesNamed(Split(right2, ","))
    ensures Parse(kind, Compose(kind, left1, right1)) == Parse(kind, Compose(kind, left2, right2))
  {
    ParseComposed(kind, left1, right1);
    ParseComposed(kind, left2, right2);
  }

  /** Repeating at the front a name that a list already holds gives a name list naming the same
      attributes; by SameNamesSameParse, on either side of an expression it changes nothing. */
  lemma RepeatedNameCollapses(name: string, names: string)
    requires IsName(name) && IsNameList(names)
    requires name in Split(names, ",")
    ensures IsNameList(name + "," + names)
    ensures AttributesNamed(Split(name + "," + names, ",")) == AttributesNamed(Split(names, ","))
  {
    var longer := name + "," + names;
    assert longer == name + ("," + names);
    NameRunOf(name, "," + names);
    assert longer[|name|] == ',' && longer[|name| + 1..] == names;
    assert ',' !in name;
    SplitAfter(name, ",", names);
  }

  /** Joining names with commas gives a name list. */
  lemma {:induction false} JoinIsNameList(names: seq<string>)
    requires |names| >= 1 && forall p :: p in names ==> IsName(p)
    ensures IsNameList(Join(names, ","))
    decreases |names|
  {
    assert names[0] in names;
    if |names| == 1 {
      NameRunOf(names[0], []);
      assert names[0] + [] == names[0];
    } else {
      var tail := Join(names[1..], ",");
      var s := names[0] + "," + tail;
      assert s == names[0] + ("," + tail);
      NameRunOf(names[0], "," + tail);
      assert s[|names[0]|] == ',' && s[|names[0]| + 1..] == tail;
      assert forall p :: p in names[1..] ==> p in names;
      JoinIsNameList(names[1..]);
    }
  }

  /** A name list is exactly a comma-join of one or more `[A-z]+` names. */
  lemma NameListIsJoin(s: string)
    ensures IsNameList(s)
            <==> exists names :: |names| >= 1 && (forall p :: p in names ==> IsName(p)) && s == Join(names, ",")
  {
    if IsNameList(s) {
      var names := Split(s, ",");
      NameListSplit(s);
      JoinSplit(s, ",");
      assert |names| >= 1 && (forall p :: p in names ==> IsName(p)) && s == Join(names, ",");
    }
    if exists names :: |names| >= 1 && (forall p :: p in names ==> IsName(p)) && s == Join(names, ",") {
      var names :| |names| >= 1 && (forall p :: p in names ==> IsName(p)) && s == Join(names, ",");
      JoinIsNameList(names);
    }
  }

  /** Names of a sequence of attributes, in order. */
  function Names(attributes: seq<Attribute>): (names: seq<string>)
    ensures |names| == |attributes|
    ensures forall i :: 0 <= i < |attributes| ==> names[i] == attributes[i].name
  {
    if attributes == [] then [] else [attributes[0].name] + Names(attributes[1..])
  }

  /** `Dependency.__str__`: each side's names joined with ", " inside braces, and the separator
      between the two sides with one space on each side. Python lists each side in the iteration
      order of its set, which it leaves unspecified; here that order is a parameter. */
  function Render(d: Dependency, determinantOrder: seq<Attribute>, dependantOrder: seq<Attribute>): (r: string)
    ensures |r| >= 8 && r[0] == '{' && r[|r| - 1] == '}'
  {
    var a, b := Braced(Join(Names(determinantOrder), ", ")), Braced(Join(Names(dependantOrder), ", "));
    var r := a + " " + Separator(d.kind) + " " + b;
    assert r[0] == a[0] && r[|r| - 1] == b[|b| - 1];
    r
  }

  lemma {:induction false} RemoveSpacesJoin(names: seq<string>)
    requires forall p :: p in names ==> ' ' !in p
    ensures RemoveSpaces(Join(names, ", ")) == Join(names, ",")
    decreases |names|
  {
    if |names| > 1 {
      assert names[0] in names;
      assert forall p :: p in names[1..] ==> p in names;
      RemoveSpacesJoin(names[1..]);
      var tail := Join(names[1..], ", ");
      assert Join(names, ", ") == names[0] + ", " + tail;
      RemoveSpacesAppend(names[0] + ", ", tail);
      RemoveSpacesAppend(names[0], ", ");
      assert RemoveSpaces(", ") == ",";
    } else if |names| == 1 {
      assert names[0] in names;
    }
  }

  lemma RemoveSpacesBraced(s: string)
    ensures RemoveSpaces(Braced(s)) == Braced(RemoveSpaces(s))
  {
    assert Braced(s) == "{" + s + "}";
    RemoveSpacesAppend("{" + s, "}");
    RemoveSpacesAppend("{", s);
    assert RemoveSpaces("{") == "{";
    assert RemoveSpaces("}") == "}";
    assert Braced(RemoveSpaces(s)) == "{" + RemoveSpaces(s) + "}";
  }

  /** Removing spaces from two pieces joined by a space. */
  lemma RemoveSpacesSpaced(x: string, y: string)
    ensures RemoveSpaces(x + " " + y) == RemoveSpaces(x) + RemoveSpaces(y)
  {
    RemoveSpacesAppend(x + " ", y);
    RemoveSpacesAppend(x, " ");
    assert RemoveSpaces(" ") == [];
  }

  /** With its spaces removed, a rendering is the composed expression of the comma-joined names. */
  lemma RenderCleaned(d: Dependency, determinantOrder: seq<Attribute>, dependantOrder: seq<Attribute>)
    requires forall p :: p in Names(determinantOrder) ==> ' ' !in p
    requires forall p :: p in Names(dependantOrder) ==> ' ' !in p
    ensures RemoveSpaces(Render(d, determinantOrder, dependantOrder))
            == Compose(d.kind, Join(Names(determinantOrder), ","), Join(Names(dependantOrder), ","))
  {
    var left, right := Names(determinantOrder), Names(dependantOrder);
    var a, b := Braced(Join(left, ", ")), Braced(Join(right, ", "));
    var sep := Separator(d.kind);
    assert RemoveSpaces(a) == Braced(Join(left, ",")) by {
      RemoveSpacesJoin(left);
      RemoveSpacesBraced(Join(left, ", "));
    }
    assert RemoveSpaces(b) == Braced(Join(right, ",")) by {
      RemoveSpacesJoin(right);
      RemoveSpacesBraced(Join(right, ", "));
    }
    assert RemoveSpaces(a + " " + sep) == RemoveSpaces(a) + sep by {
      RemoveSpacesSpaced(a, sep);
      assert ' ' !in sep;
    }
    RemoveSpacesSpaced(a + " " + sep, b);
  }

  /** The names listed by an enumeration of a well-formed side are names, and they rebuild the side. */
  lemma RenderedNames(side: set<Attribute>, order: seq<Attribute>)
    requires side != {} && forall a :: a in side ==> IsName(a.name)
    requires forall a :: a in order <==> a in side
    ensures |Names(order)| >= 1
    ensures forall p :: p in Names(order) ==> IsName(p) && ',' !in p && ' ' !in p
    ensures AttributesNamed(Names(order)) == side
  {
    var names := Names(order);
    var a :| a in side;
    assert |order| >= 1;
    forall p | p in names ensures IsName(p) && ',' !in p && ' ' !in p {
      var i :| 0 <= i < |names| && names[i] == p;
      assert order[i] in side;
    }
    forall x | x in AttributesNamed(names) ensures x in side {
      var i :| 0 <= i < |names| && names[i] == x.name;
      assert order[i] == x;
    }
    forall x | x in side ensures x in AttributesNamed(names) {
      var i :| 0 <= i < |order| && order[i] == x;
      assert names[i] == x.name;
    }
  }

  /** Round trip: decoding the rendering of a well-formed dependency, whatever order each side is
      listed in, gives the same dependency back. */
  lemma RoundTrip(d: Dependency, determinantOrder: seq<Attribute>, dependantOrder: seq<Attribute>)
    requires WellFormed(d)
    requires forall a :: a in determinantOrder <==> a in d.determinant
    requires forall a :: a in dependantOrder <==> a in d.dependant
    ensures Parse(d.kind, Render(d, determinantOrder, dependantOrder)) == Ok(d)
  {
    var left, right := Names(determinantOrder), Names(dependantOrder);
    RenderedNames(d.determinant, determinantOrder);
    RenderedNames(d.dependant, dependantOrder);
    JoinIsNameList(left);
    JoinIsNameList(right);
    RenderCleaned(d, determinantOrder, dependantOrder);
    var composed := Compose(d.kind, Join(left, ","), Join(right, ","));
    NameListAvoids(Join(left, ","));
    NameListAvoids(Join(right, ","));
    assert ' ' !in composed;
    SameCleanedSameParse(d.kind, Render(d, determinantOrder, dependantOrder), composed);
    ParseComposed(d.kind, Join(left, ","), Join(right, ","));
    SplitJoin(left, ",");
    SplitJoin(right, ",");
  }

  // ---------------------------------------------------------------------------------------------
  // Relvars

  /** Every attribute the dependency mentions belongs to the heading. */
  predicate WithinHeading(d: Dependency, heading: set<Attribute>)
  {
    d.determinant + d.dependant <= heading
  }

  /** The k-th dependency of ds is the first one that mentions an attribute outside the heading. */
  predicate FirstOutside(ds: seq<Dependency>, heading: set<Attribute>, k: int)
    requires 0 <= k < |ds|
  {
    !WithinHeading(ds[k], heading) && forall j :: 0 <= j < k ==> WithinHeading(ds[j], heading)
  }

  /** A relvar: a heading and the functional and multivalued dependencies declared on it. Python keeps
      the dependencies in sets of objects compared by identity; here they are kept in insertion order. */
  class Relvar {
    var heading: set<Attribute>
    var functionalDependencies: seq<Dependency>
    var multivaluedDependencies: seq<Dependency>

    /** Every stored dependency stays within the heading. */
    ghost predicate Valid()
      reads this
    {
      (forall d :: d in functionalDependencies ==> WithinHeading(d, heading)) &&
      (forall d :: d in multivaluedDependencies ==> WithinHeading(d, heading))
    }

    /** The heading built from a list of names, with no dependencies yet. */
    constructor Empty(names: seq<string>)
      ensures heading == AttributesNamed(names)
      ensures functionalDependencies == [] && multivaluedDependencies == []
      ensures Valid()
    {
      heading := AttributesNamed(names);
      functionalDependencies := [];
      multivaluedDependencies := [];
    }

    /** `Relvar.__init__`: build the heading, then add every functional and then every multivalued
        dependency; the first one outside the heading aborts construction with InvalidDependency. */
    static method Create(names: seq<string>, fds: seq<Dependency>, mvds: seq<Dependency>)
      returns (r: Result<Relvar>)
      ensures r.Ok? <==> forall d :: d in fds + mvds ==> WithinHeading(d, AttributesNamed(names))
      ensures r.Ok? ==> fresh(r.value) && r.value.Valid() && r.value.heading == AttributesNamed(names)
      ensures r.Ok? ==> r.value.functionalDependencies == fds && r.value.multivaluedDependencies == mvds
      ensures r.Err? ==> r.error.InvalidDependency? && r.error.attribute !in AttributesNamed(names)
      ensures r.Err? ==> exists k :: 0 <= k < |fds + mvds| && FirstOutside(fds + mvds, AttributesNamed(names), k)
                                     && r.error.attribute in (fds + mvds)[k].determinant + (fds + mvds)[k].dependant
    {
      var relvar := new Relvar.Empty(names);
      for i := 0 to |fds|
        invariant relvar.Valid() && relvar.heading == AttributesNamed(names)
        invariant relvar.functionalDependencies == fds[..i] && relvar.multivaluedDependencies == []
      {
        var outcome := relvar.AddFunctionalDependency(fds[i]);
        if outcome.Fail? {
          assert fds[i] in fds + mvds;
          assert (fds + mvds)[i] == fds[i];
          assert forall j :: 0 <= j < i ==> (fds + mvds)[j] in relvar.functionalDependencies;
          assert FirstOutside(fds + mvds, AttributesNamed(names), i);
          return Err(outcome.error);
        }
      }
      for i := 0 to |mvds|
        invariant relvar.Valid() && relvar.heading == AttributesNamed(names)
        invariant relvar.functionalDependencies == fds && relvar.multivaluedDependencies == mvds[..i]
      {
        var outcome := relvar.AddMultivaluedDependency(mvds[i]);
        if outcome.Fail? {
          assert mvds[i] in fds + mvds;
          var k := |fds| + i;
          assert (fds + mvds)[k] == mvds[i];
          assert forall j :: 0 <= j < k ==>
            (fds + mvds)[j] in relvar.functionalDependencies || (fds + mvds)[j] in relvar.multivaluedDependencies;
          assert FirstOutside(fds + mvds, AttributesNamed(names), k);
          return Err(outcome.error);
        }
      }
      assert fds[..|fds|] == fds && mvds[..|mvds|] == mvds;
      assert forall d :: d in fds + mvds ==> d in fds || d in mvds;
      return Ok(relvar);
    }

    /** `_validate_dependency`: visit the attributes of both sides and reject the first one that is
        not in the heading. */
    method ValidateDependency(d: Dependency) returns (r: Outcome)
      ensures r.Pass? <==> WithinHeading(d, heading)
      ensures r.Fail? ==> r.error.InvalidDependency? && r.error.attribute in d.determinant + d.dependant
                          && r.error.attribute !in heading
    {
      var pending := d.determinant + d.dependant;
      while pending != {}
        invariant pending <= d.determinant + d.dependant
        invariant (d.determinant + d.dependant) - pending <= heading
        decreases pending
      {
        var attribute :| attribute in pending;
        if attribute !in heading {
          return Fail(InvalidDependency(attribute));
        }
        pending := pending - {attribute};
      }
      return Pass;
    }

    /** `add_functional_dependency`: validate, then insert into the functional dependencies.
        A rejected dependency leaves the relvar as it was. */
    method AddFunctionalDependency(d: Dependency) returns (r: Outcome)
      modifies this
      ensures r.Pass? <==> WithinHeading(d, heading)
      ensures r.Fail? ==> r.error.InvalidDependency? && r.error.attribute in d.determinant + d.dependant
                          && r.error.attribute !in heading
      ensures heading == old(heading) && multivaluedDependencies == old(multivaluedDependencies)
      ensures functionalDependencies
              == if r.Pass? then old(functionalDependencies) + [d] else old(functionalDependencies)
      ensures Valid() <==> old(Valid())
    {
      r := ValidateDependency(d);
      if r.Pass? {
        functionalDependencies := functionalDependencies + [d];
      }
    }

    /** `add_multivalued_dependency`: validate, then insert into the multivalued dependencies.
        A rejected dependency leaves the relvar as it was. */
    method AddMultivaluedDependency(d: Dependency) returns (r: Outcome)
      modifies this
      ensures r.Pass? <==> WithinHeading(d, heading)
      ensures r.Fail? ==> r.error.InvalidDependency? && r.error.attribute in d.determinant + d.dependant
                          && r.error.attribute !in heading
      ensures heading == old(heading) && functionalDependencies == old(functionalDependencies)
      ensures multivaluedDependencies
              == if r.Pass? then old(multivaluedDependencies) + [d] else old(multivaluedDependencies)
      ensures Valid() <==> old(Valid())
    {
      r := ValidateDependency(d);
      if r.Pass? {
        multivaluedDependencies := multivaluedDependencies + [d];
      }
    }
  }
}
