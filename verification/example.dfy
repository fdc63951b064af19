/** The invoicing relvar of the repository's example script: fourteen attributes, six functional
    dependencies and one multivalued dependency, each written in the textual notation. */
module Example {
  import opened Components
  import opened Algorithms
  import opened Strings

  function A(name: string): Attribute { Attribute(name) }

  const HeadingNames: seq<string> :=
    ["Nombre", "RFC", "CP", "RegimenF", "RegimenC", "CFDI", "FolioF", "MontoF", "IVA", "FechaF",
     "Producto", "FolioP", "MontoP", "FechaP"]

  const Fd1 := Dependency(Functional, {A("RFC")}, {A("Nombre"), A("CP")})
  const Fd2 := Dependency(Functional, {A("FolioF")}, {A("RFC")})
  const Fd3 := Dependency(Functional, {A("FolioF")}, {A("MontoF"), A("IVA"), A("FechaF")})
  const Fd4 := Dependency(Functional, {A("FolioF")}, {A("RegimenF"), A("CFDI")})
  const Fd5 := Dependency(Functional, {A("FolioP")}, {A("MontoP"), A("FechaP")})
  const Fd6 := Dependency(Functional, {A("FolioP")}, {A("FolioF")})
  const Mvd1 := Dependency(Multivalued, {A("RFC")}, {A("RegimenC")})

  const Fds: seq<Dependency> := [Fd1, Fd2, Fd3, Fd4, Fd5, Fd6]

  /** The pieces of `fd1`'s rendering spell out its text. */
  lemma Fd1Spelled()
    ensures "{" + "RFC" + "}" + " " + "->" + " " + ("{" + ("Nombre" + ", " + "CP") + "}") == "{RFC} -> {Nombre, CP}"
  {
  }

  /** `fd1` of the example written out as the notation renders it. */
  lemma Fd1Text()
    ensures Render(Fd1, [A("RFC")], [A("Nombre"), A("CP")]) == "{RFC} -> {Nombre, CP}"
  {
    Fd1Spelled();
    assert Names([A("RFC")]) == ["RFC"];
    assert Names([A("Nombre"), A("CP")]) == ["Nombre", "CP"];
    assert Join(["Nombre", "CP"], ", ") == "Nombre" + ", " + "CP";
  }

  /** `fd1` of the example decodes to Fd1. */
  lemma Fd1Parses()
    ensures Parse(Functional, "{RFC} -> {Nombre, CP}") == Ok(Fd1)
  {
    Fd1Text();
    assert IsName("RFC") && IsName("Nombre") && IsName("CP");
    RoundTrip(Fd1, [A("RFC")], [A("Nombre"), A("CP")]);
  }

  /** The pieces of `fd2`'s rendering spell out its text. */
  lemma Fd2Spelled()
    ensures "{" + "FolioF" + "}" + " " + "->" + " " + ("{" + "RFC" + "}") == "{FolioF} -> {RFC}"
  {
  }

  /** `fd2` of the example written out as the notation renders it. */
  lemma Fd2Text()
    ensures Render(Fd2, [A("FolioF")], [A("RFC")]) == "{FolioF} -> {RFC}"
  {
    Fd2Spelled();
    assert Names([A("FolioF")]) == ["FolioF"];
    assert Names([A("RFC")]) == ["RFC"];
  }

  /** `fd2` of the example decodes to Fd2. */
  lemma Fd2Parses()
    ensures Parse(Functional, "{FolioF} -> {RFC}") == Ok(Fd2)
  {
    Fd2Text();
    assert IsName("FolioF") && IsName("RFC");
    RoundTrip(Fd2, [A("FolioF")], [A("RFC")]);
  }

  /** The pieces of `fd3`'s rendering spell out its text. */
  lemma Fd3Spelled()
    ensures "{" + "FolioF" + "}" + " " + "->" + " " + ("{" + ("MontoF" + ", " + "IVA" + ", " + "FechaF") + "}") == "{FolioF} -> {MontoF, IVA, FechaF}"
  {
  }

  /** `fd3` of the example written out as the notation renders it. */
  lemma Fd3Text()
    ensures Render(Fd3, [A("FolioF")], [A("MontoF"), A("IVA"), A("FechaF")]) == "{FolioF} -> {MontoF, IVA, FechaF}"
  {
    Fd3Spelled();
    assert Names([A("FolioF")]) == ["FolioF"];
    assert Names([A("MontoF"), A("IVA"), A("FechaF")]) == ["MontoF", "IVA", "FechaF"];
    assert Join(["MontoF", "IVA", "FechaF"], ", ") == "MontoF" + ", " + "IVA" + ", " + "FechaF";
  }

  /** `fd3` of the example decodes to Fd3. */
  lemma Fd3Parses()
    ensures Parse(Functional, "{FolioF} -> {MontoF, IVA, FechaF}") == Ok(Fd3)
  {
    Fd3Text();
    assert IsName("FolioF") && IsName("MontoF") && IsName("IVA") && IsName("FechaF");
    RoundTrip(Fd3, [A("FolioF")], [A("MontoF"), A("IVA"), A("FechaF")]);
  }

  /** The pieces of `fd4`'s rendering spell out its text. */
  lemma Fd4Spelled()
    ensures "{" + "FolioF" + "}" + " " + "->" + " " + ("{" + ("RegimenF" + ", " + "CFDI") + "}") == "{FolioF} -> {RegimenF, CFDI}"
  {
  }

  /** `fd4` of the example written out as the notation renders it. */
  lemma Fd4Text()
    ensures Render(Fd4, [A("FolioF")], [A("RegimenF"), A("CFDI")]) == "{FolioF} -> {RegimenF, CFDI}"
  {
    Fd4Spelled();
    assert Names([A("FolioF")]) == ["FolioF"];
    assert Names([A("RegimenF"), A("CFDI")]) == ["RegimenF", "CFDI"];
    assert Join(["RegimenF", "CFDI"], ", ") == "RegimenF" + ", " + "CFDI";
  }

  /** `fd4` of the example decodes to Fd4. */
  lemma Fd4Parses()
    ensures Parse(Functional, "{FolioF} -> {RegimenF, CFDI}") == Ok(Fd4)
  {
    Fd4Text();
    assert IsName("FolioF") && IsName("RegimenF") && IsName("CFDI");
    RoundTrip(Fd4, [A("FolioF")], [A("RegimenF"), A("CFDI")]);
  }

  /** The pieces of `fd5`'s rendering spell out its text. */
  lemma Fd5Spelled()
    ensures "{" + "FolioP" + "}" + " " + "->" + " " + ("{" + ("MontoP" + ", " + "FechaP") + "}") == "{FolioP} -> {MontoP, FechaP}"
  {
  }

  /** `fd5` of the example written out as the notation renders it. */
  lemma Fd5Text()
    ensures Render(Fd5, [A("FolioP")], [A("MontoP"), A("FechaP")]) == "{FolioP} -> {MontoP, FechaP}"
  {
    Fd5Spelled();
    assert Names([A("FolioP")]) == ["FolioP"];
    assert Names([A("MontoP"), A("FechaP")]) == ["MontoP", "FechaP"];
    assert Join(["MontoP", "FechaP"], ", ") == "MontoP" + ", " + "FechaP";
  }

  /** `fd5` of the example decodes to Fd5. */
  lemma Fd5Parses()
    ensures Parse(Functional, "{FolioP} -> {MontoP, FechaP}") == Ok(Fd5)
  {
    Fd5Text();
    assert IsName("FolioP") && IsName("MontoP") && IsName("FechaP");
    RoundTrip(Fd5, [A("FolioP")], [A("MontoP"), A("FechaP")]);
  }

  /** The pieces of `fd6`'s rendering spell out its text. */
  lemma Fd6Spelled()
    ensures "{" + "FolioP" + "}" + " " + "->" + " " + ("{" + "FolioF" + "}") == "{FolioP} -> {FolioF}"
  {
  }

  /** `fd6` of the example written out as the notation renders it. */
  lemma Fd6Text()
    ensures Render(Fd6, [A("FolioP")], [A("FolioF")]) == "{FolioP} -> {FolioF}"
  {
    Fd6Spelled();
    assert Names([A("FolioP")]) == ["FolioP"];
    assert Names([A("FolioF")]) == ["FolioF"];
  }

  /** `fd6` of the example decodes to Fd6. */
  lemma Fd6Parses()
    ensures Parse(Functional, "{FolioP} -> {FolioF}") == Ok(Fd6)
  {
    Fd6Text();
    assert IsName("FolioP") && IsName("FolioF");
    RoundTrip(Fd6, [A("FolioP")], [A("FolioF")]);
  }

  /** The pieces of `mvd1`'s rendering spell out its text. */
  lemma Mvd1Spelled()
    ensures "{" + "RFC" + "}" + " " + "->->" + " " + ("{" + "RegimenC" + "}") == "{RFC} ->-> {RegimenC}"
  {
  }

  /** `mvd1` of the example written out as the notation renders it. */
  lemma Mvd1Text()
    ensures Render(Mvd1, [A("RFC")], [A("RegimenC")]) == "{RFC} ->-> {RegimenC}"
  {
    Mvd1Spelled();
    assert Names([A("RFC")]) == ["RFC"];
    assert Names([A("RegimenC")]) == ["RegimenC"];
  }

  /** `mvd1` of the example decodes to Mvd1. */
  lemma Mvd1Parses()
    ensures Parse(Multivalued, "{RFC} ->-> {RegimenC}") == Ok(Mvd1)
  {
    Mvd1Text();
    assert IsName("RFC") && IsName("RegimenC");
    RoundTrip(Mvd1, [A("RFC")], [A("RegimenC")]);
  }

  const Heading: set<Attribute> :=
    {A("Nombre"), A("RFC"), A("CP"), A("RegimenF"), A("RegimenC"), A("CFDI"), A("FolioF"), A("MontoF"),
     A("IVA"), A("FechaF"), A("Producto"), A("FolioP"), A("MontoP"), A("FechaP")}

  /** The heading built from the example's list of names. */
  lemma HeadingFromNames()
    ensures AttributesNamed(HeadingNames) == Heading
  {
    forall a | a in AttributesNamed(HeadingNames) ensures a in Heading {
      assert a.name in HeadingNames;
      assert a == A(a.name);
    }
    assert Heading <= AttributesNamed(HeadingNames) by {
      forall a | a in Heading ensures a.name in HeadingNames {
      }
    }
  }

  /** Every dependency of the example lies within its heading. */
  lemma DependenciesWithinHeading()
    ensures forall d :: d in Fds + [Mvd1] ==> WithinHeading(d, Heading)
  {
  }

  /** A tax identifier determines only the customer's name and postcode, so it is no superkey. */
  lemma RfcClosure()
    ensures Closure({A("RFC")}, Fds) == {A("RFC"), A("Nombre"), A("CP")}
    ensures !IsSuperkey({A("RFC")}, Heading, Fds)
  {
    var c := {A("RFC"), A("Nombre"), A("CP")};
    assert Closure({A("RFC")}, Fds) <= c by {
      assert Closed(c, Fds);
      ClosureLeast({A("RFC")}, Fds, c);
    }
    assert c <= Closure({A("RFC")}, Fds) by {
      var r := Closure({A("RFC")}, Fds);
      assert Fd1 in Fds && Fd1.determinant <= r;
    }
    assert A("FolioP") !in c;
  }

  /** Through the payment folio, every attribute but the product and the customer's tax regime
      follows, whatever else the set holds. */
  lemma FolioPDetermines(s: set<Attribute>)
    requires A("FolioP") in s
    ensures Heading - {A("Producto"), A("RegimenC")} <= Closure(s, Fds)
  {
    var r := Closure(s, Fds);
    assert Fd5 in Fds && Fd5.determinant <= r;
    assert Fd6 in Fds && Fd6.determinant <= r;
    assert Fd2 in Fds && Fd2.determinant <= r;
    assert Fd3 in Fds && Fd3.determinant <= r;
    assert Fd4 in Fds && Fd4.determinant <= r;
    assert Fd1 in Fds && Fd1.determinant <= r;
  }

  /** The payment folio, the product and the customer's tax regime together determine every
      attribute of the heading. */
  lemma PaymentKeyCloses()
    ensures Closure({A("FolioP"), A("Producto"), A("RegimenC")}, Fds) == Heading
  {
    var k := {A("FolioP"), A("Producto"), A("RegimenC")};
    DependenciesWithinHeading();
    ClosureWithinHeading(k, Heading, Fds);
    FolioPDetermines(k);
  }

  /** An attribute that no dependency determines is needed in every superkey. */
  lemma Undetermined(s: set<Attribute>, a: Attribute)
    requires a in Heading && a !in s && s <= Heading
    requires forall d :: d in Fds ==> a !in d.dependant
    ensures !IsSuperkey(s, Heading, Fds)
  {
    DependenciesWithinHeading();
    assert Closed(Heading - {a}, Fds);
    ClosureLeast(s, Fds, Heading - {a});
  }

  /** Without the payment folio, nothing follows from the product and the customer's tax regime. */
  lemma PaymentKeyNeedsFolio()
    ensures !IsSuperkey({A("Producto"), A("RegimenC")}, Heading, Fds)
  {
    var rest := {A("Producto"), A("RegimenC")};
    assert Closed(rest, Fds);
    ClosureLeast(rest, Fds, rest);
    assert A("FolioP") !in Closure(rest, Fds);
  }

  /** No dependency determines the product. */
  lemma PaymentKeyNeedsProduct()
    ensures !IsSuperkey({A("FolioP"), A("RegimenC")}, Heading, Fds)
  {
    Undetermined({A("FolioP"), A("RegimenC")}, A("Producto"));
  }

  /** No functional dependency determines the customer's tax regime. */
  lemma PaymentKeyNeedsRegime()
    ensures !IsSuperkey({A("FolioP"), A("Producto")}, Heading, Fds)
  {
    Undetermined({A("FolioP"), A("Producto")}, A("RegimenC"));
  }

  /** {FolioP, Producto, RegimenC} is a key of the example: a superkey none of whose proper subsets
      is one. */
  lemma PaymentKeyIsKey()
    ensures IsMinimalSuperkey({A("FolioP"), A("Producto"), A("RegimenC")}, Heading, Fds)
  {
    var k := {A("FolioP"), A("Producto"), A("RegimenC")};
    forall a | a in k ensures !IsSuperkey(k - {a}, Heading, Fds) {
      if a == A("FolioP") {
        assert k - {a} == {A("Producto"), A("RegimenC")};
        PaymentKeyNeedsFolio();
      } else if a == A("Producto") {
        assert k - {a} == {A("FolioP"), A("RegimenC")};
        PaymentKeyNeedsProduct();
      } else {
        assert k - {a} == {A("FolioP"), A("Producto")};
        PaymentKeyNeedsRegime();
      }
    }
    PaymentKeyCloses();
    SingleRemovalSuffices(k, Heading, Fds);
  }

  /** The example relvar is accepted: all its dependencies lie within its heading. */
  method BuildExample() returns (r: Result<Relvar>)
    ensures r.Ok? && r.value.heading == Heading
    ensures r.value.functionalDependencies == Fds && r.value.multivaluedDependencies == [Mvd1]
  {
    HeadingFromNames();
    DependenciesWithinHeading();
    r := Relvar.Create(HeadingNames, Fds, [Mvd1]);
  }

  /** Run on the example, the closure of the payment folio and the key test give the values proved
      above. */
  method CheckExample() returns (closure: set<Attribute>, key: bool)
    ensures closure == {A("FolioP"), A("MontoP"), A("FechaP"), A("FolioF"), A("RFC"), A("Nombre"),
                        A("CP"), A("MontoF"), A("IVA"), A("FechaF"), A("RegimenF"), A("CFDI")}
    ensures key
  {
    closure := ComputeClosure({A("FolioP")}, Fds);
    FolioPClosure();
    key := IsKey({A("FolioP"), A("Producto"), A("RegimenC")}, Heading, Fds);
    PaymentKeyIsKey();
  }

  /** Leaving out the product and the customer's tax regime gives a closed set. */
  lemma FolioPDeterminedClosed()
    ensures Closed(Heading - {A("Producto"), A("RegimenC")}, Fds)
  {
    DependenciesWithinHeading();
  }

  /** The payment folio determines everything but the product and the customer's tax regime. */
  lemma FolioPClosure()
    ensures Closure({A("FolioP")}, Fds) == Heading - {A("Producto"), A("RegimenC")}
  {
    var c := Heading - {A("Producto"), A("RegimenC")};
    FolioPDeterminedClosed();
    ClosureLeast({A("FolioP")}, Fds, c);
    FolioPDetermines({A("FolioP")});
  }
}
