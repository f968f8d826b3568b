/** Worked imports on concrete tables, each showing one rule of the
    pipeline on data. */
module PipelineExamples {
  import opened Wrappers
  import opened Text
  import opened Pipeline

  /** Normalising a header row label by label. */
  lemma HeadersAre(hs: seq<string>, ns: seq<string>)
    requires |hs| == |ns| && forall i :: 0 <= i < |hs| ==> NormalizeHeader(hs[i]) == ns[i]
    ensures NormalizeHeaders(hs) == ns
  {
  }

  lemma LabelApellido()
    ensures NormalizeHeader("Apellido") == "apellido"
  {
    NormalizeAsLower("Apellido", "apellido");
  }

  lemma LabelNombre()
    ensures NormalizeHeader("Nombre") == "nombre"
  {
    NormalizeAsLower("Nombre", "nombre");
  }

  lemma LabelDni()
    ensures NormalizeHeader("DNI") == "dni"
  {
    NormalizeAsLower("DNI", "dni");
  }

  lemma SeparateColumnsNormalized()
    ensures NormalizeHeaders(["Apellido", "Nombre", "DNI"]) == ["apellido", "nombre", "dni"]
  {
    var hs: seq<string> := ["Apellido", "Nombre", "DNI"];
    var cols: seq<string> := ["apellido", "nombre", "dni"];
    forall i | 0 <= i < 3 ensures NormalizeHeader(hs[i]) == cols[i] {
      if i == 0 { LabelApellido(); } else if i == 1 { LabelNombre(); } else { LabelDni(); }
    }
    HeadersAre(hs, cols);
  }

  lemma SeparateColumnsSurname()
    ensures FindFirst(["apellido", "nombre", "dni"], SurnameMarker) == Some(0)
  {
    ContainsAt("apellido", SurnameMarker, 0);
    FindFirstIs(["apellido", "nombre", "dni"], SurnameMarker, 0);
  }

  lemma SeparateColumnsFirstName()
    ensures FindFirst(["apellido", "nombre", "dni"], FirstNameMarker) == Some(1)
  {
    var cols: seq<string> := ["apellido", "nombre", "dni"];
    MissingCharRulesOut(cols[0], FirstNameMarker, 'n');
    ContainsAt(cols[1], FirstNameMarker, 0);
    FindFirstIs(cols, FirstNameMarker, 1);
  }

  lemma SeparateColumnsDni()
    ensures FindFirst(["apellido", "nombre", "dni"], DniMarker) == Some(2)
  {
    var cols: seq<string> := ["apellido", "nombre", "dni"];
    MissingCharRulesOut(cols[0], DniMarker, 'n');
    MissingCharRulesOut(cols[1], DniMarker, 'i');
    ContainsAt(cols[2], DniMarker, 0);
    forall j | 0 <= j < 2 ensures !Contains(cols[j], DniMarker) {
    }
    FindFirstIs(cols, DniMarker, 2);
  }

  /** The repeated row yields the same pair and is dropped. */
  lemma RepeatDropped()
    ensures Dedup([("Gomez Ana", "111"), ("Gomez Ana", "111"), ("Diaz Luis", "222")])
      == [("Gomez Ana", "111"), ("Diaz Luis", "222")]
  {
    var c: seq<Pair> := [("Gomez Ana", "111"), ("Gomez Ana", "111"), ("Diaz Luis", "222")];
    assert c[..2][..1] == [("Gomez Ana", "111")];
    assert c[..2] == [("Gomez Ana", "111"), ("Gomez Ana", "111")];
  }

  lemma SeparateColumnsRoles()
    ensures Resolve(["apellido", "nombre", "dni"]) == Roles(Some(0), Some(1), Some(2))
  {
    SeparateColumnsSurname();
    SeparateColumnsFirstName();
    SeparateColumnsDni();
  }

  /** Surname and first name joined by one space. */
  lemma NameGomezAna()
    ensures BuildName(["Gomez", "Ana", "111"], Roles(Some(0), Some(1), Some(2))) == "Gomez Ana"
  {
    StripTrimmed("Gomez Ana");
  }

  lemma NameDiazLuis()
    ensures BuildName(["Diaz", "Luis", "222"], Roles(Some(0), Some(1), Some(2))) == "Diaz Luis"
  {
    StripTrimmed("Diaz Luis");
  }

  lemma RepeatCandidates(t: Table)
    requires t == Table(["Apellido", "Nombre", "DNI"],
      [["Gomez", "Ana", "111"], ["Gomez", "Ana", "111"], ["Diaz", "Luis", "222"]])
    ensures Rectangular(t)
    ensures Candidates(t, Roles(Some(0), Some(1), Some(2)))
      == [("Gomez Ana", "111"), ("Gomez Ana", "111"), ("Diaz Luis", "222")]
  {
    NameGomezAna();
    NameDiazLuis();
  }

  /** A .csv file name is accepted. */
  lemma CsvAccepted()
    ensures SupportedFormat("socios.csv")
  {
    assert "socios.csv"[6..] == ".csv";
  }

  lemma ImportValue(filename: string, t: Table, roles: Roles)
    requires Rectangular(t) && SupportedFormat(filename) && t.headers != []
    requires Resolve(NormalizeHeaders(t.headers)) == roles && roles.dni.Some?
    ensures ProcessFile(filename, t) == Success(Dedup(Candidates(t, roles)))
  {
  }

  lemma SeparateColumnsResolved(t: Table)
    requires t.headers == ["Apellido", "Nombre", "DNI"]
    ensures Resolve(NormalizeHeaders(t.headers)) == Roles(Some(0), Some(1), Some(2))
  {
    SeparateColumnsNormalized();
    SeparateColumnsRoles();
  }

  /** Headers Apellido, Nombre, DNI with a repeated row: the repeat is
      dropped and the order of first appearance kept. */
  lemma EndToEnd(filename: string, t: Table)
    requires filename == "socios.csv"
    requires t == Table(["Apellido", "Nombre", "DNI"],
      [["Gomez", "Ana", "111"], ["Gomez", "Ana", "111"], ["Diaz", "Luis", "222"]])
    ensures Rectangular(t)
    ensures ProcessFile(filename, t) == Success([("Gomez Ana", "111"), ("Diaz Luis", "222")])
  {
    var roles := Roles(Some(0), Some(1), Some(2));
    SeparateColumnsResolved(t);
    RepeatCandidates(t);
    RepeatDropped();
    assert Rectangular(t);
    CsvAccepted();
    assert t.headers != [];
    assert Resolve(NormalizeHeaders(t.headers)) == roles;
    ImportValue(filename, t, roles);
  }

  /** One header naming both parts fills both name roles, so the combined
      cell is used twice in the name. */
  lemma LabelCombined()
    ensures NormalizeHeader("ApellidoYNombre") == "apellidoynombre"
  {
    NormalizeAsLower("ApellidoYNombre", "apellidoynombre");
  }

  /** Deleting the space after a space-free word. */
  lemma RemoveSpaceAfter(a: string, b: string)
    requires ' ' !in a
    ensures Remove(a + " " + b, ' ') == a + Remove(b, ' ')
  {
    assert Remove(a + " ", ' ') == a by {
      RemoveAppend(a, " ", ' ');
      RemoveAbsent(a, ' ');
      assert " "[1..] == [];
    }
    RemoveAppend(a + " ", b, ' ');
  }

  /** Three space-free words joined by single spaces lose the spaces. */
  lemma RemoveTwoSpaces(a: string, b: string, c: string)
    requires ' ' !in a && ' ' !in b && ' ' !in c
    ensures Remove(a + " " + b + " " + c, ' ') == a + b + c
  {
    assert a + " " + b + " " + c == a + " " + (b + " " + c);
    RemoveSpaceAfter(a, b + " " + c);
    RemoveSpaceAfter(b, c);
    RemoveAbsent(c, ' ');
    assert a + (b + c) == a + b + c;
  }

  lemma LowerSpaced(h: string)
    requires h == "Apellido y Nombre"
    ensures Lower(h) == "apellido y nombre"
  {
  }

  lemma SpacesRemoved(a: string, b: string, c: string)
    requires a == "apellido" && b == "y" && c == "nombre"
    ensures Remove("apellido y nombre", ' ') == "apellidoynombre"
  {
    assert "apellido y nombre" == a + " " + b + " " + c;
    RemoveTwoSpaces(a, b, c);
    assert a + b + c == "apellidoynombre";
  }

  lemma JoinedLabelNormal(m: string)
    requires m == "apellidoynombre"
    ensures '_' !in m && Trimmed(m)
  {
  }

  /** The same label written with spaces: normalisation deletes them. */
  lemma LabelSpaced(h: string)
    requires h == "Apellido y Nombre"
    ensures NormalizeHeader(h) == "apellidoynombre"
  {
    LowerSpaced(h);
    SpacesRemoved("apellido", "y", "nombre");
    var m := Remove(Lower(h), ' ');
    JoinedLabelNormal(m);
    RemoveAbsent(m, '_');
    StripTrimmed(m);
  }

  lemma CombinedColumnRoles()
    ensures Resolve(["dni", "apellidoynombre"]) == Roles(Some(1), Some(1), Some(0))
  {
    var cols: seq<string> := ["dni", "apellidoynombre"];
    ContainsAt(cols[0], DniMarker, 0);
    FindFirstIs(cols, DniMarker, 0);
    ContainsAt(cols[1], SurnameMarker, 0);
    FindFirstIs(cols, SurnameMarker, 1);
    assert cols[1][9..15] == FirstNameMarker;
    ContainsAt(cols[1], FirstNameMarker, 9);
    FindFirstIs(cols, FirstNameMarker, 1);
  }

  lemma CombinedColumnResolved(t: Table)
    requires t.headers == ["DNI", "ApellidoYNombre"]
    ensures Resolve(NormalizeHeaders(t.headers)) == Roles(Some(1), Some(1), Some(0))
  {
    var cols: seq<string> := ["dni", "apellidoynombre"];
    forall i | 0 <= i < 2 ensures NormalizeHeader(t.headers[i]) == cols[i] {
      if i == 0 { LabelDni(); } else { LabelCombined(); }
    }
    HeadersAre(t.headers, cols);
    CombinedColumnRoles();
  }

  lemma DedupSingle(x: Pair)
    ensures Dedup([x]) == [x]
  {
    assert [x][..0] == [];
  }

  lemma CombinedCandidates(t: Table, dni: string, cell: string)
    requires t == Table(["DNI", "ApellidoYNombre"], [[dni, cell]])
    ensures Rectangular(t)
    ensures Candidates(t, Roles(Some(1), Some(1), Some(0))) == [(Strip(cell + " " + cell), dni)]
  {
  }

  /** A single "Apellido y Nombre" style column fills both name roles, so
      the name is the cell, a space, and the cell again. */
  lemma CombinedColumnImport(filename: string, t: Table, dni: string, cell: string)
    requires EndsWith(filename, ".xlsx")
    requires t == Table(["DNI", "ApellidoYNombre"], [[dni, cell]])
    requires cell != [] && Trimmed(cell)
    ensures Rectangular(t)
    ensures ProcessFile(filename, t) == Success([(cell + " " + cell, dni)])
  {
    var roles := Roles(Some(1), Some(1), Some(0));
    CombinedColumnResolved(t);
    CombinedCandidates(t, dni, cell);
    var name := cell + " " + cell;
    assert name[0] == cell[0] && name[|name| - 1] == cell[|cell| - 1];
    StripTrimmed(name);
    DedupSingle((name, dni));
    ImportValue(filename, t, roles);
  }

  lemma NoDniNormalized(t: Table)
    requires t.headers == ["Apellido", "Nombre"]
    ensures NormalizeHeaders(t.headers) == ["apellido", "nombre"]
  {
    var cols: seq<string> := ["apellido", "nombre"];
    forall i | 0 <= i < 2 ensures NormalizeHeader(t.headers[i]) == cols[i] {
      if i == 0 { LabelApellido(); } else { LabelNombre(); }
    }
    HeadersAre(t.headers, cols);
  }

  lemma NoDniHeaders(hs: seq<string>)
    requires NormalizeHeaders(hs) == ["apellido", "nombre"]
    ensures forall j :: 0 <= j < |hs| ==> !Contains(NormalizeHeader(hs[j]), DniMarker)
  {
    var cols := NormalizeHeaders(hs);
    MissingCharRulesOut(cols[0], DniMarker, 'n');
    MissingCharRulesOut(cols[1], DniMarker, 'i');
    forall j | 0 <= j < |hs| ensures !Contains(NormalizeHeader(hs[j]), DniMarker) {
      assert NormalizeHeader(hs[j]) == cols[j];
    }
  }

  lemma NoDniReported()
    ensures ["apellido", "nombre"] + [NameColumn] == ["apellido", "nombre", "apellido_nombre"]
  {
  }

  /** Labels without "dni" are rejected with the normalised labels and the
      added name column, whatever the rows hold. */
  lemma NoDniColumn(filename: string, t: Table)
    requires filename == "socios.csv"
    requires t.headers == ["Apellido", "Nombre"] && Rectangular(t)
    ensures ProcessFile(filename, t) == Failure(MissingDni(["apellido", "nombre", "apellido_nombre"]))
  {
    NoDniNormalized(t);
    NoDniHeaders(t.headers);
    CsvAccepted();
    MissingDniReport(filename, t);
    NoDniReported();
  }

  /** The extension test is case-sensitive. */
  lemma UpperCaseExtensionRejected(t: Table)
    requires Rectangular(t)
    ensures ProcessFile("SOCIOS.CSV", t) == Failure(UnsupportedFormat)
  {
    assert "SOCIOS.CSV"[7] != ".csv"[1];
    assert "SOCIOS.CSV"[6..] != ".csv";
    assert "SOCIOS.CSV"[5..] != ".xlsx";
    assert "SOCIOS.CSV"[6..] != ".xls";
  }
}
