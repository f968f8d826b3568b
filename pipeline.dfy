/** The import normalisation pipeline of `process_file`: extension check,
    header normalisation, column resolution by substring markers, name
    building, the missing-DNI check and the removal of duplicate rows.
    The parsed spreadsheet is given as a header row and rows of text cells. */
module Pipeline {
  import opened Wrappers
  import opened Text

  /** The failures of an import. */
  datatype ImportError =
    | UnsupportedFormat
      // The file name ends in none of the accepted extensions.
    | NoColumns
      // The table has no columns: the fallback reads the first column
      // label, which raises IndexError in process_file.
    | MissingDni(columns: seq<string>)
      // No normalised header contains "dni"; carries the table's column
      // labels at that point (the normalised headers and the synthetic
      // name column).

  /** A parsed sheet: header labels and rows of cells, one cell per header. */
  datatype Table = Table(headers: seq<string>, rows: seq<seq<string>>)

  predicate Rectangular(t: Table) {
    forall i :: 0 <= i < |t.rows| ==> |t.rows[i]| == |t.headers|
  }

  /** One imported member, before insertion: (nombre, dni). */
  type Pair = (string, string)

  const SurnameMarker: string := "apellido"
  const FirstNameMarker: string := "nombre"
  const DniMarker: string := "dni"
  /** The column the pipeline adds to hold the built name. */
  const NameColumn: string := "apellido_nombre"

  /** Accepted file names end, case-sensitively, in .xlsx, .xls or .csv. */
  predicate SupportedFormat(filename: string)
    ensures SupportedFormat(filename) ==> 4 <= |filename|
  {
    EndsWith(filename, ".xlsx") || EndsWith(filename, ".xls") || EndsWith(filename, ".csv")
  }

  /** Header normalisation: lower-case, delete spaces, delete underscores,
      strip surrounding whitespace. */
  function NormalizeHeader(h: string): (r: string)
    ensures ' ' !in r && '_' !in r
    ensures NoUpper(r) && Trimmed(r)
  {
    var lowered := Lower(h);
    var spaceless := Remove(lowered, ' ');
    var joined := Remove(spaceless, '_');
    var r := Strip(joined);
    assert ' ' !in r && '_' !in r && NoUpper(r) by {
      RemoveDeletesOnly(lowered, ' ');
      RemoveDeletesOnly(spaceless, '_');
      StripKeepsCharacters(joined);
      assert NoUpper(lowered);
      forall i | 0 <= i < |r| ensures !IsUpper(r[i]) {
        var x := r[i];
        assert x in joined;
        assert x in spaceless;
        assert x in lowered;
      }
    }
    r
  }

  function NormalizeHeaders(hs: seq<string>): (r: seq<string>)
    ensures |r| == |hs|
    ensures forall i :: 0 <= i < |r| ==> ' ' !in r[i] && '_' !in r[i] && NoUpper(r[i]) && Trimmed(r[i])
  {
    seq(|hs|, i requires 0 <= i < |hs| => NormalizeHeader(hs[i]))
  }

  /** A header that is already lower-case, free of spaces and underscores
      and trimmed is its own normal form. */
  lemma NormalizeFixes(h: string)
    requires ' ' !in h && '_' !in h && NoUpper(h) && Trimmed(h)
    ensures NormalizeHeader(h) == h
  {
    LowerFixesLowercase(h);
    RemoveAbsent(h, ' ');
    RemoveAbsent(h, '_');
    StripTrimmed(h);
  }

  /** A header whose lower-cased form is already free of spaces,
      underscores and surrounding whitespace normalises to that form. */
  lemma NormalizeAsLower(h: string, n: string)
    requires |h| == |n| && forall i :: 0 <= i < |h| ==> n[i] == LowerChar(h[i])
    requires ' ' !in n && '_' !in n && Trimmed(n)
    ensures NormalizeHeader(h) == n
  {
    assert Lower(h) == n;
    RemoveAbsent(n, ' ');
    RemoveAbsent(n, '_');
    StripTrimmed(n);
  }

  /** Normalising twice is normalising once. */
  lemma NormalizeIdempotent(h: string)
    ensures NormalizeHeader(NormalizeHeader(h)) == NormalizeHeader(h)
  {
    NormalizeFixes(NormalizeHeader(h));
  }

  /** The synthetic name column can never clash with a normalised header,
      since it contains an underscore. */
  lemma NameColumnIsFresh(hs: seq<string>)
    ensures NameColumn !in NormalizeHeaders(hs)
  {
    assert NameColumn[8] == '_';
  }

  /** The position of the first column whose label contains the marker, or
      None when no label does. */
  function FindFirst(cols: seq<string>, marker: string): (r: Option<nat>)
    ensures r.Some? ==> r.value < |cols| && Contains(cols[r.value], marker)
    ensures r.Some? ==> forall j :: 0 <= j < r.value ==> !Contains(cols[j], marker)
    ensures r.None? ==> forall j :: 0 <= j < |cols| ==> !Contains(cols[j], marker)
  {
    if cols == [] then None
    else if Contains(cols[0], marker) then Some(0)
    else match FindFirst(cols[1..], marker)
      case None => None
      case Some(k) => Some(k + 1)
  }

  /** FindFirst is determined by its contract: the first matching position
      is the answer. */
  lemma {:induction false} FindFirstIs(cols: seq<string>, marker: string, k: nat)
    requires k < |cols| && Contains(cols[k], marker)
    requires forall j :: 0 <= j < k ==> !Contains(cols[j], marker)
    ensures FindFirst(cols, marker) == Some(k)
  {
    if k > 0 {
      forall j | 0 <= j < k - 1 ensures !Contains(cols[1..][j], marker) {
        assert cols[1..][j] == cols[j + 1];
      }
      FindFirstIs(cols[1..], marker, k - 1);
    }
  }

  /** The resolved column positions of the surname, first name and DNI. */
  datatype Roles = Roles(surname: Option<nat>, firstName: Option<nat>, dni: Option<nat>)

  predicate Within(o: Option<nat>, n: nat) {
    o.Some? ==> o.value < n
  }

  predicate RolesWithin(roles: Roles, n: nat) {
    Within(roles.surname, n) && Within(roles.firstName, n) && Within(roles.dni, n)
  }

  /** The three lookups are independent scans over the same labels. */
  function Resolve(cols: seq<string>): (roles: Roles)
    ensures RolesWithin(roles, |cols|)
  {
    Roles(FindFirst(cols, SurnameMarker), FindFirst(cols, FirstNameMarker), FindFirst(cols, DniMarker))
  }

  /** The cell of a role, or "" when the role is absent. */
  function Cell(row: seq<string>, role: Option<nat>): string
    requires Within(role, |row|)
  {
    if role.Some? then row[role.value] else ""
  }

  /** The member's name for one row: the first column verbatim when neither
      name role was found, otherwise surname, a space and first name, with
      surrounding whitespace stripped. */
  function BuildName(row: seq<string>, roles: Roles): (r: string)
    requires |row| > 0 && RolesWithin(roles, |row|)
    ensures roles.surname.None? && roles.firstName.None? ==> r == row[0]
    ensures roles.surname.Some? || roles.firstName.Some? ==> Trimmed(r)
  {
    if roles.surname.None? && roles.firstName.None? then row[0]
    else Strip(Cell(row, roles.surname) + " " + Cell(row, roles.firstName))
  }

  /** With just one of the two name roles found, the name is that cell
      stripped: no separator survives at either end. */
  lemma NameFromOneRole(row: seq<string>, roles: Roles)
    requires |row| > 0 && RolesWithin(roles, |row|)
    requires roles.surname.Some? != roles.firstName.Some?
    ensures roles.surname.Some? ==> BuildName(row, roles) == Strip(row[roles.surname.value])
    ensures roles.firstName.Some? ==> BuildName(row, roles) == Strip(row[roles.firstName.value])
  {
    if roles.surname.Some? {
      assert Cell(row, roles.surname) + " " + "" == row[roles.surname.value] + " ";
      StripDropsTrailingSpace(row[roles.surname.value]);
    } else {
      assert "" + " " + Cell(row, roles.firstName) == " " + row[roles.firstName.value];
      StripDropsLeadingSpace(row[roles.firstName.value]);
    }
  }

  /** The (name, untrimmed dni) pair of one row. */
  function RowPair(row: seq<string>, roles: Roles): (p: Pair)
    requires |row| > 0 && RolesWithin(roles, |row|) && roles.dni.Some?
    ensures roles.surname.Some? || roles.firstName.Some? ==> Trimmed(p.0)
    ensures p.1 == row[roles.dni.value]
  {
    (BuildName(row, roles), row[roles.dni.value])
  }

  /** One candidate pair per row, in row order. */
  function Candidates(t: Table, roles: Roles): (c: seq<Pair>)
    requires Rectangular(t) && |t.headers| > 0 && RolesWithin(roles, |t.headers|) && roles.dni.Some?
    ensures |c| == |t.rows|
  {
    seq(|t.rows|, i requires 0 <= i < |t.rows| => RowPair(t.rows[i], roles))
  }

  predicate NoDuplicates<T(==)>(s: seq<T>) {
    forall i, j :: 0 <= i < j < |s| ==> s[i] != s[j]
  }

  /** Every element of a occurs in b and every element of b occurs in a. */
  predicate SameElements<T(==)>(a: seq<T>, b: seq<T>) {
    (forall i :: 0 <= i < |a| ==> a[i] in b) && (forall i :: 0 <= i < |b| ==> b[i] in a)
  }

  /** drop_duplicates: an element is kept when it does not occur earlier. */
  function Dedup<T(==)>(s: seq<T>): (r: seq<T>)
    ensures NoDuplicates(r)
    ensures SameElements(r, s)
    ensures |r| <= |s|
  {
    if s == [] then []
    else
      var p, x := s[..|s| - 1], s[|s| - 1];
      assert s == p + [x];
      if x in p then Dedup(p) else Dedup(p) + [x]
  }

  /** The position of the first occurrence of x. */
  function FirstIndex<T(==)>(s: seq<T>, x: T): (i: nat)
    requires x in s
    ensures i < |s| && s[i] == x && x !in s[..i]
  {
    if s[0] == x then 0
    else
      assert s == [s[0]] + s[1..];
      1 + FirstIndex(s[1..], x)
  }

  lemma {:induction false} FirstIndexPrefix<T>(p: seq<T>, x: T, y: T)
    requires y in p
    ensures FirstIndex(p + [x], y) == FirstIndex(p, y)
  {
    if p[0] != y {
      assert (p + [x])[1..] == p[1..] + [x];
      assert p == [p[0]] + p[1..];
      FirstIndexPrefix(p[1..], x, y);
    }
  }

  predicate InFirstOccurrenceOrder<T(==)>(s: seq<T>, d: seq<T>)
    requires forall i :: 0 <= i < |d| ==> d[i] in s
  {
    forall i, j :: 0 <= i < j < |d| ==> FirstIndex(s, d[i]) < FirstIndex(s, d[j])
  }

  /** The kept elements appear in the order of their first occurrence, so
      the output is a subsequence of the input (FirstIndex is the embedding). */
  lemma {:induction false} DedupInFirstOccurrenceOrder<T>(s: seq<T>)
    ensures InFirstOccurrenceOrder(s, Dedup(s))
  {
    if s != [] {
      var p, x := s[..|s| - 1], s[|s| - 1];
      assert s == p + [x];
      DedupInFirstOccurrenceOrder(p);
      var d := Dedup(p);
      forall y | y in d ensures FirstIndex(s, y) == FirstIndex(p, y) {
        FirstIndexPrefix(p, x, y);
      }
      if x !in p {
        assert FirstIndex(s, x) == |p|;
        var e := d + [x];
        forall i, j | 0 <= i < j < |e| ensures FirstIndex(s, e[i]) < FirstIndex(s, e[j]) {
          if j < |d| {
            assert e[i] == d[i] && e[j] == d[j];
          } else {
            assert e[i] == d[i];
          }
        }
      }
    }
  }

  /** Ordered duplicate-free sequences with the same elements start alike. */
  lemma OrderedSameHead<T>(s: seq<T>, a: seq<T>, b: seq<T>)
    requires forall i :: 0 <= i < |a| ==> a[i] in s
    requires SameElements(a, b) && a != []
    requires InFirstOccurrenceOrder(s, a) && InFirstOccurrenceOrder(s, b)
    ensures b != [] && a[0] == b[0]
  {
    assert a[0] in b;
    var j :| 0 <= j < |b| && b[j] == a[0];
    assert b[0] in a;
    var i :| 0 <= i < |a| && a[i] == b[0];
  }

  /** Dropping a shared head keeps the remaining elements the same. */
  lemma SameElementsTail<T>(a: seq<T>, b: seq<T>)
    requires SameElements(a, b) && a != [] && b != [] && a[0] == b[0]
    requires NoDuplicates(a) && NoDuplicates(b)
    ensures SameElements(a[1..], b[1..])
  {
    forall k | 0 <= k < |a| - 1 ensures a[1..][k] in b[1..] {
      var x := a[k + 1];
      assert x != a[0];
      var m :| 0 <= m < |b| && b[m] == x;
      assert b[1..][m - 1] == x;
    }
    forall k | 0 <= k < |b| - 1 ensures b[1..][k] in a[1..] {
      var x := b[k + 1];
      assert x != b[0];
      var m :| 0 <= m < |a| && a[m] == x;
      assert a[1..][m - 1] == x;
    }
  }

  lemma OrderTail<T>(s: seq<T>, a: seq<T>)
    requires forall i :: 0 <= i < |a| ==> a[i] in s
    requires InFirstOccurrenceOrder(s, a) && a != []
    ensures InFirstOccurrenceOrder(s, a[1..])
  {
    forall i, j | 0 <= i < j < |a| - 1 ensures FirstIndex(s, a[1..][i]) < FirstIndex(s, a[1..][j]) {
      assert a[1..][i] == a[i + 1] && a[1..][j] == a[j + 1];
    }
  }

  /** Two duplicate-free sequences with the same elements, both ordered by
      first occurrence in s, are equal. */
  lemma {:induction false} OrderedUnique<T>(s: seq<T>, a: seq<T>, b: seq<T>)
    requires forall i :: 0 <= i < |a| ==> a[i] in s
    requires SameElements(a, b)
    requires NoDuplicates(a) && NoDuplicates(b)
    requires InFirstOccurrenceOrder(s, a) && InFirstOccurrenceOrder(s, b)
    ensures a == b
    decreases |a|
  {
    if a != [] {
      OrderedSameHead(s, a, b);
      SameElementsTail(a, b);
      OrderTail(s, a);
      assert forall i :: 0 <= i < |b| ==> b[i] in s;
      OrderTail(s, b);
      OrderedUnique(s, a[1..], b[1..]);
      assert a == [a[0]] + a[1..] && b == [b[0]] + b[1..];
    }
  }

  /** drop_duplicates keeps exactly the first occurrence of each element, in
      order: any duplicate-free sequence with the same elements, ordered by
      first occurrence, is the deduplicated one. */
  lemma DedupCharacterized<T>(s: seq<T>, d: seq<T>)
    requires NoDuplicates(d)
    requires SameElements(d, s)
    requires InFirstOccurrenceOrder(s, d)
    ensures d == Dedup(s)
  {
    DedupInFirstOccurrenceOrder(s);
    OrderedUnique(s, d, Dedup(s));
  }

  /** process_file: the extension check, then normalisation, resolution,
      name building, the DNI check and duplicate removal, in that order. */
  function ProcessFile(filename: string, t: Table): (r: Result<seq<Pair>, ImportError>)
    requires Rectangular(t)
    ensures !SupportedFormat(filename) ==> r == Failure(UnsupportedFormat)
    ensures SupportedFormat(filename) && t.headers == [] ==> r == Failure(NoColumns)
    ensures r.Success? ==> NoDuplicates(r.value) && |r.value| <= |t.rows|
  {
    if !SupportedFormat(filename) then Failure(UnsupportedFormat)
    else
      var cols := NormalizeHeaders(t.headers);
      var roles := Resolve(cols);
      if roles.surname.None? && roles.firstName.None? && cols == [] then Failure(NoColumns)
      else if roles.dni.None? then Failure(MissingDni(cols + [NameColumn]))
      else Success(Dedup(Candidates(t, roles)))
  }

  /** An import succeeds exactly when the extension is accepted and some
      normalised header contains "dni". */
  lemma ImportSucceedsIff(filename: string, t: Table)
    requires Rectangular(t)
    ensures ProcessFile(filename, t).Success? <==>
      SupportedFormat(filename) && exists j :: 0 <= j < |t.headers| && Contains(NormalizeHeader(t.headers[j]), DniMarker)
  {
    var cols := NormalizeHeaders(t.headers);
    if SupportedFormat(filename) {
      var d := FindFirst(cols, DniMarker);
      if d.Some? {
        assert Contains(NormalizeHeader(t.headers[d.value]), DniMarker);
      } else {
        forall j | 0 <= j < |t.headers| ensures !Contains(NormalizeHeader(t.headers[j]), DniMarker) {
          assert cols[j] == NormalizeHeader(t.headers[j]);
        }
      }
    }
  }

  /** Without a DNI column the error reports every normalised header, in
      order, followed by the synthetic name column, which is new. */
  lemma MissingDniReport(filename: string, t: Table)
    requires Rectangular(t)
    requires SupportedFormat(filename) && t.headers != []
    requires forall j :: 0 <= j < |t.headers| ==> !Contains(NormalizeHeader(t.headers[j]), DniMarker)
    ensures ProcessFile(filename, t) == Failure(MissingDni(NormalizeHeaders(t.headers) + [NameColumn]))
    ensures NameColumn !in NormalizeHeaders(t.headers)
  {
    var cols := NormalizeHeaders(t.headers);
    assert forall j :: 0 <= j < |cols| ==> cols[j] == NormalizeHeader(t.headers[j]);
    NameColumnIsFresh(t.headers);
  }

  /** On success the output holds exactly the rows' distinct (name, raw
      dni) pairs, each once, in the order of its first row. */
  lemma ImportOutput(filename: string, t: Table)
    requires Rectangular(t)
    requires ProcessFile(filename, t).Success?
    ensures t.headers != [] && Resolve(NormalizeHeaders(t.headers)).dni.Some?
    ensures var c := Candidates(t, Resolve(NormalizeHeaders(t.headers)));
      var out := ProcessFile(filename, t).value;
      NoDuplicates(out) && SameElements(out, c) && InFirstOccurrenceOrder(c, out)
  {
    var roles := Resolve(NormalizeHeaders(t.headers));
    var c := Candidates(t, roles);
    assert ProcessFile(filename, t).value == Dedup(c);
    DedupInFirstOccurrenceOrder(c);
  }
}
