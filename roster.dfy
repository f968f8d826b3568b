/** The roster of members ("padrón") kept in the `socios` table of each
    operator's database: its records, the pure views the panel shows (the
    search filter and the vote counts), the specification of every change
    the panel can make, and the store itself as a class. */
module Roster {
  import opened Wrappers
  import opened Text
  import opened Pipeline

  /** One row of `socios`: the AUTOINCREMENT id, the full name, the DNI as
      text and the vote flag (0 not yet voted, 1 voted). */
  datatype Socio = Socio(id: int, nombre: string, dni: string, voto: int)

  /** Ids strictly increase along the roster, so no id occurs twice. */
  predicate IdsIncreasing(s: seq<Socio>) {
    forall i, j :: 0 <= i < j < |s| ==> s[i].id < s[j].id
  }

  /** The invariant of a roster whose next AUTOINCREMENT value is next:
      ids are positive, below next and increasing, and every vote flag is
      0 or 1. */
  predicate WellFormed(s: seq<Socio>, next: int) {
    1 <= next && IdsIncreasing(s) &&
    forall i :: 0 <= i < |s| ==> 1 <= s[i].id < next && (s[i].voto == 0 || s[i].voto == 1)
  }

  predicate HasId(s: seq<Socio>, id: int) {
    exists i :: 0 <= i < |s| && s[i].id == id
  }

  /** The roster suffix of a well-formed roster is well formed. */
  lemma TailWellFormed(s: seq<Socio>, next: int)
    requires WellFormed(s, next) && s != []
    ensures WellFormed(s[1..], next)
    ensures forall i :: 0 <= i < |s[1..]| ==> s[0].id < s[1..][i].id
  {
    forall i, j | 0 <= i < j < |s[1..]| ensures s[1..][i].id < s[1..][j].id {
      assert s[1..][i] == s[i + 1] && s[1..][j] == s[j + 1];
    }
    forall i | 0 <= i < |s[1..]| ensures s[0].id < s[1..][i].id {
      assert s[1..][i] == s[i + 1];
    }
  }

  // ---------------------------------------------------------------------
  // Counts shown on the panel

  /** How many members have voted: the rows whose flag is 1. */
  function Votaron(s: seq<Socio>): (n: nat)
    ensures n <= |s|
  {
    if s == [] then 0 else (if s[0].voto == 1 then 1 else 0) + Votaron(s[1..])
  }

  // ---------------------------------------------------------------------
  // Import

  /** The row one imported pair becomes: both fields stripped, the vote
      flag at its default 0. */
  function ImportRow(p: Pair, id: int): Socio {
    Socio(id, Strip(p.0), Strip(p.1), 0)
  }

  /** The rows one import inserts: one row per deduplicated pair, numbered
      from start in order. */
  function Imported(pairs: seq<Pair>, start: int): (r: seq<Socio>)
    ensures |r| == |pairs|
  {
    seq(|pairs|, i requires 0 <= i < |pairs| => ImportRow(pairs[i], start + i))
  }

  /** An import numbers its rows with fresh consecutive ids from start on,
      all above every id a roster bounded by start holds. */
  lemma ImportedWellFormed(pairs: seq<Pair>, start: int)
    requires 1 <= start
    ensures WellFormed(Imported(pairs, start), start + |pairs|)
    ensures forall i :: 0 <= i < |pairs| ==> Imported(pairs, start)[i].id == start + i
  {
  }

  /** The first imported row followed by the rows of the remaining pairs. */
  lemma ImportedCons(pairs: seq<Pair>, start: int)
    requires pairs != []
    ensures Imported(pairs, start) ==
      [ImportRow(pairs[0], start)] + Imported(pairs[1..], start + 1)
  {
    var r := Imported(pairs, start);
    var r' := [ImportRow(pairs[0], start)] + Imported(pairs[1..], start + 1);
    forall i | 0 <= i < |r| ensures r[i] == r'[i] {
      if i > 0 {
        assert pairs[1..][i - 1] == pairs[i];
      }
    }
  }

  /** The rows of a longer prefix of the pairs extend those of a shorter
      one. */
  lemma ImportedSnoc(pairs: seq<Pair>, i: int, start: int)
    requires 0 <= i < |pairs|
    ensures Imported(pairs[..i + 1], start) ==
      Imported(pairs[..i], start) + [ImportRow(pairs[i], start + i)]
  {
    var a := Imported(pairs[..i + 1], start);
    var b := Imported(pairs[..i], start) + [ImportRow(pairs[i], start + i)];
    forall j | 0 <= j < |a| ensures a[j] == b[j] {
      assert pairs[..i + 1][j] == pairs[j];
      if j < i {
        assert pairs[..i][j] == pairs[j];
      }
    }
  }

  /** Right after an import nobody has voted: every flag is reset. */
  lemma {:induction false} ImportedNoneVoted(pairs: seq<Pair>, start: int)
    ensures Votaron(Imported(pairs, start)) == 0
    decreases |pairs|
  {
    if pairs != [] {
      ImportedCons(pairs, start);
      ImportedNoneVoted(pairs[1..], start + 1);
      assert Imported(pairs, start)[1..] == Imported(pairs[1..], start + 1);
    }
  }

  /** What an import stores does not depend on the ids reached before it:
      importing the same pairs at any counter gives the same names, DNIs
      and flags in the same order. */
  lemma ImportedContentsIndependent(pairs: seq<Pair>, a: int, b: int)
    ensures forall i :: 0 <= i < |pairs| ==>
      Imported(pairs, a)[i].(id := 0) == Imported(pairs, b)[i].(id := 0)
  {
  }

  lemma PaddedDniStripped()
    ensures Strip(" 111") == "111"
  {
    StripPadded(" ", "111", "");
    assert " " + "111" + "" == " 111";
  }

  lemma PaddedDniSurvivesDedup()
    ensures Dedup([("Ana", "111"), ("Ana", " 111")]) == [("Ana", "111"), ("Ana", " 111")]
  {
    var pairs: seq<Pair> := [("Ana", "111"), ("Ana", " 111")];
    assert pairs[..1] == [("Ana", "111")];
    assert " 111"[0] != "111"[0];
  }

  /** Two pairs that agree once stripped become two rows with the same
      name and DNI under different ids. */
  lemma SameStrippedRows(d: seq<Pair>, a: int, b: int, n: int)
    requires 0 <= a < b < |d|
    requires Strip(d[a].0) == Strip(d[b].0) && Strip(d[a].1) == Strip(d[b].1)
    ensures var r := Imported(d, n);
      exists x, y :: 0 <= x < y < |r| && r[x].nombre == r[y].nombre && r[x].dni == r[y].dni && r[x].id != r[y].id
  {
    var r := Imported(d, n);
    assert r[a] == ImportRow(d[a], n + a);
    assert r[b] == ImportRow(d[b], n + b);
  }

  /** Deduplication compares the pairs as built, before the insert strips
      them: two different pairs that agree once both fields are stripped
      both survive it, and the import stores two rows with the same name and
      DNI under different ids. */
  lemma DuplicateAfterStrip(c: seq<Pair>, i: int, j: int, n: int)
    requires 0 <= i < |c| && 0 <= j < |c| && c[i] != c[j]
    requires Strip(c[i].0) == Strip(c[j].0) && Strip(c[i].1) == Strip(c[j].1)
    ensures c[i] in Dedup(c) && c[j] in Dedup(c)
    ensures var r := Imported(Dedup(c), n);
      exists x, y :: 0 <= x < y < |r| && r[x].nombre == r[y].nombre && r[x].dni == r[y].dni && r[x].id != r[y].id
  {
    var d := Dedup(c);
    assert c[i] in d && c[j] in d;
    var a :| 0 <= a < |d| && d[a] == c[i];
    var b :| 0 <= b < |d| && d[b] == c[j];
    if a < b {
      SameStrippedRows(d, a, b, n);
    } else {
      SameStrippedRows(d, b, a, n);
    }
  }

  /** One such case: a DNI read with a leading blank. */
  lemma PaddedDniStoredTwice(pairs: seq<Pair>)
    requires pairs == [("Ana", "111"), ("Ana", " 111")]
    ensures Dedup(pairs) == pairs
    ensures var r := Imported(pairs, 1);
      r[0].nombre == r[1].nombre && r[0].dni == r[1].dni && r[0].id != r[1].id
  {
    PaddedDniSurvivesDedup();
    PaddedDniStripped();
    StripTrimmed("111");
  }

  // ---------------------------------------------------------------------
  // Voting

  /** The UPDATE of one row: the row with that id gets flag 1. */
  function Mark(x: Socio, id: int): Socio {
    if x.id == id then x.(voto := 1) else x
  }

  /** `UPDATE socios SET voto=1 WHERE id=?` over the whole roster. */
  function WithVote(s: seq<Socio>, id: int): (r: seq<Socio>)
    ensures |r| == |s|
  {
    if s == [] then [] else [Mark(s[0], id)] + WithVote(s[1..], id)
  }

  lemma {:induction false} WithVoteAt(s: seq<Socio>, id: int, i: int)
    requires 0 <= i < |s|
    ensures WithVote(s, id)[i] == Mark(s[i], id)
    decreases i
  {
    if i > 0 {
      WithVoteAt(s[1..], id, i - 1);
    }
  }

  /** Voting for an id that no row has changes nothing. */
  lemma {:induction false} VoteAbsent(s: seq<Socio>, id: int)
    requires !HasId(s, id)
    ensures WithVote(s, id) == s
  {
    if s != [] {
      assert !HasId(s[1..], id) by {
        forall i | 0 <= i < |s[1..]| ensures s[1..][i].id != id {
          assert s[1..][i] == s[i + 1];
        }
      }
      VoteAbsent(s[1..], id);
    }
  }

  /** On a well-formed roster, voting for the id of row k sets that row's
      flag to 1 and leaves every other row as it was. */
  lemma VoteMarksOne(s: seq<Socio>, next: int, k: int)
    requires WellFormed(s, next) && 0 <= k < |s|
    ensures WithVote(s, s[k].id) == s[k := s[k].(voto := 1)]
  {
    var r := WithVote(s, s[k].id);
    forall i | 0 <= i < |s| ensures r[i] == s[k := s[k].(voto := 1)][i] {
      WithVoteAt(s, s[k].id, i);
    }
  }

  /** Voting twice for the same id is voting once. */
  lemma VoteIdempotent(s: seq<Socio>, id: int)
    ensures WithVote(WithVote(s, id), id) == WithVote(s, id)
  {
    var r := WithVote(s, id);
    forall i | 0 <= i < |s| ensures WithVote(r, id)[i] == r[i] {
      WithVoteAt(s, id, i);
      WithVoteAt(r, id, i);
    }
  }

  /** Voting keeps the roster well formed. */
  lemma VoteKeepsWellFormed(s: seq<Socio>, next: int, id: int)
    requires WellFormed(s, next)
    ensures WellFormed(WithVote(s, id), next)
  {
    var r := WithVote(s, id);
    forall i | 0 <= i < |s| ensures r[i].id == s[i].id && (r[i].voto == 0 || r[i].voto == 1) {
      WithVoteAt(s, id, i);
    }
  }

  /** The voted count goes up by one exactly when the member had not voted
      yet. */
  lemma {:induction false} VotaronAfterVote(s: seq<Socio>, next: int, k: int)
    requires WellFormed(s, next) && 0 <= k < |s|
    ensures Votaron(WithVote(s, s[k].id)) == Votaron(s) + 1 - s[k].voto
    decreases k
  {
    var id := s[k].id;
    TailWellFormed(s, next);
    if k == 0 {
      assert !HasId(s[1..], id);
      VoteAbsent(s[1..], id);
    } else {
      assert s[1..][k - 1] == s[k];
      VotaronAfterVote(s[1..], next, k - 1);
    }
  }

  // ---------------------------------------------------------------------
  // Deletion

  /** `DELETE FROM socios WHERE id=?`: the rows with other ids, in order. */
  function Removed(s: seq<Socio>, id: int): (r: seq<Socio>)
    ensures |r| <= |s|
  {
    if s == [] then [] else (if s[0].id == id then [] else [s[0]]) + Removed(s[1..], id)
  }

  /** Deleting an id that no row has changes nothing. */
  lemma {:induction false} DeleteAbsent(s: seq<Socio>, id: int)
    requires !HasId(s, id)
    ensures Removed(s, id) == s
  {
    if s != [] {
      assert !HasId(s[1..], id) by {
        forall i | 0 <= i < |s[1..]| ensures s[1..][i].id != id {
          assert s[1..][i] == s[i + 1];
        }
      }
      DeleteAbsent(s[1..], id);
    }
  }

  /** On a well-formed roster, deleting the id of row k removes that row
      and nothing else. */
  lemma {:induction false} DeleteRemovesOne(s: seq<Socio>, next: int, k: int)
    requires WellFormed(s, next) && 0 <= k < |s|
    ensures Removed(s, s[k].id) == s[..k] + s[k + 1..]
    decreases k
  {
    var id := s[k].id;
    if k == 0 {
      assert !HasId(s[1..], id) by { TailWellFormed(s, next); }
      DeleteAbsent(s[1..], id);
    } else {
      assert WellFormed(s[1..], next) by { TailWellFormed(s, next); }
      assert s[1..][k - 1] == s[k];
      DeleteRemovesOne(s[1..], next, k - 1);
      assert Removed(s, id) == [s[0]] + Removed(s[1..], id);
      assert s[1..][..k - 1] == s[1..k] && s[1..][k..] == s[k + 1..];
      assert [s[0]] + (s[1..k] + s[k + 1..]) == s[..k] + s[k + 1..];
    }
  }

  /** Removing one row of a well-formed roster leaves it well formed. */
  lemma WithoutKeepsWellFormed(s: seq<Socio>, next: int, k: int)
    requires WellFormed(s, next) && 0 <= k < |s|
    ensures WellFormed(s[..k] + s[k + 1..], next)
  {
    var r := s[..k] + s[k + 1..];
    forall i | 0 <= i < |r| ensures r[i] == s[if i < k then i else i + 1] {
    }
  }

  /** Deletion keeps the roster well formed. */
  lemma DeleteKeepsWellFormed(s: seq<Socio>, next: int, id: int)
    requires WellFormed(s, next)
    ensures WellFormed(Removed(s, id), next)
  {
    if HasId(s, id) {
      var k :| 0 <= k < |s| && s[k].id == id;
      DeleteRemovesOne(s, next, k);
      WithoutKeepsWellFormed(s, next, k);
    } else {
      DeleteAbsent(s, id);
    }
  }

  // ---------------------------------------------------------------------
  // Adding by hand

  /** The row the add form inserts, if any: the three fields are stripped
      first, and nothing is added unless all three are non-empty; the name
      is surname, one space, first name. */
  function NewMember(apellido: string, nombre: string, dni: string): (m: Option<Pair>)
    ensures m.Some? ==> m.value.0 != [] && m.value.1 != []
    ensures m.Some? ==> Trimmed(m.value.0) && Trimmed(m.value.1)
  {
    var a, n, d := Strip(apellido), Strip(nombre), Strip(dni);
    if a == [] || n == [] || d == [] then None
    else
      assert (a + " " + n)[0] == a[0];
      assert (a + " " + n)[|a + " " + n| - 1] == n[|n| - 1];
      Some((a + " " + n, d))
  }

  /** A member added by hand gets the name an import would build from the
      same trimmed surname and first name in separate columns. */
  lemma AddedLikeImported(apellido: string, nombre: string, dni: string)
    requires NewMember(apellido, nombre, dni).Some?
    ensures var m := NewMember(apellido, nombre, dni).value;
      BuildName([Strip(apellido), Strip(nombre), m.1], Roles(Some(0), Some(1), Some(2))) == m.0
  {
    var m := NewMember(apellido, nombre, dni).value;
    StripTrimmed(m.0);
  }

  /** The add form does nothing unless all three stripped fields are
      filled in. */
  lemma AddNeedsAllFields(apellido: string, nombre: string, dni: string)
    ensures NewMember(apellido, nombre, dni).Some? <==>
      (exists i :: 0 <= i < |apellido| && !IsSpace(apellido[i])) &&
      (exists i :: 0 <= i < |nombre| && !IsSpace(nombre[i])) &&
      (exists i :: 0 <= i < |dni| && !IsSpace(dni[i]))
  {
    StripEmptyIff(apellido);
    StripEmptyIff(nombre);
    StripEmptyIff(dni);
  }

  // ---------------------------------------------------------------------
  // Search

  /** A row matches a lower-cased query when its lower-cased name or DNI
      contains it. */
  predicate Hit(x: Socio, q: string) {
    Contains(Lower(x.nombre), q) || Contains(Lower(x.dni), q)
  }

  /** The rows that match q, in roster order. */
  function Matching(s: seq<Socio>, q: string): (r: seq<Socio>)
    ensures |r| <= |s|
  {
    if s == [] then [] else (if Hit(s[0], q) then [s[0]] else []) + Matching(s[1..], q)
  }

  /** The search box: the query is lower-cased and stripped; an empty query
      lists everyone. */
  function Search(todos: seq<Socio>, buscar: string): (r: seq<Socio>)
    ensures |r| <= |todos|
  {
    var q := Strip(Lower(buscar));
    if q == [] then todos else Matching(todos, q)
  }

  /** a is a subsequence of b: b with some elements dropped. */
  predicate Subsequence(a: seq<Socio>, b: seq<Socio>)
    decreases |b|
  {
    if a == [] then true
    else if b == [] then false
    else (a[0] == b[0] && Subsequence(a[1..], b[1..])) || Subsequence(a, b[1..])
  }

  /** A row is listed exactly when it is in the roster and matches. */
  lemma {:induction false} MatchingIff(s: seq<Socio>, q: string, x: Socio)
    ensures x in Matching(s, q) <==> x in s && Hit(x, q)
  {
    if s != [] {
      MatchingIff(s[1..], q, x);
      assert s == [s[0]] + s[1..];
    }
  }

  /** The listed rows are the roster with the non-matching rows dropped. */
  lemma {:induction false} MatchingIsSubsequence(s: seq<Socio>, q: string)
    ensures Subsequence(Matching(s, q), s)
  {
    if s != [] {
      MatchingIsSubsequence(s[1..], q);
      if Hit(s[0], q) {
        assert Matching(s, q)[1..] == Matching(s[1..], q);
      } else {
        assert Matching(s, q) == Matching(s[1..], q);
        SubsequenceSkip(Matching(s, q), s);
      }
    }
  }

  lemma SubsequenceSkip(a: seq<Socio>, b: seq<Socio>)
    requires b != [] && Subsequence(a, b[1..])
    ensures Subsequence(a, b)
  {
  }

  /** Listing keeps the roster's id order. */
  lemma {:induction false} MatchingKeepsOrder(s: seq<Socio>, q: string)
    requires IdsIncreasing(s)
    ensures IdsIncreasing(Matching(s, q))
  {
    if s != [] {
      var t := Matching(s[1..], q);
      assert IdsIncreasing(s[1..]) by {
        forall i, j | 0 <= i < j < |s[1..]| ensures s[1..][i].id < s[1..][j].id {
          assert s[1..][i] == s[i + 1] && s[1..][j] == s[j + 1];
        }
      }
      MatchingKeepsOrder(s[1..], q);
      forall j | 0 <= j < |t| ensures s[0].id < t[j].id {
        MatchingIff(s[1..], q, t[j]);
        var m :| 0 <= m < |s[1..]| && s[1..][m] == t[j];
        assert s[m + 1] == t[j];
      }
    }
  }

  /** With a non-empty query, the listed rows are exactly the matching
      rows, in roster order. */
  lemma SearchFilters(todos: seq<Socio>, buscar: string, x: Socio)
    requires Strip(Lower(buscar)) != []
    ensures x in Search(todos, buscar) <==> x in todos && Hit(x, Strip(Lower(buscar)))
    ensures Subsequence(Search(todos, buscar), todos)
  {
    MatchingIff(todos, Strip(Lower(buscar)), x);
    MatchingIsSubsequence(todos, Strip(Lower(buscar)));
  }

  /** An empty or all-blank query lists the whole roster. */
  lemma SearchBlank(todos: seq<Socio>, buscar: string)
    requires forall i :: 0 <= i < |buscar| ==> IsSpace(buscar[i])
    ensures Search(todos, buscar) == todos
  {
    StripEmptyIff(Lower(buscar));
  }

  /** Search ignores the case of the query. */
  lemma SearchIgnoresCase(todos: seq<Socio>, buscar: string)
    ensures Search(todos, Lower(buscar)) == Search(todos, buscar)
  {
    LowerIdempotent(buscar);
  }

  /** Search ignores a leading blank in the query. */
  lemma SearchIgnoresPadding(todos: seq<Socio>, buscar: string)
    ensures Search(todos, " " + buscar) == Search(todos, buscar)
  {
    LowerLeadingSpace(buscar);
    StripDropsLeadingSpace(Lower(buscar));
  }

  /** Typing a member's stored DNI, as stripped at insert time and in any
      case, lists that member. */
  lemma SearchFindsDni(todos: seq<Socio>, k: int)
    requires 0 <= k < |todos|
    requires todos[k].dni != [] && Trimmed(todos[k].dni)
    ensures todos[k] in Search(todos, todos[k].dni)
  {
    var d := todos[k].dni;
    var l := Lower(d);
    assert Trimmed(l) by {
      assert l[0] == LowerChar(d[0]) && l[|l| - 1] == LowerChar(d[|d| - 1]);
    }
    StripTrimmed(l);
    ContainsAt(l, l, 0);
    MatchingIff(todos, l, todos[k]);
  }

  // ---------------------------------------------------------------------
  // The store

  /** What an upload request led to. */
  datatype Outcome = Refreshed | NoFileSelected | Rejected(error: ImportError)

  /** The `socios` table of one operator, with its AUTOINCREMENT counter. */
  class Padron {
    var socios: seq<Socio>
    var nextId: int

    predicate Valid()
      reads this
    {
      WellFormed(socios, nextId)
    }

    /** A freshly created table: empty, counter at 1. */
    constructor ()
      ensures Valid() && socios == [] && nextId == 1
    {
      socios := [];
      nextId := 1;
    }

    /** `INSERT INTO socios (nombre, dni)`: appends a row with the next id
        and the default flag. */
    method Insert(nombre: string, dni: string)
      requires Valid()
      modifies this
      ensures Valid()
      ensures socios == old(socios) + [Socio(old(nextId), nombre, dni, 0)]
      ensures nextId == old(nextId) + 1
    {
      socios := socios + [Socio(nextId, nombre, dni, 0)];
      nextId := nextId + 1;
    }

    /** A successful upload: `DELETE FROM socios`, then one insert per
        deduplicated pair with both fields stripped. */
    method ReplaceAll(pairs: seq<Pair>)
      requires Valid()
      modifies this
      ensures Valid()
      ensures socios == Imported(pairs, old(nextId))
      ensures nextId == old(nextId) + |pairs|
    {
      var start := nextId;
      socios := [];
      var i := 0;
      while i < |pairs|
        invariant 0 <= i <= |pairs|
        invariant nextId == start + i
        invariant socios == Imported(pairs[..i], start)
        invariant Valid()
      {
        Insert(Strip(pairs[i].0), Strip(pairs[i].1));
        ImportedSnoc(pairs, i, start);
        i := i + 1;
      }
      assert pairs[..i] == pairs;
    }

    /** The upload form. A missing file or an empty file name, and every
        import error, are reported before the table is touched; otherwise
        the table is replaced by the import. */
    method Upload(filename: Option<string>, t: Table) returns (outcome: Outcome)
      requires Valid() && Rectangular(t)
      modifies this
      ensures Valid()
      ensures (filename.None? || filename.value == []) ==>
        outcome == NoFileSelected && socios == old(socios) && nextId == old(nextId)
      ensures filename.Some? && filename.value != [] && ProcessFile(filename.value, t).Failure? ==>
        outcome == Rejected(ProcessFile(filename.value, t).error) && socios == old(socios) && nextId == old(nextId)
      ensures filename.Some? && filename.value != [] && ProcessFile(filename.value, t).Success? ==>
        outcome == Refreshed && socios == Imported(ProcessFile(filename.value, t).value, old(nextId)) &&
        nextId == old(nextId) + |ProcessFile(filename.value, t).value|
    {
      if filename.None? || filename.value == [] {
        return NoFileSelected;
      }
      var r := ProcessFile(filename.value, t);
      if r.Failure? {
        return Rejected(r.error);
      }
      ReplaceAll(r.value);
      outcome := Refreshed;
    }

    /** The vote link. */
    method Vote(id: int)
      requires Valid()
      modifies this
      ensures Valid()
      ensures socios == WithVote(old(socios), id) && nextId == old(nextId)
    {
      VoteKeepsWellFormed(socios, nextId, id);
      socios := WithVote(socios, id);
    }

    /** The delete link. The counter is untouched, so a deleted id is never
        handed out again. */
    method Delete(id: int)
      requires Valid()
      modifies this
      ensures Valid()
      ensures socios == Removed(old(socios), id) && nextId == old(nextId)
    {
      DeleteKeepsWellFormed(socios, nextId, id);
      socios := Removed(socios, id);
    }

    /** The add form. */
    method Add(apellido: string, nombre: string, dni: string)
      requires Valid()
      modifies this
      ensures Valid()
      ensures NewMember(apellido, nombre, dni).None? ==> socios == old(socios) && nextId == old(nextId)
      ensures NewMember(apellido, nombre, dni).Some? ==>
        var m := NewMember(apellido, nombre, dni).value;
        socios == old(socios) + [Socio(old(nextId), m.0, m.1, 0)] && nextId == old(nextId) + 1
    {
      var m := NewMember(apellido, nombre, dni);
      if m.Some? {
        Insert(m.value.0, m.value.1);
      }
    }

    /** The panel view: the rows the search lists and the counts, which are
        always over the whole roster. */
    method Panel(buscar: string) returns (listed: seq<Socio>, total: nat, votaron: nat, restan: nat)
      requires Valid()
      ensures listed == Search(socios, buscar)
      ensures total == |socios| && votaron == Votaron(socios)
      ensures votaron <= total && restan == total - votaron
    {
      listed := Search(socios, buscar);
      total := |socios|;
      votaron := Votaron(socios);
      restan := total - votaron;
    }
  }
}
