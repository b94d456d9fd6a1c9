/** The class service: the paged class listing, class creation, update, deletion and
 *  status change, and the reconciliation of a class roster with a requested list of
 *  students. */
module TurmaService {
  import opened Wrappers
  import opened Text
  import opened Sequences
  import opened Tables
  import opened CommonDto
  import opened Models

  // ---------------------------------------------------------------------------
  // Class codes

  /** Codigo.Trim().ToUpperInvariant(): the form in which class codes are stored
   *  and compared. */
  function NormalizeCode(codigo: string): (r: string)
    ensures r == [] || (!IsWhiteSpace(r[0]) && !IsWhiteSpace(r[|r| - 1]))
    ensures forall i :: 0 <= i < |r| ==> !IsLower(r[i])
    ensures |r| <= |codigo|
  {
    UpperOfTrimmed(Trim(codigo));
    ToUpper(Trim(codigo))
  }

  /** Upper-casing a trimmed string leaves it trimmed and without lower-case letters. */
  lemma UpperOfTrimmed(t: string)
    requires t == [] || (!IsWhiteSpace(t[0]) && !IsWhiteSpace(t[|t| - 1]))
    ensures var r := ToUpper(t);
            (r == [] || (!IsWhiteSpace(r[0]) && !IsWhiteSpace(r[|r| - 1])))
            && (forall i :: 0 <= i < |r| ==> !IsLower(r[i]))
  {
    if |t| > 0 {
      CaseKeepsWhiteSpace(t[0]);
      CaseKeepsWhiteSpace(t[|t| - 1]);
    }
  }

  /** A code already in stored form is left as it is, so normalising twice is
   *  normalising once. */
  lemma NormalizeCodeIdempotent(codigo: string)
    ensures NormalizeCode(NormalizeCode(codigo)) == NormalizeCode(codigo)
  {
    NormalizedIsFixed(NormalizeCode(codigo));
  }

  /** A code in stored form normalises to itself. */
  lemma NormalizedIsFixed(n: string)
    requires n == [] || (!IsWhiteSpace(n[0]) && !IsWhiteSpace(n[|n| - 1]))
    requires forall i :: 0 <= i < |n| ==> !IsLower(n[i])
    ensures NormalizeCode(n) == n
  {
    TrimOfTrimmed(n);
    UpperOfUpper(n);
  }

  /** A string without lower-case letters is its own upper-case form. */
  lemma UpperOfUpper(t: string)
    requires forall i :: 0 <= i < |t| ==> !IsLower(t[i])
    ensures ToUpper(t) == t
  {
    assert forall i :: 0 <= i < |t| ==> UpperChar(t[i]) == t[i];
  }

  // ---------------------------------------------------------------------------
  // Listing

  /** Math.Max(page, 1) */
  function ListingPage(page: int): (r: int)
    ensures r >= 1 && (page >= 1 ==> r == page)
  {
    if page < 1 then 1 else page
  }

  /** Math.Clamp(pageSize, 1, 100): an out-of-range size becomes the nearest bound. */
  function ListingPageSize(pageSize: int): (r: int)
    ensures 1 <= r <= MaxPageSize
    ensures 1 <= pageSize <= MaxPageSize ==> r == pageSize
    ensures pageSize < 1 ==> r == 1
    ensures pageSize > MaxPageSize ==> r == MaxPageSize
  {
    if pageSize < 1 then 1 else if pageSize > MaxPageSize then MaxPageSize else pageSize
  }

  /** The filters of the listing; each one applies only when given, and a blank search
   *  is ignored. */
  predicate TurmaMatches(t: Turma, search: Option<string>, cursoId: Option<int>,
                         anoLetivo: Option<int>, status: Option<StatusTurma>)
  {
    (IsNullOrWhiteSpace(search) || Contains(t.dados.nome, search.value) || Contains(t.codigo, search.value))
    && (cursoId.None? || t.dados.cursoId == cursoId.value)
    && (anoLetivo.None? || t.dados.anoLetivo == anoLetivo.value)
    && (status.None? || t.dados.status == status.value)
  }

  /** OrderByDescending(AnoLetivo).ThenBy(Nome) */
  predicate TurmaOrder(a: (int, Turma), b: (int, Turma)) {
    a.1.dados.anoLetivo > b.1.dados.anoLetivo
    || (a.1.dados.anoLetivo == b.1.dados.anoLetivo && StrLe(a.1.dados.nome, b.1.dados.nome))
  }

  lemma TurmaOrderIsTotalOrder()
    ensures Total(TurmaOrder) && Transitive(TurmaOrder)
  {
    forall a: (int, Turma), b: (int, Turma) ensures TurmaOrder(a, b) || TurmaOrder(b, a) {
      StrLeTotal(a.1.dados.nome, b.1.dados.nome);
    }
    forall a: (int, Turma), b: (int, Turma), c: (int, Turma) | TurmaOrder(a, b) && TurmaOrder(b, c)
      ensures TurmaOrder(a, c)
    {
      if a.1.dados.anoLetivo == b.1.dados.anoLetivo == c.1.dados.anoLetivo {
        StrLeTransitive(a.1.dados.nome, b.1.dados.nome, c.1.dados.nome);
      }
    }
  }

  /** The matching classes with their identities, in store order. */
  function MatchingTurmas(turmas: Table<Turma>, search: Option<string>, cursoId: Option<int>,
                          anoLetivo: Option<int>, status: Option<StatusTurma>): (r: seq<(int, Turma)>)
    ensures forall i :: 0 <= i < |r| ==>
              r[i].0 in turmas.rows && r[i].1 == turmas.rows[r[i].0]
              && TurmaMatches(r[i].1, search, cursoId, anoLetivo, status)
    ensures turmas.Wf() ==> forall id :: id in turmas.rows && TurmaMatches(turmas.rows[id], search, cursoId, anoLetivo, status)
                                         ==> (id, turmas.rows[id]) in r
  {
    turmas.EntriesWhere(t => TurmaMatches(t, search, cursoId, anoLetivo, status))
  }

  /** GetTurmasAsync: the page is forced to at least 1 and the size clamped to 1..100;
   *  the matching classes are counted, ordered by school year (latest first) then
   *  name, and the requested page of them is returned. */
  function GetTurmas(turmas: Table<Turma>, page: int, pageSize: int, search: Option<string>,
                     cursoId: Option<int>, anoLetivo: Option<int>, status: Option<StatusTurma>)
    : (r: ApiResponse<Paginated<(int, Turma)>>)
    ensures r.success && r.message == "Turmas listadas com sucesso" && r.data.Some?
    ensures var p := r.data.value;
      && p.currentPage == ListingPage(page) && p.pageSize == ListingPageSize(pageSize)
      && p.totalItems == |MatchingTurmas(turmas, search, cursoId, anoLetivo, status)|
      && |p.items| <= p.pageSize
  {
    var all := MatchingTurmas(turmas, search, cursoId, anoLetivo, status);
    Ok(BuildPage(SortBy(all, TurmaOrder), ListingPage(page), ListingPageSize(pageSize)),
       "Turmas listadas com sucesso", None)
  }

  /** Every class on a page of the listing is a stored class that passes the filters. */
  lemma GetTurmasItemsMatch(turmas: Table<Turma>, page: int, pageSize: int, search: Option<string>,
                            cursoId: Option<int>, anoLetivo: Option<int>, status: Option<StatusTurma>)
    ensures var items := GetTurmas(turmas, page, pageSize, search, cursoId, anoLetivo, status).data.value.items;
      forall i :: 0 <= i < |items| ==>
        items[i].0 in turmas.rows && items[i].1 == turmas.rows[items[i].0]
        && TurmaMatches(items[i].1, search, cursoId, anoLetivo, status)
  {
    var all := MatchingTurmas(turmas, search, cursoId, anoLetivo, status);
    var sorted := SortBy(all, TurmaOrder);
    var items := PageOf(sorted, ListingPage(page), ListingPageSize(pageSize));
    PageIsSlice(sorted, ListingPage(page), ListingPageSize(pageSize));
    forall i | 0 <= i < |items|
      ensures items[i] in all
    {
      assert items[i] in multiset(sorted);
    }
  }

  /** A page of the listing is in order: latest school year first, then by name. */
  lemma GetTurmasSorted(turmas: Table<Turma>, page: int, pageSize: int, search: Option<string>,
                        cursoId: Option<int>, anoLetivo: Option<int>, status: Option<StatusTurma>)
    ensures Sorted(GetTurmas(turmas, page, pageSize, search, cursoId, anoLetivo, status).data.value.items, TurmaOrder)
  {
    var all := MatchingTurmas(turmas, search, cursoId, anoLetivo, status);
    TurmasSorted(all);
    PageSorted(SortBy(all, TurmaOrder), TurmaOrder, ListingPage(page), ListingPageSize(pageSize));
  }

  lemma TurmasSorted(s: seq<(int, Turma)>)
    ensures Sorted(SortBy(s, TurmaOrder), TurmaOrder)
  {
    TurmaOrderIsTotalOrder();
    SortBySorted(s, TurmaOrder);
  }

  /** Taken page by page, the listing holds every matching class exactly as often as
   *  the table does, and a page past the last one is empty. */
  lemma GetTurmasPages(turmas: Table<Turma>, page: int, pageSize: int, search: Option<string>,
                       cursoId: Option<int>, anoLetivo: Option<int>, status: Option<StatusTurma>)
    ensures var p := GetTurmas(turmas, page, pageSize, search, cursoId, anoLetivo, status).data.value;
      var sorted := SortBy(MatchingTurmas(turmas, search, cursoId, anoLetivo, status), TurmaOrder);
      && multiset(sorted) == multiset(MatchingTurmas(turmas, search, cursoId, anoLetivo, status))
      && Pages(sorted, p.pageSize, p.totalPages) == sorted
      && (p.currentPage > p.totalPages ==> p.items == [])
  {
    var all := MatchingTurmas(turmas, search, cursoId, anoLetivo, status);
    var sorted := SortBy(all, TurmaOrder);
    PagesPartitionListing(sorted, ListingPageSize(pageSize));
    PagePastEndEmpty(sorted, ListingPage(page), ListingPageSize(pageSize));
  }

  // ---------------------------------------------------------------------------
  // Enrollment numbers

  predicate IsLowerHex(c: char) { IsDigit(c) || ('a' <= c <= 'f') }

  predicate IsUpperHex(c: char) { IsDigit(c) || ('A' <= c <= 'F') }

  /** Guid.ToString("N"): 32 lower-case hexadecimal digits. */
  type GuidN = g: string | |g| == 32 && forall i :: 0 <= i < |g| ==> IsLowerHex(g[i])
    witness "00000000000000000000000000000000"

  /** The random part of an enrollment number: the first six digits of a fresh GUID,
   *  upper-cased. */
  function GuidSuffix(g: GuidN): (r: string)
    ensures |r| == 6 && forall i :: 0 <= i < 6 ==> IsUpperHex(r[i])
  {
    ToUpper(g[..6])
  }

  /** GerarNumeroMatricula: "T", the class id in at least 3 digits, "-A", the student id in
   *  at least 4 digits, "-" and the GUID suffix. */
  function NumeroMatricula(turmaId: int, alunoId: int, g: GuidN): string {
    "T" + FormatD(turmaId, 3) + "-A" + FormatD(alunoId, 4) + "-" + GuidSuffix(g)
  }

  /** Reads the class id, student id and suffix back out of an enrollment number. */
  function ParseNumeroMatricula(s: string): Option<(int, int, string)> {
    if |s| == 0 || s[0] != 'T' then None else ParseAfterTurma(s, IndexOf(s, '-', 1))
  }

  /** The rest of the parse once the class field is known to end at `i`. */
  function ParseAfterTurma(s: string, i: nat): Option<(int, int, string)>
    requires 1 <= i <= |s|
  {
    if i + 1 >= |s| || s[i + 1] != 'A' || !AllDigits(s[1..i]) then None
    else ParseAfterAluno(s, i, IndexOf(s, '-', i + 2))
  }

  /** The rest of the parse once the student field is known to end at `j`. */
  function ParseAfterAluno(s: string, i: nat, j: nat): Option<(int, int, string)>
    requires 1 <= i && i + 2 <= j <= |s| && AllDigits(s[1..i])
  {
    if j >= |s| || !AllDigits(s[i + 2..j]) then None
    else Some((ValueOf(s[1..i]), ValueOf(s[i + 2..j]), s[j + 1..]))
  }

  /** A string made of "T", the digits `a`, "-A", the digits `b`, "-" and `x` parses to
   *  the values of the two fields and `x`. */
  lemma ParseLayout(s: string, a: string, b: string, x: string)
    requires AllDigits(a) && AllDigits(b)
    requires |s| == |a| + |b| + |x| + 4 && s[0] == 'T'
    requires s[1..|a| + 1] == a && s[|a| + 1] == '-' && s[|a| + 2] == 'A'
    requires s[|a| + 3..|a| + |b| + 3] == b && s[|a| + |b| + 3] == '-'
    requires s[|a| + |b| + 4..] == x
    ensures ParseNumeroMatricula(s) == Some((ValueOf(a), ValueOf(b), x))
  {
    var i := |a| + 1;
    var j := |a| + |b| + 3;
    NotInDigits(a, '-');
    NotInDigits(b, '-');
    IndexOfAt(s, '-', 1, |a|);
    IndexOfAt(s, '-', i + 2, |b|);
    ParseFieldValues(s, i, j, a, b, x);
    ParseSteps(s, i, j);
  }

  /** The fields between the separators are `a`, `b` and `x`. */
  lemma ParseFieldValues(s: string, i: nat, j: nat, a: string, b: string, x: string)
    requires 1 <= i && i + 2 <= j < |s| && AllDigits(a) && AllDigits(b)
    requires s[1..i] == a && s[i + 2..j] == b && s[j + 1..] == x
    ensures AllDigits(s[1..i]) && ParseAfterAluno(s, i, j) == Some((ValueOf(a), ValueOf(b), x))
  {
  }

  /** The parse goes through the two field ends the separators mark. */
  lemma ParseSteps(s: string, i: nat, j: nat)
    requires 1 <= i && i + 2 <= j <= |s| && s[0] == 'T' && s[i + 1] == 'A'
    requires AllDigits(s[1..i]) && IndexOf(s, '-', 1) == i && IndexOf(s, '-', i + 2) == j
    ensures ParseNumeroMatricula(s) == ParseAfterAluno(s, i, j)
  {
  }

  /** Two digit fields and a suffix, laid out as in an enrollment number, are read back. */
  lemma ParseFields(a: string, b: string, x: string)
    requires AllDigits(a) && AllDigits(b)
    ensures ParseNumeroMatricula("T" + a + "-A" + b + "-" + x) == Some((ValueOf(a), ValueOf(b), x))
  {
    var p := "T" + a;
    var q := p + "-A" + b;
    var s := q + "-" + x;
    assert s[..|q|] == q && q[..|p|] == p;
    assert s[1..|p|] == a;
    assert s[|p| + 2..|q|] == b;
    ParseLayout(s, a, b, x);
  }

  /** For every class id and student id an enrollment number carries both ids and the
   *  suffix, and they can be read back. */
  lemma NumeroMatriculaRoundTrip(turmaId: nat, alunoId: nat, g: GuidN)
    ensures ParseNumeroMatricula(NumeroMatricula(turmaId, alunoId, g))
            == Some((turmaId, alunoId, GuidSuffix(g)))
  {
    FormatDValue(turmaId, 3);
    FormatDValue(alunoId, 4);
    ParseFields(FormatD(turmaId, 3), FormatD(alunoId, 4), GuidSuffix(g));
  }

  /** The length of an enrollment number: 17 characters while the class id has at most 3
   *  digits and the student id at most 4, one more for each extra digit. The column is
   *  declared with a maximum length of 20. */
  lemma NumeroMatriculaLength(turmaId: nat, alunoId: nat, g: GuidN)
    ensures var lt := |Digits(turmaId)|; var la := |Digits(alunoId)|;
            |NumeroMatricula(turmaId, alunoId, g)|
              == 10 + (if lt < 3 then 3 else lt) + (if la < 4 then 4 else la)
    ensures turmaId < 1000 && alunoId < 10000 ==> |NumeroMatricula(turmaId, alunoId, g)| == 17
    ensures turmaId >= 10000 && alunoId >= 100000 ==> |NumeroMatricula(turmaId, alunoId, g)| > 20
  {
    DigitsLength(turmaId, 3);
    DigitsLength(alunoId, 4);
    DigitsLength(turmaId, 4);
    DigitsLength(alunoId, 5);
  }

  // ---------------------------------------------------------------------------
  // Roster reconciliation

  /** The students enrolled in class `turmaId`. */
  function Roster(ms: Table<Matricula>, turmaId: int): set<int> {
    set k | k in ms.rows && ms.rows[k].turmaId == turmaId :: ms.rows[k].alunoId
  }

  /** The enrollments of the class whose student is no longer requested. */
  function Dropped(ms: Table<Matricula>, turmaId: int, ids: seq<int>): set<int> {
    set k | k in ms.rows && ms.rows[k].turmaId == turmaId && ms.rows[k].alunoId !in ids
  }

  /** alunosValidos: the requested students (`ids`) not yet enrolled and present in the
   *  store, each once, in store order. */
  function AlunosValidos(alunos: Table<Aluno>, ids: seq<int>, enrolled: set<int>): (r: seq<int>)
    ensures NoDup(r)
    ensures forall a :: a in r ==> a in alunos.rows && a in ids && a !in enrolled
    ensures alunos.Wf() ==> forall a :: a in alunos.rows && a in ids && a !in enrolled ==> a in r
  {
    var novos := Except(ids, enrolled);
    var existing := alunos.Ids();
    assert NoDup(existing);
    Among(existing, set a | a in novos)
  }

  /** The enrollment created for a new student: active, in the class and its school
   *  year, dated now. */
  function NovaMatricula(turmaId: int, anoLetivo: int, alunoId: int, g: GuidN, now: Time): Matricula {
    Matricula(NumeroMatricula(turmaId, alunoId, g), alunoId, turmaId, anoLetivo, now, StatusMatricula.Ativa)
  }

  /** The enrollments created for `validos`; the i-th takes the i-th fresh GUID. */
  function NovasMatriculas(turmaId: int, anoLetivo: int, validos: seq<int>, guids: nat -> GuidN, now: Time)
    : (r: seq<Matricula>)
    ensures |r| == |validos|
    ensures forall i :: 0 <= i < |r| ==> r[i] == NovaMatricula(turmaId, anoLetivo, validos[i], guids(i), now)
  {
    seq(|validos|, i requires 0 <= i < |validos| => NovaMatricula(turmaId, anoLetivo, validos[i], guids(i), now))
  }

  /** The enrollments the reconciliation keeps: all but those of class members that are
   *  no longer requested. */
  function Kept(ms: Table<Matricula>, turmaId: int, list: seq<int>): (r: Table<Matricula>)
    requires ms.Wf()
    ensures r.Wf() && r.next == ms.next
    ensures forall k :: k in r.rows <==>
              k in ms.rows && (ms.rows[k].turmaId != turmaId || ms.rows[k].alunoId in list)
    ensures forall k :: k in r.rows ==> r.rows[k] == ms.rows[k]
  {
    ms.Remove(Dropped(ms, turmaId, Distinct(list)))
  }

  /** The students the reconciliation enrolls: requested, existing and not yet in the
   *  class, each once. */
  function Validos(ms: Table<Matricula>, alunos: Table<Aluno>, turmaId: int, list: seq<int>): (r: seq<int>)
    ensures NoDup(r)
    ensures forall a :: a in r ==> a in alunos.rows && a in list && a !in Roster(ms, turmaId)
    ensures alunos.Wf() ==> forall a :: a in alunos.rows && a in list && a !in Roster(ms, turmaId) ==> a in r
  {
    AlunosValidos(alunos, Distinct(list), Roster(ms, turmaId))
  }

  /** The enrollment table after SincronizarMatriculasAsync(turma, alunoIds): a null list
   *  changes nothing; otherwise the enrollments of dropped students are removed and one
   *  enrollment is added per existing, requested, not yet enrolled student. */
  function Sincronizar(ms: Table<Matricula>, alunos: Table<Aluno>, turmaId: int, anoLetivo: int,
                       alunoIds: Option<seq<int>>, guids: nat -> GuidN, now: Time): Table<Matricula>
    requires ms.Wf()
  {
    match alunoIds
    case None => ms
    case Some(list) =>
      AddAll(Kept(ms, turmaId, list),
             NovasMatriculas(turmaId, anoLetivo, Validos(ms, alunos, turmaId, list), guids, now))
  }

  /** The reconciled table is well formed and hands out one identity per new
   *  enrollment. */
  lemma SincronizarWf(ms: Table<Matricula>, alunos: Table<Aluno>, turmaId: int, anoLetivo: int,
                      alunoIds: Option<seq<int>>, guids: nat -> GuidN, now: Time)
    requires ms.Wf()
    ensures var r := Sincronizar(ms, alunos, turmaId, anoLetivo, alunoIds, guids, now);
      && r.Wf()
      && r.next == ms.next + (if alunoIds.None? then 0 else |Validos(ms, alunos, turmaId, alunoIds.value)|)
  {
  }

  /** `r` is `ms` reconciled with `list`, given the valid students `v`: the rows not
   *  dropped stay as they were, and the new ones, one per valid student, take the
   *  identities from the old next identity on. */
  ghost predicate Reconciled(ms: Table<Matricula>, r: Table<Matricula>, turmaId: int, anoLetivo: int,
                             list: seq<int>, v: seq<int>, guids: nat -> GuidN, now: Time)
  {
    ReconciledOld(ms, r, turmaId, list) && ReconciledNew(ms, r, turmaId, anoLetivo, v, guids, now)
  }

  /** The rows of `r` below the old next identity: those of `ms` not dropped, unchanged. */
  ghost predicate ReconciledOld(ms: Table<Matricula>, r: Table<Matricula>, turmaId: int, list: seq<int>) {
    && (forall k :: k in r.rows && k < ms.next <==>
          k in ms.rows && (ms.rows[k].turmaId != turmaId || ms.rows[k].alunoId in list))
    && (forall k :: k in r.rows && k < ms.next ==> r.rows[k] == ms.rows[k])
  }

  /** The rows of `r` from the old next identity on: one new enrollment per valid student. */
  ghost predicate ReconciledNew(ms: Table<Matricula>, r: Table<Matricula>, turmaId: int, anoLetivo: int,
                                v: seq<int>, guids: nat -> GuidN, now: Time)
  {
    && (forall k :: k in r.rows && k >= ms.next <==> ms.next <= k < ms.next + |v|)
    && (forall k :: ms.next <= k < ms.next + |v| ==>
          r.rows[k] == NovaMatricula(turmaId, anoLetivo, v[k - ms.next], guids(k - ms.next), now))
  }

  /** The students `v` are requested, exist, are not yet in the class, each once. */
  ghost predicate ValidFor(ms: Table<Matricula>, alunos: Table<Aluno>, turmaId: int, list: seq<int>, v: seq<int>) {
    NoDup(v) && forall a :: a in v ==> a in alunos.rows && a in list && a !in Roster(ms, turmaId)
  }

  /** The old rows of the reconciled table: those not dropped, unchanged; and the new
   *  ones: one per valid student, from the old next identity on. */
  lemma SincronizarRows(ms: Table<Matricula>, alunos: Table<Aluno>, turmaId: int, anoLetivo: int,
                        list: seq<int>, guids: nat -> GuidN, now: Time)
    requires ms.Wf()
    ensures var v := Validos(ms, alunos, turmaId, list);
      && ValidFor(ms, alunos, turmaId, list, v)
      && Reconciled(ms, Sincronizar(ms, alunos, turmaId, anoLetivo, Some(list), guids, now),
                    turmaId, anoLetivo, list, v, guids, now)
  {
    var v := Validos(ms, alunos, turmaId, list);
    AddAllReconciled(ms, Kept(ms, turmaId, list), turmaId, anoLetivo, list, v,
                     NovasMatriculas(turmaId, anoLetivo, v, guids, now), guids, now);
  }

  /** Adding the new enrollments `nv` to the kept ones gives the reconciled table. */
  lemma AddAllReconciled(ms: Table<Matricula>, kept: Table<Matricula>, turmaId: int, anoLetivo: int,
                         list: seq<int>, v: seq<int>, nv: seq<Matricula>, guids: nat -> GuidN, now: Time)
    requires ms.Wf() && kept.Wf() && kept.next == ms.next
    requires forall k :: k in kept.rows <==>
               k in ms.rows && (ms.rows[k].turmaId != turmaId || ms.rows[k].alunoId in list)
    requires forall k :: k in kept.rows ==> kept.rows[k] == ms.rows[k]
    requires |nv| == |v|
    requires forall i :: 0 <= i < |nv| ==> nv[i] == NovaMatricula(turmaId, anoLetivo, v[i], guids(i), now)
    ensures Reconciled(ms, AddAll(kept, nv), turmaId, anoLetivo, list, v, guids, now)
  {
    AddAllKeepsOld(ms, kept, turmaId, list, nv);
    AddAllAddsNew(ms, kept, turmaId, anoLetivo, v, nv, guids, now);
  }

  lemma AddAllKeepsOld(ms: Table<Matricula>, kept: Table<Matricula>, turmaId: int, list: seq<int>,
                       nv: seq<Matricula>)
    requires ms.Wf() && kept.Wf() && kept.next == ms.next
    requires forall k :: k in kept.rows <==>
               k in ms.rows && (ms.rows[k].turmaId != turmaId || ms.rows[k].alunoId in list)
    requires forall k :: k in kept.rows ==> kept.rows[k] == ms.rows[k]
    ensures ReconciledOld(ms, AddAll(kept, nv), turmaId, list)
  {
    AddAllSplit(kept, nv);
  }

  lemma AddAllAddsNew(ms: Table<Matricula>, kept: Table<Matricula>, turmaId: int, anoLetivo: int,
                      v: seq<int>, nv: seq<Matricula>, guids: nat -> GuidN, now: Time)
    requires kept.Wf() && kept.next == ms.next && |nv| == |v|
    requires forall i :: 0 <= i < |nv| ==> nv[i] == NovaMatricula(turmaId, anoLetivo, v[i], guids(i), now)
    ensures ReconciledNew(ms, AddAll(kept, nv), turmaId, anoLetivo, v, guids, now)
  {
    AddAllSplit(kept, nv);
  }

  /** The students of the rows of `rs` that belong to class `turmaId`. */
  function RosterOf(rs: seq<Matricula>, turmaId: int): set<int> {
    set i | 0 <= i < |rs| && rs[i].turmaId == turmaId :: rs[i].alunoId
  }

  /** Adding enrollments adds their students to the roster. */
  lemma RosterAddAll(t: Table<Matricula>, rs: seq<Matricula>, turmaId: int)
    requires t.Wf()
    ensures Roster(AddAll(t, rs), turmaId) == Roster(t, turmaId) + RosterOf(rs, turmaId)
  {
    RosterAddAllSub(t, rs, turmaId);
    RosterAddAllSup(t, rs, turmaId);
  }

  lemma RosterAddAllSub(t: Table<Matricula>, rs: seq<Matricula>, turmaId: int)
    requires t.Wf()
    ensures Roster(AddAll(t, rs), turmaId) <= Roster(t, turmaId) + RosterOf(rs, turmaId)
  {
    var r := AddAll(t, rs);
    forall a | a in Roster(r, turmaId) ensures a in Roster(t, turmaId) || a in RosterOf(rs, turmaId) {
      var k :| k in r.rows && r.rows[k].turmaId == turmaId && r.rows[k].alunoId == a;
      if k >= t.next {
        var i := k - t.next;
        assert 0 <= i < |rs| && rs[i] == r.rows[k];
        assert a in RosterOf(rs, turmaId);
      } else {
        assert k in t.rows && t.rows[k] == r.rows[k];
        assert a in Roster(t, turmaId);
      }
    }
  }

  lemma RosterAddAllSup(t: Table<Matricula>, rs: seq<Matricula>, turmaId: int)
    requires t.Wf()
    ensures Roster(t, turmaId) + RosterOf(rs, turmaId) <= Roster(AddAll(t, rs), turmaId)
  {
    var r := AddAll(t, rs);
    forall a | a in RosterOf(rs, turmaId) ensures a in Roster(r, turmaId) {
      var i :| 0 <= i < |rs| && rs[i].turmaId == turmaId && rs[i].alunoId == a;
      assert r.rows[t.next + i] == rs[i];
    }
    forall a | a in Roster(t, turmaId) ensures a in Roster(r, turmaId) {
      var k :| k in t.rows && t.rows[k].turmaId == turmaId && t.rows[k].alunoId == a;
      assert r.rows[k] == t.rows[k];
    }
  }

  /** The kept enrollments of the class are those of its requested students. */
  lemma RosterKept(ms: Table<Matricula>, turmaId: int, list: seq<int>)
    requires ms.Wf()
    ensures Roster(Kept(ms, turmaId, list), turmaId) == Roster(ms, turmaId) * Elements(list)
  {
    var r := Kept(ms, turmaId, list);
    forall a | a in Roster(ms, turmaId) * Elements(list) ensures a in Roster(r, turmaId) {
      var k :| k in ms.rows && ms.rows[k].turmaId == turmaId && ms.rows[k].alunoId == a;
      assert k in r.rows;
    }
  }

  /** The new enrollments all belong to the class and enroll exactly the valid students. */
  lemma RosterNovas(turmaId: int, anoLetivo: int, v: seq<int>, guids: nat -> GuidN, now: Time)
    ensures RosterOf(NovasMatriculas(turmaId, anoLetivo, v, guids, now), turmaId) == Elements(v)
  {
    var rs := NovasMatriculas(turmaId, anoLetivo, v, guids, now);
    forall a | a in Elements(v) ensures a in RosterOf(rs, turmaId) {
      var i :| 0 <= i < |v| && v[i] == a;
      assert rs[i].alunoId == a && rs[i].turmaId == turmaId;
    }
  }

  /** After the reconciliation the class holds exactly the requested students that were
   *  already enrolled or exist; unknown ids are ignored. */
  lemma SincronizarRoster(ms: Table<Matricula>, alunos: Table<Aluno>, turmaId: int, anoLetivo: int,
                          list: seq<int>, guids: nat -> GuidN, now: Time)
    requires ms.Wf() && alunos.Wf()
    ensures Roster(Sincronizar(ms, alunos, turmaId, anoLetivo, Some(list), guids, now), turmaId)
            == Elements(list) * (Roster(ms, turmaId) + alunos.rows.Keys)
  {
    var v := Validos(ms, alunos, turmaId, list);
    var kept := Kept(ms, turmaId, list);
    var nv := NovasMatriculas(turmaId, anoLetivo, v, guids, now);
    RosterAddAll(kept, nv, turmaId);
    RosterKept(ms, turmaId, list);
    RosterNovas(turmaId, anoLetivo, v, guids, now);
    ValidosElements(ms, alunos, turmaId, list);
    RosterAlgebra(Roster(ms, turmaId), Elements(list), alunos.rows.Keys, Elements(v));
  }

  /** The valid students are the requested, existing ones not yet in the class. */
  lemma ValidosElements(ms: Table<Matricula>, alunos: Table<Aluno>, turmaId: int, list: seq<int>)
    requires alunos.Wf()
    ensures Elements(Validos(ms, alunos, turmaId, list)) == Elements(list) * alunos.rows.Keys - Roster(ms, turmaId)
  {
  }

  /** Keeping the requested members and adding the requested non-members that exist gives
   *  the requested students that are members or exist. */
  lemma RosterAlgebra(members: set<int>, requested: set<int>, existing: set<int>, added: set<int>)
    requires added == requested * existing - members
    ensures members * requested + added == requested * (members + existing)
  {
  }

  /** Enrollments of other classes, and enrollments whose student is still requested,
   *  stay exactly as they were; those of dropped students are gone. */
  lemma SincronizarKeeps(ms: Table<Matricula>, alunos: Table<Aluno>, turmaId: int, anoLetivo: int,
                         list: seq<int>, guids: nat -> GuidN, now: Time)
    requires ms.Wf()
    ensures var r := Sincronizar(ms, alunos, turmaId, anoLetivo, Some(list), guids, now);
      && (forall k :: k in ms.rows && (ms.rows[k].turmaId != turmaId || ms.rows[k].alunoId in list)
                      ==> k in r.rows && r.rows[k] == ms.rows[k])
      && (forall k :: k in ms.rows && ms.rows[k].turmaId == turmaId && ms.rows[k].alunoId !in list
                      ==> k !in r.rows)
  {
    SincronizarRows(ms, alunos, turmaId, anoLetivo, list, guids, now);
  }

  /** Every enrollment the reconciliation adds is an active enrollment of an existing,
   *  requested student not yet in the class, in the class and its school year, dated
   *  now, numbered from the ids and a fresh GUID. */
  lemma SincronizarNewRows(ms: Table<Matricula>, alunos: Table<Aluno>, turmaId: int, anoLetivo: int,
                           list: seq<int>, guids: nat -> GuidN, now: Time)
    requires ms.Wf()
    ensures var r := Sincronizar(ms, alunos, turmaId, anoLetivo, Some(list), guids, now);
      forall k :: k in r.rows && k !in ms.rows ==> NewRow(ms, alunos, turmaId, anoLetivo, list, guids, now, k, r.rows[k])
  {
    SincronizarRows(ms, alunos, turmaId, anoLetivo, list, guids, now);
    ReconciledNewRows(ms, alunos, Sincronizar(ms, alunos, turmaId, anoLetivo, Some(list), guids, now),
                      turmaId, anoLetivo, list, Validos(ms, alunos, turmaId, list), guids, now);
  }

  /** Enrollment `m` added under identity `k`: active, in the class and its school year,
   *  dated now, numbered from the ids and the GUID of its place, for an existing,
   *  requested student not yet in the class. */
  ghost predicate NewRow(ms: Table<Matricula>, alunos: Table<Aluno>, turmaId: int, anoLetivo: int,
                         list: seq<int>, guids: nat -> GuidN, now: Time, k: int, m: Matricula)
  {
    && k >= ms.next
    && m.turmaId == turmaId && m.anoLetivo == anoLetivo
    && m.status == StatusMatricula.Ativa && m.dataMatricula == now
    && m.numeroMatricula == NumeroMatricula(turmaId, m.alunoId, guids(k - ms.next))
    && m.alunoId in alunos.rows && m.alunoId in list && m.alunoId !in Roster(ms, turmaId)
  }

  lemma ReconciledNewRows(ms: Table<Matricula>, alunos: Table<Aluno>, r: Table<Matricula>, turmaId: int,
                          anoLetivo: int, list: seq<int>, v: seq<int>, guids: nat -> GuidN, now: Time)
    requires ms.Wf() && ValidFor(ms, alunos, turmaId, list, v)
    requires Reconciled(ms, r, turmaId, anoLetivo, list, v, guids, now)
    ensures forall k :: k in r.rows && k !in ms.rows ==> NewRow(ms, alunos, turmaId, anoLetivo, list, guids, now, k, r.rows[k])
  {
    forall k | k in r.rows && k !in ms.rows
      ensures NewRow(ms, alunos, turmaId, anoLetivo, list, guids, now, k, r.rows[k])
    {
      assert k >= ms.next;
      assert v[k - ms.next] in v;
    }
  }

  /** Each requested student that exists and is not yet in the class gets a new
   *  enrollment. */
  lemma SincronizarEnrollsEachNewStudent(ms: Table<Matricula>, alunos: Table<Aluno>, turmaId: int,
                                         anoLetivo: int, list: seq<int>, guids: nat -> GuidN, now: Time, a: int)
    requires ms.Wf() && alunos.Wf()
    requires a in list && a in alunos.rows && a !in Roster(ms, turmaId)
    ensures var r := Sincronizar(ms, alunos, turmaId, anoLetivo, Some(list), guids, now);
      exists k :: k in r.rows && k !in ms.rows && r.rows[k].alunoId == a && r.rows[k].turmaId == turmaId
  {
    var v := Validos(ms, alunos, turmaId, list);
    SincronizarRows(ms, alunos, turmaId, anoLetivo, list, guids, now);
    assert a in v;
    ReconciledEnrolls(ms, Sincronizar(ms, alunos, turmaId, anoLetivo, Some(list), guids, now),
                      turmaId, anoLetivo, list, v, guids, now, a);
  }

  lemma ReconciledEnrolls(ms: Table<Matricula>, r: Table<Matricula>, turmaId: int, anoLetivo: int,
                          list: seq<int>, v: seq<int>, guids: nat -> GuidN, now: Time, a: int)
    requires ms.Wf() && Reconciled(ms, r, turmaId, anoLetivo, list, v, guids, now) && a in v
    ensures exists k :: k in r.rows && k !in ms.rows && r.rows[k].alunoId == a && r.rows[k].turmaId == turmaId
  {
    var i :| 0 <= i < |v| && v[i] == a;
    assert ms.next + i !in ms.rows;
    assert r.rows[ms.next + i].alunoId == a;
  }

  /** The reconciliation keeps every student enrolled at most once per class (so each new
   *  student gets exactly one enrollment) and only refers to existing classes and
   *  students. */
  lemma SincronizarPreservesLinks(ms: Table<Matricula>, alunos: Table<Aluno>, turmas: Table<Turma>,
                                  turmaId: int, anoLetivo: int, list: seq<int>, guids: nat -> GuidN, now: Time)
    requires ms.Wf() && turmaId in turmas.rows
    requires UniqueEnrollments(ms.rows) && EnrollmentLinks(ms.rows, turmas.rows, alunos.rows)
    ensures var r := Sincronizar(ms, alunos, turmaId, anoLetivo, Some(list), guids, now);
      UniqueEnrollments(r.rows) && EnrollmentLinks(r.rows, turmas.rows, alunos.rows)
  {
    SincronizarRows(ms, alunos, turmaId, anoLetivo, list, guids, now);
    var r := Sincronizar(ms, alunos, turmaId, anoLetivo, Some(list), guids, now);
    var v := Validos(ms, alunos, turmaId, list);
    ReconciledUnique(ms, alunos, r, turmaId, anoLetivo, list, v, guids, now);
    ReconciledLinks(ms, alunos, turmas, r, turmaId, anoLetivo, list, v, guids, now);
  }

  lemma ReconciledUnique(ms: Table<Matricula>, alunos: Table<Aluno>, r: Table<Matricula>, turmaId: int,
                         anoLetivo: int, list: seq<int>, v: seq<int>, guids: nat -> GuidN, now: Time)
    requires ms.Wf() && UniqueEnrollments(ms.rows) && ValidFor(ms, alunos, turmaId, list, v)
    requires Reconciled(ms, r, turmaId, anoLetivo, list, v, guids, now)
    ensures UniqueEnrollments(r.rows)
  {
    forall a, b | a in r.rows && b in r.rows && a != b
      ensures r.rows[a].turmaId != r.rows[b].turmaId || r.rows[a].alunoId != r.rows[b].alunoId
    {
      if a >= ms.next && b >= ms.next {
        NewVersusNew(ms, r, turmaId, anoLetivo, list, v, guids, now, a, b);
      } else if a >= ms.next {
        NewVersusOld(ms, alunos, r, turmaId, anoLetivo, list, v, guids, now, a, b);
      } else if b >= ms.next {
        NewVersusOld(ms, alunos, r, turmaId, anoLetivo, list, v, guids, now, b, a);
      }
    }
  }

  /** Two new enrollments are of different students. */
  lemma NewVersusNew(ms: Table<Matricula>, r: Table<Matricula>, turmaId: int, anoLetivo: int,
                     list: seq<int>, v: seq<int>, guids: nat -> GuidN, now: Time, a: int, b: int)
    requires NoDup(v) && ReconciledNew(ms, r, turmaId, anoLetivo, v, guids, now)
    requires a in r.rows && b in r.rows && a >= ms.next && b >= ms.next && a != b
    ensures r.rows[a].alunoId != r.rows[b].alunoId
  {
    var i, j := a - ms.next, b - ms.next;
    assert r.rows[a].alunoId == v[i] && r.rows[b].alunoId == v[j];
    if i < j {
      assert v[i] != v[j];
    } else {
      assert v[j] != v[i];
    }
  }

  /** A new enrollment `a` and a kept one `b` never enroll the same student in the class. */
  lemma NewVersusOld(ms: Table<Matricula>, alunos: Table<Aluno>, r: Table<Matricula>, turmaId: int,
                     anoLetivo: int, list: seq<int>, v: seq<int>, guids: nat -> GuidN, now: Time, a: int, b: int)
    requires ms.Wf() && ValidFor(ms, alunos, turmaId, list, v)
    requires Reconciled(ms, r, turmaId, anoLetivo, list, v, guids, now)
    requires a in r.rows && b in r.rows && a >= ms.next && b < ms.next
    ensures r.rows[a].turmaId != r.rows[b].turmaId || r.rows[a].alunoId != r.rows[b].alunoId
  {
    assert v[a - ms.next] in v;
    assert b in ms.rows && r.rows[b] == ms.rows[b];
    assert ms.rows[b].turmaId == turmaId ==> ms.rows[b].alunoId in Roster(ms, turmaId);
  }

  lemma ReconciledLinks(ms: Table<Matricula>, alunos: Table<Aluno>, turmas: Table<Turma>, r: Table<Matricula>,
                        turmaId: int, anoLetivo: int, list: seq<int>, v: seq<int>, guids: nat -> GuidN, now: Time)
    requires ms.Wf() && turmaId in turmas.rows && EnrollmentLinks(ms.rows, turmas.rows, alunos.rows)
    requires ValidFor(ms, alunos, turmaId, list, v)
    requires Reconciled(ms, r, turmaId, anoLetivo, list, v, guids, now)
    ensures EnrollmentLinks(r.rows, turmas.rows, alunos.rows)
  {
    forall k | k in r.rows ensures r.rows[k].turmaId in turmas.rows && r.rows[k].alunoId in alunos.rows {
      if k >= ms.next {
        assert v[k - ms.next] in v;
      }
    }
  }

  /** An empty (non-null) list empties the class. */
  lemma SincronizarEmptyList(ms: Table<Matricula>, alunos: Table<Aluno>, turmaId: int, anoLetivo: int,
                             guids: nat -> GuidN, now: Time)
    requires ms.Wf() && alunos.Wf()
    ensures Roster(Sincronizar(ms, alunos, turmaId, anoLetivo, Some([]), guids, now), turmaId) == {}
  {
    SincronizarRoster(ms, alunos, turmaId, anoLetivo, [], guids, now);
  }

  /** Reconciling a second time with the same list and the same students changes nothing,
   *  whatever GUIDs and clock the second call sees. */
  lemma SincronizarIdempotent(ms: Table<Matricula>, alunos: Table<Aluno>, turmaId: int, anoLetivo: int,
                              alunoIds: Option<seq<int>>, g1: nat -> GuidN, g2: nat -> GuidN, t1: Time, t2: Time)
    requires ms.Wf() && alunos.Wf()
    ensures var once := Sincronizar(ms, alunos, turmaId, anoLetivo, alunoIds, g1, t1);
            once.Wf() && Sincronizar(once, alunos, turmaId, anoLetivo, alunoIds, g2, t2) == once
  {
    SincronizarWf(ms, alunos, turmaId, anoLetivo, alunoIds, g1, t1);
    if alunoIds.Some? {
      var list := alunoIds.value;
      var once := Sincronizar(ms, alunos, turmaId, anoLetivo, alunoIds, g1, t1);
      SincronizarRoster(ms, alunos, turmaId, anoLetivo, list, g1, t1);
      KeptAll(once, turmaId, list);
      ValidosNone(once, alunos, turmaId, list);
      AddAllNone(once);
    }
  }

  /** When every class member is requested, nothing is dropped. */
  lemma KeptAll(ms: Table<Matricula>, turmaId: int, list: seq<int>)
    requires ms.Wf() && Roster(ms, turmaId) <= Elements(list)
    ensures Kept(ms, turmaId, list) == ms
  {
    var r := Kept(ms, turmaId, list);
    forall k | k in ms.rows ensures k in r.rows {
      if ms.rows[k].turmaId == turmaId {
        assert ms.rows[k].alunoId in Roster(ms, turmaId);
      }
    }
    assert r.rows == ms.rows;
  }

  /** When every requested existing student is already a member, nobody is added. */
  lemma ValidosNone(ms: Table<Matricula>, alunos: Table<Aluno>, turmaId: int, list: seq<int>)
    requires Elements(list) * alunos.rows.Keys <= Roster(ms, turmaId)
    ensures Validos(ms, alunos, turmaId, list) == []
  {
    var e := alunos.Ids();
    var keep := Elements(Except(Distinct(list), Roster(ms, turmaId)));
    forall i | 0 <= i < |e| ensures e[i] !in keep {
    }
    AmongNone(e, keep);
  }

  /** The reconciliation keeps the enrollment invariant of a class that exists. */
  lemma SincronizarKeepsInv(ms: Table<Matricula>, alunos: Table<Aluno>, turmas: Table<Turma>, turmaId: int,
                            anoLetivo: int, alunoIds: Option<seq<int>>, guids: nat -> GuidN, now: Time)
    requires MatriculasInv(ms, turmas, alunos) && turmaId in turmas.rows
    ensures MatriculasInv(Sincronizar(ms, alunos, turmaId, anoLetivo, alunoIds, guids, now), turmas, alunos)
  {
    SincronizarWf(ms, alunos, turmaId, anoLetivo, alunoIds, guids, now);
    if alunoIds.Some? {
      SincronizarPreservesLinks(ms, alunos, turmas, turmaId, anoLetivo, alunoIds.value, guids, now);
    }
  }

  // ---------------------------------------------------------------------------
  // Operations on the store

  /** SincronizarMatriculasAsync: removes the enrollments of dropped students in one
   *  RemoveRange, then adds the new enrollments one at a time. */
  method SincronizarMatriculas(db: Db, turmaId: int, alunoIds: Option<seq<int>>, guids: nat -> GuidN, now: Time)
    requires db.matriculas.Wf() && turmaId in db.turmas.rows
    modifies db`matriculas
    ensures db.matriculas == Sincronizar(old(db.matriculas), db.alunos, turmaId,
                                         db.turmas.rows[turmaId].dados.anoLetivo, alunoIds, guids, now)
    ensures old(MatriculasInv(db.matriculas, db.turmas, db.alunos)) ==> MatriculasInv(db.matriculas, db.turmas, db.alunos)
  {
    if MatriculasInv(db.matriculas, db.turmas, db.alunos) {
      SincronizarKeepsInv(db.matriculas, db.alunos, db.turmas, turmaId, db.turmas.rows[turmaId].dados.anoLetivo,
                          alunoIds, guids, now);
    }
    if alunoIds == None {
      return;
    }
    var ms := db.matriculas;
    var anoLetivo := db.turmas.rows[turmaId].dados.anoLetivo;
    var ids := Distinct(alunoIds.value);
    var idsExistentes := Roster(ms, turmaId);
    var remover := Dropped(ms, turmaId, ids);
    var kept := ms;
    if remover != {} {
      kept := ms.Remove(remover);
    } else {
      assert ms.Remove(remover).rows == ms.rows;
    }
    var validos := AlunosValidos(db.alunos, ids, idsExistentes);
    var novas := NovasMatriculas(turmaId, anoLetivo, validos, guids, now);
    db.matriculas := AddEach(kept, novas);
  }

  /** A class code already used by a class other than `except`. */
  predicate CodeInUse(turmas: Table<Turma>, codigo: string, except: Option<int>) {
    exists k :: k in turmas.rows && (except.None? || k != except.value) && turmas.rows[k].codigo == codigo
  }

  /** Storing a class whose code no other class uses keeps the codes unique. */
  lemma AddTurmaKeepsCodes(ts: Table<Turma>, t: Turma)
    requires TurmasInv(ts) && !CodeInUse(ts, t.codigo, None)
    ensures TurmasInv(ts.Add(t))
  {
  }

  lemma PutTurmaKeepsCodes(ts: Table<Turma>, id: int, t: Turma)
    requires TurmasInv(ts) && id in ts.rows && !CodeInUse(ts, t.codigo, Some(id))
    ensures TurmasInv(ts.Put(id, t))
  {
  }

  /** Enrollment links survive a class table that only gains identities. */
  lemma LinksToMoreTurmas(ms: map<int, Matricula>, ts: map<int, Turma>, ts2: map<int, Turma>, al: map<int, Aluno>)
    requires EnrollmentLinks(ms, ts, al) && ts.Keys <= ts2.Keys
    ensures EnrollmentLinks(ms, ts2, al)
  {
  }

  /** CreateTurmaDto / UpdateTurmaDto: the class data, its code and the requested roster. */
  datatype TurmaForm = TurmaForm(codigo: string, dados: DadosTurma, alunoIds: Option<seq<int>>)

  /** The outcome of a write to the classes: the response and the class and enrollment
   *  tables afterwards. */
  datatype TurmaWrite<T> = TurmaWrite(response: ApiResponse<T>, turmas: Table<Turma>, matriculas: Table<Matricula>)

  /** CreateTurmaAsync: rejects a code in use (after normalisation), then an unknown course,
   *  then an unknown coordinator; otherwise stores the class with the normalised code at
   *  the next identity and reconciles its roster with the requested students. */
  function CreateTurmaOf(turmas: Table<Turma>, matriculas: Table<Matricula>, alunos: Table<Aluno>,
                         cursos: Table<Curso>, professores: Table<Professor>, form: TurmaForm,
                         guids: nat -> GuidN, now: Time): TurmaWrite<(int, Turma)>
    requires matriculas.Wf()
  {
    var r := CreateTurmaResponse(turmas, cursos, professores, form);
    if r.success then
      TurmaWrite(r, turmas.Add(Turma(NormalizeCode(form.codigo), form.dados)),
                 Sincronizar(matriculas, alunos, turmas.next, form.dados.anoLetivo, form.alunoIds, guids, now))
    else TurmaWrite(r, turmas, matriculas)
  }

  /** The response of CreateTurmaAsync, in the order of its checks. */
  function CreateTurmaResponse(turmas: Table<Turma>, cursos: Table<Curso>, professores: Table<Professor>,
                               form: TurmaForm): ApiResponse<(int, Turma)>
  {
    var codigo := NormalizeCode(form.codigo);
    var coord := form.dados.professorCoordenadorId;
    if CodeInUse(turmas, codigo, None) then
      Error("Já existe uma turma com este código", None, None)
    else if form.dados.cursoId !in cursos.rows then
      Error("Curso não encontrado", Some(404), None)
    else if coord.Some? && coord.value !in professores.rows then
      Error("Professor coordenador não encontrado", Some(404), None)
    else
      Ok((turmas.next, Turma(codigo, form.dados)), "Turma criada com sucesso", None)
  }

  /** A rejected creation changes nothing; the creation is rejected exactly when the
   *  normalised code is in use, the course is unknown or a given coordinator is unknown,
   *  and the code check comes first. */
  lemma CreateTurmaRejects(turmas: Table<Turma>, matriculas: Table<Matricula>, alunos: Table<Aluno>,
                           cursos: Table<Curso>, professores: Table<Professor>, form: TurmaForm,
                           guids: nat -> GuidN, now: Time)
    requires matriculas.Wf()
    ensures var o := CreateTurmaOf(turmas, matriculas, alunos, cursos, professores, form, guids, now);
      var coord := form.dados.professorCoordenadorId;
      && (!o.response.success <==>
            CodeInUse(turmas, NormalizeCode(form.codigo), None) || form.dados.cursoId !in cursos.rows
            || (coord.Some? && coord.value !in professores.rows))
      && (!o.response.success ==> o.turmas == turmas && o.matriculas == matriculas && o.response.data == None)
      && (CodeInUse(turmas, NormalizeCode(form.codigo), None) ==>
            o.response.message == "Já existe uma turma com este código" && o.response.statusCode == None)
  {
  }

  /** A created class gets the next identity and the normalised code (already in stored
   *  form), and no other class changes. */
  lemma CreateTurmaStores(turmas: Table<Turma>, matriculas: Table<Matricula>, alunos: Table<Aluno>,
                          cursos: Table<Curso>, professores: Table<Professor>, form: TurmaForm,
                          guids: nat -> GuidN, now: Time)
    requires matriculas.Wf() && turmas.Wf()
    ensures var o := CreateTurmaOf(turmas, matriculas, alunos, cursos, professores, form, guids, now);
      var id := turmas.next;
      o.response.success ==>
        && o.response.data == Some((id, o.turmas.rows[id]))
        && id !in turmas.rows && o.turmas.rows == turmas.rows[id := Turma(NormalizeCode(form.codigo), form.dados)]
        && NormalizeCode(o.turmas.rows[id].codigo) == o.turmas.rows[id].codigo
  {
    var o := CreateTurmaOf(turmas, matriculas, alunos, cursos, professores, form, guids, now);
    var turma := Turma(NormalizeCode(form.codigo), form.dados);
    if o.response.success {
      assert o.turmas == turmas.Add(turma) && o.response.data == Some((turmas.next, turma));
      NormalizeCodeIdempotent(form.codigo);
    }
  }

  /** The roster of a created class is exactly the requested students that exist (none
   *  when no list is given). */
  lemma CreateTurmaRoster(turmas: Table<Turma>, matriculas: Table<Matricula>, alunos: Table<Aluno>,
                          cursos: Table<Curso>, professores: Table<Professor>, form: TurmaForm,
                          guids: nat -> GuidN, now: Time)
    requires MatriculasInv(matriculas, turmas, alunos) && alunos.Wf() && turmas.Wf()
    ensures var o := CreateTurmaOf(turmas, matriculas, alunos, cursos, professores, form, guids, now);
      o.response.success ==>
        Roster(o.matriculas, turmas.next)
        == (if form.alunoIds.None? then {} else Elements(form.alunoIds.value) * alunos.rows.Keys)
  {
    var o := CreateTurmaOf(turmas, matriculas, alunos, cursos, professores, form, guids, now);
    var id := turmas.next;
    NoRosterOfNewTurma(turmas, matriculas, alunos);
    if o.response.success {
      if form.alunoIds.Some? {
        SincronizarRoster(matriculas, alunos, id, form.dados.anoLetivo, form.alunoIds.value, guids, now);
      }
    }
  }

  /** A class not yet stored has no enrollments. */
  lemma NoRosterOfNewTurma(turmas: Table<Turma>, matriculas: Table<Matricula>, alunos: Table<Aluno>)
    requires MatriculasInv(matriculas, turmas, alunos) && turmas.Wf()
    ensures Roster(matriculas, turmas.next) == {}
    ensures forall k :: k in matriculas.rows ==> matriculas.rows[k].turmaId != turmas.next
  {
  }

  /** Creating a class keeps every existing enrollment as it was. */
  lemma CreateTurmaKeepsEnrollments(turmas: Table<Turma>, matriculas: Table<Matricula>, alunos: Table<Aluno>,
                                    cursos: Table<Curso>, professores: Table<Professor>, form: TurmaForm,
                                    guids: nat -> GuidN, now: Time)
    requires MatriculasInv(matriculas, turmas, alunos) && turmas.Wf()
    ensures var o := CreateTurmaOf(turmas, matriculas, alunos, cursos, professores, form, guids, now);
      forall k :: k in matriculas.rows ==> k in o.matriculas.rows && o.matriculas.rows[k] == matriculas.rows[k]
  {
    var o := CreateTurmaOf(turmas, matriculas, alunos, cursos, professores, form, guids, now);
    NoRosterOfNewTurma(turmas, matriculas, alunos);
    if o.response.success && form.alunoIds.Some? {
      SincronizarKeeps(matriculas, alunos, turmas.next, form.dados.anoLetivo, form.alunoIds.value, guids, now);
    }
  }

  /** Creating a class keeps the class and enrollment invariants. */
  lemma CreateTurmaKeepsInv(s: Snapshot, form: TurmaForm, guids: nat -> GuidN, now: Time, t: Snapshot)
    requires s.Inv()
    requires var o := CreateTurmaOf(s.turmas, s.matriculas, s.alunos, s.cursos, s.professores, form, guids, now);
      t == s.(turmas := o.turmas, matriculas := o.matriculas)
    ensures t.Inv()
  {
    var turmas, matriculas, alunos := s.turmas, s.matriculas, s.alunos;
    var o := CreateTurmaOf(turmas, matriculas, alunos, s.cursos, s.professores, form, guids, now);
    InvOfTurmasMatriculas(s, o.turmas, o.matriculas);
    if o.response.success {
      var turma := Turma(NormalizeCode(form.codigo), form.dados);
      AddTurmaKeepsCodes(turmas, turma);
      LinksToMoreTurmas(matriculas.rows, turmas.rows, turmas.Add(turma).rows, alunos.rows);
      SincronizarKeepsInv(matriculas, alunos, turmas.Add(turma), turmas.next, form.dados.anoLetivo,
                          form.alunoIds, guids, now);
    }
  }

  /** CreateTurma on a store that keeps its invariant: the steps of CreateTurmaSteps, then the invariant
   *  they keep. */
  method CreateTurma(db: Db, form: TurmaForm, guids: nat -> GuidN, now: Time) returns (r: ApiResponse<(int, Turma)>)
    requires db.matriculas.Wf()
    requires db.Valid()
    modifies db`turmas, db`matriculas
    ensures TurmaWrite(r, db.turmas, db.matriculas)
         == CreateTurmaOf(old(db.turmas), old(db.matriculas), db.alunos, db.cursos, db.professores, form, guids, now)
    ensures db.Valid()
  {
    r := CreateTurmaSteps(db, form, guids, now);
    CreateTurmaKeepsInv(old(db.State()), form, guids, now, db.State());
  }

  method CreateTurmaSteps(db: Db, form: TurmaForm, guids: nat -> GuidN, now: Time) returns (r: ApiResponse<(int, Turma)>)
    requires db.matriculas.Wf()
    modifies db`turmas, db`matriculas
    ensures TurmaWrite(r, db.turmas, db.matriculas)
         == CreateTurmaOf(old(db.turmas), old(db.matriculas), db.alunos, db.cursos, db.professores, form, guids, now)
  {
    var codigo := NormalizeCode(form.codigo);
    if CodeInUse(db.turmas, codigo, None) {
      return Error("Já existe uma turma com este código", None, None);
    }
    if form.dados.cursoId !in db.cursos.rows {
      return Error("Curso não encontrado", Some(404), None);
    }
    var coord := form.dados.professorCoordenadorId;
    if coord.Some? && coord.value !in db.professores.rows {
      return Error("Professor coordenador não encontrado", Some(404), None);
    }
    var turma := Turma(codigo, form.dados);
    var id := db.turmas.next;
    db.turmas := db.turmas.Add(turma);
    SincronizarMatriculas(db, id, form.alunoIds, guids, now);
    r := Ok((id, turma), "Turma criada com sucesso", None);
  }

  /** UpdateTurmaAsync: rejects an unknown class, then a code used by another class, then an
   *  unknown coordinator, then an unknown course; otherwise replaces the class data and code
   *  and reconciles its roster (new enrollments take the new school year). */
  function UpdateTurmaOf(turmas: Table<Turma>, matriculas: Table<Matricula>, alunos: Table<Aluno>,
                         cursos: Table<Curso>, professores: Table<Professor>, id: int, form: TurmaForm,
                         guids: nat -> GuidN, now: Time): TurmaWrite<(int, Turma)>
    requires matriculas.Wf()
  {
    var r := UpdateTurmaResponse(turmas, cursos, professores, id, form);
    if r.success then
      TurmaWrite(r, turmas.Put(id, Turma(NormalizeCode(form.codigo), form.dados)),
                 Sincronizar(matriculas, alunos, id, form.dados.anoLetivo, form.alunoIds, guids, now))
    else TurmaWrite(r, turmas, matriculas)
  }

  /** The response of UpdateTurmaAsync, in the order of its checks. */
  function UpdateTurmaResponse(turmas: Table<Turma>, cursos: Table<Curso>, professores: Table<Professor>,
                               id: int, form: TurmaForm): (r: ApiResponse<(int, Turma)>)
    ensures r.success ==> id in turmas.rows
  {
    var codigo := NormalizeCode(form.codigo);
    var coord := form.dados.professorCoordenadorId;
    if id !in turmas.rows then
      Error("Turma não encontrada", Some(404), None)
    else if CodeInUse(turmas, codigo, Some(id)) then
      Error("Já existe outra turma com este código", None, None)
    else if coord.Some? && coord.value !in professores.rows then
      Error("Professor coordenador não encontrado", Some(404), None)
    else if form.dados.cursoId !in cursos.rows then
      Error("Curso não encontrado", Some(404), None)
    else
      Ok((id, Turma(codigo, form.dados)), "Turma atualizada com sucesso", None)
  }

  /** A rejected update changes nothing; the update is rejected exactly when the class is
   *  unknown, another class has the normalised code, a given coordinator is unknown or the
   *  course is unknown, and an unknown class is reported first. */
  lemma UpdateTurmaRejects(turmas: Table<Turma>, matriculas: Table<Matricula>, alunos: Table<Aluno>,
                           cursos: Table<Curso>, professores: Table<Professor>, id: int, form: TurmaForm,
                           guids: nat -> GuidN, now: Time)
    requires matriculas.Wf()
    ensures var o := UpdateTurmaOf(turmas, matriculas, alunos, cursos, professores, id, form, guids, now);
      var coord := form.dados.professorCoordenadorId;
      && (!o.response.success <==>
            id !in turmas.rows || CodeInUse(turmas, NormalizeCode(form.codigo), Some(id))
            || (coord.Some? && coord.value !in professores.rows) || form.dados.cursoId !in cursos.rows)
      && (!o.response.success ==> o.turmas == turmas && o.matriculas == matriculas && o.response.data == None)
      && (id !in turmas.rows ==> o.response.message == "Turma não encontrada" && o.response.statusCode == Some(404))
  {
  }

  /** An updated class keeps its identity and takes the normalised code and the new data; no
   *  other class changes. With a list its roster becomes the requested students that were
   *  enrolled or exist; without one it is left as it was. */
  lemma UpdateTurmaStores(turmas: Table<Turma>, matriculas: Table<Matricula>, alunos: Table<Aluno>,
                          cursos: Table<Curso>, professores: Table<Professor>, id: int, form: TurmaForm,
                          guids: nat -> GuidN, now: Time)
    requires matriculas.Wf() && alunos.Wf()
    ensures var o := UpdateTurmaOf(turmas, matriculas, alunos, cursos, professores, id, form, guids, now);
      o.response.success ==>
        && o.turmas.rows == turmas.rows[id := Turma(NormalizeCode(form.codigo), form.dados)]
        && o.turmas.next == turmas.next
        && Roster(o.matriculas, id)
           == (if form.alunoIds.None? then Roster(matriculas, id)
               else Elements(form.alunoIds.value) * (Roster(matriculas, id) + alunos.rows.Keys))
  {
    var o := UpdateTurmaOf(turmas, matriculas, alunos, cursos, professores, id, form, guids, now);
    if o.response.success {
      var turma := Turma(NormalizeCode(form.codigo), form.dados);
      if form.alunoIds.Some? {
        SincronizarRoster(matriculas, alunos, id, form.dados.anoLetivo, form.alunoIds.value, guids, now);
      }
    }
  }

  /** Updating a class keeps the class and enrollment invariants. */
  lemma UpdateTurmaKeepsInv(s: Snapshot, id: int, form: TurmaForm, guids: nat -> GuidN, now: Time, t: Snapshot)
    requires s.Inv()
    requires var o := UpdateTurmaOf(s.turmas, s.matriculas, s.alunos, s.cursos, s.professores, id, form, guids, now);
      t == s.(turmas := o.turmas, matriculas := o.matriculas)
    ensures t.Inv()
  {
    var turmas, matriculas, alunos := s.turmas, s.matriculas, s.alunos;
    var o := UpdateTurmaOf(turmas, matriculas, alunos, s.cursos, s.professores, id, form, guids, now);
    InvOfTurmasMatriculas(s, o.turmas, o.matriculas);
    if o.response.success {
      var turma := Turma(NormalizeCode(form.codigo), form.dados);
      PutTurmaKeepsCodes(turmas, id, turma);
      LinksToMoreTurmas(matriculas.rows, turmas.rows, turmas.Put(id, turma).rows, alunos.rows);
      SincronizarKeepsInv(matriculas, alunos, turmas.Put(id, turma), id, form.dados.anoLetivo,
                          form.alunoIds, guids, now);
    }
  }

  /** UpdateTurma on a store that keeps its invariant: the steps of UpdateTurmaSteps, then the invariant
   *  they keep. */
  method UpdateTurma(db: Db, id: int, form: TurmaForm, guids: nat -> GuidN, now: Time)
    returns (r: ApiResponse<(int, Turma)>)
    requires db.matriculas.Wf()
    requires db.Valid()
    modifies db`turmas, db`matriculas
    ensures TurmaWrite(r, db.turmas, db.matriculas)
         == UpdateTurmaOf(old(db.turmas), old(db.matriculas), db.alunos, db.cursos, db.professores, id, form, guids, now)
    ensures db.Valid()
  {
    r := UpdateTurmaSteps(db, id, form, guids, now);
    UpdateTurmaKeepsInv(old(db.State()), id, form, guids, now, db.State());
  }

  method UpdateTurmaSteps(db: Db, id: int, form: TurmaForm, guids: nat -> GuidN, now: Time)
    returns (r: ApiResponse<(int, Turma)>)
    requires db.matriculas.Wf()
    modifies db`turmas, db`matriculas
    ensures TurmaWrite(r, db.turmas, db.matriculas)
         == UpdateTurmaOf(old(db.turmas), old(db.matriculas), db.alunos, db.cursos, db.professores, id, form, guids, now)
  {
    if id !in db.turmas.rows {
      return Error("Turma não encontrada", Some(404), None);
    }
    var codigo := NormalizeCode(form.codigo);
    if CodeInUse(db.turmas, codigo, Some(id)) {
      return Error("Já existe outra turma com este código", None, None);
    }
    var coord := form.dados.professorCoordenadorId;
    if coord.Some? && coord.value !in db.professores.rows {
      return Error("Professor coordenador não encontrado", Some(404), None);
    }
    if form.dados.cursoId !in db.cursos.rows {
      return Error("Curso não encontrado", Some(404), None);
    }
    var turma := Turma(codigo, form.dados);
    db.turmas := db.turmas.Put(id, turma);
    SincronizarMatriculas(db, id, form.alunoIds, guids, now);
    r := Ok((id, turma), "Turma atualizada com sucesso", None);
  }

  /** The enrollments of class `id`. */
  function EnrollmentsOf(ms: Table<Matricula>, id: int): (r: set<int>)
    ensures forall k :: k in r <==> k in ms.rows && ms.rows[k].turmaId == id
  {
    set k | k in ms.rows && ms.rows[k].turmaId == id
  }

  /** DeleteTurmaAsync: an unknown class is 404; otherwise the class and all its
   *  enrollments are removed. */
  function DeleteTurmaOf(turmas: Table<Turma>, matriculas: Table<Matricula>, id: int): TurmaWrite<bool> {
    if id !in turmas.rows then
      TurmaWrite(Error("Turma não encontrada", Some(404), None), turmas, matriculas)
    else
      TurmaWrite(Ok(true, "Turma excluída com sucesso", None),
                 turmas.Remove({id}), matriculas.Remove(EnrollmentsOf(matriculas, id)))
  }

  /** A deleted class is gone with all its enrollments, and nothing else is removed; an
   *  unknown class changes nothing. */
  lemma DeleteTurmaRemoves(turmas: Table<Turma>, matriculas: Table<Matricula>, alunos: Table<Aluno>, id: int)
    requires MatriculasInv(matriculas, turmas, alunos)
    ensures var o := DeleteTurmaOf(turmas, matriculas, id);
      && (o.response.success <==> id in turmas.rows)
      && (!o.response.success ==> o.turmas == turmas && o.matriculas == matriculas)
      && id !in o.turmas.rows && Roster(o.matriculas, id) == {}
      && (forall k :: k in turmas.rows && k != id ==> k in o.turmas.rows && o.turmas.rows[k] == turmas.rows[k])
      && (forall k :: k in matriculas.rows && matriculas.rows[k].turmaId != id ==>
            k in o.matriculas.rows && o.matriculas.rows[k] == matriculas.rows[k])
  {
  }

  /** Deleting a class keeps the class and enrollment invariants. */
  lemma DeleteTurmaKeepsInv(s: Snapshot, id: int)
    requires s.Inv()
    ensures var o := DeleteTurmaOf(s.turmas, s.matriculas, id);
      s.(turmas := o.turmas, matriculas := o.matriculas).Inv()
  {
    var o := DeleteTurmaOf(s.turmas, s.matriculas, id);
    InvOfTurmasMatriculas(s, o.turmas, o.matriculas);
  }

  method DeleteTurma(db: Db, id: int) returns (r: ApiResponse<bool>)
    requires db.matriculas.Wf()
    requires db.Valid()
    modifies db`turmas, db`matriculas
    ensures TurmaWrite(r, db.turmas, db.matriculas) == DeleteTurmaOf(old(db.turmas), old(db.matriculas), id)
    ensures db.Valid()
  {
    DeleteTurmaKeepsInv(db.State(), id);
    if id !in db.turmas.rows {
      return Error("Turma não encontrada", Some(404), None);
    }
    var suas := EnrollmentsOf(db.matriculas, id);
    if suas != {} {
      db.matriculas := db.matriculas.Remove(suas);
    } else {
      assert db.matriculas.Remove(suas) == db.matriculas;
    }
    db.turmas := db.turmas.Remove({id});
    r := Ok(true, "Turma excluída com sucesso", None);
    assert db.State() == old(db.State()).(turmas := db.turmas, matriculas := db.matriculas);
  }

  /** ChangeStatusAsync: an unknown class is 404; otherwise only its status changes. */
  function ChangeStatusOf(turmas: Table<Turma>, id: int, status: StatusTurma): (ApiResponse<bool>, Table<Turma>) {
    if id !in turmas.rows then
      (Error("Turma não encontrada", Some(404), None), turmas)
    else
      var t := turmas.rows[id];
      (Ok(true, "Status da turma atualizado com sucesso", None), turmas.Put(id, t.(dados := t.dados.(status := status))))
  }

  /** A status change touches the status of one known class and nothing else, and keeps
   *  the class codes unique. */
  lemma ChangeStatusChangesOnlyStatus(turmas: Table<Turma>, id: int, status: StatusTurma)
    requires TurmasInv(turmas)
    ensures var (r, ts) := ChangeStatusOf(turmas, id, status);
      && (r.success <==> id in turmas.rows)
      && TurmasInv(ts) && ts.rows.Keys == turmas.rows.Keys
      && (forall k :: k in ts.rows ==> ts.rows[k].codigo == turmas.rows[k].codigo)
      && (forall k :: k in ts.rows && k != id ==> ts.rows[k] == turmas.rows[k])
      && (id in turmas.rows ==> ts.rows[id].dados == turmas.rows[id].dados.(status := status))
  {
  }

  /** A status change keeps the store invariant: the enrollments still name a class. */
  lemma ChangeStatusKeepsInv(s: Snapshot, id: int, status: StatusTurma)
    requires s.Inv()
    ensures s.(turmas := ChangeStatusOf(s.turmas, id, status).1).Inv()
  {
    var ts := ChangeStatusOf(s.turmas, id, status).1;
    ChangeStatusChangesOnlyStatus(s.turmas, id, status);
    InvOfTurmasMatriculas(s, ts, s.matriculas);
  }

  method ChangeStatus(db: Db, id: int, status: StatusTurma) returns (r: ApiResponse<bool>)
    requires db.Valid()
    modifies db`turmas
    ensures (r, db.turmas) == ChangeStatusOf(old(db.turmas), id, status)
    ensures db.Valid()
  {
    ChangeStatusKeepsInv(db.State(), id, status);
    if id !in db.turmas.rows {
      return Error("Turma não encontrada", Some(404), None);
    }
    var t := db.turmas.rows[id];
    db.turmas := db.turmas.Put(id, t.(dados := t.dados.(status := status)));
    r := Ok(true, "Status da turma atualizado com sucesso", None);
    assert db.State() == old(db.State()).(turmas := db.turmas);
  }
}
