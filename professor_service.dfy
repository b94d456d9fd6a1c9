/** The teacher service: the paged teacher listing, teacher creation, update, removal
 *  and status change, the (teacher, subject, school year) assignments, and the
 *  subjects and classes of a teacher. */
module ProfessorService {
  import opened Wrappers
  import opened Text
  import opened Sequences
  import opened Tables
  import opened CommonDto
  import opened Models

  // ---------------------------------------------------------------------------
  // Listing

  /** The filters of the listing: the school, the status, and a search text that is not
   *  blank occurring in the full name, the CPF or the teacher code. */
  predicate ProfessorMatches(p: Professor, search: Option<string>, escolaId: Option<int>,
                             status: Option<StatusProfessor>) {
    (escolaId.None? || p.dados.escolaId == escolaId.value)
    && (status.None? || p.status == status.value)
    && (IsNullOrWhiteSpace(search)
        || Contains(p.dados.nomeCompleto, search.value)
        || Contains(p.dados.cpf, search.value)
        || Contains(p.codigoProfessor, search.value))
  }

  /** OrderBy(NomeCompleto), ordinal. */
  predicate ProfessorOrder(a: (int, Professor), b: (int, Professor)) {
    StrLe(a.1.dados.nomeCompleto, b.1.dados.nomeCompleto)
  }

  lemma ProfessorOrderIsTotalOrder()
    ensures Total(ProfessorOrder) && Transitive(ProfessorOrder)
  {
    forall a: (int, Professor), b: (int, Professor) ensures ProfessorOrder(a, b) || ProfessorOrder(b, a) {
      StrLeTotal(a.1.dados.nomeCompleto, b.1.dados.nomeCompleto);
    }
    forall a: (int, Professor), b: (int, Professor), c: (int, Professor) | ProfessorOrder(a, b) && ProfessorOrder(b, c)
      ensures ProfessorOrder(a, c)
    {
      StrLeTransitive(a.1.dados.nomeCompleto, b.1.dados.nomeCompleto, c.1.dados.nomeCompleto);
    }
  }

  /** The teachers that pass the filters, in store order. */
  function MatchingProfessores(ps: Table<Professor>, search: Option<string>, escolaId: Option<int>,
                               status: Option<StatusProfessor>): (r: seq<(int, Professor)>)
    ensures forall i :: 0 <= i < |r| ==>
              r[i].0 in ps.rows && r[i].1 == ps.rows[r[i].0] && ProfessorMatches(r[i].1, search, escolaId, status)
    ensures ps.Wf() ==> forall id :: id in ps.rows && ProfessorMatches(ps.rows[id], search, escolaId, status)
                                     ==> (id, ps.rows[id]) in r
  {
    ps.EntriesWhere(p => ProfessorMatches(p, search, escolaId, status))
  }

  /** GetProfessoresAsync: the page and size are taken as given; the matching teachers
   *  are counted, ordered by full name, and the requested page of them is returned. */
  function GetProfessores(ps: Table<Professor>, page: int, pageSize: int, search: Option<string>,
                          escolaId: Option<int>, status: Option<StatusProfessor>)
    : (r: ApiResponse<Paginated<(int, Professor)>>)
    ensures r.success && r.message == "Professores listados com sucesso" && r.data.Some?
    ensures var p := r.data.value;
      && p.currentPage == page && p.pageSize == pageSize
      && p.totalItems == |MatchingProfessores(ps, search, escolaId, status)|
      && (pageSize >= 0 ==> |p.items| <= pageSize)
  {
    var all := MatchingProfessores(ps, search, escolaId, status);
    Ok(BuildPage(SortBy(all, ProfessorOrder), page, pageSize), "Professores listados com sucesso", None)
  }

  /** Every teacher on a page is a stored teacher that passes the filters, and the page
   *  is ordered by name. */
  lemma GetProfessoresItems(ps: Table<Professor>, page: int, pageSize: int, search: Option<string>,
                            escolaId: Option<int>, status: Option<StatusProfessor>)
    ensures var items := GetProfessores(ps, page, pageSize, search, escolaId, status).data.value.items;
      && (forall i :: 0 <= i < |items| ==>
            items[i].0 in ps.rows && items[i].1 == ps.rows[items[i].0]
            && ProfessorMatches(items[i].1, search, escolaId, status))
      && Sorted(items, ProfessorOrder)
  {
    ProfessorOrderIsTotalOrder();
    SortedPage(MatchingProfessores(ps, search, escolaId, status), ProfessorOrder, page, pageSize);
  }

  /** A blank search text filters nothing. */
  lemma BlankSearchIgnored(p: Professor, search: string, escolaId: Option<int>, status: Option<StatusProfessor>)
    requires forall i :: 0 <= i < |search| ==> IsWhiteSpace(search[i])
    ensures ProfessorMatches(p, Some(search), escolaId, status) == ProfessorMatches(p, None, escolaId, status)
  {
  }

  /** With a positive size, the pages one after the other give every matching teacher
   *  exactly as often as the table holds it, and a page past the last one is empty. */
  lemma GetProfessoresPages(ps: Table<Professor>, page: int, pageSize: int, search: Option<string>,
                            escolaId: Option<int>, status: Option<StatusProfessor>)
    requires pageSize >= 1
    ensures var p := GetProfessores(ps, page, pageSize, search, escolaId, status).data.value;
      var all := MatchingProfessores(ps, search, escolaId, status);
      var sorted := SortBy(all, ProfessorOrder);
      && multiset(sorted) == multiset(all)
      && Pages(sorted, pageSize, p.totalPages) == sorted
      && (page > p.totalPages ==> p.items == [])
  {
    var sorted := SortBy(MatchingProfessores(ps, search, escolaId, status), ProfessorOrder);
    PagesPartitionListing(sorted, pageSize);
    PagePastEndEmpty(sorted, page, pageSize);
  }

  /** A negative size is no limit: page 1 lists every matching teacher, ordered by
   *  name, and no next page is announced from page 1 on. */
  lemma GetProfessoresNegativeSize(ps: Table<Professor>, page: int, pageSize: int, search: Option<string>,
                                   escolaId: Option<int>, status: Option<StatusProfessor>)
    requires pageSize < 0
    ensures GetProfessores(ps, 1, pageSize, search, escolaId, status).data.value.items
            == SortBy(MatchingProfessores(ps, search, escolaId, status), ProfessorOrder)
    ensures page >= 1 ==> !GetProfessores(ps, page, pageSize, search, escolaId, status).data.value.HasNextPage()
  {
    NegativeSizePages(SortBy(MatchingProfessores(ps, search, escolaId, status), ProfessorOrder), page, pageSize);
  }

  // ---------------------------------------------------------------------------
  // Teachers

  /** What a write of the teacher service leaves: the response and the teacher and
   *  assignment tables. */
  datatype ProfessorWrite<T> = ProfessorWrite(
    response: ApiResponse<T>,
    professores: Table<Professor>,
    atribuicoes: Table<ProfessorDisciplina>)

  /** CreateProfessorDto without the e-mail, which the service does not use, and with
   *  the status and admission date it overrides. */
  datatype ProfessorForm = ProfessorForm(codigoProfessor: string, dados: DadosProfessor)

  /** UpdateProfessorDto without the e-mail and the admission date, which the mapping
   *  does not use. */
  datatype ProfessorUpdateForm = ProfessorUpdateForm(dados: DadosProfessor, status: StatusProfessor)

  /** Some teacher other than `except` has this CPF. */
  predicate CpfInUse(ps: Table<Professor>, cpf: string, except: Option<int>) {
    exists k :: k in ps.rows && ps.rows[k].dados.cpf == cpf && except != Some(k)
  }

  predicate CodigoInUse(ps: Table<Professor>, codigo: string) {
    exists k :: k in ps.rows && ps.rows[k].codigoProfessor == codigo
  }

  /** The user account every created teacher points at: the form has no account and the
   *  service sets none, so the identity keeps its default. */
  const UsuarioPadrao: int := 0

  /** Whether the store accepts a teacher row pointing at account `usuarioId`: the account
   *  exists (foreign key) and no other teacher points at it (the one-to-one index). */
  predicate AccountAccepted(ps: Table<Professor>, us: Table<Usuario>, usuarioId: int) {
    usuarioId in us.rows && forall k :: k in ps.rows ==> ps.rows[k].usuarioId != usuarioId
  }

  /** CreateProfessorAsync: rejects a CPF or code any teacher has, then an unknown school;
   *  otherwise saves the teacher, active and admitted now, still pointing at the default
   *  account, which the store must accept. */
  function CreateProfessorOf(ps: Table<Professor>, pd: Table<ProfessorDisciplina>, us: Table<Usuario>,
                             escolas: Table<Escola>, form: ProfessorForm, now: Time): ProfessorWrite<(int, Professor)>
  {
    if CpfInUse(ps, form.dados.cpf, None) || CodigoInUse(ps, form.codigoProfessor) then
      ProfessorWrite(Error("Já existe um professor com este CPF ou código", None, None), ps, pd)
    else if form.dados.escolaId !in escolas.rows then
      ProfessorWrite(Error("Escola não encontrada", Some(404), None), ps, pd)
    else
      var p := Professor.Professor(UsuarioPadrao, form.codigoProfessor, form.dados, now, StatusProfessor.Ativo);
      if !AccountAccepted(ps, us, UsuarioPadrao) then
        ProfessorWrite(Error("Erro ao criar professor: " + SaveFailedMessage, None, None), ps, pd)
      else
        ProfessorWrite(Ok((ps.next, p), "Professor criado com sucesso", None), ps.Add(p), pd)
  }

  /** The uniqueness check runs before the school check; nothing changes on a rejection;
   *  a created teacher is active, admitted now and keeps the form's code and data. */
  lemma CreateProfessorRejects(ps: Table<Professor>, pd: Table<ProfessorDisciplina>, us: Table<Usuario>,
                               escolas: Table<Escola>, form: ProfessorForm, now: Time)
    ensures var o := CreateProfessorOf(ps, pd, us, escolas, form, now);
      && (CpfInUse(ps, form.dados.cpf, None) || CodigoInUse(ps, form.codigoProfessor) ==>
            o.response.message == "Já existe um professor com este CPF ou código")
      && (!CpfInUse(ps, form.dados.cpf, None) && !CodigoInUse(ps, form.codigoProfessor)
          && form.dados.escolaId !in escolas.rows ==>
            o.response.message == "Escola não encontrada" && o.response.statusCode == Some(404))
      && (!o.response.success ==> o.professores == ps && o.atribuicoes == pd && o.response.data == None)
      && (o.response.success ==>
            && o.professores.rows == ps.rows[ps.next := o.response.data.value.1]
            && o.response.data.value.0 == ps.next && o.atribuicoes == pd
            && var p := o.response.data.value.1;
               p.status == StatusProfessor.Ativo && p.dataAdmissao == now
               && p.codigoProfessor == form.codigoProfessor && p.dados == form.dados)
  {
  }

  /** As no teacher is ever given an account, the store's foreign key refuses every
   *  teacher that passes the service's checks: with identities handed out from 1, there
   *  is no account 0. */
  lemma CreateProfessorAlwaysRefused(ps: Table<Professor>, pd: Table<ProfessorDisciplina>, us: Table<Usuario>,
                                     escolas: Table<Escola>, form: ProfessorForm, now: Time)
    requires us.Wf()
    ensures var o := CreateProfessorOf(ps, pd, us, escolas, form, now);
      !o.response.success && o.professores == ps
  {
  }

  /** Creation keeps the store invariant. */
  lemma CreateProfessorKeepsInv(s: Snapshot, form: ProfessorForm, now: Time)
    requires s.Inv()
    ensures var o := CreateProfessorOf(s.professores, s.professoresDisciplinas, s.usuarios, s.escolas, form, now);
      s.(professores := o.professores, professoresDisciplinas := o.atribuicoes).Inv()
  {
    var o := CreateProfessorOf(s.professores, s.professoresDisciplinas, s.usuarios, s.escolas, form, now);
    InvOfProfessores(s, o.professores, o.atribuicoes);
  }

  method CreateProfessor(db: Db, form: ProfessorForm, now: Time) returns (r: ApiResponse<(int, Professor)>)
    modifies db`professores
    ensures ProfessorWrite(r, db.professores, db.professoresDisciplinas)
         == CreateProfessorOf(old(db.professores), db.professoresDisciplinas, db.usuarios, db.escolas, form, now)
    ensures old(db.Valid()) ==> db.Valid()
  {
    if db.Valid() {
      CreateProfessorKeepsInv(db.State(), form, now);
    }
    if CpfInUse(db.professores, form.dados.cpf, None) || CodigoInUse(db.professores, form.codigoProfessor) {
      return Error("Já existe um professor com este CPF ou código", None, None);
    }
    if form.dados.escolaId !in db.escolas.rows {
      return Error("Escola não encontrada", Some(404), None);
    }
    var professor := Professor.Professor(UsuarioPadrao, form.codigoProfessor, form.dados, now, StatusProfessor.Ativo);
    if !AccountAccepted(db.professores, db.usuarios, UsuarioPadrao) {
      return Error("Erro ao criar professor: " + SaveFailedMessage, None, None);
    }
    var id := db.professores.next;
    db.professores := db.professores.Add(professor);
    r := Ok((id, professor), "Professor criado com sucesso", None);
    assert db.State() == old(db.State()).(professores := db.professores);
  }

  /** UpdateProfessorAsync: rejects an unknown teacher, then a CPF another teacher has
   *  (the code is not checked, and not changed); otherwise replaces the teacher's data
   *  and status, keeping its account, code and admission date. The store refuses an
   *  unknown school. */
  function UpdateProfessorOf(ps: Table<Professor>, pd: Table<ProfessorDisciplina>, escolas: Table<Escola>,
                             id: int, form: ProfessorUpdateForm): ProfessorWrite<(int, Professor)>
  {
    if id !in ps.rows then
      ProfessorWrite(Error("Professor não encontrado", Some(404), None), ps, pd)
    else if CpfInUse(ps, form.dados.cpf, Some(id)) then
      ProfessorWrite(Error("Já existe outro professor com este CPF ou código", None, None), ps, pd)
    else if form.dados.escolaId !in escolas.rows then
      ProfessorWrite(Error("Erro ao atualizar professor: " + SaveFailedMessage, None, None), ps, pd)
    else
      var p := ps.rows[id].(dados := form.dados, status := form.status);
      ProfessorWrite(Ok((id, p), "Professor atualizado com sucesso", None), ps.Put(id, p), pd)
  }

  /** An update fails exactly for an unknown teacher, a CPF another teacher has or an
   *  unknown school, and then changes nothing; otherwise only that teacher's data and
   *  status change. */
  lemma UpdateProfessorOutcome(ps: Table<Professor>, pd: Table<ProfessorDisciplina>, escolas: Table<Escola>,
                               id: int, form: ProfessorUpdateForm)
    ensures var o := UpdateProfessorOf(ps, pd, escolas, id, form);
      && (!o.response.success <==>
            id !in ps.rows || CpfInUse(ps, form.dados.cpf, Some(id)) || form.dados.escolaId !in escolas.rows)
      && (id !in ps.rows ==> o.response.message == "Professor não encontrado" && o.response.statusCode == Some(404))
      && (!o.response.success ==> o.professores == ps && o.atribuicoes == pd)
      && (o.response.success ==>
            && o.atribuicoes == pd && o.professores.next == ps.next
            && o.professores.rows.Keys == ps.rows.Keys
            && (forall k :: k in ps.rows && k != id ==> o.professores.rows[k] == ps.rows[k])
            && var p := o.professores.rows[id];
               && p.dados == form.dados && p.status == form.status
               && p.usuarioId == ps.rows[id].usuarioId && p.codigoProfessor == ps.rows[id].codigoProfessor
               && p.dataAdmissao == ps.rows[id].dataAdmissao
               && o.response.data == Some((id, p)))
  {
  }

  /** Changing one teacher's data, keeping its code, to a CPF no other teacher has keeps
   *  the teacher keys unique. */
  lemma UpdatedProfessorKeepsKeys(ps: Table<Professor>, id: int, p: Professor)
    requires ProfessoresInv(ps) && id in ps.rows
    requires p.codigoProfessor == ps.rows[id].codigoProfessor && !CpfInUse(ps, p.dados.cpf, Some(id))
    ensures ProfessoresInv(ps.Put(id, p))
  {
  }

  /** Rewriting a stored teacher keeps every assignment's teacher stored. */
  lemma AtribuicoesAfterPut(pd: Table<ProfessorDisciplina>, ps: Table<Professor>, id: int, p: Professor)
    requires AtribuicoesInv(pd, ps) && id in ps.rows
    ensures AtribuicoesInv(pd, ps.Put(id, p))
  {
  }

  lemma UpdateProfessorKeepsInv(s: Snapshot, id: int, form: ProfessorUpdateForm)
    requires s.Inv()
    ensures var o := UpdateProfessorOf(s.professores, s.professoresDisciplinas, s.escolas, id, form);
      s.(professores := o.professores, professoresDisciplinas := o.atribuicoes).Inv()
  {
    var o := UpdateProfessorOf(s.professores, s.professoresDisciplinas, s.escolas, id, form);
    InvOfProfessores(s, o.professores, o.atribuicoes);
    if o.response.success {
      var p := s.professores.rows[id].(dados := form.dados, status := form.status);
      UpdatedProfessorKeepsKeys(s.professores, id, p);
      AtribuicoesAfterPut(s.professoresDisciplinas, s.professores, id, p);
    }
  }

  method UpdateProfessor(db: Db, id: int, form: ProfessorUpdateForm) returns (r: ApiResponse<(int, Professor)>)
    requires db.Valid()
    modifies db`professores
    ensures ProfessorWrite(r, db.professores, db.professoresDisciplinas)
         == UpdateProfessorOf(old(db.professores), db.professoresDisciplinas, db.escolas, id, form)
    ensures db.Valid()
  {
    UpdateProfessorKeepsInv(db.State(), id, form);
    if id !in db.professores.rows {
      return Error("Professor não encontrado", Some(404), None);
    }
    if CpfInUse(db.professores, form.dados.cpf, Some(id)) {
      return Error("Já existe outro professor com este CPF ou código", None, None);
    }
    if form.dados.escolaId !in db.escolas.rows {
      return Error("Erro ao atualizar professor: " + SaveFailedMessage, None, None);
    }
    var professor := db.professores.rows[id].(dados := form.dados, status := form.status);
    db.professores := db.professores.Put(id, professor);
    r := Ok((id, professor), "Professor atualizado com sucesso", None);
    assert db.State() == old(db.State()).(professores := db.professores);
  }

  /** The teacher has subject assignments. */
  predicate HasAssignments(pd: Table<ProfessorDisciplina>, id: int) {
    pd.Any((a: ProfessorDisciplina) => a.professorId == id)
  }

  const ComAtribuicoesMessage: string := "Não é possível excluir professor com disciplinas atribuídas. Remova as disciplinas primeiro."

  /** DeleteProfessorAsync: rejects an unknown teacher, then a teacher with assignments;
   *  otherwise removes the teacher. */
  function DeleteProfessorOf(ps: Table<Professor>, pd: Table<ProfessorDisciplina>, id: int): ProfessorWrite<bool> {
    if id !in ps.rows then
      ProfessorWrite(Error("Professor não encontrado", Some(404), None), ps, pd)
    else if HasAssignments(pd, id) then
      ProfessorWrite(Error(ComAtribuicoesMessage, None, None), ps, pd)
    else
      ProfessorWrite(Ok(true, "Professor excluído com sucesso", None), ps.Remove({id}), pd)
  }

  /** A removal succeeds exactly for a stored teacher without assignments and removes that
   *  teacher only; otherwise nothing changes. */
  lemma DeleteProfessorOutcome(ps: Table<Professor>, pd: Table<ProfessorDisciplina>, id: int)
    ensures var o := DeleteProfessorOf(ps, pd, id);
      && (o.response.success <==> id in ps.rows && !HasAssignments(pd, id))
      && (o.response.success ==> o.professores.rows == ps.rows - {id} && o.atribuicoes == pd)
      && (!o.response.success ==> o.professores == ps && o.atribuicoes == pd)
      && (id !in ps.rows ==> o.response.statusCode == Some(404))
  {
  }

  /** A removal keeps the store invariant: no assignment is left pointing at a removed
   *  teacher. */
  lemma DeleteProfessorKeepsInv(s: Snapshot, id: int)
    requires s.Inv()
    ensures var o := DeleteProfessorOf(s.professores, s.professoresDisciplinas, id);
      s.(professores := o.professores, professoresDisciplinas := o.atribuicoes).Inv()
  {
    var pd := s.professoresDisciplinas;
    var o := DeleteProfessorOf(s.professores, pd, id);
    InvOfProfessores(s, o.professores, o.atribuicoes);
    if o.response.success {
      forall k | k in pd.rows ensures pd.rows[k].professorId != id {
        assert pd.rows[k].professorId == id ==> HasAssignments(pd, id);
      }
    }
  }

  method DeleteProfessor(db: Db, id: int) returns (r: ApiResponse<bool>)
    requires db.Valid()
    modifies db`professores
    ensures ProfessorWrite(r, db.professores, db.professoresDisciplinas)
         == DeleteProfessorOf(old(db.professores), db.professoresDisciplinas, id)
    ensures db.Valid()
  {
    DeleteProfessorKeepsInv(db.State(), id);
    if id !in db.professores.rows {
      return Error("Professor não encontrado", Some(404), None);
    }
    var hasDisciplinas := db.professoresDisciplinas.Any((a: ProfessorDisciplina) => a.professorId == id);
    if hasDisciplinas {
      return Error(ComAtribuicoesMessage, None, None);
    }
    db.professores := db.professores.Remove({id});
    r := Ok(true, "Professor excluído com sucesso", None);
    assert db.State() == old(db.State()).(professores := db.professores);
  }

  /** The name of a status, as string interpolation writes it. */
  function StatusName(status: StatusProfessor): string {
    match status
    case Ativo => "Ativo"
    case Licenca => "Licenca"
    case Afastado => "Afastado"
    case Demitido => "Demitido"
  }

  /** ChangeStatusAsync: rejects an unknown teacher; otherwise sets its status and names
   *  the new status in the message. */
  function ChangeStatusOf(ps: Table<Professor>, pd: Table<ProfessorDisciplina>, id: int, status: StatusProfessor)
    : ProfessorWrite<bool>
  {
    if id !in ps.rows then
      ProfessorWrite(Error("Professor não encontrado", Some(404), None), ps, pd)
    else
      ProfessorWrite(Ok(true, "Status do professor alterado para " + StatusName(status) + " com sucesso", None),
                     ps.Put(id, ps.rows[id].(status := status)), pd)
  }

  /** A status change succeeds exactly for a stored teacher, changes only its status, and
   *  different statuses give different messages. */
  lemma ChangeStatusOutcome(ps: Table<Professor>, pd: Table<ProfessorDisciplina>, id: int,
                            status: StatusProfessor, other: StatusProfessor)
    ensures var o := ChangeStatusOf(ps, pd, id, status);
      && (o.response.success <==> id in ps.rows)
      && (!o.response.success ==> o.professores == ps && o.atribuicoes == pd)
      && (o.response.success ==> o.professores.rows == ps.rows[id := ps.rows[id].(status := status)])
      && (id in ps.rows && other != status ==> ChangeStatusOf(ps, pd, id, other).response.message != o.response.message)
  {
    if id in ps.rows && other != status {
      var pre, post := "Status do professor alterado para ", " com sucesso";
      if pre + StatusName(status) + post == pre + StatusName(other) + post {
        Unwrap(pre, StatusName(status), StatusName(other), post);
      }
    }
  }

  /** The text between a fixed prefix and suffix determines the whole. */
  lemma Unwrap(pre: string, a: string, b: string, post: string)
    requires pre + a + post == pre + b + post
    ensures a == b
  {
    var m := pre + a + post;
    assert |a| == |b|;
    assert a == m[|pre|..|pre| + |a|];
    assert b == (pre + b + post)[|pre|..|pre| + |b|];
  }

  lemma ChangeStatusKeepsInv(s: Snapshot, id: int, status: StatusProfessor)
    requires s.Inv()
    ensures var o := ChangeStatusOf(s.professores, s.professoresDisciplinas, id, status);
      s.(professores := o.professores, professoresDisciplinas := o.atribuicoes).Inv()
  {
    var o := ChangeStatusOf(s.professores, s.professoresDisciplinas, id, status);
    InvOfProfessores(s, o.professores, o.atribuicoes);
    if o.response.success {
      UpdatedProfessorKeepsKeys(s.professores, id, o.professores.rows[id]);
      AtribuicoesAfterPut(s.professoresDisciplinas, s.professores, id, o.professores.rows[id]);
    }
  }

  method ChangeStatus(db: Db, id: int, status: StatusProfessor) returns (r: ApiResponse<bool>)
    requires db.Valid()
    modifies db`professores
    ensures ProfessorWrite(r, db.professores, db.professoresDisciplinas)
         == ChangeStatusOf(old(db.professores), db.professoresDisciplinas, id, status)
    ensures db.Valid()
  {
    ChangeStatusKeepsInv(db.State(), id, status);
    if id !in db.professores.rows {
      return Error("Professor não encontrado", Some(404), None);
    }
    db.professores := db.professores.Put(id, db.professores.rows[id].(status := status));
    r := Ok(true, "Status do professor alterado para " + StatusName(status) + " com sucesso", None);
    assert db.State() == old(db.State()).(professores := db.professores);
  }

  // ---------------------------------------------------------------------------
  // Assignments

  /** The assignment of the subject to the teacher in the school year. */
  predicate IsTriple(a: ProfessorDisciplina, professorId: int, disciplinaId: int, anoLetivo: int) {
    a.professorId == professorId && a.disciplinaId == disciplinaId && a.anoLetivo == anoLetivo
  }

  predicate Assigned(pd: Table<ProfessorDisciplina>, professorId: int, disciplinaId: int, anoLetivo: int) {
    exists k :: k in pd.rows && IsTriple(pd.rows[k], professorId, disciplinaId, anoLetivo)
  }

  /** AtribuirDisciplinaAsync: rejects an unknown teacher, then an unknown subject, then a
   *  triple already recorded; otherwise records it, active. */
  function AtribuirOf(ps: Table<Professor>, ds: Table<Disciplina>, pd: Table<ProfessorDisciplina>,
                      professorId: int, disciplinaId: int, anoLetivo: int): ProfessorWrite<bool>
  {
    if professorId !in ps.rows then
      ProfessorWrite(Error("Professor não encontrado", Some(404), None), ps, pd)
    else if disciplinaId !in ds.rows then
      ProfessorWrite(Error("Disciplina não encontrada", Some(404), None), ps, pd)
    else if Assigned(pd, professorId, disciplinaId, anoLetivo) then
      ProfessorWrite(Error("Disciplina já está atribuída ao professor para este ano letivo", None, None), ps, pd)
    else
      ProfessorWrite(Ok(true, "Disciplina atribuída ao professor com sucesso", None),
                     ps, pd.Add(ProfessorDisciplina(professorId, disciplinaId, anoLetivo, true)))
  }

  /** An assignment succeeds exactly for a stored teacher and subject not yet assigned in
   *  that year, and then adds exactly that one active row; afterwards the triple is
   *  assigned whenever teacher and subject exist. */
  lemma AtribuirOutcome(ps: Table<Professor>, ds: Table<Disciplina>, pd: Table<ProfessorDisciplina>,
                        professorId: int, disciplinaId: int, anoLetivo: int)
    ensures var o := AtribuirOf(ps, ds, pd, professorId, disciplinaId, anoLetivo);
      && (o.response.success <==>
            professorId in ps.rows && disciplinaId in ds.rows && !Assigned(pd, professorId, disciplinaId, anoLetivo))
      && (!o.response.success ==> o.atribuicoes == pd)
      && o.professores == ps
      && (o.response.success ==>
            o.atribuicoes.rows == pd.rows[pd.next := ProfessorDisciplina(professorId, disciplinaId, anoLetivo, true)])
      && (professorId in ps.rows && disciplinaId in ds.rows ==>
            Assigned(o.atribuicoes, professorId, disciplinaId, anoLetivo))
  {
    var o := AtribuirOf(ps, ds, pd, professorId, disciplinaId, anoLetivo);
    if o.response.success {
      assert IsTriple(o.atribuicoes.rows[pd.next], professorId, disciplinaId, anoLetivo);
    }
  }

  /** Assignments keep the triples unique and their teachers stored. */
  lemma AtribuirKeepsInv(s: Snapshot, professorId: int, disciplinaId: int, anoLetivo: int)
    requires s.Inv()
    ensures var o := AtribuirOf(s.professores, s.disciplinas, s.professoresDisciplinas, professorId, disciplinaId, anoLetivo);
      s.(professores := o.professores, professoresDisciplinas := o.atribuicoes).Inv()
  {
    var o := AtribuirOf(s.professores, s.disciplinas, s.professoresDisciplinas, professorId, disciplinaId, anoLetivo);
    InvOfProfessores(s, o.professores, o.atribuicoes);
    if o.response.success {
      AtribuicoesAfterAdd(s.professoresDisciplinas, s.professores,
                          ProfessorDisciplina(professorId, disciplinaId, anoLetivo, true));
    }
  }

  /** Recording a triple not yet assigned, for a stored teacher, keeps the assignment
   *  invariant. */
  lemma AtribuicoesAfterAdd(pd: Table<ProfessorDisciplina>, ps: Table<Professor>, a: ProfessorDisciplina)
    requires AtribuicoesInv(pd, ps) && a.professorId in ps.rows
    requires !Assigned(pd, a.professorId, a.disciplinaId, a.anoLetivo)
    ensures AtribuicoesInv(pd.Add(a), ps)
  {
    forall k | k in pd.rows
      ensures (pd.rows[k].professorId, pd.rows[k].disciplinaId, pd.rows[k].anoLetivo) != (a.professorId, a.disciplinaId, a.anoLetivo)
    {
      assert !IsTriple(pd.rows[k], a.professorId, a.disciplinaId, a.anoLetivo);
    }
  }

  /** Atribuir on a store that keeps its invariant: the steps of AtribuirSteps, then the invariant
   *  they keep. */
  method Atribuir(db: Db, professorId: int, disciplinaId: int, anoLetivo: int) returns (r: ApiResponse<bool>)
    requires db.Valid()
    modifies db`professoresDisciplinas
    ensures ProfessorWrite(r, db.professores, db.professoresDisciplinas)
         == AtribuirOf(db.professores, db.disciplinas, old(db.professoresDisciplinas), professorId, disciplinaId, anoLetivo)
    ensures db.Valid()
  {
    AtribuirKeepsInv(db.State(), professorId, disciplinaId, anoLetivo);
    r := AtribuirSteps(db, professorId, disciplinaId, anoLetivo);
    assert db.State() == old(db.State()).(professoresDisciplinas := db.professoresDisciplinas);
  }

  method AtribuirSteps(db: Db, professorId: int, disciplinaId: int, anoLetivo: int) returns (r: ApiResponse<bool>)
    modifies db`professoresDisciplinas
    ensures ProfessorWrite(r, db.professores, db.professoresDisciplinas)
         == AtribuirOf(db.professores, db.disciplinas, old(db.professoresDisciplinas), professorId, disciplinaId, anoLetivo)
  {
    if professorId !in db.professores.rows {
      return Error("Professor não encontrado", Some(404), None);
    }
    if disciplinaId !in db.disciplinas.rows {
      return Error("Disciplina não encontrada", Some(404), None);
    }
    if Assigned(db.professoresDisciplinas, professorId, disciplinaId, anoLetivo) {
      return Error("Disciplina já está atribuída ao professor para este ano letivo", None, None);
    }
    db.professoresDisciplinas := db.professoresDisciplinas.Add(ProfessorDisciplina(professorId, disciplinaId, anoLetivo, true));
    r := Ok(true, "Disciplina atribuída ao professor com sucesso", None);
  }

  /** The rows recording the triple, in store order (FirstOrDefault takes the first). */
  function TripleRows(pd: Table<ProfessorDisciplina>, professorId: int, disciplinaId: int, anoLetivo: int)
    : (r: seq<int>)
    ensures forall i :: 0 <= i < |r| ==> r[i] in pd.rows && IsTriple(pd.rows[r[i]], professorId, disciplinaId, anoLetivo)
    ensures pd.Wf() ==> (|r| == 0 <==> !Assigned(pd, professorId, disciplinaId, anoLetivo))
  {
    var p := (a: ProfessorDisciplina) => IsTriple(a, professorId, disciplinaId, anoLetivo);
    var r := pd.IdsWhere(p);
    assert |r| > 0 ==> Assigned(pd, professorId, disciplinaId, anoLetivo) by {
      if |r| > 0 {
        assert r[0] in pd.rows && p(pd.rows[r[0]]);
      }
    }
    assert pd.Wf() && Assigned(pd, professorId, disciplinaId, anoLetivo) ==> |r| > 0 by {
      if pd.Wf() && Assigned(pd, professorId, disciplinaId, anoLetivo) {
        var k :| k in pd.rows && IsTriple(pd.rows[k], professorId, disciplinaId, anoLetivo);
        assert p(pd.rows[k]);
        assert k in r;
      }
    }
    r
  }

  /** RemoverDisciplinaAsync: rejects a triple not recorded; otherwise removes its (first)
   *  row. */
  function RemoverOf(ps: Table<Professor>, pd: Table<ProfessorDisciplina>,
                     professorId: int, disciplinaId: int, anoLetivo: int): ProfessorWrite<bool>
  {
    var rows := TripleRows(pd, professorId, disciplinaId, anoLetivo);
    if |rows| == 0 then
      ProfessorWrite(Error("Atribuição não encontrada", Some(404), None), ps, pd)
    else
      ProfessorWrite(Ok(true, "Disciplina removida do professor com sucesso", None), ps, pd.Remove({rows[0]}))
  }

  /** A removal succeeds exactly when the triple is recorded and then removes one row of
   *  it; with the triples unique, afterwards the triple is no longer assigned. */
  lemma RemoverOutcome(ps: Table<Professor>, pd: Table<ProfessorDisciplina>,
                       professorId: int, disciplinaId: int, anoLetivo: int)
    requires pd.Wf()
    ensures var o := RemoverOf(ps, pd, professorId, disciplinaId, anoLetivo);
      && (o.response.success <==> Assigned(pd, professorId, disciplinaId, anoLetivo))
      && (!o.response.success ==> o.atribuicoes == pd && o.response.statusCode == Some(404))
      && o.professores == ps
      && (o.response.success ==>
            exists k :: k in pd.rows && IsTriple(pd.rows[k], professorId, disciplinaId, anoLetivo)
                        && o.atribuicoes.rows == pd.rows - {k})
      && (UniqueAssignments(pd.rows) ==> !Assigned(o.atribuicoes, professorId, disciplinaId, anoLetivo))
  {
    var rows := TripleRows(pd, professorId, disciplinaId, anoLetivo);
    var o := RemoverOf(ps, pd, professorId, disciplinaId, anoLetivo);
    if |rows| > 0 && UniqueAssignments(pd.rows) {
      forall k | k in o.atribuicoes.rows ensures !IsTriple(o.atribuicoes.rows[k], professorId, disciplinaId, anoLetivo) {
        assert k != rows[0];
      }
    }
  }

  /** Assigning a new triple and removing it again gives back the assignments. */
  lemma AtribuirRemoverRoundTrip(ps: Table<Professor>, ds: Table<Disciplina>, pd: Table<ProfessorDisciplina>,
                                 professorId: int, disciplinaId: int, anoLetivo: int)
    requires pd.Wf()
    requires AtribuirOf(ps, ds, pd, professorId, disciplinaId, anoLetivo).response.success
    ensures RemoverOf(ps, AtribuirOf(ps, ds, pd, professorId, disciplinaId, anoLetivo).atribuicoes,
                      professorId, disciplinaId, anoLetivo).atribuicoes.rows == pd.rows
  {
    var a := ProfessorDisciplina(professorId, disciplinaId, anoLetivo, true);
    assert !Assigned(pd, professorId, disciplinaId, anoLetivo);
    assert AtribuirOf(ps, ds, pd, professorId, disciplinaId, anoLetivo).atribuicoes == pd.Add(a);
    OnlyNewRow(pd, a);
    AddRemove(pd, a);
    assert RemoverOf(ps, pd.Add(a), professorId, disciplinaId, anoLetivo).atribuicoes == pd.Add(a).Remove({pd.next});
  }

  /** After adding a triple not yet recorded, its first row is the new one. */
  lemma OnlyNewRow(pd: Table<ProfessorDisciplina>, a: ProfessorDisciplina)
    requires pd.Wf() && !Assigned(pd, a.professorId, a.disciplinaId, a.anoLetivo)
    ensures |TripleRows(pd.Add(a), a.professorId, a.disciplinaId, a.anoLetivo)| > 0
    ensures TripleRows(pd.Add(a), a.professorId, a.disciplinaId, a.anoLetivo)[0] == pd.next
  {
    var pd2 := pd.Add(a);
    var rows := TripleRows(pd2, a.professorId, a.disciplinaId, a.anoLetivo);
    assert pd2.Wf() && IsTriple(pd2.rows[pd.next], a.professorId, a.disciplinaId, a.anoLetivo);
    var k := rows[0];
    assert k in pd2.rows && IsTriple(pd2.rows[k], a.professorId, a.disciplinaId, a.anoLetivo);
    assert k == pd.next || k in pd.rows;
  }

  /** Removing the row just added gives back the rows. */
  lemma AddRemove<T>(t: Table<T>, x: T)
    requires t.Wf()
    ensures t.Add(x).Remove({t.next}).rows == t.rows
  {
    assert t.next !in t.rows;
  }

  lemma RemoverKeepsInv(s: Snapshot, professorId: int, disciplinaId: int, anoLetivo: int)
    requires s.Inv()
    ensures var o := RemoverOf(s.professores, s.professoresDisciplinas, professorId, disciplinaId, anoLetivo);
      s.(professores := o.professores, professoresDisciplinas := o.atribuicoes).Inv()
  {
    var o := RemoverOf(s.professores, s.professoresDisciplinas, professorId, disciplinaId, anoLetivo);
    InvOfProfessores(s, o.professores, o.atribuicoes);
  }

  method Remover(db: Db, professorId: int, disciplinaId: int, anoLetivo: int) returns (r: ApiResponse<bool>)
    requires db.Valid()
    modifies db`professoresDisciplinas
    ensures ProfessorWrite(r, db.professores, db.professoresDisciplinas)
         == RemoverOf(db.professores, old(db.professoresDisciplinas), professorId, disciplinaId, anoLetivo)
    ensures db.Valid()
  {
    RemoverKeepsInv(db.State(), professorId, disciplinaId, anoLetivo);
    var rows := TripleRows(db.professoresDisciplinas, professorId, disciplinaId, anoLetivo);
    if |rows| == 0 {
      return Error("Atribuição não encontrada", Some(404), None);
    }
    db.professoresDisciplinas := db.professoresDisciplinas.Remove({rows[0]});
    r := Ok(true, "Disciplina removida do professor com sucesso", None);
    assert db.State() == old(db.State()).(professoresDisciplinas := db.professoresDisciplinas);
  }

  // ---------------------------------------------------------------------------
  // Subjects and classes of a teacher

  /** An assignment of the teacher, in the year when one is given. */
  predicate AssignmentOf(a: ProfessorDisciplina, id: int, anoLetivo: Option<int>) {
    a.professorId == id && (anoLetivo.None? || a.anoLetivo == anoLetivo.value)
  }

  function AssignmentsOf(id: int, anoLetivo: Option<int>): ProfessorDisciplina -> bool {
    a => AssignmentOf(a, id, anoLetivo)
  }

  function DisciplinaOf(a: ProfessorDisciplina): int { a.disciplinaId }

  /** GetDisciplinasProfessorAsync: the subjects of the teacher's assignments (of the year,
   *  when one is given), one per assignment, in store order. */
  function GetDisciplinas(pd: Table<ProfessorDisciplina>, ds: Table<Disciplina>, id: int, anoLetivo: Option<int>)
    : (r: ApiResponse<seq<(int, Disciplina)>>)
    ensures r.success && r.message == "Disciplinas do professor listadas com sucesso" && r.data.Some?
    ensures forall i :: 0 <= i < |r.data.value| ==>
              r.data.value[i].0 in ds.rows && r.data.value[i].1 == ds.rows[r.data.value[i].0]
  {
    Ok(Join(pd, AssignmentsOf(id, anoLetivo), DisciplinaOf, ds), "Disciplinas do professor listadas com sucesso", None)
  }

  /** Every subject listed is assigned to the teacher (in the year). */
  lemma GetDisciplinasSound(pd: Table<ProfessorDisciplina>, ds: Table<Disciplina>, id: int, anoLetivo: Option<int>,
                            i: int)
    requires 0 <= i < |GetDisciplinas(pd, ds, id, anoLetivo).data.value|
    ensures var x := GetDisciplinas(pd, ds, id, anoLetivo).data.value[i];
      exists k :: k in pd.rows && AssignmentOf(pd.rows[k], id, anoLetivo) && pd.rows[k].disciplinaId == x.0
  {
    JoinSound(pd, AssignmentsOf(id, anoLetivo), DisciplinaOf, ds, i);
  }

  /** Every stored subject assigned to the teacher (in the year) is listed. */
  lemma GetDisciplinasComplete(pd: Table<ProfessorDisciplina>, ds: Table<Disciplina>, id: int, anoLetivo: Option<int>,
                               k: int)
    requires pd.Wf() && k in pd.rows && AssignmentOf(pd.rows[k], id, anoLetivo) && pd.rows[k].disciplinaId in ds.rows
    ensures var xs := GetDisciplinas(pd, ds, id, anoLetivo).data.value;
      exists i :: 0 <= i < |xs| && xs[i].0 == pd.rows[k].disciplinaId
  {
    JoinComplete(pd, AssignmentsOf(id, anoLetivo), DisciplinaOf, ds, k);
  }

  /** With the triples unique, the list for one year names no subject twice. */
  lemma GetDisciplinasNoDup(pd: Table<ProfessorDisciplina>, ds: Table<Disciplina>, id: int, anoLetivo: int)
    requires UniqueAssignments(pd.rows)
    ensures var xs := GetDisciplinas(pd, ds, id, Some(anoLetivo)).data.value;
      forall i, j :: 0 <= i < j < |xs| ==> xs[i].0 != xs[j].0
  {
    JoinNoDup(pd, AssignmentsOf(id, Some(anoLetivo)), DisciplinaOf, ds);
  }

  /** A timetable entry of the teacher whose class is of the year, when one is given. */
  predicate HorarioOf(h: Horario, id: int, anoLetivo: Option<int>, ts: Table<Turma>) {
    h.professorId == id && (anoLetivo.None? || (h.turmaId in ts.rows && ts.rows[h.turmaId].dados.anoLetivo == anoLetivo.value))
  }

  function HorariosOf(id: int, anoLetivo: Option<int>, ts: Table<Turma>): Horario -> bool {
    h => HorarioOf(h, id, anoLetivo, ts)
  }

  function TurmaOf(h: Horario): int { h.turmaId }

  /** GetTurmasProfessorAsync: the distinct classes of the teacher's timetable entries (of
   *  the year, when one is given). */
  function GetTurmasProfessor(hs: Table<Horario>, ts: Table<Turma>, id: int, anoLetivo: Option<int>)
    : (r: ApiResponse<seq<(int, Turma)>>)
    ensures r.success && r.message == "Turmas do professor listadas com sucesso" && r.data.Some?
    ensures NoDup(r.data.value)
  {
    Ok(Distinct(Join(hs, HorariosOf(id, anoLetivo, ts), TurmaOf, ts)), "Turmas do professor listadas com sucesso", None)
  }

  /** Every class listed is a stored class the teacher has a timetable entry in (in the
   *  year). */
  lemma GetTurmasProfessorSound(hs: Table<Horario>, ts: Table<Turma>, id: int, anoLetivo: Option<int>, i: int)
    requires 0 <= i < |GetTurmasProfessor(hs, ts, id, anoLetivo).data.value|
    ensures var x := GetTurmasProfessor(hs, ts, id, anoLetivo).data.value[i];
      && x.0 in ts.rows && x.1 == ts.rows[x.0]
      && exists k :: k in hs.rows && HorarioOf(hs.rows[k], id, anoLetivo, ts) && hs.rows[k].turmaId == x.0
  {
    var p := HorariosOf(id, anoLetivo, ts);
    var js := Join(hs, p, TurmaOf, ts);
    var xs := GetTurmasProfessor(hs, ts, id, anoLetivo).data.value;
    assert xs == Distinct(js);
    assert xs[i] in js;
    var j :| 0 <= j < |js| && js[j] == xs[i];
    JoinSound(hs, p, TurmaOf, ts, j);
  }

  /** Every stored class the teacher has a timetable entry in (in the year) is listed; no
   *  class is listed twice. */
  lemma GetTurmasProfessorComplete(hs: Table<Horario>, ts: Table<Turma>, id: int, anoLetivo: Option<int>, k: int)
    requires hs.Wf() && k in hs.rows && HorarioOf(hs.rows[k], id, anoLetivo, ts) && hs.rows[k].turmaId in ts.rows
    ensures var xs := GetTurmasProfessor(hs, ts, id, anoLetivo).data.value;
      && (exists i :: 0 <= i < |xs| && xs[i].0 == hs.rows[k].turmaId)
      && forall i, j :: 0 <= i < j < |xs| ==> xs[i].0 != xs[j].0
  {
    var p := HorariosOf(id, anoLetivo, ts);
    var js := Join(hs, p, TurmaOf, ts);
    var xs := GetTurmasProfessor(hs, ts, id, anoLetivo).data.value;
    assert xs == Distinct(js);
    JoinComplete(hs, p, TurmaOf, ts, k);
    var j :| 0 <= j < |js| && js[j].0 == hs.rows[k].turmaId;
    assert js[j] in xs;
    DistinctKeys(js, ts.rows);
  }

}
