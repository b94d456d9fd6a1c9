/** The student service: the paged student listing, student creation (with its user
 *  account), update, removal (soft or hard), the students of a class and the status
 *  change that also switches the user account on or off. */
module AlunoService {
  import opened Wrappers
  import opened Text
  import opened Sequences
  import opened Tables
  import opened CommonDto
  import opened Models

  // ---------------------------------------------------------------------------
  // Listing

  /** The filters of the listing: a non-empty search text occurring in the full name,
   *  the enrollment code or the CPF (a student without CPF does not match on it), the
   *  school and the status. */
  predicate AlunoMatches(a: Aluno, search: Option<string>, escolaId: Option<int>, status: Option<StatusAluno>) {
    (IsNullOrEmpty(search)
     || Contains(a.dados.nomeCompleto, search.value)
     || Contains(a.matricula, search.value)
     || (a.dados.cpf.Some? && Contains(a.dados.cpf.value, search.value)))
    && (escolaId.None? || a.dados.escolaId == escolaId.value)
    && (status.None? || a.status == status.value)
  }

  /** The students that pass the filters, in store order. */
  function MatchingAlunos(alunos: Table<Aluno>, search: Option<string>, escolaId: Option<int>,
                          status: Option<StatusAluno>): (r: seq<(int, Aluno)>)
    ensures forall i :: 0 <= i < |r| ==>
              r[i].0 in alunos.rows && r[i].1 == alunos.rows[r[i].0] && AlunoMatches(r[i].1, search, escolaId, status)
    ensures alunos.Wf() ==> forall id :: id in alunos.rows && AlunoMatches(alunos.rows[id], search, escolaId, status)
                                         ==> (id, alunos.rows[id]) in r
    ensures forall i, j :: 0 <= i < j < |r| ==> r[i].0 < r[j].0
  {
    alunos.EntriesWhere(a => AlunoMatches(a, search, escolaId, status))
  }

  /** GetAlunosAsync: the page and size are taken as given; the matching students are
   *  counted and the requested page of them, in store order, is returned. */
  function GetAlunos(alunos: Table<Aluno>, page: int, pageSize: int, search: Option<string>,
                     escolaId: Option<int>, status: Option<StatusAluno>): (r: ApiResponse<Paginated<(int, Aluno)>>)
    ensures r.success && r.message == "" && r.statusCode == None && r.data.Some?
    ensures var p := r.data.value;
      && p.currentPage == page && p.pageSize == pageSize
      && p.totalItems == |MatchingAlunos(alunos, search, escolaId, status)|
      && (pageSize >= 0 ==> |p.items| <= pageSize)
  {
    Ok(BuildPage(MatchingAlunos(alunos, search, escolaId, status), page, pageSize), "", None)
  }

  /** Every student on a page is a stored student that passes the filters, and the
   *  page lists them in ascending identity. */
  lemma GetAlunosItems(alunos: Table<Aluno>, page: int, pageSize: int, search: Option<string>,
                       escolaId: Option<int>, status: Option<StatusAluno>)
    ensures var items := GetAlunos(alunos, page, pageSize, search, escolaId, status).data.value.items;
      && (forall i :: 0 <= i < |items| ==>
            items[i].0 in alunos.rows && items[i].1 == alunos.rows[items[i].0]
            && AlunoMatches(items[i].1, search, escolaId, status))
      && (forall i, j :: 0 <= i < j < |items| ==> items[i].0 < items[j].0)
  {
    PageIndex(MatchingAlunos(alunos, search, escolaId, status), page, pageSize);
  }

  /** With a positive size, taking the pages one after the other gives every matching
   *  student once, and a page past the last one is empty. A page number below 1 skips
   *  nothing, so it shows the first page. */
  lemma GetAlunosPages(alunos: Table<Aluno>, page: int, pageSize: int, search: Option<string>,
                       escolaId: Option<int>, status: Option<StatusAluno>)
    requires pageSize >= 1
    ensures var p := GetAlunos(alunos, page, pageSize, search, escolaId, status).data.value;
      var all := MatchingAlunos(alunos, search, escolaId, status);
      && Pages(all, pageSize, p.totalPages) == all
      && (page > p.totalPages ==> p.items == [])
      && (page <= 1 ==> p.items == PageOf(all, 1, pageSize))
  {
    BuildPagePages(MatchingAlunos(alunos, search, escolaId, status), page, pageSize);
  }

  /** A size of zero gives an empty page that announces no next page from page 1 on. */
  lemma GetAlunosZeroSize(alunos: Table<Aluno>, page: int, search: Option<string>,
                          escolaId: Option<int>, status: Option<StatusAluno>)
    ensures var p := GetAlunos(alunos, page, 0, search, escolaId, status).data.value;
      p.items == [] && (page >= 1 ==> !p.HasNextPage())
  {
  }

  /** A negative size is no limit: page 1 lists every matching student, and no next
   *  page is announced from page 1 on. */
  lemma GetAlunosNegativeSize(alunos: Table<Aluno>, page: int, pageSize: int, search: Option<string>,
                              escolaId: Option<int>, status: Option<StatusAluno>)
    requires pageSize < 0
    ensures GetAlunos(alunos, 1, pageSize, search, escolaId, status).data.value.items
            == MatchingAlunos(alunos, search, escolaId, status)
    ensures page >= 1 ==> !GetAlunos(alunos, page, pageSize, search, escolaId, status).data.value.HasNextPage()
  {
    NegativeSizePages(MatchingAlunos(alunos, search, escolaId, status), page, pageSize);
  }

  // ---------------------------------------------------------------------------
  // Uniqueness checks

  /** Some student other than `except` has this (non-null) CPF. */
  predicate CpfInUse(al: Table<Aluno>, cpf: Option<string>, except: Option<int>) {
    cpf.Some? && exists k :: k in al.rows && al.rows[k].dados.cpf == cpf && except != Some(k)
  }

  predicate MatriculaInUse(al: Table<Aluno>, matricula: string) {
    exists k :: k in al.rows && al.rows[k].matricula == matricula
  }

  /** What the store itself refuses when the student row is saved: a CPF (the empty one
   *  included) another student has, under the unique index, or a school that does not
   *  exist, under the foreign key. */
  predicate StoreRejects(al: Table<Aluno>, escolas: Table<Escola>, dados: DadosAluno, except: Option<int>) {
    CpfInUse(al, dados.cpf, except) || dados.escolaId !in escolas.rows
  }

  /** A user whose e-mail no other user has and who has no CPF keeps the user
   *  table's invariant. */
  lemma AddUsuarioKeepsInv(us: Table<Usuario>, u: Usuario)
    requires UsuariosInv(us) && !EmailInUse(us, u.email, None) && u.cpf == None
    ensures UsuariosInv(us.Add(u))
  {
  }

  /** The student invariant survives more users. */
  lemma AlunosMoreUsers(al: Table<Aluno>, us: Table<Usuario>, us2: Table<Usuario>)
    requires AlunosInv(al, us) && us.rows.Keys <= us2.rows.Keys
    ensures AlunosInv(al, us2)
  {
  }

  /** A student with a fresh enrollment code and CPF, linked to a user no student has,
   *  keeps the student table's invariant. */
  lemma AddAlunoKeepsInv(al: Table<Aluno>, us: Table<Usuario>, a: Aluno)
    requires AlunosInv(al, us)
    requires !MatriculaInUse(al, a.matricula) && !CpfInUse(al, a.dados.cpf, None)
    requires a.usuarioId in us.rows && forall k :: k in al.rows ==> al.rows[k].usuarioId != a.usuarioId
    ensures AlunosInv(al.Add(a), us)
  {
  }

  /** Enrollments keep their links when students are added. */
  lemma LinksToMoreAlunos(ms: Table<Matricula>, ts: Table<Turma>, al: Table<Aluno>, al2: Table<Aluno>)
    requires MatriculasInv(ms, ts, al) && al.rows.Keys <= al2.rows.Keys
    ensures MatriculasInv(ms, ts, al2)
  {
  }

  // ---------------------------------------------------------------------------
  // Creation

  /** CreateAlunoDto: the login e-mail, the enrollment code, the student's data and
   *  its status (Matriculado unless given). */
  datatype AlunoForm = AlunoForm(email: string, matricula: string, dados: DadosAluno, status: StatusAluno)

  /** What a write of the student service leaves: the response and the user and
   *  student tables. */
  datatype AlunoWrite<T> = AlunoWrite(response: ApiResponse<T>, usuarios: Table<Usuario>, alunos: Table<Aluno>)

  /** The initial password of every student account. */
  const SenhaPadrao: string := "123456"

  /** The user account made for a new student. */
  function NovoUsuario(form: AlunoForm, now: Time): Usuario {
    Usuario(form.dados.nomeCompleto, form.email, Hash(SenhaPadrao), TipoUsuario.Aluno, StatusUsuario.Ativo,
            now, now, None, None, None)
  }

  /** CreateAlunoAsync: rejects an e-mail in use, then a non-empty CPF in use, then an
   *  enrollment code in use; otherwise saves the user account, then the student linked
   *  to it. An empty CPF another student has, or an unknown school, passes the checks and
   *  the store rejects the second save, after the account was saved. */
  function CreateAlunoOf(us: Table<Usuario>, al: Table<Aluno>, escolas: Table<Escola>, form: AlunoForm, now: Time)
    : AlunoWrite<(int, Aluno)>
  {
    if EmailInUse(us, form.email, None) then
      AlunoWrite(Error("Email já está em uso", None, None), us, al)
    else if !IsNullOrEmpty(form.dados.cpf) && CpfInUse(al, form.dados.cpf, None) then
      AlunoWrite(Error("CPF já está em uso", None, None), us, al)
    else if MatriculaInUse(al, form.matricula) then
      AlunoWrite(Error("Matrícula já está em uso", None, None), us, al)
    else
      var us2 := us.Add(NovoUsuario(form, now));
      var aluno := Aluno.Aluno(us.next, form.matricula, form.dados, form.status, now);
      if StoreRejects(al, escolas, form.dados, None) then
        AlunoWrite(Error("Erro ao criar aluno: " + SaveFailedMessage, None, None), us2, al)
      else
        AlunoWrite(Ok((al.next, aluno), "", None), us2, al.Add(aluno))
  }

  /** Creation fails exactly when the e-mail, the CPF or the enrollment code is taken or
   *  the school is unknown; the service's checks come in that order. A failure stores no
   *  student, and leaves the users as they were when one of the service's checks refused. */
  lemma CreateAlunoRejects(us: Table<Usuario>, al: Table<Aluno>, escolas: Table<Escola>, form: AlunoForm, now: Time)
    ensures var o := CreateAlunoOf(us, al, escolas, form, now);
      && (!o.response.success <==>
            EmailInUse(us, form.email, None) || MatriculaInUse(al, form.matricula)
            || StoreRejects(al, escolas, form.dados, None))
      && (!o.response.success ==> o.alunos == al && o.response.data == None)
      && (EmailInUse(us, form.email, None) ==> o.response.message == "Email já está em uso" && o.usuarios == us)
      && (!EmailInUse(us, form.email, None) && form.dados.cpf != Some("") && CpfInUse(al, form.dados.cpf, None)
          ==> o.response.message == "CPF já está em uso" && o.usuarios == us)
      && (!EmailInUse(us, form.email, None) && !CpfInUse(al, form.dados.cpf, None) && MatriculaInUse(al, form.matricula)
          ==> o.response.message == "Matrícula já está em uso" && o.usuarios == us)
  {
  }

  /** A successful creation adds exactly one user, an active student account with the
   *  student's name and e-mail whose password is the initial one, and exactly one
   *  student linked to it, with the form's code, data and status, enrolled now. */
  lemma CreateAlunoStores(us: Table<Usuario>, al: Table<Aluno>, escolas: Table<Escola>, form: AlunoForm, now: Time)
    requires us.Wf() && al.Wf()
    ensures var o := CreateAlunoOf(us, al, escolas, form, now);
      o.response.success ==>
        && us.next !in us.rows && al.next !in al.rows
        && o.usuarios.rows.Keys == us.rows.Keys + {us.next}
        && (forall k :: k in us.rows ==> o.usuarios.rows[k] == us.rows[k])
        && (var u := o.usuarios.rows[us.next];
            && u.nome == form.dados.nomeCompleto && u.email == form.email
            && VerifyPassword(SenhaPadrao, u.senhaHash)
            && u.tipoUsuario == TipoUsuario.Aluno && u.status == StatusUsuario.Ativo
            && u.dataCriacao == now && u.dataUltimaAtualizacao == now)
        && o.alunos.rows.Keys == al.rows.Keys + {al.next}
        && (forall k :: k in al.rows ==> o.alunos.rows[k] == al.rows[k])
        && o.response.data == Some((al.next, o.alunos.rows[al.next]))
        && (var a := o.alunos.rows[al.next];
            && a.usuarioId == us.next && a.matricula == form.matricula && a.dados == form.dados
            && a.status == form.status && a.dataMatricula == now)
  {
    HashVerifies(SenhaPadrao, SenhaPadrao);
  }

  /** A form that passes the service's checks but not the store's (an empty CPF another
   *  student has, or an unknown school) leaves a saved account without a student, and
   *  the e-mail of that account then blocks every retry with the same e-mail. */
  lemma CreateAlunoLeavesUser(us: Table<Usuario>, al: Table<Aluno>, escolas: Table<Escola>, form: AlunoForm, now: Time)
    requires us.Wf() && AlunosInv(al, us)
    requires !EmailInUse(us, form.email, None) && !MatriculaInUse(al, form.matricula)
    requires !CpfInUse(al, form.dados.cpf, None) || form.dados.cpf == Some("")
    requires StoreRejects(al, escolas, form.dados, None)
    ensures var o := CreateAlunoOf(us, al, escolas, form, now);
      && !o.response.success
      && o.response.message == "Erro ao criar aluno: " + SaveFailedMessage
      && o.alunos == al && us.next !in us.rows && us.next in o.usuarios.rows
      && (forall k :: k in o.alunos.rows ==> o.alunos.rows[k].usuarioId != us.next)
      && CreateAlunoOf(o.usuarios, o.alunos, escolas, form, now).response.message == "Email já está em uso"
  {
    var o := CreateAlunoOf(us, al, escolas, form, now);
    assert o.usuarios.rows[us.next].email == form.email;
  }

  /** Creation keeps the store invariant. */
  lemma CreateAlunoKeepsInv(s: Snapshot, form: AlunoForm, now: Time, t: Snapshot)
    requires s.Inv()
    requires var o := CreateAlunoOf(s.usuarios, s.alunos, s.escolas, form, now);
      t == s.(usuarios := o.usuarios, alunos := o.alunos)
    ensures t.Inv()
  {
    var us, al := s.usuarios, s.alunos;
    var o := CreateAlunoOf(us, al, s.escolas, form, now);
    InvOfUsuariosAlunos(s, o.usuarios, o.alunos);
    if o.usuarios != us {
      var u := NovoUsuario(form, now);
      AddUsuarioKeepsInv(us, u);
      AlunosMoreUsers(al, us, us.Add(u));
      if o.alunos != al {
        var a := Aluno.Aluno(us.next, form.matricula, form.dados, form.status, now);
        AddAlunoKeepsInv(al, us.Add(u), a);
        LinksToMoreAlunos(s.matriculas, s.turmas, al, al.Add(a));
      }
    }
  }

  /** CreateAluno on a store that keeps its invariant: the steps of CreateAlunoSteps, then the invariant
   *  they keep. */
  method CreateAluno(db: Db, form: AlunoForm, now: Time) returns (r: ApiResponse<(int, Aluno)>)
    requires db.Valid()
    modifies db`usuarios, db`alunos
    ensures AlunoWrite(r, db.usuarios, db.alunos) == CreateAlunoOf(old(db.usuarios), old(db.alunos), db.escolas, form, now)
    ensures db.Valid()
  {
    r := CreateAlunoSteps(db, form, now);
    CreateAlunoKeepsInv(old(db.State()), form, now, db.State());
  }

  method CreateAlunoSteps(db: Db, form: AlunoForm, now: Time) returns (r: ApiResponse<(int, Aluno)>)
    modifies db`usuarios, db`alunos
    ensures AlunoWrite(r, db.usuarios, db.alunos) == CreateAlunoOf(old(db.usuarios), old(db.alunos), db.escolas, form, now)
  {
    if EmailInUse(db.usuarios, form.email, None) {
      return Error("Email já está em uso", None, None);
    }
    if !IsNullOrEmpty(form.dados.cpf) && CpfInUse(db.alunos, form.dados.cpf, None) {
      return Error("CPF já está em uso", None, None);
    }
    if MatriculaInUse(db.alunos, form.matricula) {
      return Error("Matrícula já está em uso", None, None);
    }
    var usuarioId := db.usuarios.next;
    db.usuarios := db.usuarios.Add(NovoUsuario(form, now));
    var aluno := Aluno.Aluno(usuarioId, form.matricula, form.dados, form.status, now);
    if StoreRejects(db.alunos, db.escolas, form.dados, None) {
      return Error("Erro ao criar aluno: " + SaveFailedMessage, None, None);
    }
    var id := db.alunos.next;
    db.alunos := db.alunos.Add(aluno);
    r := Ok((id, aluno), "", None);
  }

  // ---------------------------------------------------------------------------
  // Update

  /** UpdateAlunoDto: the creation form without the enrollment code. */
  datatype AlunoUpdateForm = AlunoUpdateForm(email: string, dados: DadosAluno, status: StatusAluno)

  /** UpdateAlunoAsync: rejects an unknown student, then an e-mail another user has, then
   *  a non-empty CPF another student has; otherwise renames the student's account and
   *  sets its e-mail, and replaces the student's data and status (its code, account and
   *  enrollment date stay). A student without account fails on the account update, and
   *  the store refuses an empty CPF another student has and an unknown school. */
  function UpdateAlunoOf(us: Table<Usuario>, al: Table<Aluno>, escolas: Table<Escola>, id: int,
                         form: AlunoUpdateForm, now: Time)
    : AlunoWrite<(int, Aluno)>
  {
    if id !in al.rows then
      AlunoWrite(Error("Aluno não encontrado", Some(404), None), us, al)
    else
      var a := al.rows[id];
      if EmailInUse(us, form.email, Some(a.usuarioId)) then
        AlunoWrite(Error("Email já está em uso", None, None), us, al)
      else if !IsNullOrEmpty(form.dados.cpf) && CpfInUse(al, form.dados.cpf, Some(id)) then
        AlunoWrite(Error("CPF já está em uso", None, None), us, al)
      else if a.usuarioId !in us.rows then
        AlunoWrite(Error("Erro ao atualizar aluno: " + NullReferenceMessage, None, None), us, al)
      else if StoreRejects(al, escolas, form.dados, Some(id)) then
        AlunoWrite(Error("Erro ao atualizar aluno: " + SaveFailedMessage, None, None), us, al)
      else
        var u := us.rows[a.usuarioId];
        var a2 := a.(dados := form.dados, status := form.status);
        AlunoWrite(Ok((id, a2), "", None),
                   us.Put(a.usuarioId, u.(nome := form.dados.nomeCompleto, email := form.email,
                                          dataUltimaAtualizacao := now)),
                   al.Put(id, a2))
  }

  /** An update fails exactly when the student is unknown, its e-mail or CPF clashes
   *  with another user or student, it has no account or the school is unknown; a failure
   *  changes nothing. The service's checks come in order. */
  lemma UpdateAlunoRejects(us: Table<Usuario>, al: Table<Aluno>, escolas: Table<Escola>, id: int,
                           form: AlunoUpdateForm, now: Time)
    ensures var o := UpdateAlunoOf(us, al, escolas, id, form, now);
      && (!o.response.success <==>
            id !in al.rows
            || EmailInUse(us, form.email, Some(al.rows[id].usuarioId))
            || al.rows[id].usuarioId !in us.rows
            || StoreRejects(al, escolas, form.dados, Some(id)))
      && (!o.response.success ==> o.usuarios == us && o.alunos == al && o.response.data == None)
      && (id !in al.rows ==> o.response.message == "Aluno não encontrado" && o.response.statusCode == Some(404))
      && (id in al.rows && EmailInUse(us, form.email, Some(al.rows[id].usuarioId))
          ==> o.response.message == "Email já está em uso")
      && (id in al.rows && !EmailInUse(us, form.email, Some(al.rows[id].usuarioId))
          && form.dados.cpf != Some("") && CpfInUse(al, form.dados.cpf, Some(id))
          ==> o.response.message == "CPF já está em uso")
  {
  }

  /** A successful update changes the student's account (name, e-mail, time of the
   *  change) and the student (data and status) and nothing else. */
  lemma UpdateAlunoStores(us: Table<Usuario>, al: Table<Aluno>, escolas: Table<Escola>, id: int,
                          form: AlunoUpdateForm, now: Time)
    ensures var o := UpdateAlunoOf(us, al, escolas, id, form, now);
      o.response.success ==>
        var a := al.rows[id];
        var uid := a.usuarioId;
        && o.usuarios.next == us.next && o.alunos.next == al.next
        && o.usuarios.rows.Keys == us.rows.Keys && o.alunos.rows.Keys == al.rows.Keys
        && (forall k :: k in us.rows && k != uid ==> o.usuarios.rows[k] == us.rows[k])
        && (forall k :: k in al.rows && k != id ==> o.alunos.rows[k] == al.rows[k])
        && o.usuarios.rows[uid] == us.rows[uid].(nome := form.dados.nomeCompleto, email := form.email,
                                                 dataUltimaAtualizacao := now)
        && o.alunos.rows[id].dados == form.dados && o.alunos.rows[id].status == form.status
        && o.alunos.rows[id].matricula == a.matricula && o.alunos.rows[id].usuarioId == uid
        && o.alunos.rows[id].dataMatricula == a.dataMatricula
        && o.response.data == Some((id, o.alunos.rows[id]))
  {
  }

  /** In a consistent store every student has its account, so an update of a stored
   *  student without clashes, naming a stored school, succeeds. */
  lemma UpdateAlunoSucceeds(s: Snapshot, id: int, form: AlunoUpdateForm, now: Time)
    requires s.Inv() && id in s.alunos.rows
    requires !EmailInUse(s.usuarios, form.email, Some(s.alunos.rows[id].usuarioId))
    requires !StoreRejects(s.alunos, s.escolas, form.dados, Some(id))
    ensures UpdateAlunoOf(s.usuarios, s.alunos, s.escolas, id, form, now).response.success
  {
  }

  /** An update keeps the store invariant. */
  lemma UpdateAlunoKeepsInv(s: Snapshot, id: int, form: AlunoUpdateForm, now: Time)
    requires s.Inv()
    ensures var o := UpdateAlunoOf(s.usuarios, s.alunos, s.escolas, id, form, now);
      s.(usuarios := o.usuarios, alunos := o.alunos).Inv()
  {
    var o := UpdateAlunoOf(s.usuarios, s.alunos, s.escolas, id, form, now);
    InvOfUsuariosAlunos(s, o.usuarios, o.alunos);
    if o.response.success {
      UpdateAlunoStores(s.usuarios, s.alunos, s.escolas, id, form, now);
      UpdatedUsuarioKeepsInv(s.usuarios, s.alunos.rows[id].usuarioId, o.usuarios);
      UpdatedAlunoKeepsInv(s.alunos, s.usuarios, id, o.alunos, o.usuarios);
    }
  }

  /** Changing one user's e-mail to one no other user has keeps the user invariant. */
  lemma UpdatedUsuarioKeepsInv(us: Table<Usuario>, uid: int, us2: Table<Usuario>)
    requires UsuariosInv(us) && uid in us.rows && us2.next == us.next && us2.rows.Keys == us.rows.Keys
    requires forall k :: k in us.rows && k != uid ==> us2.rows[k] == us.rows[k]
    requires us2.rows[uid].cpf == us.rows[uid].cpf && !EmailInUse(us, us2.rows[uid].email, Some(uid))
    ensures UsuariosInv(us2)
  {
  }

  /** Changing one student's data to a CPF no other student has, keeping its code and
   *  account, keeps the student invariant. */
  lemma UpdatedAlunoKeepsInv(al: Table<Aluno>, us: Table<Usuario>, id: int, al2: Table<Aluno>, us2: Table<Usuario>)
    requires AlunosInv(al, us) && id in al.rows && al2.next == al.next && al2.rows.Keys == al.rows.Keys
    requires us2.rows.Keys == us.rows.Keys
    requires forall k :: k in al.rows && k != id ==> al2.rows[k] == al.rows[k]
    requires al2.rows[id].matricula == al.rows[id].matricula && al2.rows[id].usuarioId == al.rows[id].usuarioId
    requires !CpfInUse(al, al2.rows[id].dados.cpf, Some(id))
    ensures AlunosInv(al2, us2)
  {
  }

  method UpdateAluno(db: Db, id: int, form: AlunoUpdateForm, now: Time) returns (r: ApiResponse<(int, Aluno)>)
    requires db.Valid()
    modifies db`usuarios, db`alunos
    ensures AlunoWrite(r, db.usuarios, db.alunos) == UpdateAlunoOf(old(db.usuarios), old(db.alunos), db.escolas, id, form, now)
    ensures db.Valid()
  {
    UpdateAlunoKeepsInv(db.State(), id, form, now);
    if id !in db.alunos.rows {
      return Error("Aluno não encontrado", Some(404), None);
    }
    var aluno := db.alunos.rows[id];
    if EmailInUse(db.usuarios, form.email, Some(aluno.usuarioId)) {
      return Error("Email já está em uso", None, None);
    }
    if !IsNullOrEmpty(form.dados.cpf) && CpfInUse(db.alunos, form.dados.cpf, Some(id)) {
      return Error("CPF já está em uso", None, None);
    }
    if aluno.usuarioId !in db.usuarios.rows {
      return Error("Erro ao atualizar aluno: " + NullReferenceMessage, None, None);
    }
    if StoreRejects(db.alunos, db.escolas, form.dados, Some(id)) {
      return Error("Erro ao atualizar aluno: " + SaveFailedMessage, None, None);
    }
    var usuario := db.usuarios.rows[aluno.usuarioId];
    db.usuarios := db.usuarios.Put(aluno.usuarioId, usuario.(nome := form.dados.nomeCompleto, email := form.email,
                                                             dataUltimaAtualizacao := now));
    aluno := aluno.(dados := form.dados, status := form.status);
    db.alunos := db.alunos.Put(id, aluno);
    r := Ok((id, aluno), "", None);
    assert db.State() == old(db.State()).(usuarios := db.usuarios, alunos := db.alunos);
  }

  // ---------------------------------------------------------------------------
  // Removal

  /** The student has enrollments or grades. */
  predicate HasDependents(ms: Table<Matricula>, notas: Table<Nota>, id: int) {
    ms.Any((m: Matricula) => m.alunoId == id) || notas.Any((n: Nota) => n.alunoId == id)
  }

  /** DeleteAlunoAsync: rejects an unknown student; a student with enrollments or grades
   *  is kept as transferred and its account made inactive, any other is removed with
   *  its account. A student without account fails (on the status change, or on removing
   *  the missing account) and nothing is saved. */
  function DeleteAlunoOf(us: Table<Usuario>, al: Table<Aluno>, ms: Table<Matricula>, notas: Table<Nota>, id: int)
    : AlunoWrite<bool>
  {
    if id !in al.rows then
      AlunoWrite(Error("Aluno não encontrado", Some(404), None), us, al)
    else
      var a := al.rows[id];
      var uid := a.usuarioId;
      if HasDependents(ms, notas, id) then
        if uid !in us.rows then
          AlunoWrite(Error("Erro ao remover aluno: " + NullReferenceMessage, None, None), us, al)
        else
          AlunoWrite(Ok(true, "Aluno removido com sucesso", None),
                     us.Put(uid, us.rows[uid].(status := StatusUsuario.Inativo)),
                     al.Put(id, a.(status := StatusAluno.Transferido)))
      else if uid !in us.rows then
        AlunoWrite(Error("Erro ao remover aluno: " + NullEntityMessage, None, None), us, al)
      else
        AlunoWrite(Ok(true, "Aluno removido com sucesso", None), us.Remove({uid}), al.Remove({id}))
  }

  /** The three outcomes of a removal: an unknown student changes nothing; a student with
   *  history stays, transferred, with an inactive account; any other goes with its
   *  account. Nothing else changes. */
  lemma DeleteAlunoOutcomes(us: Table<Usuario>, al: Table<Aluno>, ms: Table<Matricula>, notas: Table<Nota>, id: int)
    ensures var o := DeleteAlunoOf(us, al, ms, notas, id);
      && (id !in al.rows ==> o == AlunoWrite(Error("Aluno não encontrado", Some(404), None), us, al))
      && (id in al.rows && al.rows[id].usuarioId in us.rows ==>
            o.response == Ok(true, "Aluno removido com sucesso", None))
      && (!o.response.success ==> o.usuarios == us && o.alunos == al)
      && (o.response.success ==>
            var uid := al.rows[id].usuarioId;
            && (HasDependents(ms, notas, id) ==>
                  && o.alunos.rows == al.rows[id := al.rows[id].(status := StatusAluno.Transferido)]
                  && o.usuarios.rows == us.rows[uid := us.rows[uid].(status := StatusUsuario.Inativo)])
            && (!HasDependents(ms, notas, id) ==>
                  o.alunos.rows == al.rows - {id} && o.usuarios.rows == us.rows - {uid}))
  {
  }

  /** In a consistent store the removal of a stored student succeeds. */
  lemma DeleteAlunoSucceeds(s: Snapshot, id: int)
    requires s.Inv() && id in s.alunos.rows
    ensures DeleteAlunoOf(s.usuarios, s.alunos, s.matriculas, s.notas, id).response.success
  {
  }

  /** A removal keeps the store invariant: no enrollment is left pointing at a removed
   *  student, and no student at a removed account. */
  lemma DeleteAlunoKeepsInv(s: Snapshot, id: int)
    requires s.Inv()
    ensures var o := DeleteAlunoOf(s.usuarios, s.alunos, s.matriculas, s.notas, id);
      s.(usuarios := o.usuarios, alunos := o.alunos).Inv()
  {
    var o := DeleteAlunoOf(s.usuarios, s.alunos, s.matriculas, s.notas, id);
    InvOfUsuariosAlunos(s, o.usuarios, o.alunos);
    if o.response.success {
      var uid := s.alunos.rows[id].usuarioId;
      if HasDependents(s.matriculas, s.notas, id) {
        StatusChangeKeepsInv(s, id, o.usuarios, o.alunos);
      } else {
        HardDeleteKeepsInv(s, id);
      }
    }
  }

  /** Changing only the status of a student and of its account keeps the invariant. */
  lemma StatusChangeKeepsInv(s: Snapshot, id: int, us2: Table<Usuario>, al2: Table<Aluno>)
    requires s.Inv() && id in s.alunos.rows
    requires var uid := s.alunos.rows[id].usuarioId;
      && us2.next == s.usuarios.next && al2.next == s.alunos.next
      && (exists st :: us2.rows == s.usuarios.rows[uid := s.usuarios.rows[uid].(status := st)])
      && (exists st :: al2.rows == s.alunos.rows[id := s.alunos.rows[id].(status := st)])
    ensures UsuariosInv(us2) && AlunosInv(al2, us2) && MatriculasInv(s.matriculas, s.turmas, al2)
  {
  }

  lemma HardDeleteKeepsInv(s: Snapshot, id: int)
    requires s.Inv() && id in s.alunos.rows && !HasDependents(s.matriculas, s.notas, id)
    ensures var uid := s.alunos.rows[id].usuarioId;
      var us2, al2 := s.usuarios.Remove({uid}), s.alunos.Remove({id});
      UsuariosInv(us2) && AlunosInv(al2, us2) && MatriculasInv(s.matriculas, s.turmas, al2)
  {
    var uid := s.alunos.rows[id].usuarioId;
    var al2 := s.alunos.Remove({id});
    forall k | k in al2.rows ensures al2.rows[k].usuarioId != uid {
      assert k != id;
    }
  }

  /** DeleteAluno on a store that keeps its invariant: the steps of DeleteAlunoSteps, then the invariant
   *  they keep. */
  method DeleteAluno(db: Db, id: int) returns (r: ApiResponse<bool>)
    requires db.Valid()
    modifies db`usuarios, db`alunos
    ensures AlunoWrite(r, db.usuarios, db.alunos) == DeleteAlunoOf(old(db.usuarios), old(db.alunos), db.matriculas, db.notas, id)
    ensures db.Valid()
  {
    DeleteAlunoKeepsInv(db.State(), id);
    r := DeleteAlunoSteps(db, id);
    assert db.State() == old(db.State()).(usuarios := db.usuarios, alunos := db.alunos);
  }

  method DeleteAlunoSteps(db: Db, id: int) returns (r: ApiResponse<bool>)
    modifies db`usuarios, db`alunos
    ensures AlunoWrite(r, db.usuarios, db.alunos) == DeleteAlunoOf(old(db.usuarios), old(db.alunos), db.matriculas, db.notas, id)
  {
    if id !in db.alunos.rows {
      return Error("Aluno não encontrado", Some(404), None);
    }
    var aluno := db.alunos.rows[id];
    var usuarioId := aluno.usuarioId;
    var temMatriculas := db.matriculas.Any((m: Matricula) => m.alunoId == id);
    var temNotas := db.notas.Any((n: Nota) => n.alunoId == id);
    if temMatriculas || temNotas {
      if usuarioId !in db.usuarios.rows {
        return Error("Erro ao remover aluno: " + NullReferenceMessage, None, None);
      }
      db.alunos := db.alunos.Put(id, aluno.(status := StatusAluno.Transferido));
      db.usuarios := db.usuarios.Put(usuarioId, db.usuarios.rows[usuarioId].(status := StatusUsuario.Inativo));
    } else {
      if usuarioId !in db.usuarios.rows {
        return Error("Erro ao remover aluno: " + NullEntityMessage, None, None);
      }
      db.alunos := db.alunos.Remove({id});
      db.usuarios := db.usuarios.Remove({usuarioId});
    }
    r := Ok(true, "Aluno removido com sucesso", None);
  }

  // ---------------------------------------------------------------------------
  // Students of a class

  /** An active enrollment in the class. */
  predicate ActiveIn(m: Matricula, turmaId: int) {
    m.turmaId == turmaId && m.status == StatusMatricula.Ativa
  }

  function ActiveInTurma(turmaId: int): Matricula -> bool {
    m => ActiveIn(m, turmaId)
  }

  function AlunoOf(m: Matricula): int { m.alunoId }

  /** GetAlunosByTurmaAsync: the students of the active enrollments in the class, in
   *  the store order of the enrollments (an enrollment whose student is missing drops
   *  out of the join). */
  function GetAlunosByTurma(ms: Table<Matricula>, al: Table<Aluno>, turmaId: int): (r: ApiResponse<seq<(int, Aluno)>>)
    ensures r.success && r.message == "" && r.statusCode == None && r.data.Some?
    ensures forall i :: 0 <= i < |r.data.value| ==>
              r.data.value[i].0 in al.rows && r.data.value[i].1 == al.rows[r.data.value[i].0]
  {
    Ok(Join(ms, ActiveInTurma(turmaId), AlunoOf, al), "", None)
  }

  /** Every listed student has an active enrollment in the class. */
  lemma GetAlunosByTurmaSound(ms: Table<Matricula>, al: Table<Aluno>, turmaId: int, i: int)
    requires 0 <= i < |GetAlunosByTurma(ms, al, turmaId).data.value|
    ensures var x := GetAlunosByTurma(ms, al, turmaId).data.value[i];
      exists m :: m in ms.rows && ActiveIn(ms.rows[m], turmaId) && ms.rows[m].alunoId == x.0
  {
    JoinSound(ms, ActiveInTurma(turmaId), AlunoOf, al, i);
  }

  /** Every stored student with an active enrollment in the class is listed. */
  lemma GetAlunosByTurmaComplete(ms: Table<Matricula>, al: Table<Aluno>, turmaId: int, m: int)
    requires ms.Wf() && m in ms.rows && ActiveIn(ms.rows[m], turmaId) && ms.rows[m].alunoId in al.rows
    ensures var xs := GetAlunosByTurma(ms, al, turmaId).data.value;
      exists i :: 0 <= i < |xs| && xs[i].0 == ms.rows[m].alunoId
  {
    JoinComplete(ms, ActiveInTurma(turmaId), AlunoOf, al, m);
  }

  /** As a student is enrolled at most once in a class, no student is listed twice. */
  lemma GetAlunosByTurmaNoDup(ms: Table<Matricula>, al: Table<Aluno>, turmaId: int)
    requires UniqueEnrollments(ms.rows)
    ensures var xs := GetAlunosByTurma(ms, al, turmaId).data.value;
      forall i, j :: 0 <= i < j < |xs| ==> xs[i].0 != xs[j].0
  {
    JoinNoDup(ms, ActiveInTurma(turmaId), AlunoOf, al);
  }

  // ---------------------------------------------------------------------------
  // Status

  /** The account status that goes with a student status: only an enrolled student
   *  has an active account. */
  function UsuarioStatusOf(status: StatusAluno): StatusUsuario {
    if status == StatusAluno.Matriculado then StatusUsuario.Ativo else StatusUsuario.Inativo
  }

  /** ChangeStatusAsync: rejects an unknown student; sets the student's status and its
   *  account's matching status and time of the change. A student without account fails
   *  and nothing is saved. */
  function ChangeStatusOf(us: Table<Usuario>, al: Table<Aluno>, id: int, status: StatusAluno, now: Time)
    : AlunoWrite<bool>
  {
    if id !in al.rows then
      AlunoWrite(Error("Aluno não encontrado", Some(404), None), us, al)
    else
      var a := al.rows[id];
      if a.usuarioId !in us.rows then
        AlunoWrite(Error("Erro ao alterar status do aluno: " + NullReferenceMessage, None, None), us, al)
      else
        var u := us.rows[a.usuarioId];
        AlunoWrite(Ok(true, "Status do aluno alterado com sucesso", None),
                   us.Put(a.usuarioId, u.(status := UsuarioStatusOf(status), dataUltimaAtualizacao := now)),
                   al.Put(id, a.(status := status)))
  }

  /** After a status change the account is active exactly when the student is enrolled;
   *  only the two status fields and the account's time of change move. In a consistent
   *  store the change fails only for an unknown student. */
  lemma ChangeStatusCouples(us: Table<Usuario>, al: Table<Aluno>, id: int, status: StatusAluno, now: Time)
    ensures var o := ChangeStatusOf(us, al, id, status, now);
      && (o.response.success <==> id in al.rows && al.rows[id].usuarioId in us.rows)
      && (!o.response.success ==> o.usuarios == us && o.alunos == al)
      && (o.response.success ==>
            var uid := al.rows[id].usuarioId;
            && o.alunos.rows == al.rows[id := al.rows[id].(status := status)]
            && o.usuarios.rows.Keys == us.rows.Keys
            && (forall k :: k in us.rows && k != uid ==> o.usuarios.rows[k] == us.rows[k])
            && (o.usuarios.rows[uid].status == StatusUsuario.Ativo <==> status == StatusAluno.Matriculado)
            && o.usuarios.rows[uid] == us.rows[uid].(status := o.usuarios.rows[uid].status, dataUltimaAtualizacao := now))
  {
  }

  lemma ChangeStatusKeepsInv(s: Snapshot, id: int, status: StatusAluno, now: Time)
    requires s.Inv()
    ensures var o := ChangeStatusOf(s.usuarios, s.alunos, id, status, now);
      s.(usuarios := o.usuarios, alunos := o.alunos).Inv()
  {
    var o := ChangeStatusOf(s.usuarios, s.alunos, id, status, now);
    InvOfUsuariosAlunos(s, o.usuarios, o.alunos);
    if o.response.success {
      var uid := s.alunos.rows[id].usuarioId;
      UpdatedUsuarioKeepsInv(s.usuarios, uid, o.usuarios);
      UpdatedAlunoKeepsInv(s.alunos, s.usuarios, id, o.alunos, o.usuarios);
    }
  }

  method ChangeStatus(db: Db, id: int, status: StatusAluno, now: Time) returns (r: ApiResponse<bool>)
    requires db.Valid()
    modifies db`usuarios, db`alunos
    ensures AlunoWrite(r, db.usuarios, db.alunos) == ChangeStatusOf(old(db.usuarios), old(db.alunos), id, status, now)
    ensures db.Valid()
  {
    ChangeStatusKeepsInv(db.State(), id, status, now);
    if id !in db.alunos.rows {
      return Error("Aluno não encontrado", Some(404), None);
    }
    var aluno := db.alunos.rows[id];
    if aluno.usuarioId !in db.usuarios.rows {
      return Error("Erro ao alterar status do aluno: " + NullReferenceMessage, None, None);
    }
    var usuario := db.usuarios.rows[aluno.usuarioId];
    db.alunos := db.alunos.Put(id, aluno.(status := status));
    db.usuarios := db.usuarios.Put(aluno.usuarioId, usuario.(status := UsuarioStatusOf(status), dataUltimaAtualizacao := now));
    r := Ok(true, "Status do aluno alterado com sucesso", None);
    assert db.State() == old(db.State()).(usuarios := db.usuarios, alunos := db.alunos);
  }
}
