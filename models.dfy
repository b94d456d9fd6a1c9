/** The entities of the school-management store and the store itself (the database
 *  context), with the invariants the services keep. Times are whole seconds. */
module Models {
  import opened Wrappers
  import opened Tables

  type Time = int

  const Hour: int := 3600
  const Day: int := 86400

  datatype TipoUsuario = Admin | Diretor | Professor | Aluno | Responsavel
  datatype StatusUsuario = Ativo | Inativo | Suspenso
  datatype StatusEscola = Ativa | Inativa
  datatype Sexo = M | F | Outro
  datatype StatusAluno = Matriculado | Transferido | Evadido | Formado
  datatype StatusProfessor = Ativo | Licenca | Afastado | Demitido
  datatype Turno = Matutino | Vespertino | Noturno | Integral
  datatype StatusTurma = Ativa | Finalizada | Cancelada
  datatype StatusMatricula = Ativa | Trancada | Transferida | Concluida
  datatype StatusComunicado = Rascunho | Publicado | Expirado
  datatype StatusFinanceiro = Pendente | Pago | Atrasado | Cancelado

  datatype Usuario = Usuario(
    nome: string,
    email: string,
    senhaHash: string,
    tipoUsuario: TipoUsuario,
    status: StatusUsuario,
    dataCriacao: Time,
    dataUltimaAtualizacao: Time,
    fotoPerfil: Option<string>,
    telefone: Option<string>,
    cpf: Option<string>)

  /** A login session: its bearer token and when it stops being accepted. */
  datatype Sessao = Sessao(usuarioId: int, token: string, dataCriacao: Time, dataExpiracao: Time)

  datatype Escola = Escola(nome: string, diretorId: Option<int>, status: StatusEscola)
  datatype Curso = Curso(nome: string)
  datatype Disciplina = Disciplina(nome: string)
  datatype Responsavel = Responsavel(usuarioId: int)

  /** The personal and school data of a student, as the create and update forms carry it. */
  datatype DadosAluno = DadosAluno(
    nomeCompleto: string,
    dataNascimento: Time,
    sexo: Sexo,
    rg: Option<string>,
    cpf: Option<string>,
    endereco: Option<string>,
    cidade: Option<string>,
    estado: Option<string>,
    cep: Option<string>,
    telefoneResponsavel: Option<string>,
    emailResponsavel: Option<string>,
    escolaId: int)

  datatype Aluno = Aluno(
    usuarioId: int,
    matricula: string,
    dados: DadosAluno,
    status: StatusAluno,
    dataMatricula: Time)

  /** The personal and contract data of a teacher, as the create and update forms carry it. */
  datatype DadosProfessor = DadosProfessor(
    nomeCompleto: string,
    cpf: string,
    rg: Option<string>,
    dataNascimento: Time,
    formacao: Option<string>,
    especializacao: Option<string>,
    salario: Option<real>,
    cargaHorariaSemanal: int,
    escolaId: int)

  datatype Professor = Professor(
    usuarioId: int,
    codigoProfessor: string,
    dados: DadosProfessor,
    dataAdmissao: Time,
    status: StatusProfessor)

  /** A subject a teacher teaches in a school year. */
  datatype ProfessorDisciplina = ProfessorDisciplina(professorId: int, disciplinaId: int, anoLetivo: int, status: bool)

  /** The data of a class, as the create and update forms carry it. */
  datatype DadosTurma = DadosTurma(
    nome: string,
    anoLetivo: int,
    serie: Option<string>,
    turno: Turno,
    capacidadeMaxima: int,
    cursoId: int,
    professorCoordenadorId: Option<int>,
    sala: Option<string>,
    status: StatusTurma)

  datatype Turma = Turma(codigo: string, dados: DadosTurma)

  /** The enrollment of a student in a class. */
  datatype Matricula = Matricula(
    numeroMatricula: string,
    alunoId: int,
    turmaId: int,
    anoLetivo: int,
    dataMatricula: Time,
    status: StatusMatricula)

  /** A timetable entry: a teacher gives a subject to a class. */
  datatype Horario = Horario(turmaId: int, disciplinaId: int, professorId: int)

  datatype Nota = Nota(alunoId: int, dataLancamento: Time)
  datatype Frequencia = Frequencia(alunoId: int, dataAula: Time, presente: bool)
  datatype Comunicado = Comunicado(titulo: string, dataPublicacao: Time, dataExpiracao: Option<Time>, status: StatusComunicado)
  datatype FinanceiroAluno = FinanceiroAluno(alunoId: int, dataVencimento: Time, status: StatusFinanceiro)

  ghost predicate UniqueUserEmails(us: map<int, Usuario>) {
    forall a, b :: a in us && b in us && a != b ==> us[a].email != us[b].email
  }

  /** The store's unique index on CPF: null may repeat, any other value (including "") may not. */
  ghost predicate UniqueUserCpfs(us: map<int, Usuario>) {
    forall a, b :: a in us && b in us && a != b && us[a].cpf.Some? ==> us[a].cpf != us[b].cpf
  }

  ghost predicate UniqueAlunoMatriculas(al: map<int, Aluno>) {
    forall a, b :: a in al && b in al && a != b ==> al[a].matricula != al[b].matricula
  }

  ghost predicate UniqueAlunoCpfs(al: map<int, Aluno>) {
    forall a, b :: a in al && b in al && a != b && al[a].dados.cpf.Some? ==> al[a].dados.cpf != al[b].dados.cpf
  }

  /** Every student has its own user account. */
  ghost predicate AlunoUsers(al: map<int, Aluno>, us: map<int, Usuario>) {
    (forall a :: a in al ==> al[a].usuarioId in us)
    && (forall a, b :: a in al && b in al && a != b ==> al[a].usuarioId != al[b].usuarioId)
  }

  ghost predicate UniqueProfessorKeys(ps: map<int, Professor>) {
    forall a, b :: a in ps && b in ps && a != b ==>
      ps[a].dados.cpf != ps[b].dados.cpf && ps[a].codigoProfessor != ps[b].codigoProfessor
  }

  ghost predicate UniqueTurmaCodes(ts: map<int, Turma>) {
    forall a, b :: a in ts && b in ts && a != b ==> ts[a].codigo != ts[b].codigo
  }

  /** No (teacher, subject, year) assignment is recorded twice. */
  ghost predicate UniqueAssignments(pd: map<int, ProfessorDisciplina>) {
    forall a, b :: a in pd && b in pd && a != b ==>
      (pd[a].professorId, pd[a].disciplinaId, pd[a].anoLetivo) != (pd[b].professorId, pd[b].disciplinaId, pd[b].anoLetivo)
  }

  /** A student is enrolled at most once in a class. */
  ghost predicate UniqueEnrollments(ms: map<int, Matricula>) {
    forall a, b :: a in ms && b in ms && a != b ==>
      ms[a].turmaId != ms[b].turmaId || ms[a].alunoId != ms[b].alunoId
  }

  /** Enrollments refer to classes and students that exist. */
  ghost predicate EnrollmentLinks(ms: map<int, Matricula>, ts: map<int, Turma>, al: map<int, Aluno>) {
    forall m :: m in ms ==> ms[m].turmaId in ts && ms[m].alunoId in al
  }

  ghost predicate UniqueTokens(ss: map<int, Sessao>) {
    forall a, b :: a in ss && b in ss && a != b ==> ss[a].token != ss[b].token
  }

  /** Some user other than `except` has this e-mail address. */
  predicate EmailInUse(us: Table<Usuario>, email: string, except: Option<int>) {
    exists k :: k in us.rows && us.rows[k].email == email && except != Some(k)
  }

  /** Some user other than `except` has this (non-null) CPF. */
  predicate UserCpfInUse(us: Table<Usuario>, cpf: Option<string>, except: Option<int>) {
    cpf.Some? && exists k :: k in us.rows && us.rows[k].cpf == cpf && except != Some(k)
  }

  ghost predicate UsuariosInv(us: Table<Usuario>) {
    us.Wf() && UniqueUserEmails(us.rows) && UniqueUserCpfs(us.rows)
  }

  ghost predicate SessoesInv(ss: Table<Sessao>) {
    ss.Wf() && UniqueTokens(ss.rows)
  }

  ghost predicate AlunosInv(al: Table<Aluno>, us: Table<Usuario>) {
    al.Wf() && UniqueAlunoMatriculas(al.rows) && UniqueAlunoCpfs(al.rows) && AlunoUsers(al.rows, us.rows)
  }

  ghost predicate ProfessoresInv(ps: Table<Professor>) {
    ps.Wf() && UniqueProfessorKeys(ps.rows)
  }

  ghost predicate TurmasInv(ts: Table<Turma>) {
    ts.Wf() && UniqueTurmaCodes(ts.rows)
  }

  /** Assignments refer to teachers that exist. */
  ghost predicate AssignmentLinks(pd: map<int, ProfessorDisciplina>, ps: map<int, Professor>) {
    forall k :: k in pd ==> pd[k].professorId in ps
  }

  ghost predicate AtribuicoesInv(pd: Table<ProfessorDisciplina>, ps: Table<Professor>) {
    pd.Wf() && UniqueAssignments(pd.rows) && AssignmentLinks(pd.rows, ps.rows)
  }

  ghost predicate MatriculasInv(ms: Table<Matricula>, ts: Table<Turma>, al: Table<Aluno>) {
    ms.Wf() && UniqueEnrollments(ms.rows) && EnrollmentLinks(ms.rows, ts.rows, al.rows)
  }

  /** The contents of the whole store at one moment. */
  datatype Snapshot = Snapshot(
    usuarios: Table<Usuario>,
    sessoes: Table<Sessao>,
    escolas: Table<Escola>,
    cursos: Table<Curso>,
    disciplinas: Table<Disciplina>,
    responsaveis: Table<Responsavel>,
    alunos: Table<Aluno>,
    professores: Table<Professor>,
    professoresDisciplinas: Table<ProfessorDisciplina>,
    turmas: Table<Turma>,
    matriculas: Table<Matricula>,
    horarios: Table<Horario>,
    notas: Table<Nota>,
    frequencias: Table<Frequencia>,
    comunicados: Table<Comunicado>,
    financeiroAlunos: Table<FinanceiroAluno>)
  {
    /** Every table is well formed and each group of tables keeps its invariant. */
    ghost predicate Inv() {
      UsuariosInv(usuarios) && SessoesInv(sessoes) && AlunosInv(alunos, usuarios)
      && ProfessoresInv(professores) && TurmasInv(turmas) && AtribuicoesInv(professoresDisciplinas, professores)
      && MatriculasInv(matriculas, turmas, alunos)
      && escolas.Wf() && cursos.Wf() && disciplinas.Wf() && responsaveis.Wf() && horarios.Wf()
      && notas.Wf() && frequencias.Wf() && comunicados.Wf() && financeiroAlunos.Wf()
    }
  }

  /** The store invariant with the class and enrollment tables replaced holds exactly
   *  when the new tables keep their own invariants. */
  lemma InvOfTurmasMatriculas(s: Snapshot, ts: Table<Turma>, ms: Table<Matricula>)
    requires s.Inv()
    ensures s.(turmas := ts, matriculas := ms).Inv() <==> TurmasInv(ts) && MatriculasInv(ms, ts, s.alunos)
  {
  }

  /** The same for the session table. */
  lemma InvOfSessoes(s: Snapshot, ss: Table<Sessao>)
    requires s.Inv()
    ensures s.(sessoes := ss).Inv() <==> SessoesInv(ss)
  {
  }

  /** The same for the user table alone. */
  lemma InvOfUsuarios(s: Snapshot, us: Table<Usuario>)
    requires s.Inv()
    ensures s.(usuarios := us).Inv() <==> UsuariosInv(us) && AlunosInv(s.alunos, us)
  {
  }

  /** The same for the user and student tables. */
  lemma InvOfUsuariosAlunos(s: Snapshot, us: Table<Usuario>, al: Table<Aluno>)
    requires s.Inv()
    ensures s.(usuarios := us, alunos := al).Inv()
            <==> UsuariosInv(us) && AlunosInv(al, us) && MatriculasInv(s.matriculas, s.turmas, al)
  {
  }

  /** The messages of the exceptions the services turn into error responses. */
  const NullReferenceMessage: string := "Object reference not set to an instance of an object."
  const NullEntityMessage: string := "Value cannot be null. (Parameter 'entity')"
  const SaveFailedMessage: string := "An error occurred while saving the entity changes. See the inner exception for details."

  /** The same for the teacher and assignment tables. */
  lemma InvOfProfessores(s: Snapshot, ps: Table<Professor>, pd: Table<ProfessorDisciplina>)
    requires s.Inv()
    ensures s.(professores := ps, professoresDisciplinas := pd).Inv() <==> ProfessoresInv(ps) && AtribuicoesInv(pd, ps)
  {
  }

  /** The database context: one table per entity set the services use. */
  class Db {
    var usuarios: Table<Usuario>
    var sessoes: Table<Sessao>
    var escolas: Table<Escola>
    var cursos: Table<Curso>
    var disciplinas: Table<Disciplina>
    var responsaveis: Table<Responsavel>
    var alunos: Table<Aluno>
    var professores: Table<Professor>
    var professoresDisciplinas: Table<ProfessorDisciplina>
    var turmas: Table<Turma>
    var matriculas: Table<Matricula>
    var horarios: Table<Horario>
    var notas: Table<Nota>
    var frequencias: Table<Frequencia>
    var comunicados: Table<Comunicado>
    var financeiroAlunos: Table<FinanceiroAluno>

    /** The contents of every table. */
    function State(): Snapshot
      reads this
    {
      Snapshot(usuarios, sessoes, escolas, cursos, disciplinas, responsaveis, alunos, professores,
               professoresDisciplinas, turmas, matriculas, horarios, notas, frequencias, comunicados,
               financeiroAlunos)
    }

    /** The store invariant. */
    ghost predicate Valid()
      reads this
    {
      State().Inv()
    }

    /** A freshly created, empty store. */
    constructor ()
      ensures Valid()
      ensures usuarios == Empty() && sessoes == Empty() && escolas == Empty() && cursos == Empty()
      ensures disciplinas == Empty() && responsaveis == Empty() && alunos == Empty()
      ensures professores == Empty() && professoresDisciplinas == Empty() && turmas == Empty()
      ensures matriculas == Empty() && horarios == Empty() && notas == Empty()
      ensures frequencias == Empty() && comunicados == Empty() && financeiroAlunos == Empty()
    {
      usuarios := Empty();
      sessoes := Empty();
      escolas := Empty();
      cursos := Empty();
      disciplinas := Empty();
      responsaveis := Empty();
      alunos := Empty();
      professores := Empty();
      professoresDisciplinas := Empty();
      turmas := Empty();
      matriculas := Empty();
      horarios := Empty();
      notas := Empty();
      frequencias := Empty();
      comunicados := Empty();
      financeiroAlunos := Empty();
    }
  }

  /** The password hash the store keeps (a stand-in for BCrypt, without its salt). */
  function Hash(password: string): (h: string)
    ensures |h| > |password|
  {
    "$hash$" + password
  }

  /** Password verification against a stored hash. */
  predicate VerifyPassword(password: string, hash: string) {
    hash == Hash(password)
  }

  /** A hash verifies exactly the password it was made from. */
  lemma HashVerifies(p: string, q: string)
    ensures VerifyPassword(p, Hash(p))
    ensures VerifyPassword(q, Hash(p)) <==> p == q
  {
    if VerifyPassword(q, Hash(p)) {
      assert Hash(q)[6..] == q && Hash(p)[6..] == p;
    }
  }
}
