/** DashboardController: the headline counts, the per-category statistics, the alerts
 *  (low attendance, overdue payments, expired announcements) and the feed of recent
 *  activity, computed from the store at the moment `now` (seconds). Percentages are
 *  exact rationals; the texts the controller formats from names and numbers are not
 *  modelled, only the records they describe. */
module Dashboard {
  import opened Wrappers
  import opened Sequences
  import opened Tables
  import opened Models

  // ---------------------------------------------------------------------------
  // Bimester and percentages

  /** GetBimestreAtual: February to April is the first bimester, May to July the
   *  second, August to October the third, and November to January the fourth. */
  function BimestreAtual(mes: int): (r: int)
    ensures 1 <= r <= 4
  {
    if 2 <= mes <= 4 then 1
    else if 5 <= mes <= 7 then 2
    else if 8 <= mes <= 10 then 3
    else 4
  }

  /** Each bimester is three consecutive months counted from February. */
  lemma BimestreQuarters(mes: int)
    requires 1 <= mes <= 12
    ensures BimestreAtual(mes) == ((mes + 10) % 12) / 3 + 1
  {
  }

  /** `total > 0 ? parte / total * 100 : 0` */
  function Percentual(parte: nat, total: nat): (r: real)
    ensures total == 0 ==> r == 0.0
    ensures total > 0 ==> r * (total as real) == (parte as real) * 100.0
    ensures parte <= total ==> 0.0 <= r <= 100.0
  {
    if total > 0 then (parte as real) / (total as real) * 100.0 else 0.0
  }

  // ---------------------------------------------------------------------------
  // Headline counts

  predicate EscolaAtiva(e: Escola) { e.status == StatusEscola.Ativa }
  predicate AlunoMatriculado(a: Aluno) { a.status == StatusAluno.Matriculado }
  predicate ProfessorAtivo(p: Professor) { p.status == StatusProfessor.Ativo }
  predicate TurmaAtiva(t: Turma) { t.dados.status == StatusTurma.Ativa }
  predicate UsuarioAtivo(u: Usuario) { u.status == StatusUsuario.Ativo }

  /** Attendance records from `inicio` on, and those of them that are presences. */
  function AulaDesde(inicio: Time): Frequencia -> bool {
    (f: Frequencia) => f.dataAula >= inicio
  }

  function PresencaDesde(inicio: Time): Frequencia -> bool {
    (f: Frequencia) => f.dataAula >= inicio && f.presente
  }

  datatype DashboardGeral = DashboardGeral(
    totalEscolas: nat,
    totalAlunos: nat,
    totalProfessores: nat,
    totalTurmas: nat,
    totalUsuarios: nat,
    percentualFrequencia: real)

  /** GetDashboardGeral: the active schools, enrolled students, active teachers, active
   *  classes and active users, and the share of presences among the attendance
   *  records of the last 30 days. */
  function Geral(s: Snapshot, now: Time): (r: DashboardGeral)
    ensures 0.0 <= r.percentualFrequencia <= 100.0
    ensures s.frequencias.CountWhere(AulaDesde(now - 30 * Day)) == 0 ==> r.percentualFrequencia == 0.0
    ensures r.totalAlunos <= |s.alunos.Ids()| && r.totalUsuarios <= |s.usuarios.Ids()|
  {
    var inicio := now - 30 * Day;
    var presencas := s.frequencias.CountWhere(PresencaDesde(inicio));
    var aulas := s.frequencias.CountWhere(AulaDesde(inicio));
    CountWhereMono(s.frequencias, PresencaDesde(inicio), AulaDesde(inicio));
    CountWhereMono(s.alunos, AlunoMatriculado, AlunoMatriculado);
    CountWhereMono(s.usuarios, UsuarioAtivo, UsuarioAtivo);
    DashboardGeral(s.escolas.CountWhere(EscolaAtiva), s.alunos.CountWhere(AlunoMatriculado),
                   s.professores.CountWhere(ProfessorAtivo), s.turmas.CountWhere(TurmaAtiva),
                   s.usuarios.CountWhere(UsuarioAtivo), Percentual(presencas, aulas))
  }

  /** A headline count is zero exactly when no such row exists. */
  lemma GeralCountsRows(s: Snapshot, now: Time)
    requires s.alunos.Wf()
    ensures Geral(s, now).totalAlunos == 0 <==>
              forall k :: k in s.alunos.rows ==> s.alunos.rows[k].status != StatusAluno.Matriculado
  {
    if Geral(s, now).totalAlunos != 0 {
      var k :| k in s.alunos.rows && AlunoMatriculado(s.alunos.rows[k]);
    }
  }

  // ---------------------------------------------------------------------------
  // Statistics

  datatype Estatistica = Estatistica(categoria: string, total: nat, ativos: nat, inativos: int, percentual: real)

  const CategoriaUsuarios := "Usuários"
  const CategoriaAlunos := "Alunos"
  const CategoriaProfessores := "Professores"
  const CategoriaTurmas := "Turmas"

  /** One category's entry: the inactive rows are the others, the percentage is that
   *  of the active ones. */
  function Entrada(categoria: string, total: nat, ativos: nat): (e: Estatistica)
    ensures e.categoria == categoria && e.total == total && e.ativos == ativos
    ensures ativos <= total ==> Consistent(e)
  {
    Estatistica(categoria, total, ativos, total - ativos, Percentual(ativos, total))
  }

  /** The entry is consistent: active and inactive add up to the total, and the
   *  percentage lies in 0..100 and is 0 for an empty category. */
  predicate Consistent(e: Estatistica) {
    e.ativos + e.inativos == e.total && e.inativos >= 0 && 0.0 <= e.percentual <= 100.0
    && (e.total == 0 ==> e.percentual == 0.0)
  }

  /** GetEstatisticas: four entries, users, students, teachers and classes, each with
   *  its row count and its count of active (for students: enrolled) rows. */
  method GetEstatisticas(db: Db) returns (r: seq<Estatistica>)
    ensures |r| == 4
    ensures r[0].categoria == CategoriaUsuarios && r[1].categoria == CategoriaAlunos
    ensures r[2].categoria == CategoriaProfessores && r[3].categoria == CategoriaTurmas
    ensures r[0].total == |db.usuarios.Ids()| && r[0].ativos == db.usuarios.CountWhere(UsuarioAtivo)
    ensures r[1].total == |db.alunos.Ids()| && r[1].ativos == db.alunos.CountWhere(AlunoMatriculado)
    ensures r[2].total == |db.professores.Ids()| && r[2].ativos == db.professores.CountWhere(ProfessorAtivo)
    ensures r[3].total == |db.turmas.Ids()| && r[3].ativos == db.turmas.CountWhere(TurmaAtiva)
    ensures Consistent(r[0]) && Consistent(r[1]) && Consistent(r[2]) && Consistent(r[3])
  {
    var estatisticas: seq<Estatistica> := [];

    var usuarios := EntradaDe(CategoriaUsuarios, db.usuarios, UsuarioAtivo);
    estatisticas := estatisticas + [usuarios];

    var alunos := EntradaDe(CategoriaAlunos, db.alunos, AlunoMatriculado);
    estatisticas := estatisticas + [alunos];

    var professores := EntradaDe(CategoriaProfessores, db.professores, ProfessorAtivo);
    estatisticas := estatisticas + [professores];

    var turmas := EntradaDe(CategoriaTurmas, db.turmas, TurmaAtiva);
    estatisticas := estatisticas + [turmas];

    r := estatisticas;
  }

  /** The entry of one table: its row count and its count of rows passing `ativo`. */
  function EntradaDe<T>(categoria: string, t: Table<T>, ativo: T -> bool): (e: Estatistica)
    ensures e.categoria == categoria && e.total == |t.Ids()| && e.ativos == t.CountWhere(ativo)
    ensures Consistent(e)
  {
    CountWhereMono(t, ativo, ativo);
    Entrada(categoria, |t.Ids()|, t.CountWhere(ativo))
  }

  // ---------------------------------------------------------------------------
  // Alerts

  /** An alert: a student's attendance (presences out of records), the count of
   *  overdue payments, or the count of expired announcements. */
  datatype Alerta =
    | BaixaFrequencia(alunoId: int, presencas: nat, aulas: nat)
    | Financeiro(atrasados: nat)
    | ComunicadosExpirados(expirados: nat)

  function Tipo(a: Alerta): string {
    match a
    case BaixaFrequencia(_, _, _) => "Baixa Frequência"
    case Financeiro(_) => "Financeiro"
    case ComunicadosExpirados(_) => "Comunicados"
  }

  function Prioridade(a: Alerta): string {
    match a
    case BaixaFrequencia(_, _, _) => "Alta"
    case Financeiro(_) => "Média"
    case ComunicadosExpirados(_) => "Baixa"
  }

  /** The position of an alert's kind in the list. */
  function Rank(a: Alerta): nat {
    match a
    case BaixaFrequencia(_, _, _) => 0
    case Financeiro(_) => 1
    case ComunicadosExpirados(_) => 2
  }

  const MaxAlertas := 10

  function AulasDe(alunoId: int): Frequencia -> bool {
    (f: Frequencia) => f.alunoId == alunoId
  }

  function PresencasDe(alunoId: int): Frequencia -> bool {
    (f: Frequencia) => f.alunoId == alunoId && f.presente
  }

  /** Below 75% attendance, over at least one record (`presencas / aulas * 100 < 75`,
   *  compared exactly). */
  predicate Baixa(presencas: nat, aulas: nat) {
    aulas > 0 && presencas * 100 < 75 * aulas
  }

  /** The alert of one enrolled student, if any. */
  function AlertaDe(fs: Table<Frequencia>, alunoId: int): seq<Alerta> {
    var aulas := fs.CountWhere(AulasDe(alunoId));
    var presencas := fs.CountWhere(PresencasDe(alunoId));
    if Baixa(presencas, aulas) then [BaixaFrequencia(alunoId, presencas, aulas)] else []
  }

  /** The attendance alerts of the students `ids`, in that order. */
  function AlertasFrequencia(ids: seq<int>, fs: Table<Frequencia>): (r: seq<Alerta>)
    ensures forall i :: 0 <= i < |r| ==> r[i].BaixaFrequencia?
    decreases |ids|
  {
    if |ids| == 0 then []
    else AlertasFrequencia(ids[..|ids| - 1], fs) + AlertaDe(fs, ids[|ids| - 1])
  }

  /** Overdue: marked late and past its due date. */
  function AtrasadoEm(now: Time): FinanceiroAluno -> bool {
    (f: FinanceiroAluno) => f.status == StatusFinanceiro.Atrasado && f.dataVencimento < now
  }

  /** Expired: published, with an expiry date already past (a missing date never is). */
  function ExpiradoEm(now: Time): Comunicado -> bool {
    (c: Comunicado) => c.status == StatusComunicado.Publicado && c.dataExpiracao.Some? && c.dataExpiracao.value < now
  }

  /** The payments alert for overdue payments, then the announcements alert for
   *  expired announcements. */
  function Cauda(atrasados: nat, expirados: nat): seq<Alerta> {
    (if atrasados > 0 then [Financeiro(atrasados)] else [])
    + (if expirados > 0 then [ComunicadosExpirados(expirados)] else [])
  }

  /** Every alert, before truncation: the enrolled students' attendance alerts in store
   *  order, then the others. */
  function TodosAlertas(al: Table<Aluno>, fs: Table<Frequencia>, fin: Table<FinanceiroAluno>,
                        cs: Table<Comunicado>, now: Time): seq<Alerta>
  {
    AlertasFrequencia(al.IdsWhere(AlunoMatriculado), fs) + Cauda(fin.CountWhere(AtrasadoEm(now)), cs.CountWhere(ExpiradoEm(now)))
  }

  /** Appending the payments alert and then the announcements alert, each when its count
   *  is positive, appends Cauda. */
  lemma CaudaSteps(f: seq<Alerta>, g: seq<Alerta>, h: seq<Alerta>, atrasados: nat, expirados: nat)
    requires g == if atrasados > 0 then f + [Financeiro(atrasados)] else f
    requires h == if expirados > 0 then g + [ComunicadosExpirados(expirados)] else g
    ensures h == f + Cauda(atrasados, expirados)
  {
    assert f + [] == f;
    if atrasados > 0 && expirados > 0 {
      assert f + [Financeiro(atrasados)] + [ComunicadosExpirados(expirados)]
          == f + ([Financeiro(atrasados)] + [ComunicadosExpirados(expirados)]);
    }
  }

  /** The loop of GetAlertas over the enrolled students: one alert for each student
   *  below 75% attendance, in the order given. */
  method FrequencyLoop(db: Db, alunos: seq<int>) returns (alertas: seq<Alerta>)
    ensures alertas == AlertasFrequencia(alunos, db.frequencias)
  {
    alertas := [];
    var i := 0;
    while i < |alunos|
      invariant 0 <= i <= |alunos|
      invariant alertas == AlertasFrequencia(alunos[..i], db.frequencias)
    {
      var id := alunos[i];
      var totalAulas := db.frequencias.CountWhere(AulasDe(id));
      var totalPresencas := db.frequencias.CountWhere(PresencasDe(id));
      ghost var antes := alertas;
      if totalAulas > 0 {
        if totalPresencas * 100 < 75 * totalAulas {
          alertas := alertas + [BaixaFrequencia(id, totalPresencas, totalAulas)];
        }
      }
      assert alertas == antes + AlertaDe(db.frequencias, id);
      assert alunos[..i + 1][..i] == alunos[..i];
      i := i + 1;
    }
    assert alunos[..|alunos|] == alunos;
  }

  /** GetAlertas: collects the alerts and answers the first ten. */
  method GetAlertas(db: Db, now: Time) returns (r: seq<Alerta>)
    ensures r == Take(TodosAlertas(db.alunos, db.frequencias, db.financeiroAlunos, db.comunicados, now), MaxAlertas)
  {
    var alunos := db.alunos.IdsWhere(AlunoMatriculado);
    var alertas := FrequencyLoop(db, alunos);
    ghost var frequencia := alertas;

    var pagamentosAtrasados := db.financeiroAlunos.CountWhere(AtrasadoEm(now));
    if pagamentosAtrasados > 0 {
      alertas := alertas + [Financeiro(pagamentosAtrasados)];
    }
    ghost var comFinanceiro := alertas;

    var comunicadosExpirados := db.comunicados.CountWhere(ExpiradoEm(now));
    if comunicadosExpirados > 0 {
      alertas := alertas + [ComunicadosExpirados(comunicadosExpirados)];
    }
    CaudaSteps(frequencia, comFinanceiro, alertas, pagamentosAtrasados, comunicadosExpirados);

    r := Take(alertas, MaxAlertas);
  }

  /** A student's attendance alert is listed exactly when the student is among `ids`
   *  and has records, below 75% of them presences; it carries the student's counts. */
  lemma {:induction false} AlertasFrequenciaMembers(ids: seq<int>, fs: Table<Frequencia>, a: Alerta)
    ensures a in AlertasFrequencia(ids, fs) <==>
      && a.BaixaFrequencia? && a.alunoId in ids
      && a.aulas == fs.CountWhere(AulasDe(a.alunoId)) && a.presencas == fs.CountWhere(PresencasDe(a.alunoId))
      && Baixa(a.presencas, a.aulas)
    decreases |ids|
  {
    if |ids| > 0 {
      var init := ids[..|ids| - 1];
      AlertasFrequenciaMembers(init, fs, a);
      assert ids == init + [ids[|ids| - 1]];
      assert forall x :: x in ids <==> x in init || x == ids[|ids| - 1];
    }
  }

  /** Before truncation, an enrolled student has an alert exactly when at least one
   *  record exists and fewer than 75% are presences; a student without records never
   *  has one, nor does one who is not enrolled. */
  lemma AlertaIffBaixaFrequencia(al: Table<Aluno>, fs: Table<Frequencia>, fin: Table<FinanceiroAluno>,
                                 cs: Table<Comunicado>, now: Time, id: int)
    requires al.Wf()
    ensures (exists a :: a in TodosAlertas(al, fs, fin, cs, now) && a.BaixaFrequencia? && a.alunoId == id) <==>
      && id in al.rows && al.rows[id].status == StatusAluno.Matriculado
      && Baixa(fs.CountWhere(PresencasDe(id)), fs.CountWhere(AulasDe(id)))
  {
    if exists a :: a in TodosAlertas(al, fs, fin, cs, now) && a.BaixaFrequencia? && a.alunoId == id {
      var a :| a in TodosAlertas(al, fs, fin, cs, now) && a.BaixaFrequencia? && a.alunoId == id;
      AlertaListadoBaixo(al, fs, fin, cs, now, a);
    }
    if id in al.rows && al.rows[id].status == StatusAluno.Matriculado
       && Baixa(fs.CountWhere(PresencasDe(id)), fs.CountWhere(AulasDe(id)))
    {
      AlertaBaixoListado(al, fs, fin, cs, now, id);
    }
  }

  /** An attendance alert in the list belongs to an enrolled student whose counts are low. */
  lemma AlertaListadoBaixo(al: Table<Aluno>, fs: Table<Frequencia>, fin: Table<FinanceiroAluno>,
                           cs: Table<Comunicado>, now: Time, a: Alerta)
    requires a in TodosAlertas(al, fs, fin, cs, now) && a.BaixaFrequencia?
    ensures a.alunoId in al.rows && al.rows[a.alunoId].status == StatusAluno.Matriculado
    ensures Baixa(fs.CountWhere(PresencasDe(a.alunoId)), fs.CountWhere(AulasDe(a.alunoId)))
  {
    var ids := al.IdsWhere(AlunoMatriculado);
    assert a !in Cauda(fin.CountWhere(AtrasadoEm(now)), cs.CountWhere(ExpiradoEm(now)));
    AlertasFrequenciaMembers(ids, fs, a);
    var k :| 0 <= k < |ids| && ids[k] == a.alunoId;
  }

  /** An enrolled student with low counts has an alert in the list, carrying those counts. */
  lemma AlertaBaixoListado(al: Table<Aluno>, fs: Table<Frequencia>, fin: Table<FinanceiroAluno>,
                           cs: Table<Comunicado>, now: Time, id: int)
    requires al.Wf()
    requires id in al.rows && al.rows[id].status == StatusAluno.Matriculado
    requires Baixa(fs.CountWhere(PresencasDe(id)), fs.CountWhere(AulasDe(id)))
    ensures BaixaFrequencia(id, fs.CountWhere(PresencasDe(id)), fs.CountWhere(AulasDe(id)))
            in TodosAlertas(al, fs, fin, cs, now)
  {
    var ids := al.IdsWhere(AlunoMatriculado);
    assert id in ids;
    AlertasFrequenciaMembers(ids, fs, BaixaFrequencia(id, fs.CountWhere(PresencasDe(id)), fs.CountWhere(AulasDe(id))));
  }

  lemma MulMonoReal(x: real, y: real, c: real)
    requires x >= y && c > 0.0
    ensures x * c >= y * c
  {
  }

  /** Below 75% of a positive count is a share below 75. */
  lemma BaixaShare(presencas: nat, aulas: nat)
    requires Baixa(presencas, aulas)
    ensures Percentual(presencas, aulas) < 75.0
  {
    var r := Percentual(presencas, aulas);
    if r >= 75.0 {
      MulMonoReal(r, 75.0, aulas as real);
      assert false;
    }
  }

  /** An alerted student's presences never exceed its records, so the alerted share
   *  lies in 0..75%. */
  lemma AlertaShare(fs: Table<Frequencia>, id: int)
    ensures fs.CountWhere(PresencasDe(id)) <= fs.CountWhere(AulasDe(id))
    ensures Baixa(fs.CountWhere(PresencasDe(id)), fs.CountWhere(AulasDe(id))) ==>
              0.0 <= Percentual(fs.CountWhere(PresencasDe(id)), fs.CountWhere(AulasDe(id))) < 75.0
  {
    CountWhereMono(fs, PresencasDe(id), AulasDe(id));
    if Baixa(fs.CountWhere(PresencasDe(id)), fs.CountWhere(AulasDe(id))) {
      BaixaShare(fs.CountWhere(PresencasDe(id)), fs.CountWhere(AulasDe(id)));
    }
  }

  /** The payments alert comes before the announcements alert, and each carries its
   *  positive count. */
  lemma CaudaOrdered(atrasados: nat, expirados: nat)
    ensures var c := Cauda(atrasados, expirados);
      && (forall i, j :: 0 <= i < j < |c| ==> Rank(c[i]) < Rank(c[j]))
      && (forall i :: 0 <= i < |c| ==> Rank(c[i]) >= 1 && !c[i].BaixaFrequencia?)
      && (forall a :: a in c && a.Financeiro? ==> a.atrasados == atrasados > 0)
      && (forall a :: a in c && a.ComunicadosExpirados? ==> a.expirados == expirados > 0)
  {
  }

  /** The first ten of attendance alerts followed by the others: at most ten, in kind
   *  order, the payments and announcements alerts carrying their counts, and only
   *  attendance alerts once there are ten of those. */
  lemma CaudaShape(freq: seq<Alerta>, atrasados: nat, expirados: nat)
    requires forall i :: 0 <= i < |freq| ==> freq[i].BaixaFrequencia?
    ensures var r := Take(freq + Cauda(atrasados, expirados), MaxAlertas);
      && |r| <= MaxAlertas
      && (forall i, j :: 0 <= i < j < |r| ==> Rank(r[i]) <= Rank(r[j]))
      && (forall a :: a in r && a.Financeiro? ==> a.atrasados == atrasados > 0)
      && (forall a :: a in r && a.ComunicadosExpirados? ==> a.expirados == expirados > 0)
      && (|freq| >= MaxAlertas ==> r == freq[..MaxAlertas])
  {
    var c := Cauda(atrasados, expirados);
    var all := freq + c;
    CaudaOrdered(atrasados, expirados);
    assert forall i, j :: 0 <= i < j < |all| ==> Rank(all[i]) <= Rank(all[j]) by {
      forall i, j | 0 <= i < j < |all| ensures Rank(all[i]) <= Rank(all[j]) {
        if j < |freq| {
          assert all[i] == freq[i] && all[j] == freq[j];
        } else if i < |freq| {
          assert all[i] == freq[i] && all[j] == c[j - |freq|];
        } else {
          assert all[i] == c[i - |freq|] && all[j] == c[j - |freq|];
        }
      }
    }
    assert forall a :: a in all && !a.BaixaFrequencia? ==> a in c;
    var r := Take(all, MaxAlertas);
    assert forall i :: 0 <= i < |r| ==> r[i] == all[i];
    if |freq| >= MaxAlertas {
      assert r == freq[..MaxAlertas];
    }
  }

  /** The answered alerts are at most ten, in kind order (attendance, payments,
   *  announcements); the payments alert is listed only for overdue payments and the
   *  announcements alert only for expired announcements, and both are cut off once
   *  ten students are alerted. */
  lemma AlertasShape(al: Table<Aluno>, fs: Table<Frequencia>, fin: Table<FinanceiroAluno>,
                     cs: Table<Comunicado>, now: Time)
    ensures var r := Take(TodosAlertas(al, fs, fin, cs, now), MaxAlertas);
      var freq := AlertasFrequencia(al.IdsWhere(AlunoMatriculado), fs);
      && |r| <= MaxAlertas
      && (forall i, j :: 0 <= i < j < |r| ==> Rank(r[i]) <= Rank(r[j]))
      && (forall a :: a in r && a.Financeiro? ==> a.atrasados == fin.CountWhere(AtrasadoEm(now)) > 0)
      && (forall a :: a in r && a.ComunicadosExpirados? ==> a.expirados == cs.CountWhere(ExpiradoEm(now)) > 0)
      && (|freq| >= MaxAlertas ==> r == freq[..MaxAlertas])
  {
    CaudaShape(AlertasFrequencia(al.IdsWhere(AlunoMatriculado), fs), fin.CountWhere(AtrasadoEm(now)),
               cs.CountWhere(ExpiradoEm(now)));
  }

  // ---------------------------------------------------------------------------
  // Recent activity

  datatype TipoAtividade = MatriculaFeita | NotaLancada | ComunicadoPublicado

  /** A feed item: its kind, the identity of the row it reports and its date. */
  datatype Atividade = Atividade(tipo: TipoAtividade, id: int, data: Time)

  const Semana := 7 * Day
  const PorFonte := 5
  const MaxAtividades := 15

  /** OrderByDescending on the date. */
  function MaisRecente(a: Atividade, b: Atividade): bool {
    a.data >= b.data
  }

  lemma MaisRecenteIsOrder()
    ensures Total(MaisRecente) && Transitive(MaisRecente)
  {
  }

  function MatriculaDesde(desde: Time): Matricula -> bool {
    (m: Matricula) => m.dataMatricula >= desde
  }

  function NotaDesde(desde: Time): Nota -> bool {
    (n: Nota) => n.dataLancamento >= desde
  }

  function ComunicadoDesde(desde: Time): Comunicado -> bool {
    (c: Comunicado) => c.dataPublicacao >= desde
  }

  function DeMatricula(e: (int, Matricula)): Atividade { Atividade(MatriculaFeita, e.0, e.1.dataMatricula) }
  function DeNota(e: (int, Nota)): Atividade { Atividade(NotaLancada, e.0, e.1.dataLancamento) }
  function DeComunicado(e: (int, Comunicado)): Atividade { Atividade(ComunicadoPublicado, e.0, e.1.dataPublicacao) }

  /** The newest `n` of the items, newest first. */
  function Ultimas(s: seq<Atividade>, n: int): seq<Atividade> {
    Take(SortBy(s, MaisRecente), n)
  }

  /** The newest five enrollments, grades and announcements of the last seven days
   *  (announcements whatever their status). */
  function UltimasMatriculas(ms: Table<Matricula>, now: Time): seq<Atividade> {
    Ultimas(Select(ms.EntriesWhere(MatriculaDesde(now - Semana)), DeMatricula), PorFonte)
  }

  function UltimasNotas(ns: Table<Nota>, now: Time): seq<Atividade> {
    Ultimas(Select(ns.EntriesWhere(NotaDesde(now - Semana)), DeNota), PorFonte)
  }

  function UltimosComunicados(cs: Table<Comunicado>, now: Time): seq<Atividade> {
    Ultimas(Select(cs.EntriesWhere(ComunicadoDesde(now - Semana)), DeComunicado), PorFonte)
  }

  /** GetAtividadesRecentes: the three lists one after the other, newest first, the
   *  first fifteen. */
  function AtividadesRecentes(ms: Table<Matricula>, ns: Table<Nota>, cs: Table<Comunicado>, now: Time)
    : seq<Atividade>
  {
    Ultimas(UltimasMatriculas(ms, now) + UltimasNotas(ns, now) + UltimosComunicados(cs, now), MaxAtividades)
  }

  /** The newest items are ordered newest first, come from the input, and are `n` of
   *  them (all of them when there are fewer). */
  lemma UltimasSorted(s: seq<Atividade>, n: int)
    ensures Sorted(Ultimas(s, n), MaisRecente)
    ensures forall x :: x in Ultimas(s, n) ==> x in s
    ensures |Ultimas(s, n)| == if n <= 0 then 0 else Min(n, |s|)
  {
    MaisRecenteIsOrder();
    TopSorted(s, MaisRecente, n);
  }

  /** No item the newest `n` leave out is newer than an item they keep. */
  lemma UltimasNewest(s: seq<Atividade>, n: int)
    ensures forall x, y :: x in Ultimas(s, n) && y in multiset(s) - multiset(Ultimas(s, n)) ==> x.data >= y.data
    ensures forall x, y :: x in Ultimas(s, n) && y in s && y !in Ultimas(s, n) ==> x.data >= y.data
  {
    MaisRecenteIsOrder();
    TopFirst(s, MaisRecente, n);
    forall x, y | x in Ultimas(s, n) && y in multiset(s) - multiset(Ultimas(s, n)) ensures x.data >= y.data {
      assert MaisRecente(x, y);
    }
    forall x, y | x in Ultimas(s, n) && y in s && y !in Ultimas(s, n) ensures x.data >= y.data {
      assert y in multiset(s) - multiset(Ultimas(s, n));
    }
  }

  /** The newest `n` activities made from the rows of a table that pass `p`: `n` of
   *  them, or one per passing row when there are fewer, and no passing row left out is
   *  newer than an activity kept. */
  lemma UltimasOfRows<R>(t: Table<R>, p: R -> bool, f: ((int, R)) -> Atividade, n: int)
    ensures |Ultimas(Select(t.EntriesWhere(p), f), n)| == if n <= 0 then 0 else Min(n, t.CountWhere(p))
    ensures t.Wf() ==> forall x, k :: (x in Ultimas(Select(t.EntriesWhere(p), f), n) && k in t.rows && p(t.rows[k])
                          && f((k, t.rows[k])) !in Ultimas(Select(t.EntriesWhere(p), f), n))
                          ==> x.data >= f((k, t.rows[k])).data
  {
    var e := t.EntriesWhere(p);
    var s := Select(e, f);
    assert |Ultimas(s, n)| == if n <= 0 then 0 else Min(n, t.CountWhere(p)) by {
      UltimasSorted(s, n);
    }
    if t.Wf() {
      forall x, k | x in Ultimas(s, n) && k in t.rows && p(t.rows[k]) && f((k, t.rows[k])) !in Ultimas(s, n)
        ensures x.data >= f((k, t.rows[k])).data
      {
        var i :| 0 <= i < |e| && e[i] == (k, t.rows[k]);
        assert s[i] == f((k, t.rows[k]));
        UltimasNewest(s, n);
      }
    }
  }

  /** Each source gives at most five enrollments of the last seven days, newest first,
   *  each reporting a stored enrollment with its own date. */
  lemma UltimasMatriculasShape(ms: Table<Matricula>, now: Time)
    ensures var r := UltimasMatriculas(ms, now);
      && |r| == Min(PorFonte, ms.CountWhere(MatriculaDesde(now - Semana))) && Sorted(r, MaisRecente)
      && (ms.Wf() ==> forall x, k :: (x in r && k in ms.rows && ms.rows[k].dataMatricula >= now - Semana
                         && DeMatricula((k, ms.rows[k])) !in r) ==> x.data >= ms.rows[k].dataMatricula)
      && forall x :: x in r ==>
           x.tipo == MatriculaFeita && x.id in ms.rows && x.data == ms.rows[x.id].dataMatricula && x.data >= now - Semana
  {
    var s := Select(ms.EntriesWhere(MatriculaDesde(now - Semana)), DeMatricula);
    UltimasSorted(s, PorFonte);
    forall x | x in UltimasMatriculas(ms, now)
      ensures x.tipo == MatriculaFeita && x.id in ms.rows && x.data == ms.rows[x.id].dataMatricula && x.data >= now - Semana
    {
      var i :| 0 <= i < |s| && s[i] == x;
    }
    UltimasOfRows(ms, MatriculaDesde(now - Semana), DeMatricula, PorFonte);
  }

  lemma UltimasNotasShape(ns: Table<Nota>, now: Time)
    ensures var r := UltimasNotas(ns, now);
      && |r| == Min(PorFonte, ns.CountWhere(NotaDesde(now - Semana))) && Sorted(r, MaisRecente)
      && (ns.Wf() ==> forall x, k :: (x in r && k in ns.rows && ns.rows[k].dataLancamento >= now - Semana
                         && DeNota((k, ns.rows[k])) !in r) ==> x.data >= ns.rows[k].dataLancamento)
      && forall x :: x in r ==>
           x.tipo == NotaLancada && x.id in ns.rows && x.data == ns.rows[x.id].dataLancamento && x.data >= now - Semana
  {
    var s := Select(ns.EntriesWhere(NotaDesde(now - Semana)), DeNota);
    UltimasSorted(s, PorFonte);
    forall x | x in UltimasNotas(ns, now)
      ensures x.tipo == NotaLancada && x.id in ns.rows && x.data == ns.rows[x.id].dataLancamento && x.data >= now - Semana
    {
      var i :| 0 <= i < |s| && s[i] == x;
    }
    UltimasOfRows(ns, NotaDesde(now - Semana), DeNota, PorFonte);
  }

  lemma UltimosComunicadosShape(cs: Table<Comunicado>, now: Time)
    ensures var r := UltimosComunicados(cs, now);
      && |r| == Min(PorFonte, cs.CountWhere(ComunicadoDesde(now - Semana))) && Sorted(r, MaisRecente)
      && (cs.Wf() ==> forall x, k :: (x in r && k in cs.rows && cs.rows[k].dataPublicacao >= now - Semana
                         && DeComunicado((k, cs.rows[k])) !in r) ==> x.data >= cs.rows[k].dataPublicacao)
      && forall x :: x in r ==>
           x.tipo == ComunicadoPublicado && x.id in cs.rows && x.data == cs.rows[x.id].dataPublicacao
           && x.data >= now - Semana
  {
    var s := Select(cs.EntriesWhere(ComunicadoDesde(now - Semana)), DeComunicado);
    UltimasSorted(s, PorFonte);
    forall x | x in UltimosComunicados(cs, now)
      ensures x.tipo == ComunicadoPublicado && x.id in cs.rows && x.data == cs.rows[x.id].dataPublicacao && x.data >= now - Semana
    {
      var i :| 0 <= i < |s| && s[i] == x;
    }
    UltimasOfRows(cs, ComunicadoDesde(now - Semana), DeComunicado, PorFonte);
  }

  /** The feed holds fifteen items, or all of the sources' newest when they are fewer,
   *  newest first, all of the last seven days, each one of some source's newest five,
   *  and none of those it leaves out is newer than one it shows. */
  lemma AtividadesRecentesShape(ms: Table<Matricula>, ns: Table<Nota>, cs: Table<Comunicado>, now: Time)
    ensures var r := AtividadesRecentes(ms, ns, cs, now);
      && |r| == Min(MaxAtividades, |UltimasMatriculas(ms, now)| + |UltimasNotas(ns, now)| + |UltimosComunicados(cs, now)|)
      && Sorted(r, MaisRecente)
      && (forall x, y :: (x in r && (y in UltimasMatriculas(ms, now) || y in UltimasNotas(ns, now) || y in UltimosComunicados(cs, now))
                          && y !in r) ==> x.data >= y.data)
      && forall x :: x in r ==>
           (x in UltimasMatriculas(ms, now) || x in UltimasNotas(ns, now) || x in UltimosComunicados(cs, now))
           && x.data >= now - Semana
  {
    var um, un, uc := UltimasMatriculas(ms, now), UltimasNotas(ns, now), UltimosComunicados(cs, now);
    var todas := um + un + uc;
    var r := AtividadesRecentes(ms, ns, cs, now);
    assert r == Ultimas(todas, MaxAtividades);
    UltimasSorted(todas, MaxAtividades);
    forall x | x in r ensures (x in um || x in un || x in uc) && x.data >= now - Semana {
      assert x in todas;
      UltimasMatriculasShape(ms, now);
      UltimasNotasShape(ns, now);
      UltimosComunicadosShape(cs, now);
    }
    forall x, y | x in r && (y in um || y in un || y in uc) && y !in r ensures x.data >= y.data {
      assert y in todas;
      UltimasNewest(todas, MaxAtividades);
    }
  }
}
