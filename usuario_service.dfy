/** The user service: the user listing, user creation, update, removal and the status
 *  change. Its results are a user or nothing (null) and true or false; the store's own
 *  refusals are exceptions the service does not catch. */
module UsuarioService {
  import opened Wrappers
  import opened Text
  import opened Sequences
  import opened Tables
  import opened CommonDto
  import opened Models

  // ---------------------------------------------------------------------------
  // Listing

  /** A non-empty search text occurring in the name or the e-mail address. */
  predicate UsuarioMatches(u: Usuario, search: Option<string>) {
    IsNullOrEmpty(search) || Contains(u.nome, search.value) || Contains(u.email, search.value)
  }

  /** OrderBy(u => u.Nome), ordinal. */
  predicate UsuarioOrder(a: (int, Usuario), b: (int, Usuario)) {
    StrLe(a.1.nome, b.1.nome)
  }

  lemma UsuarioOrderIsTotalOrder()
    ensures Total(UsuarioOrder) && Transitive(UsuarioOrder)
  {
    forall a: (int, Usuario), b: (int, Usuario) ensures UsuarioOrder(a, b) || UsuarioOrder(b, a) {
      StrLeTotal(a.1.nome, b.1.nome);
    }
    forall a: (int, Usuario), b: (int, Usuario), c: (int, Usuario) | UsuarioOrder(a, b) && UsuarioOrder(b, c)
      ensures UsuarioOrder(a, c)
    {
      StrLeTransitive(a.1.nome, b.1.nome, c.1.nome);
    }
  }

  /** The users that pass the search, in store order. */
  function MatchingUsuarios(us: Table<Usuario>, search: Option<string>): (r: seq<(int, Usuario)>)
    ensures forall i :: 0 <= i < |r| ==> r[i].0 in us.rows && r[i].1 == us.rows[r[i].0] && UsuarioMatches(r[i].1, search)
    ensures us.Wf() ==> forall id :: id in us.rows && UsuarioMatches(us.rows[id], search) ==> (id, us.rows[id]) in r
  {
    us.EntriesWhere((u: Usuario) => UsuarioMatches(u, search))
  }

  /** The matching users ordered by name (ties in store order). */
  function SortedUsuarios(us: Table<Usuario>, search: Option<string>): (r: seq<(int, Usuario)>)
    ensures multiset(r) == multiset(MatchingUsuarios(us, search))
  {
    SortBy(MatchingUsuarios(us, search), UsuarioOrder)
  }

  /** GetAllAsync: the page and size are taken as given (the controller normalises
   *  them); the slice at (page - 1) * pageSize of the matching users ordered by name. */
  function GetAll(us: Table<Usuario>, page: int, pageSize: int, search: Option<string>): (r: seq<(int, Usuario)>)
    ensures pageSize >= 0 ==> |r| <= pageSize
    ensures pageSize < 0 && page == 1 ==> r == SortedUsuarios(us, search)
  {
    var sorted := SortedUsuarios(us, search);
    assert Offset(1, pageSize) == 0;
    PageOf(sorted, page, pageSize)
  }

  /** Every listed user is a stored user that passes the search, and the page is ordered
   *  by name. */
  lemma GetAllItems(us: Table<Usuario>, page: int, pageSize: int, search: Option<string>)
    ensures var items := GetAll(us, page, pageSize, search);
      && (forall i :: 0 <= i < |items| ==>
            items[i].0 in us.rows && items[i].1 == us.rows[items[i].0] && UsuarioMatches(items[i].1, search))
      && Sorted(items, UsuarioOrder)
  {
    UsuarioOrderIsTotalOrder();
    SortedPage(MatchingUsuarios(us, search), UsuarioOrder, page, pageSize);
  }

  /** With a positive size, the pages one after the other list every matching user once:
   *  together they are the sorted matches, which hold each stored match; a page past
   *  the last one is empty. */
  lemma GetAllPages(us: Table<Usuario>, page: int, pageSize: int, search: Option<string>)
    requires us.Wf() && pageSize >= 1
    ensures var sorted := SortedUsuarios(us, search);
      && Pages(sorted, pageSize, CeilDiv(|sorted|, pageSize)) == sorted
      && (forall id :: id in us.rows && UsuarioMatches(us.rows[id], search) ==> (id, us.rows[id]) in sorted)
      && (page > CeilDiv(|sorted|, pageSize) ==> GetAll(us, page, pageSize, search) == [])
  {
    var all := MatchingUsuarios(us, search);
    var sorted := SortedUsuarios(us, search);
    PagesPartitionListing(sorted, pageSize);
    PagePastEndEmpty(sorted, page, pageSize);
    forall id | id in us.rows && UsuarioMatches(us.rows[id], search) ensures (id, us.rows[id]) in sorted {
      assert (id, us.rows[id]) in multiset(all);
    }
  }

  // ---------------------------------------------------------------------------
  // Writes

  /** What a write of the user service leaves: how the call ended and the user table. */
  datatype UsuarioWrite<T> = UsuarioWrite(result: Call<T>, usuarios: Table<Usuario>)

  /** The store refuses a user row whose e-mail or (non-null) CPF another user has,
   *  under its unique indexes; the service then ends with that exception. */
  predicate StoreRejects(us: Table<Usuario>, u: Usuario, except: Option<int>) {
    EmailInUse(us, u.email, except) || UserCpfInUse(us, u.cpf, except)
  }

  /** CreateUsuarioDto. */
  datatype UsuarioForm = UsuarioForm(
    nome: string,
    email: string,
    senha: string,
    tipoUsuario: TipoUsuario,
    status: StatusUsuario,
    telefone: Option<string>,
    cpf: Option<string>)

  /** The stored user of a creation form: the password is kept only as its hash, both
   *  dates are now and there is no photo. */
  function NovoUsuario(form: UsuarioForm, now: Time): (u: Usuario)
    ensures VerifyPassword(form.senha, u.senhaHash)
    ensures u.email == form.email && u.cpf == form.cpf && u.dataCriacao == now && u.fotoPerfil == None
  {
    Usuario(form.nome, form.email, Hash(form.senha), form.tipoUsuario, form.status, now, now, None,
            form.telefone, form.cpf)
  }

  /** CreateAsync: null when the e-mail is in use, or a non-empty CPF is; otherwise the
   *  user is inserted (an empty CPF another user has is refused by the store). */
  function CreateOf(us: Table<Usuario>, form: UsuarioForm, now: Time): UsuarioWrite<Option<(int, Usuario)>> {
    if EmailInUse(us, form.email, None) then UsuarioWrite(Returns(None), us)
    else if !IsNullOrEmpty(form.cpf) && UserCpfInUse(us, form.cpf, None) then UsuarioWrite(Returns(None), us)
    else
      var u := NovoUsuario(form, now);
      if StoreRejects(us, u, None) then UsuarioWrite(Throws(SaveFailedMessage), us)
      else UsuarioWrite(Returns(Some((us.next, u))), us.Add(u))
  }

  /** Creation gives null exactly for a used e-mail or a used non-empty CPF, throws
   *  exactly for an empty CPF in use, and otherwise adds exactly one user, under the
   *  next identity, made from the form, whose hash verifies the password. Only a
   *  successful creation changes the table. */
  lemma CreateOutcome(us: Table<Usuario>, form: UsuarioForm, now: Time)
    ensures var o := CreateOf(us, form, now);
      && (o.result == Returns(None) <==>
            EmailInUse(us, form.email, None) || (!IsNullOrEmpty(form.cpf) && UserCpfInUse(us, form.cpf, None)))
      && (o.result.Throws? <==>
            !EmailInUse(us, form.email, None) && form.cpf == Some("") && UserCpfInUse(us, form.cpf, None))
      && (o.result.Returns? && o.result.value.Some? <==> o.usuarios != us)
      && (o.usuarios != us ==>
            && o.result.value.value.0 == us.next
            && o.usuarios == us.Add(o.result.value.value.1)
            && o.result.value.value.1 == NovoUsuario(form, now)
            && VerifyPassword(form.senha, o.result.value.value.1.senhaHash))
  {
    var o := CreateOf(us, form, now);
    if o.usuarios != us {
      assert o.usuarios.next == us.next + 1;
    }
  }

  /** A user the store accepts keeps the user invariant once added. */
  lemma AddKeepsInv(us: Table<Usuario>, u: Usuario)
    requires UsuariosInv(us) && !StoreRejects(us, u, None)
    ensures UsuariosInv(us.Add(u))
  {
  }

  /** Creation keeps the store invariant. */
  lemma CreateKeepsInv(s: Snapshot, form: UsuarioForm, now: Time)
    requires s.Inv()
    ensures s.(usuarios := CreateOf(s.usuarios, form, now).usuarios).Inv()
  {
    var o := CreateOf(s.usuarios, form, now);
    InvOfUsuarios(s, o.usuarios);
    if o.usuarios != s.usuarios {
      AddKeepsInv(s.usuarios, NovoUsuario(form, now));
    }
  }

  method Create(db: Db, form: UsuarioForm, now: Time) returns (r: Call<Option<(int, Usuario)>>)
    requires db.Valid()
    modifies db`usuarios
    ensures UsuarioWrite(r, db.usuarios) == CreateOf(old(db.usuarios), form, now)
    ensures db.Valid()
  {
    CreateKeepsInv(db.State(), form, now);
    if EmailInUse(db.usuarios, form.email, None) {
      return Returns(None);
    }
    if !IsNullOrEmpty(form.cpf) && UserCpfInUse(db.usuarios, form.cpf, None) {
      return Returns(None);
    }
    var usuario := NovoUsuario(form, now);
    if StoreRejects(db.usuarios, usuario, None) {
      return Throws(SaveFailedMessage);
    }
    var id := db.usuarios.next;
    db.usuarios := db.usuarios.Add(usuario);
    r := Returns(Some((id, usuario)));
    assert db.State() == old(db.State()).(usuarios := db.usuarios);
  }

  /** UpdateUsuarioDto: the creation form without the password. */
  datatype UsuarioUpdateForm = UsuarioUpdateForm(
    nome: string,
    email: string,
    tipoUsuario: TipoUsuario,
    status: StatusUsuario,
    telefone: Option<string>,
    cpf: Option<string>)

  /** The user after the update form is copied onto it: hash, creation date and photo
   *  stay. */
  function Updated(u: Usuario, form: UsuarioUpdateForm, now: Time): Usuario {
    u.(nome := form.nome, email := form.email, tipoUsuario := form.tipoUsuario, status := form.status,
       telefone := form.telefone, cpf := form.cpf, dataUltimaAtualizacao := now)
  }

  /** UpdateAsync: null for an unknown user, an e-mail another user has, or a non-empty
   *  CPF another user has; otherwise the form is copied onto the user (an empty CPF
   *  another user has is refused by the store). */
  function UpdateOf(us: Table<Usuario>, id: int, form: UsuarioUpdateForm, now: Time)
    : UsuarioWrite<Option<(int, Usuario)>>
  {
    if id !in us.rows then UsuarioWrite(Returns(None), us)
    else if EmailInUse(us, form.email, Some(id)) then UsuarioWrite(Returns(None), us)
    else if !IsNullOrEmpty(form.cpf) && UserCpfInUse(us, form.cpf, Some(id)) then UsuarioWrite(Returns(None), us)
    else
      var u := Updated(us.rows[id], form, now);
      if StoreRejects(us, u, Some(id)) then UsuarioWrite(Throws(SaveFailedMessage), us)
      else UsuarioWrite(Returns(Some((id, u))), us.Put(id, u))
  }

  /** An update gives null exactly for an unknown user or an e-mail or non-empty CPF
   *  another user has, and throws exactly for an empty CPF another user has. A
   *  successful update changes only that user: its name, e-mail, type, status, phone,
   *  CPF and update time become the form's, and its hash, creation date and photo stay. */
  lemma UpdateOutcome(us: Table<Usuario>, id: int, form: UsuarioUpdateForm, now: Time)
    ensures var o := UpdateOf(us, id, form, now);
      && (o.result == Returns(None) <==>
            id !in us.rows || EmailInUse(us, form.email, Some(id))
            || (!IsNullOrEmpty(form.cpf) && UserCpfInUse(us, form.cpf, Some(id))))
      && (o.result.Throws? <==>
            id in us.rows && !EmailInUse(us, form.email, Some(id)) && form.cpf == Some("")
            && UserCpfInUse(us, form.cpf, Some(id)))
      && (o.result.Returns? && o.result.value.Some? ==>
            var u := o.result.value.value.1;
            && o.result.value.value.0 == id && id in us.rows
            && o.usuarios.next == us.next && o.usuarios.rows == us.rows[id := u]
            && u.nome == form.nome && u.email == form.email && u.tipoUsuario == form.tipoUsuario
            && u.status == form.status && u.telefone == form.telefone && u.cpf == form.cpf
            && u.dataUltimaAtualizacao == now
            && u.senhaHash == us.rows[id].senhaHash && u.dataCriacao == us.rows[id].dataCriacao
            && u.fotoPerfil == us.rows[id].fotoPerfil)
      && (!(o.result.Returns? && o.result.value.Some?) ==> o.usuarios == us)
  {
  }

  /** A user replaced by one the store accepts keeps the user invariant. */
  lemma PutKeepsInv(us: Table<Usuario>, id: int, u: Usuario)
    requires UsuariosInv(us) && id in us.rows && !StoreRejects(us, u, Some(id))
    ensures UsuariosInv(us.Put(id, u))
  {
  }

  /** An update keeps the store invariant. */
  lemma UpdateKeepsInv(s: Snapshot, id: int, form: UsuarioUpdateForm, now: Time)
    requires s.Inv()
    ensures s.(usuarios := UpdateOf(s.usuarios, id, form, now).usuarios).Inv()
  {
    var o := UpdateOf(s.usuarios, id, form, now);
    InvOfUsuarios(s, o.usuarios);
    if o.usuarios != s.usuarios {
      PutKeepsInv(s.usuarios, id, Updated(s.usuarios.rows[id], form, now));
    }
  }

  method Update(db: Db, id: int, form: UsuarioUpdateForm, now: Time) returns (r: Call<Option<(int, Usuario)>>)
    requires db.Valid()
    modifies db`usuarios
    ensures UsuarioWrite(r, db.usuarios) == UpdateOf(old(db.usuarios), id, form, now)
    ensures db.Valid()
  {
    UpdateKeepsInv(db.State(), id, form, now);
    if id !in db.usuarios.rows {
      return Returns(None);
    }
    if EmailInUse(db.usuarios, form.email, Some(id)) {
      return Returns(None);
    }
    if !IsNullOrEmpty(form.cpf) && UserCpfInUse(db.usuarios, form.cpf, Some(id)) {
      return Returns(None);
    }
    var usuario := Updated(db.usuarios.rows[id], form, now);
    if StoreRejects(db.usuarios, usuario, Some(id)) {
      return Throws(SaveFailedMessage);
    }
    db.usuarios := db.usuarios.Put(id, usuario);
    r := Returns(Some((id, usuario)));
    assert db.State() == old(db.State()).(usuarios := db.usuarios);
  }

  /** The user directs a school, or is the account of a student, a teacher or a guardian. */
  predicate HasDependents(escolas: Table<Escola>, al: Table<Aluno>, ps: Table<Professor>,
                          rs: Table<Responsavel>, id: int) {
    escolas.Any((e: Escola) => e.diretorId == Some(id))
    || al.Any((a: Aluno) => a.usuarioId == id)
    || ps.Any((p: Professor) => p.usuarioId == id)
    || rs.Any((r: Responsavel) => r.usuarioId == id)
  }

  /** DeleteAsync: false for an unknown user or one with dependents; otherwise the user
   *  is removed. */
  function DeleteOf(us: Table<Usuario>, escolas: Table<Escola>, al: Table<Aluno>, ps: Table<Professor>,
                    rs: Table<Responsavel>, id: int): UsuarioWrite<bool>
  {
    if id !in us.rows || HasDependents(escolas, al, ps, rs, id) then UsuarioWrite(Returns(false), us)
    else UsuarioWrite(Returns(true), us.Remove({id}))
  }

  /** Removal succeeds exactly for a stored user nothing refers to and then removes
   *  that user only; otherwise nothing changes. */
  lemma DeleteOutcome(us: Table<Usuario>, escolas: Table<Escola>, al: Table<Aluno>, ps: Table<Professor>,
                      rs: Table<Responsavel>, id: int)
    ensures var o := DeleteOf(us, escolas, al, ps, rs, id);
      && o.result.Returns?
      && (o.result.value <==>
            id in us.rows
            && (forall k :: k in escolas.rows ==> escolas.rows[k].diretorId != Some(id))
            && (forall k :: k in al.rows ==> al.rows[k].usuarioId != id)
            && (forall k :: k in ps.rows ==> ps.rows[k].usuarioId != id)
            && (forall k :: k in rs.rows ==> rs.rows[k].usuarioId != id))
      && (o.result.value ==> o.usuarios.rows == us.rows - {id} && o.usuarios.next == us.next && id !in o.usuarios.rows)
      && (!o.result.value ==> o.usuarios == us)
  {
  }

  /** Removal keeps the store invariant: no student refers to a removed user. */
  lemma DeleteKeepsInv(s: Snapshot, id: int)
    requires s.Inv()
    ensures s.(usuarios := DeleteOf(s.usuarios, s.escolas, s.alunos, s.professores, s.responsaveis, id).usuarios).Inv()
  {
    var o := DeleteOf(s.usuarios, s.escolas, s.alunos, s.professores, s.responsaveis, id);
    InvOfUsuarios(s, o.usuarios);
    if o.usuarios != s.usuarios {
      assert forall k :: k in s.alunos.rows ==> s.alunos.rows[k].usuarioId != id;
    }
  }

  method Delete(db: Db, id: int) returns (r: Call<bool>)
    requires db.Valid()
    modifies db`usuarios
    ensures UsuarioWrite(r, db.usuarios) ==
            DeleteOf(old(db.usuarios), db.escolas, db.alunos, db.professores, db.responsaveis, id)
    ensures db.Valid()
  {
    DeleteKeepsInv(db.State(), id);
    if id !in db.usuarios.rows {
      return Returns(false);
    }
    var temDependencias := db.escolas.Any((e: Escola) => e.diretorId == Some(id))
                           || db.alunos.Any((a: Aluno) => a.usuarioId == id)
                           || db.professores.Any((p: Professor) => p.usuarioId == id)
                           || db.responsaveis.Any((r: Responsavel) => r.usuarioId == id);
    if temDependencias {
      return Returns(false);
    }
    db.usuarios := db.usuarios.Remove({id});
    r := Returns(true);
    assert db.State() == old(db.State()).(usuarios := db.usuarios);
  }

  /** UpdateStatusAsync: false for an unknown user; otherwise sets its status and update
   *  time. */
  function UpdateStatusOf(us: Table<Usuario>, id: int, status: StatusUsuario, now: Time): UsuarioWrite<bool> {
    if id !in us.rows then UsuarioWrite(Returns(false), us)
    else UsuarioWrite(Returns(true), us.Put(id, us.rows[id].(status := status, dataUltimaAtualizacao := now)))
  }

  /** The status change is false exactly for an unknown user; otherwise only that user's
   *  status and update time change. */
  lemma UpdateStatusOutcome(us: Table<Usuario>, id: int, status: StatusUsuario, now: Time)
    ensures var o := UpdateStatusOf(us, id, status, now);
      && o.result == Returns(id in us.rows)
      && o.usuarios.next == us.next && o.usuarios.rows.Keys == us.rows.Keys
      && (forall k :: k in us.rows && k != id ==> o.usuarios.rows[k] == us.rows[k])
      && (id in us.rows ==> o.usuarios.rows[id].status == status && o.usuarios.rows[id].dataUltimaAtualizacao == now
                            && o.usuarios.rows[id].(status := us.rows[id].status,
                                                    dataUltimaAtualizacao := us.rows[id].dataUltimaAtualizacao)
                               == us.rows[id])
  {
  }

  /** The status change keeps the store invariant. */
  lemma UpdateStatusKeepsInv(s: Snapshot, id: int, status: StatusUsuario, now: Time)
    requires s.Inv()
    ensures s.(usuarios := UpdateStatusOf(s.usuarios, id, status, now).usuarios).Inv()
  {
    var o := UpdateStatusOf(s.usuarios, id, status, now);
    InvOfUsuarios(s, o.usuarios);
  }

  method UpdateStatus(db: Db, id: int, status: StatusUsuario, now: Time) returns (r: Call<bool>)
    requires db.Valid()
    modifies db`usuarios
    ensures UsuarioWrite(r, db.usuarios) == UpdateStatusOf(old(db.usuarios), id, status, now)
    ensures db.Valid()
  {
    UpdateStatusKeepsInv(db.State(), id, status, now);
    if id !in db.usuarios.rows {
      return Returns(false);
    }
    var usuario := db.usuarios.rows[id];
    db.usuarios := db.usuarios.Put(id, usuario.(status := status, dataUltimaAtualizacao := now));
    r := Returns(true);
    assert db.State() == old(db.State()).(usuarios := db.usuarios);
  }
}
