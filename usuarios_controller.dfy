/** UsuariosController: the normalisation of the listing's paging parameters, the checks
 *  on an uploaded photo, and the HTTP status each action answers with for each outcome
 *  of the user service. Model-state validity is a parameter (it comes from the DTO
 *  annotations); an exception the service lets escape reaches the error middleware,
 *  which answers 500 for the store's exceptions. */
module UsuariosController {
  import opened Wrappers
  import opened Text
  import opened Tables
  import opened Models
  import opened UsuarioService

  const StatusOk := 200
  const StatusCreated := 201
  const StatusNoContent := 204
  const StatusBadRequest := 400
  const StatusNotFound := 404
  const StatusServerError := 500

  const DefaultPageSize := 15
  const MaxPageSize := 100

  /** `page < 1` becomes 1. */
  function NormalisePage(page: int): (r: int)
    ensures r >= 1
    ensures page >= 1 ==> r == page
    ensures page < 1 ==> r == 1
  {
    if page < 1 then 1 else page
  }

  /** A page size outside 1..100 becomes the default 15, not the nearer bound. */
  function NormalisePageSize(pageSize: int): (r: int)
    ensures 1 <= r <= MaxPageSize
    ensures 1 <= pageSize <= MaxPageSize ==> r == pageSize
    ensures !(1 <= pageSize <= MaxPageSize) ==> r == DefaultPageSize
  {
    if pageSize < 1 || pageSize > MaxPageSize then DefaultPageSize else pageSize
  }

  /** Normalising twice changes nothing more, and a too-large size is not clamped. */
  lemma NormaliseIdempotent(page: int, pageSize: int)
    ensures NormalisePage(NormalisePage(page)) == NormalisePage(page)
    ensures NormalisePageSize(NormalisePageSize(pageSize)) == NormalisePageSize(pageSize)
    ensures NormalisePageSize(MaxPageSize + 1) == DefaultPageSize
  {
  }

  /** GET api/usuarios: the service's page under the normalised parameters; it never
   *  holds more than 100 users, all of them stored and matching the search. */
  function GetUsuarios(us: Table<Usuario>, page: int, pageSize: int, search: Option<string>)
    : (r: seq<(int, Usuario)>)
    ensures |r| <= NormalisePageSize(pageSize) <= MaxPageSize
  {
    GetAll(us, NormalisePage(page), NormalisePageSize(pageSize), search)
  }

  /** The listing is the normalised page of the sorted matches. */
  lemma GetUsuariosItems(us: Table<Usuario>, page: int, pageSize: int, search: Option<string>)
    ensures var r := GetUsuarios(us, page, pageSize, search);
      forall i :: 0 <= i < |r| ==>
        r[i].0 in us.rows && us.rows[r[i].0] == r[i].1 && UsuarioMatches(r[i].1, search)
  {
    GetAllItems(us, NormalisePage(page), NormalisePageSize(pageSize), search);
  }

  /** What an action answers: the status and, where it sends one, the message. */
  datatype Response = Response(status: int, message: Option<string>)

  /** The error middleware: an escaped store exception becomes a 500 carrying its
   *  message. */
  function Handled(c: Call<Response>): (r: Response)
    ensures c.Returns? ==> r == c.value
    ensures c.Throws? ==> r == Response(StatusServerError, Some(c.error))
  {
    match c
    case Returns(v) => v
    case Throws(e) => Response(StatusServerError, Some(e))
  }

  const EmailOuCpfJaExiste := "Email ou CPF já existe"
  const NaoEncontradoOuDuplicado := "Usuário não encontrado ou email/CPF já existe"
  const NaoEncontradoOuDependente := "Usuário não encontrado ou possui dependências"
  const UsuarioNaoEncontrado := "Usuário não encontrado"
  const StatusAtualizado := "Status atualizado com sucesso"

  /** The response of a creation or update, from the service's outcome: null is the
   *  given failure, a user is the success status. */
  function WriteResponse(result: Call<Option<(int, Usuario)>>, failure: Response, success: int): (r: Response)
    ensures result == Returns(None) ==> r == failure
    ensures result.Returns? && result.value.Some? ==> r == Response(success, None)
    ensures result.Throws? ==> r.status == StatusServerError
  {
    match result
    case Throws(e) => Response(StatusServerError, Some(e))
    case Returns(None) => failure
    case Returns(Some(_)) => Response(success, None)
  }

  /** POST api/usuarios: an invalid model is a 400 before the service runs. */
  function CreateUsuario(us: Table<Usuario>, form: UsuarioForm, now: Time, modelValid: bool): UsuarioWrite<Response> {
    if !modelValid then UsuarioWrite(Returns(Response(StatusBadRequest, None)), us)
    else
      var o := CreateOf(us, form, now);
      UsuarioWrite(Returns(WriteResponse(o.result, Response(StatusBadRequest, Some(EmailOuCpfJaExiste)), StatusCreated)),
                   o.usuarios)
  }

  /** Creation answers 201 exactly when a valid form's user was inserted, and then the
   *  table gained exactly that user; it answers the duplicate message exactly for a
   *  valid form whose e-mail or non-empty CPF is in use, and the table is then
   *  unchanged. */
  lemma CreateUsuarioStatus(us: Table<Usuario>, form: UsuarioForm, now: Time, modelValid: bool)
    ensures var r := CreateUsuario(us, form, now, modelValid);
      && r.result.Returns?
      && (r.result.value.status == StatusCreated <==> modelValid && r.usuarios != us)
      && (r.result.value.status == StatusCreated ==> r.usuarios == us.Add(NovoUsuario(form, now)))
      && (r.result.value == Response(StatusBadRequest, Some(EmailOuCpfJaExiste)) <==>
            modelValid && (EmailInUse(us, form.email, None) || (!IsNullOrEmpty(form.cpf) && UserCpfInUse(us, form.cpf, None))))
      && (r.result.value.status != StatusCreated ==> r.usuarios == us)
  {
    CreateOutcome(us, form, now);
  }

  /** PUT api/usuarios/{id}: an invalid model is a 400; null is a 404. */
  function UpdateUsuario(us: Table<Usuario>, id: int, form: UsuarioUpdateForm, now: Time, modelValid: bool)
    : UsuarioWrite<Response>
  {
    if !modelValid then UsuarioWrite(Returns(Response(StatusBadRequest, None)), us)
    else
      var o := UpdateOf(us, id, form, now);
      UsuarioWrite(Returns(WriteResponse(o.result, Response(StatusNotFound, Some(NaoEncontradoOuDuplicado)), StatusOk)),
                   o.usuarios)
  }

  /** An update answers 404 exactly for a valid form naming an unknown user or another
   *  user's e-mail or non-empty CPF; only a 200 changes the table. */
  lemma UpdateUsuarioStatus(us: Table<Usuario>, id: int, form: UsuarioUpdateForm, now: Time, modelValid: bool)
    ensures var r := UpdateUsuario(us, id, form, now, modelValid);
      && r.result.Returns?
      && (r.result.value.status == StatusNotFound <==>
            modelValid && (id !in us.rows || EmailInUse(us, form.email, Some(id))
                           || (!IsNullOrEmpty(form.cpf) && UserCpfInUse(us, form.cpf, Some(id)))))
      && (r.result.value.status == StatusOk ==> modelValid && id in us.rows && r.usuarios.rows.Keys == us.rows.Keys)
      && (r.result.value.status != StatusOk ==> r.usuarios == us)
  {
    UpdateOutcome(us, id, form, now);
  }

  /** DELETE api/usuarios/{id}: false is a 400, true a 204; an exception the store
   *  raises is a 500. */
  function DeleteUsuario(us: Table<Usuario>, escolas: Table<Escola>, al: Table<Aluno>, ps: Table<Professor>,
                         rs: Table<Responsavel>, id: int): UsuarioWrite<Response>
  {
    var o := DeleteOf(us, escolas, al, ps, rs, id);
    var answer := match o.result
      case Throws(e) => Response(StatusServerError, Some(e))
      case Returns(false) => Response(StatusBadRequest, Some(NaoEncontradoOuDependente))
      case Returns(true) => Response(StatusNoContent, None);
    UsuarioWrite(Returns(answer), o.usuarios)
  }

  /** Removal answers 204 exactly when a stored user nothing refers to was removed, and
   *  400 otherwise, with the table unchanged. */
  lemma DeleteUsuarioStatus(us: Table<Usuario>, escolas: Table<Escola>, al: Table<Aluno>, ps: Table<Professor>,
                            rs: Table<Responsavel>, id: int)
    ensures var r := DeleteUsuario(us, escolas, al, ps, rs, id);
      && r.result.Returns?
      && (r.result.value.status == StatusNoContent <==>
            id in us.rows && !HasDependents(escolas, al, ps, rs, id))
      && (r.result.value.status == StatusNoContent ==> r.usuarios.rows == us.rows - {id})
      && (r.result.value.status != StatusNoContent ==>
            r.result.value == Response(StatusBadRequest, Some(NaoEncontradoOuDependente)) && r.usuarios == us)
  {
    DeleteOutcome(us, escolas, al, ps, rs, id);
  }

  /** PATCH api/usuarios/{id}/status: false is a 404, true a 200. */
  function UpdateStatus(us: Table<Usuario>, id: int, status: StatusUsuario, now: Time): UsuarioWrite<Response> {
    var o := UpdateStatusOf(us, id, status, now);
    var answer := match o.result
      case Throws(e) => Response(StatusServerError, Some(e))
      case Returns(false) => Response(StatusNotFound, Some(UsuarioNaoEncontrado))
      case Returns(true) => Response(StatusOk, Some(StatusAtualizado));
    UsuarioWrite(Returns(answer), o.usuarios)
  }

  /** The status change answers 200 exactly for a stored user, whose status it sets. */
  lemma UpdateStatusStatus(us: Table<Usuario>, id: int, status: StatusUsuario, now: Time)
    ensures var r := UpdateStatus(us, id, status, now);
      && r.result.Returns?
      && (r.result.value.status == StatusOk <==> id in us.rows)
      && (r.result.value.status == StatusOk ==> r.usuarios.rows[id].status == status)
      && (r.result.value.status != StatusOk ==>
            r.result.value == Response(StatusNotFound, Some(UsuarioNaoEncontrado)) && r.usuarios == us)
  {
    UpdateStatusOutcome(us, id, status, now);
  }

  // ---------------------------------------------------------------------------
  // Photo upload checks

  /** An uploaded file: its length in bytes and its declared content type. */
  datatype Arquivo = Arquivo(length: nat, contentType: string)

  const MaxFotoBytes := 5 * 1024 * 1024

  const FotoObrigatoria := "Arquivo de foto é obrigatório"
  const ApenasImagens := "Apenas arquivos de imagem são permitidos"
  const FotoGrande := "Arquivo deve ter no máximo 5MB"

  predicate AllowedType(contentType: string) {
    ToLower(contentType) in ["image/jpeg", "image/jpg", "image/png", "image/gif"]
  }

  /** The first failing check's message, or none when the photo goes to the service:
   *  a missing or empty file, then a content type other than the four image types
   *  (whatever its case), then more than 5 MiB. */
  function UploadCheck(photo: Option<Arquivo>): (r: Option<string>)
    ensures r.None? <==> photo.Some? && photo.value.length > 0 && AllowedType(photo.value.contentType)
                         && photo.value.length <= MaxFotoBytes
    ensures r == Some(FotoObrigatoria) <==> photo.None? || photo.value.length == 0
    ensures r == Some(ApenasImagens) <==>
              photo.Some? && photo.value.length > 0 && !AllowedType(photo.value.contentType)
    ensures r == Some(FotoGrande) <==>
              photo.Some? && AllowedType(photo.value.contentType) && photo.value.length > MaxFotoBytes
  {
    if photo.None? || photo.value.length == 0 then Some(FotoObrigatoria)
    else if !AllowedType(photo.value.contentType) then Some(ApenasImagens)
    else if photo.value.length > MaxFotoBytes then Some(FotoGrande)
    else None
  }
}
