/** The volunteer endpoints: list, fetch, create, replace and delete. */
module VoluntarioController {
  import opened Wrappers
  import opened Schema
  import opened Requests
  import opened Database
  import opened Responses
  import opened Listing

  const NomeEmailObrigatorios: string := "Nome e email são obrigatórios"
  const EmailJaCadastrado: string := "Email já cadastrado"
  const NaoEncontrado: string := "Voluntário não encontrado"
  const Deletado: string := "Voluntário deletado com sucesso"

  function Nome(v: Voluntario): string {
    v.nome
  }

  /** Whether any volunteer already has this email. */
  predicate EmailInUse(s: Store, email: string) {
    exists k :: k in s.voluntarios && s.voluntarios[k].email == email
  }

  /** The reply for a failed statement: a unique violation is reported as a
      duplicate email, anything else as an internal error. */
  function FailureReply<T>(e: DbError): (r: Reply<T>)
    ensures r.status == StatusBadRequest <==> e == UniqueViolation
    ensures r.status == StatusBadRequest ==> r.body == Error(EmailJaCadastrado)
    ensures r.status != StatusBadRequest ==> r == InternalError()
  {
    UniqueCodeIsOnlyUniqueViolation(e);
    if e.Code() == UniqueViolationCode then Reply(StatusBadRequest, Error(EmailJaCadastrado))
    else InternalError()
  }

  /** `GET /voluntarios`: every volunteer, ordered by name. */
  function GetAll(s: Store): (r: Reply<seq<Row<Voluntario>>>)
    ensures r.status == StatusOk && r.body.Json?
    ensures ListsExactly(r.body.value, s.voluntarios)
    ensures SortedByName(r.body.value, Nome)
  {
    Reply(StatusOk, Json(OrderByName(s.voluntarios, Nome)))
  }

  /** `GET /voluntarios/:id`. */
  function GetById(s: Store, id: int): (r: Reply<Row<Voluntario>>)
    ensures r.status == StatusOk <==> IsInt32(id) && id in s.voluntarios
    ensures r.status == StatusNotFound <==> IsInt32(id) && id !in s.voluntarios
    ensures r.status == StatusInternal <==> !IsInt32(id)
    ensures r.status == StatusOk ==> r.body == Json(Row(id, s.voluntarios[id]))
    ensures r.status == StatusNotFound ==> r.body == Error(NaoEncontrado)
  {
    if !IsInt32(id) then InternalError()
    else if id !in s.voluntarios then Reply(StatusNotFound, Error(NaoEncontrado))
    else Reply(StatusOk, Json(Row(id, s.voluntarios[id])))
  }

  /** `POST /voluntarios`. */
  function Create(s: Store, p: VoluntarioInput): (r: Step<Row<Voluntario>>)
    ensures !TruthyText(p.nome) || !TruthyText(p.email) ==>
      r == Step(Reply(StatusBadRequest, Error(NomeEmailObrigatorios)), s)
    ensures r.reply.status in {StatusCreated, StatusBadRequest, StatusInternal}
    ensures r.reply.status != StatusCreated ==> SameTables(r.store, s)
    ensures r.reply.status == StatusCreated ==>
      && r.reply.body.Json?
      && var row := r.reply.body.value;
      && row.id == s.nextVoluntarioId && row.id !in s.voluntarios
      && VoluntarioMatches(row.fields, p)
      && !VoluntarioEmailTaken(s, row.fields.email, row.id)
      && r.store == s.(voluntarios := s.voluntarios[row.id := row.fields], nextVoluntarioId := row.id + 1)
    ensures Valid(s) && TruthyText(p.nome) && TruthyText(p.email) && VoluntarioInputFits(p)
            && s.nextVoluntarioId <= MaxInt32 ==>
      && (r.reply.status == StatusCreated <==> !EmailInUse(s, Clip(p.email.value, EmailMax)))
      && (EmailInUse(s, Clip(p.email.value, EmailMax)) ==> r.reply == Reply(StatusBadRequest, Error(EmailJaCadastrado)))
    ensures Valid(s) ==> Valid(r.store)
  {
    if !TruthyText(p.nome) || !TruthyText(p.email) then
      Step(Reply(StatusBadRequest, Error(NomeEmailObrigatorios)), s)
    else
      var e := InsertVoluntario(s, p);
      match e.result
      case Failure(err) => Step(FailureReply(err), e.store)
      case Success(id) => Step(Reply(StatusCreated, Json(Row(id, e.store.voluntarios[id]))), e.store)
  }

  /** A body with a name and an email, one of whose text values holds NUL,
      cannot be bound, so creation fails with 500 and the tables do not
      change. */
  lemma NulTextRefused(s: Store, p: VoluntarioInput)
    requires TruthyText(p.nome) && TruthyText(p.email) && !VoluntarioTextOk(p)
    ensures Create(s, p) == Step(InternalError(), s)
  {
  }

  /** `PUT /voluntarios/:id`: replaces all six columns, so a field missing
      from the body becomes null; nothing is checked before the statement. */
  function Update(s: Store, id: int, p: VoluntarioInput): (r: Step<Row<Voluntario>>)
    ensures r.reply.status in {StatusOk, StatusBadRequest, StatusNotFound, StatusInternal}
    ensures r.reply.status != StatusOk ==> r.store == s
    ensures r.reply.status == StatusNotFound <==> VoluntarioInputFits(p) && IsInt32(id) && id !in s.voluntarios
    ensures r.reply.status == StatusNotFound ==> r.reply.body == Error(NaoEncontrado)
    ensures r.reply.status == StatusOk ==>
      && r.reply.body.Json?
      && var row := r.reply.body.value;
      && row.id == id && id in s.voluntarios
      && VoluntarioMatches(row.fields, p)
      && !VoluntarioEmailTaken(s, row.fields.email, id)
      && r.store == s.(voluntarios := s.voluntarios[id := row.fields])
    ensures p.nome.None? || p.email.None? ==> r.reply.status != StatusOk
    ensures IsInt32(id) && id in s.voluntarios && p.nome.Some? && p.email.Some? && VoluntarioInputFits(p) ==>
      && (r.reply.status == StatusOk <==> !VoluntarioEmailTaken(s, Clip(p.email.value, EmailMax), id))
      && (VoluntarioEmailTaken(s, Clip(p.email.value, EmailMax), id) ==> r.reply == Reply(StatusBadRequest, Error(EmailJaCadastrado)))
    ensures Valid(s) ==> Valid(r.store)
  {
    var e := UpdateVoluntario(s, id, p);
    match e.result
    case Failure(err) => Step(FailureReply(err), s)
    case Success(false) => Step(Reply(StatusNotFound, Error(NaoEncontrado)), s)
    case Success(true) => Step(Reply(StatusOk, Json(Row(id, e.store.voluntarios[id]))), e.store)
  }

  /** `DELETE /voluntarios/:id`: sections the volunteer led stay, with no volunteer. */
  function Delete(s: Store, id: int): (r: Step<()>)
    ensures r.reply.status in {StatusOk, StatusNotFound, StatusInternal}
    ensures r.reply.status == StatusInternal <==> !IsInt32(id)
    ensures r.reply.status == StatusNotFound <==> IsInt32(id) && id !in s.voluntarios
    ensures r.reply.status != StatusOk ==> r.store == s
    ensures r.reply.status == StatusOk ==>
      && r.reply.body == Message(Deletado)
      && r.store.voluntarios == s.voluntarios - {id}
      && r.store.cursos == s.cursos && r.store.alunos == s.alunos && r.store.turmaAlunos == s.turmaAlunos
      && r.store.turmas.Keys == s.turmas.Keys
      && (forall k :: k in s.turmas ==>
            r.store.turmas[k] == s.turmas[k].(voluntarioId := if s.turmas[k].voluntarioId == Some(id) then None else s.turmas[k].voluntarioId))
    ensures Valid(s) ==> Valid(r.store)
  {
    var e := DeleteVoluntario(s, id);
    match e.result
    case Failure(_) => Step(InternalError(), s)
    case Success(false) => Step(Reply(StatusNotFound, Error(NaoEncontrado)), s)
    case Success(true) => Step(Reply(StatusOk, Message(Deletado)), e.store)
  }
}
