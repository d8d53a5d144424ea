/** The course endpoints: list, fetch, create, replace and delete. */
module CursoController {
  import opened Wrappers
  import opened Schema
  import opened Requests
  import opened Database
  import opened Responses
  import opened Listing

  const NomeObrigatorio: string := "Nome do curso é obrigatório"
  const NaoEncontrado: string := "Curso não encontrado"
  const Deletado: string := "Curso deletado com sucesso"

  function Nome(c: Curso): string {
    c.nome
  }

  /** `GET /cursos`: every course, ordered by name. */
  function GetAll(s: Store): (r: Reply<seq<Row<Curso>>>)
    ensures r.status == StatusOk && r.body.Json?
    ensures ListsExactly(r.body.value, s.cursos)
    ensures SortedByName(r.body.value, Nome)
  {
    Reply(StatusOk, Json(OrderByName(s.cursos, Nome)))
  }

  /** `GET /cursos/:id`. */
  function GetById(s: Store, id: int): (r: Reply<Row<Curso>>)
    ensures r.status == StatusOk <==> IsInt32(id) && id in s.cursos
    ensures r.status == StatusNotFound <==> IsInt32(id) && id !in s.cursos
    ensures r.status == StatusInternal <==> !IsInt32(id)
    ensures r.status == StatusOk ==> r.body == Json(Row(id, s.cursos[id]))
    ensures r.status == StatusNotFound ==> r.body == Error(NaoEncontrado)
  {
    if !IsInt32(id) then InternalError()
    else if id !in s.cursos then Reply(StatusNotFound, Error(NaoEncontrado))
    else Reply(StatusOk, Json(Row(id, s.cursos[id])))
  }

  /** `POST /cursos`. Only the name is checked; there is no uniqueness rule. */
  function Create(s: Store, p: CursoInput): (r: Step<Row<Curso>>)
    ensures !TruthyText(p.nome) ==> r == Step(Reply(StatusBadRequest, Error(NomeObrigatorio)), s)
    ensures r.reply.status in {StatusCreated, StatusBadRequest, StatusInternal}
    ensures r.reply.status != StatusCreated ==> SameTables(r.store, s)
    ensures r.reply.status == StatusCreated ==>
      && r.reply.body.Json?
      && var row := r.reply.body.value;
      && row.id == s.nextCursoId && row.id !in s.cursos
      && CursoMatches(row.fields, p)
      && r.store == s.(cursos := s.cursos[row.id := row.fields], nextCursoId := row.id + 1)
    ensures Valid(s) && TruthyText(p.nome) && CursoInputFits(p) && s.nextCursoId <= MaxInt32 ==>
      r.reply.status == StatusCreated
    ensures Valid(s) ==> Valid(r.store)
  {
    if !TruthyText(p.nome) then Step(Reply(StatusBadRequest, Error(NomeObrigatorio)), s)
    else
      var e := InsertCurso(s, p);
      match e.result
      case Failure(_) => Step(InternalError(), e.store)
      case Success(id) => Step(Reply(StatusCreated, Json(Row(id, e.store.cursos[id]))), e.store)
  }

  /** `PUT /cursos/:id`: replaces all five columns; the name is not checked,
      so an absent one hits NOT NULL while an empty one is stored. */
  function Update(s: Store, id: int, p: CursoInput): (r: Step<Row<Curso>>)
    ensures r.reply.status in {StatusOk, StatusNotFound, StatusInternal}
    ensures r.reply.status != StatusOk ==> r.store == s
    ensures r.reply.status == StatusNotFound <==> CursoInputFits(p) && IsInt32(id) && id !in s.cursos
    ensures r.reply.status == StatusNotFound ==> r.reply.body == Error(NaoEncontrado)
    ensures r.reply.status == StatusOk ==>
      && r.reply.body.Json?
      && var row := r.reply.body.value;
      && row.id == id && id in s.cursos
      && CursoMatches(row.fields, p)
      && r.store == s.(cursos := s.cursos[id := row.fields])
    ensures p.nome.None? ==> r.reply.status != StatusOk
    ensures IsInt32(id) && id in s.cursos && p.nome.Some? && CursoInputFits(p) ==> r.reply.status == StatusOk
    ensures Valid(s) ==> Valid(r.store)
  {
    var e := UpdateCurso(s, id, p);
    match e.result
    case Failure(_) => Step(InternalError(), s)
    case Success(false) => Step(Reply(StatusNotFound, Error(NaoEncontrado)), s)
    case Success(true) => Step(Reply(StatusOk, Json(Row(id, e.store.cursos[id]))), e.store)
  }

  /** `DELETE /cursos/:id`: the course's sections go with it (and their
      roster pairs); its students stay, with no course. */
  function Delete(s: Store, id: int): (r: Step<()>)
    ensures r.reply.status in {StatusOk, StatusNotFound, StatusInternal}
    ensures r.reply.status == StatusInternal <==> !IsInt32(id)
    ensures r.reply.status == StatusNotFound <==> IsInt32(id) && id !in s.cursos
    ensures r.reply.status != StatusOk ==> r.store == s
    ensures r.reply.status == StatusOk ==>
      && r.reply.body == Message(Deletado)
      && r.store.cursos == s.cursos - {id}
      && r.store.voluntarios == s.voluntarios
      && (forall k :: k in r.store.turmas <==> k in s.turmas && s.turmas[k].cursoId != id)
      && (forall k :: k in r.store.turmas ==> r.store.turmas[k] == s.turmas[k])
      && r.store.alunos.Keys == s.alunos.Keys
      && (forall k :: k in s.alunos ==>
            r.store.alunos[k] == s.alunos[k].(cursoId := if s.alunos[k].cursoId == Some(id) then None else s.alunos[k].cursoId))
      && (forall q :: q in r.store.turmaAlunos <==>
            q in s.turmaAlunos && !(q.0 in s.turmas && s.turmas[q.0].cursoId == id))
    ensures Valid(s) ==> Valid(r.store)
  {
    var e := DeleteCurso(s, id);
    match e.result
    case Failure(_) => Step(InternalError(), s)
    case Success(false) => Step(Reply(StatusNotFound, Error(NaoEncontrado)), s)
    case Success(true) => Step(Reply(StatusOk, Message(Deletado)), e.store)
  }
}
