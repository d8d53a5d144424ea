/** The student endpoints: list (all, or by course), fetch, create, replace
    and delete. Listings and fetches join the student's course name. */
module AlunoController {
  import opened Wrappers
  import opened Schema
  import opened Requests
  import opened Database
  import opened Responses
  import opened Listing

  const NomeEmailObrigatorios: string := "Nome e email são obrigatórios"
  const CursoNaoEncontrado: string := "Curso não encontrado"
  const EmailJaCadastrado: string := "Email já cadastrado"
  const NaoEncontrado: string := "Aluno não encontrado"
  const Deletado: string := "Aluno deletado com sucesso"

  /** A student row with `curso_nome` from `LEFT JOIN cursos`. */
  datatype AlunoComCurso = AlunoComCurso(aluno: Aluno, cursoNome: Option<string>)

  function Nome(a: AlunoComCurso): string {
    a.aluno.nome
  }

  /** The joined row: `curso_nome` is the name of the referenced course, and
      null when there is none. */
  function JoinCurso(s: Store, a: Aluno): (j: AlunoComCurso)
    ensures j.aluno == a
    ensures j.cursoNome.Some? <==> a.cursoId.Some? && a.cursoId.value in s.cursos
    ensures j.cursoNome.Some? ==> j.cursoNome.value == s.cursos[a.cursoId.value].nome
  {
    if a.cursoId.Some? && a.cursoId.value in s.cursos then AlunoComCurso(a, Some(s.cursos[a.cursoId.value].nome))
    else AlunoComCurso(a, None)
  }

  /** The students of `m`, each joined with its course. */
  function Joined(s: Store, m: map<int, Aluno>): (j: map<int, AlunoComCurso>)
    ensures j.Keys == m.Keys
    ensures forall k :: k in m ==> j[k] == JoinCurso(s, m[k])
  {
    map k | k in m :: JoinCurso(s, m[k])
  }

  /** Whether any student already has this email. */
  predicate EmailInUse(s: Store, email: string) {
    exists k :: k in s.alunos && s.alunos[k].email == email
  }

  /** The catch block: a unique violation is a duplicate email, anything else
      an internal error. */
  function FailureReply<T>(e: DbError): (r: Reply<T>)
    ensures r.status == StatusBadRequest <==> e == UniqueViolation
    ensures r.status == StatusBadRequest ==> r.body == Error(EmailJaCadastrado)
    ensures r.status != StatusBadRequest ==> r == InternalError()
  {
    UniqueCodeIsOnlyUniqueViolation(e);
    if e.Code() == UniqueViolationCode then Reply(StatusBadRequest, Error(EmailJaCadastrado))
    else InternalError()
  }

  /** `GET /alunos`: every student with its course name, ordered by name. */
  function GetAll(s: Store): (r: Reply<seq<Row<AlunoComCurso>>>)
    ensures r.status == StatusOk && r.body.Json?
    ensures ListsExactly(r.body.value, Joined(s, s.alunos))
    ensures SortedByName(r.body.value, Nome)
    ensures forall i :: 0 <= i < |r.body.value| && r.body.value[i].fields.aluno.cursoId.None? ==>
      r.body.value[i].fields.cursoNome.None?
  {
    Reply(StatusOk, Json(OrderByName(Joined(s, s.alunos), Nome)))
  }

  /** The students whose course is `cursoId`. */
  function OfCurso(s: Store, cursoId: int): (m: map<int, Aluno>)
    ensures forall k :: k in m <==> k in s.alunos && s.alunos[k].cursoId == Some(cursoId)
    ensures forall k :: k in m ==> m[k] == s.alunos[k]
  {
    map k | k in s.alunos && s.alunos[k].cursoId == Some(cursoId) :: s.alunos[k]
  }

  /** `GET /cursos/:cursoId/alunos`: exactly the students of that course,
      ordered by name (an empty list when the course has none or does not exist). */
  function GetByCurso(s: Store, cursoId: int): (r: Reply<seq<Row<AlunoComCurso>>>)
    ensures r.status == StatusOk <==> IsInt32(cursoId)
    ensures r.status != StatusOk ==> r == InternalError()
    ensures r.status == StatusOk ==>
      && r.body.Json?
      && ListsExactly(r.body.value, Joined(s, OfCurso(s, cursoId)))
      && SortedByName(r.body.value, Nome)
  {
    if !IsInt32(cursoId) then InternalError()
    else Reply(StatusOk, Json(OrderByName(Joined(s, OfCurso(s, cursoId)), Nome)))
  }

  /** `GET /alunos/:id`. */
  function GetById(s: Store, id: int): (r: Reply<Row<AlunoComCurso>>)
    ensures r.status == StatusOk <==> IsInt32(id) && id in s.alunos
    ensures r.status == StatusNotFound <==> IsInt32(id) && id !in s.alunos
    ensures r.status == StatusInternal <==> !IsInt32(id)
    ensures r.status == StatusOk ==> r.body == Json(Row(id, JoinCurso(s, s.alunos[id])))
    ensures r.status == StatusNotFound ==> r.body == Error(NaoEncontrado)
  {
    if !IsInt32(id) then InternalError()
    else if id !in s.alunos then Reply(StatusNotFound, Error(NaoEncontrado))
    else Reply(StatusOk, Json(Row(id, JoinCurso(s, s.alunos[id]))))
  }

  function Insert(s: Store, p: AlunoInput): Step<Row<Aluno>> {
    var e := InsertAluno(s, p);
    match e.result
    case Failure(err) => Step(FailureReply(err), e.store)
    case Success(id) => Step(Reply(StatusCreated, Json(Row(id, e.store.alunos[id]))), e.store)
  }

  /** `POST /alunos`: name and email are required; a truthy `curso_id` must
      name an existing course. */
  function Create(s: Store, p: AlunoInput): (r: Step<Row<Aluno>>)
    ensures !TruthyText(p.nome) || !TruthyText(p.email) ==>
      r == Step(Reply(StatusBadRequest, Error(NomeEmailObrigatorios)), s)
    ensures TruthyText(p.nome) && TruthyText(p.email) && TruthyId(p.cursoId)
            && IsInt32(p.cursoId.value) && p.cursoId.value !in s.cursos ==>
      r == Step(Reply(StatusBadRequest, Error(CursoNaoEncontrado)), s)
    ensures r.reply.status in {StatusCreated, StatusBadRequest, StatusInternal}
    ensures r.reply.status != StatusCreated ==> SameTables(r.store, s)
    ensures r.reply.status == StatusCreated ==>
      && r.reply.body.Json?
      && var row := r.reply.body.value;
      && row.id == s.nextAlunoId && row.id !in s.alunos
      && AlunoMatches(row.fields, p)
      && !AlunoEmailTaken(s, row.fields.email, row.id)
      && (row.fields.cursoId.Some? ==> row.fields.cursoId.value in s.cursos)
      && r.store == s.(alunos := s.alunos[row.id := row.fields], nextAlunoId := row.id + 1)
    ensures Valid(s) && TruthyText(p.nome) && TruthyText(p.email) && AlunoInputFits(p)
            && (p.cursoId.None? || p.cursoId.value in s.cursos) && s.nextAlunoId <= MaxInt32 ==>
      && (r.reply.status == StatusCreated <==> !EmailInUse(s, Clip(p.email.value, EmailMax)))
      && (EmailInUse(s, Clip(p.email.value, EmailMax)) ==> r.reply == Reply(StatusBadRequest, Error(EmailJaCadastrado)))
    ensures Valid(s) ==> Valid(r.store)
  {
    if !TruthyText(p.nome) || !TruthyText(p.email) then
      Step(Reply(StatusBadRequest, Error(NomeEmailObrigatorios)), s)
    else if TruthyId(p.cursoId) then
      var c := CursoExists(s, p.cursoId.value);
      match c.result
      case Failure(err) => Step(FailureReply(err), s)
      case Success(false) => Step(Reply(StatusBadRequest, Error(CursoNaoEncontrado)), s)
      case Success(true) => Insert(s, p)
    else Insert(s, p)
  }

  /** `PUT /alunos/:id`: the course check comes first (even for an absent
      student); then all six columns are replaced, with no presence check. */
  function Update(s: Store, id: int, p: AlunoInput): (r: Step<Row<Aluno>>)
    ensures TruthyId(p.cursoId) && IsInt32(p.cursoId.value) && p.cursoId.value !in s.cursos ==>
      r == Step(Reply(StatusBadRequest, Error(CursoNaoEncontrado)), s)
    ensures r.reply.status in {StatusOk, StatusBadRequest, StatusNotFound, StatusInternal}
    ensures r.reply.status != StatusOk ==> r.store == s
    ensures r.reply.status == StatusNotFound ==> r.reply.body == Error(NaoEncontrado)
    ensures r.reply.status == StatusNotFound <==>
      && AlunoInputFits(p) && (!TruthyId(p.cursoId) || p.cursoId.value in s.cursos)
      && IsInt32(id) && id !in s.alunos
    ensures IsInt32(id) && id in s.alunos && AlunoInputFits(p) && (!TruthyId(p.cursoId) || p.cursoId.value in s.cursos)
            && (p.nome.None? || p.email.None?) ==>
      r == Step(InternalError(), s)
    ensures r.reply.status == StatusOk ==>
      && r.reply.body.Json?
      && var row := r.reply.body.value;
      && row.id == id && id in s.alunos
      && AlunoMatches(row.fields, p)
      && !AlunoEmailTaken(s, row.fields.email, id)
      && (row.fields.cursoId.Some? ==> row.fields.cursoId.value in s.cursos)
      && r.store == s.(alunos := s.alunos[id := row.fields])
    ensures p.nome.None? || p.email.None? ==> r.reply.status != StatusOk
    ensures IsInt32(id) && id in s.alunos && p.nome.Some? && p.email.Some? && AlunoInputFits(p)
            && (p.cursoId.None? || p.cursoId.value in s.cursos) ==>
      && (r.reply.status == StatusOk <==> !AlunoEmailTaken(s, Clip(p.email.value, EmailMax), id))
      && (AlunoEmailTaken(s, Clip(p.email.value, EmailMax), id) ==> r.reply == Reply(StatusBadRequest, Error(EmailJaCadastrado)))
    ensures Valid(s) ==> Valid(r.store)
  {
    var c := if TruthyId(p.cursoId) then CursoExists(s, p.cursoId.value) else Exec(Success(true), s);
    match c.result
    case Failure(err) => Step(FailureReply(err), s)
    case Success(false) => Step(Reply(StatusBadRequest, Error(CursoNaoEncontrado)), s)
    case Success(true) =>
      var e := UpdateAluno(s, id, p);
      match e.result
      case Failure(err) => Step(FailureReply(err), s)
      case Success(false) => Step(Reply(StatusNotFound, Error(NaoEncontrado)), s)
      case Success(true) => Step(Reply(StatusOk, Json(Row(id, e.store.alunos[id]))), e.store)
  }

  /** `DELETE /alunos/:id`: only the student's roster pairs cascade. */
  function Delete(s: Store, id: int): (r: Step<()>)
    ensures r.reply.status in {StatusOk, StatusNotFound, StatusInternal}
    ensures r.reply.status == StatusInternal <==> !IsInt32(id)
    ensures r.reply.status == StatusNotFound <==> IsInt32(id) && id !in s.alunos
    ensures r.reply.status != StatusOk ==> r.store == s
    ensures r.reply.status == StatusOk ==>
      && r.reply.body == Message(Deletado)
      && r.store.alunos == s.alunos - {id}
      && r.store.cursos == s.cursos && r.store.voluntarios == s.voluntarios && r.store.turmas == s.turmas
      && (forall q :: q in r.store.turmaAlunos <==> q in s.turmaAlunos && q.1 != id)
    ensures Valid(s) ==> Valid(r.store)
  {
    var e := DeleteAluno(s, id);
    match e.result
    case Failure(_) => Step(InternalError(), s)
    case Success(false) => Step(Reply(StatusNotFound, Error(NaoEncontrado)), s)
    case Success(true) => Step(Reply(StatusOk, Message(Deletado)), e.store)
  }
}
