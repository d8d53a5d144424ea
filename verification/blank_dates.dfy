/** Blank date fields on the course and student endpoints.

    The course and student forms start their date fields as `''` and send
    `''` when no date is picked. The course and student controllers bind
    that text straight to a DATE column, which rejects it, so saving such a
    form fails with 500. The section controller binds `x || null` instead.
    This module exhibits the failure and proves that the same normalisation
    (`''` becomes null) makes such forms succeed. */
module BlankDates {
  import opened Wrappers
  import opened Schema
  import opened Requests
  import opened Database
  import opened Responses
  import CursoController
  import AlunoController

  /** What a date input submits: nothing, `''`, or `YYYY-MM-DD`. */
  predicate DateField(x: Option<string>) {
    x.None? || x.value == "" || IsDateText(x.value)
  }

  /** A course body whose text holds no NUL, whose name and workload fit
      and whose dates come from date inputs. */
  predicate CursoFormFits(p: CursoInput) {
    && CursoTextOk(p)
    && VarcharOk(p.nome, NomeMax) && DateField(p.dataInicio) && DateField(p.dataFim) && IntOk(p.cargaHoraria)
  }

  predicate AlunoFormFits(p: AlunoInput) {
    && AlunoTextOk(p)
    && VarcharOk(p.nome, NomeMax) && VarcharOk(p.email, EmailMax) && VarcharOk(p.telefone, TelefoneMax)
    && DateField(p.dataNascimento) && IntOk(p.cursoId)
  }

  /** As written: a course body with a blank date is refused with 500 on
      create (after the name check) and on update (for any id), and the
      tables do not change. */
  lemma CursoBlankDateRejected(s: Store, id: int, p: CursoInput)
    requires p.dataInicio == Some("") || p.dataFim == Some("")
    ensures TruthyText(p.nome) ==>
      && CursoController.Create(s, p).reply == InternalError()
      && CursoController.Create(s, p).store == s
    ensures CursoController.Update(s, id, p) == Step(InternalError(), s)
  {
  }

  /** A concrete instance: the empty store, a named course, both dates left blank. */
  lemma CursoBlankDateExample()
    ensures CursoController.Create(Empty, CursoInput(Some("Informática"), None, Some(""), Some(""), Some(40))).reply.status
            == StatusInternal
  {
    CursoBlankDateRejected(Empty, 1, CursoInput(Some("Informática"), None, Some(""), Some(""), Some(40)));
  }

  /** `x || null` on the course's date fields. */
  function NullBlankDates(p: CursoInput): (q: CursoInput)
    ensures q.nome == p.nome && q.descricao == p.descricao && q.cargaHoraria == p.cargaHoraria
    ensures q.dataInicio == TextOrNull(p.dataInicio) && q.dataFim == TextOrNull(p.dataFim)
    ensures CursoFormFits(p) ==> CursoInputFits(q)
  {
    p.(dataInicio := TextOrNull(p.dataInicio), dataFim := TextOrNull(p.dataFim))
  }

  /** Corrected `POST /cursos`: a named course from the form is created,
      with blank dates stored as null. */
  function CreateCurso(s: Store, p: CursoInput): (r: Step<Row<Curso>>)
    ensures Valid(s) && TruthyText(p.nome) && CursoFormFits(p) && s.nextCursoId <= MaxInt32 ==>
      && r.reply.status == StatusCreated
      && r.reply.body.Json?
      && r.reply.body.value.fields.dataInicio == TextOrNull(p.dataInicio)
      && r.reply.body.value.fields.dataFim == TextOrNull(p.dataFim)
    ensures Valid(s) ==> Valid(r.store)
  {
    CursoController.Create(s, NullBlankDates(p))
  }

  /** Corrected `PUT /cursos/:id`: an existing course saved from the form is
      replaced, with blank dates stored as null. */
  function UpdateCurso(s: Store, id: int, p: CursoInput): (r: Step<Row<Curso>>)
    ensures IsInt32(id) && id in s.cursos && p.nome.Some? && CursoFormFits(p) ==>
      && r.reply.status == StatusOk
      && r.reply.body.Json?
      && r.store.cursos == s.cursos[id := r.reply.body.value.fields]
      && r.reply.body.value.fields.dataInicio == TextOrNull(p.dataInicio)
    ensures Valid(s) ==> Valid(r.store)
  {
    CursoController.Update(s, id, NullBlankDates(p))
  }

  /** As written: a student body with a blank birth date that passes the
      name, email and course checks is refused with 500. */
  lemma AlunoBlankDateRejected(s: Store, id: int, p: AlunoInput)
    requires p.dataNascimento == Some("")
    requires !TruthyId(p.cursoId) || (IsInt32(p.cursoId.value) && p.cursoId.value in s.cursos)
    ensures TruthyText(p.nome) && TruthyText(p.email) ==>
      AlunoController.Create(s, p) == Step(InternalError(), s)
    ensures AlunoController.Update(s, id, p) == Step(InternalError(), s)
  {
  }

  /** `x || null` on the birth date. */
  function NullBlankBirthDate(p: AlunoInput): (q: AlunoInput)
    ensures q.nome == p.nome && q.email == p.email && q.telefone == p.telefone
    ensures q.endereco == p.endereco && q.cursoId == p.cursoId
    ensures q.dataNascimento == TextOrNull(p.dataNascimento)
    ensures AlunoFormFits(p) ==> AlunoInputFits(q)
  {
    p.(dataNascimento := TextOrNull(p.dataNascimento))
  }

  /** Corrected `POST /alunos`: a student from the form with a new email and
      an existing (or no) course is created; a blank birth date is stored as
      null. */
  function CreateAluno(s: Store, p: AlunoInput): (r: Step<Row<Aluno>>)
    ensures Valid(s) && TruthyText(p.nome) && TruthyText(p.email) && AlunoFormFits(p)
            && (p.cursoId.None? || p.cursoId.value in s.cursos) && s.nextAlunoId <= MaxInt32 ==>
      && (r.reply.status == StatusCreated <==> !AlunoController.EmailInUse(s, Clip(p.email.value, EmailMax)))
      && (r.reply.status == StatusCreated ==> r.reply.body.Json? && r.reply.body.value.fields.dataNascimento == TextOrNull(p.dataNascimento))
    ensures Valid(s) ==> Valid(r.store)
  {
    AlunoController.Create(s, NullBlankBirthDate(p))
  }

  /** Corrected `PUT /alunos/:id`. */
  function UpdateAluno(s: Store, id: int, p: AlunoInput): (r: Step<Row<Aluno>>)
    ensures IsInt32(id) && id in s.alunos && p.nome.Some? && p.email.Some? && AlunoFormFits(p)
            && (p.cursoId.None? || p.cursoId.value in s.cursos) ==>
      && (r.reply.status == StatusOk <==> !AlunoEmailTaken(s, Clip(p.email.value, EmailMax), id))
      && (r.reply.status == StatusOk ==> r.reply.body.Json? && r.reply.body.value.fields.dataNascimento == TextOrNull(p.dataNascimento))
    ensures Valid(s) ==> Valid(r.store)
  {
    AlunoController.Update(s, id, NullBlankBirthDate(p))
  }
}
