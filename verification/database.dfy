/** The SQL statements the controllers issue, with the database's constraint
    enforcement. A statement runs in this order:

    1. parameter binding: text parameters must not hold NUL, INTEGER
       parameters must be 32-bit and DATE parameters must be date text;
       then planning, which folds the VARCHAR length coercion of each bound
       value (too long, unless the excess is spaces); a failure here rejects
       the statement and nothing happens;
    2. row selection: an UPDATE or DELETE whose id matches no row affects
       nothing and succeeds with zero rows;
    3. for an INSERT, the SERIAL sequence hands out the next id; this is not
       undone when the statement or its transaction later fails;
    4. NOT NULL, then UNIQUE (primary key and email), then foreign keys,
       checked on the values as stored (VARCHAR text with its excess spaces
       cut off).

    A failed statement leaves every table as it was. */
module Database {
  import opened Wrappers
  import opened Schema
  import opened Requests

  /** The SQLSTATE classes the statements can raise. */
  datatype DbError =
    | CharacterNotInRepertoire
    | InvalidDatetime
    | NumericOutOfRange
    | SequenceExhausted
    | StringTooLong
    | NotNullViolation
    | UniqueViolation
    | ForeignKeyViolation
  {
    function Code(): string {
      match this
      case CharacterNotInRepertoire => "22021"
      case InvalidDatetime => "22007"
      case NumericOutOfRange => "22003"
      case SequenceExhausted => "2200H"
      case StringTooLong => "22001"
      case NotNullViolation => "23502"
      case UniqueViolation => "23505"
      case ForeignKeyViolation => "23503"
    }
  }

  /** The code the controllers test for to report a duplicate email. */
  const UniqueViolationCode: string := "23505"

  lemma UniqueCodeIsOnlyUniqueViolation(e: DbError)
    ensures e.Code() == UniqueViolationCode <==> e == UniqueViolation
  {
  }

  /** A statement's result together with the store it leaves behind. */
  datatype Exec<T> = Exec(result: Result<T, DbError>, store: Store)

  /** The scalar columns of a section row, as bound to the statement. */
  datatype TurmaColumns = TurmaColumns(
    nome: Option<string>,
    cursoId: Option<int>,
    voluntarioId: Option<int>,
    dataInicio: Option<string>,
    dataFim: Option<string>)

  function CursoOf(p: CursoInput): Curso
    requires p.nome.Some?
  {
    Curso(Clip(p.nome.value, NomeMax), p.descricao, p.dataInicio, p.dataFim, p.cargaHoraria)
  }

  function VoluntarioOf(p: VoluntarioInput): Voluntario
    requires p.nome.Some? && p.email.Some?
  {
    Voluntario(Clip(p.nome.value, NomeMax), Clip(p.email.value, EmailMax), ClipNullable(p.telefone, TelefoneMax),
               p.endereco, p.habilidades, p.disponibilidade)
  }

  function AlunoOf(p: AlunoInput): Aluno
    requires p.nome.Some? && p.email.Some?
  {
    Aluno(Clip(p.nome.value, NomeMax), Clip(p.email.value, EmailMax), ClipNullable(p.telefone, TelefoneMax),
          p.endereco, p.dataNascimento, p.cursoId)
  }

  function TurmaOf(c: TurmaColumns): Turma
    requires c.nome.Some? && c.cursoId.Some?
  {
    Turma(Clip(c.nome.value, NomeMax), c.cursoId.value, c.voluntarioId, c.dataInicio, c.dataFim)
  }

  /** The row holds exactly the body's values, VARCHAR text without the
      spaces its column cuts off. */
  predicate CursoMatches(c: Curso, p: CursoInput) {
    && p.nome.Some? && c.nome == Clip(p.nome.value, NomeMax) && c.descricao == p.descricao
    && c.dataInicio == p.dataInicio && c.dataFim == p.dataFim && c.cargaHoraria == p.cargaHoraria
  }

  predicate VoluntarioMatches(v: Voluntario, p: VoluntarioInput) {
    && p.nome.Some? && v.nome == Clip(p.nome.value, NomeMax)
    && p.email.Some? && v.email == Clip(p.email.value, EmailMax)
    && v.telefone == ClipNullable(p.telefone, TelefoneMax)
    && v.endereco == p.endereco && v.habilidades == p.habilidades && v.disponibilidade == p.disponibilidade
  }

  predicate AlunoMatches(a: Aluno, p: AlunoInput) {
    && p.nome.Some? && a.nome == Clip(p.nome.value, NomeMax)
    && p.email.Some? && a.email == Clip(p.email.value, EmailMax)
    && a.telefone == ClipNullable(p.telefone, TelefoneMax)
    && a.endereco == p.endereco && a.dataNascimento == p.dataNascimento && a.cursoId == p.cursoId
  }

  /** Every text parameter of the body can be bound. */
  predicate CursoTextOk(p: CursoInput) {
    TextOk(p.nome) && TextOk(p.descricao)
  }

  predicate VoluntarioTextOk(p: VoluntarioInput) {
    && TextOk(p.nome) && TextOk(p.email) && TextOk(p.telefone) && TextOk(p.endereco)
    && TextArrayOk(p.habilidades) && TextOk(p.disponibilidade)
  }

  predicate AlunoTextOk(p: AlunoInput) {
    TextOk(p.nome) && TextOk(p.email) && TextOk(p.telefone) && TextOk(p.endereco)
  }

  /** Every present value of the body has its column's type. */
  predicate CursoInputFits(p: CursoInput) {
    && CursoTextOk(p)
    && VarcharOk(p.nome, NomeMax) && DateOk(p.dataInicio) && DateOk(p.dataFim) && IntOk(p.cargaHoraria)
  }

  predicate VoluntarioInputFits(p: VoluntarioInput) {
    VoluntarioTextOk(p) && VarcharOk(p.nome, NomeMax) && VarcharOk(p.email, EmailMax) && VarcharOk(p.telefone, TelefoneMax)
  }

  predicate AlunoInputFits(p: AlunoInput) {
    && AlunoTextOk(p)
    && VarcharOk(p.nome, NomeMax) && VarcharOk(p.email, EmailMax) && VarcharOk(p.telefone, TelefoneMax)
    && DateOk(p.dataNascimento) && IntOk(p.cursoId)
  }

  /** Every section value can be bound and planned. */
  predicate TurmaColumnsFit(c: TurmaColumns) {
    && TextOk(c.nome) && VarcharOk(c.nome, NomeMax) && IntOk(c.cursoId) && IntOk(c.voluntarioId)
    && DateOk(c.dataInicio) && DateOk(c.dataFim)
  }

  predicate HasDuplicates(xs: seq<int>) {
    exists i, j :: 0 <= i < j < |xs| && xs[i] == xs[j]
  }

  // ---------------------------------------------------------------- cursos

  /** `INSERT INTO cursos … RETURNING *`. */
  function InsertCurso(s: Store, p: CursoInput): (e: Exec<int>)
    ensures SequencesStep(s, e.store)
    ensures e.result.Failure? ==> SameTables(e.store, s)
    ensures e.result.Success? ==>
      var id := e.result.value;
      && id == s.nextCursoId && id !in s.cursos && p.nome.Some?
      && CursoFits(CursoOf(p))
      && e.store == s.(cursos := s.cursos[id := CursoOf(p)], nextCursoId := id + 1)
    ensures !CursoTextOk(p) ==> e == Exec(Failure(CharacterNotInRepertoire), s)
    ensures !CursoInputFits(p) ==> e.result.Failure? && e.store == s
    ensures Valid(s) ==> Valid(e.store)
  {
    if !CursoTextOk(p) then Exec(Failure(CharacterNotInRepertoire), s)
    else if !DateOk(p.dataInicio) || !DateOk(p.dataFim) then Exec(Failure(InvalidDatetime), s)
    else if !IntOk(p.cargaHoraria) then Exec(Failure(NumericOutOfRange), s)
    else if !VarcharOk(p.nome, NomeMax) then Exec(Failure(StringTooLong), s)
    else if s.nextCursoId > MaxInt32 then Exec(Failure(SequenceExhausted), s)
    else
      var id := s.nextCursoId;
      var s1 := s.(nextCursoId := id + 1);
      if p.nome.None? then Exec(Failure(NotNullViolation), s1)
      else if id in s.cursos then Exec(Failure(UniqueViolation), s1)
      else Exec(Success(id), s1.(cursos := s.cursos[id := CursoOf(p)]))
  }

  /** `UPDATE cursos SET … WHERE id = $6`; the result says whether a row matched. */
  function UpdateCurso(s: Store, id: int, p: CursoInput): (e: Exec<bool>)
    ensures e.result.Success? && e.result.value ==>
      id in s.cursos && p.nome.Some? && CursoFits(CursoOf(p))
      && e.store == s.(cursos := s.cursos[id := CursoOf(p)])
    ensures !(e.result.Success? && e.result.value) ==> e.store == s
    ensures !CursoTextOk(p) ==> e == Exec(Failure(CharacterNotInRepertoire), s)
    ensures !CursoInputFits(p) || !IsInt32(id) ==> e.result.Failure? && e.store == s
    ensures e.result == Success(false) <==> CursoInputFits(p) && IsInt32(id) && id !in s.cursos
    ensures Valid(s) ==> Valid(e.store)
  {
    if !CursoTextOk(p) then Exec(Failure(CharacterNotInRepertoire), s)
    else if !DateOk(p.dataInicio) || !DateOk(p.dataFim) then Exec(Failure(InvalidDatetime), s)
    else if !IntOk(p.cargaHoraria) || !IsInt32(id) then Exec(Failure(NumericOutOfRange), s)
    else if !VarcharOk(p.nome, NomeMax) then Exec(Failure(StringTooLong), s)
    else if id !in s.cursos then Exec(Success(false), s)
    else if p.nome.None? then Exec(Failure(NotNullViolation), s)
    else Exec(Success(true), s.(cursos := s.cursos[id := CursoOf(p)]))
  }

  /** A student's row after its course is deleted (ON DELETE SET NULL). */
  function ClearCurso(a: Aluno, cursoId: int): Aluno {
    if a.cursoId == Some(cursoId) then a.(cursoId := None) else a
  }

  /** The store once course `id` is deleted, with the schema's referential
      actions: its sections and their roster pairs cascade, and its students
      stay with no course. */
  function WithoutCurso(s: Store, id: int): (t: Store)
    ensures t.cursos == s.cursos - {id}
    ensures t.voluntarios == s.voluntarios
    ensures forall k :: k in t.turmas <==> k in s.turmas && s.turmas[k].cursoId != id
    ensures forall k :: k in t.turmas ==> t.turmas[k] == s.turmas[k]
    ensures t.alunos.Keys == s.alunos.Keys
    ensures forall k :: k in s.alunos ==>
      t.alunos[k] == s.alunos[k].(cursoId := if s.alunos[k].cursoId == Some(id) then None else s.alunos[k].cursoId)
    ensures forall q :: q in t.turmaAlunos <==> q in s.turmaAlunos && !(q.0 in s.turmas && s.turmas[q.0].cursoId == id)
    ensures SequencesStep(s, t) && t.nextCursoId == s.nextCursoId
  {
    s.(
      cursos := s.cursos - {id},
      alunos := map k | k in s.alunos :: ClearCurso(s.alunos[k], id),
      turmas := map k | k in s.turmas && s.turmas[k].cursoId != id :: s.turmas[k],
      turmaAlunos := set p | p in s.turmaAlunos && !(p.0 in s.turmas && s.turmas[p.0].cursoId == id))
  }

  /** Deleting a course keeps every constraint: no section or student is
      left pointing at it. */
  lemma WithoutCursoValid(s: Store, id: int)
    ensures Valid(s) ==> Valid(WithoutCurso(s, id))
  {
  }

  /** `DELETE FROM cursos WHERE id = $1`, with the schema's referential actions. */
  function DeleteCurso(s: Store, id: int): (e: Exec<bool>)
    ensures e.result.Failure? <==> !IsInt32(id)
    ensures e.result == Success(false) <==> IsInt32(id) && id !in s.cursos
    ensures !(e.result.Success? && e.result.value) ==> e.store == s
    ensures e.result == Success(true) ==> id in s.cursos && e.store == WithoutCurso(s, id)
    ensures Valid(s) ==> Valid(e.store)
  {
    if !IsInt32(id) then Exec(Failure(NumericOutOfRange), s)
    else if id !in s.cursos then Exec(Success(false), s)
    else
      WithoutCursoValid(s, id);
      Exec(Success(true), WithoutCurso(s, id))
  }

  // ----------------------------------------------------------- voluntarios

  /** `INSERT INTO voluntarios … RETURNING *`. */
  function InsertVoluntario(s: Store, p: VoluntarioInput): (e: Exec<int>)
    ensures SequencesStep(s, e.store)
    ensures e.result.Failure? ==> SameTables(e.store, s)
    ensures e.result.Success? ==>
      var id := e.result.value;
      && id == s.nextVoluntarioId && id !in s.voluntarios && p.nome.Some? && p.email.Some?
      && !VoluntarioEmailTaken(s, Clip(p.email.value, EmailMax), id)
      && VoluntarioFits(VoluntarioOf(p))
      && e.store == s.(voluntarios := s.voluntarios[id := VoluntarioOf(p)], nextVoluntarioId := id + 1)
    ensures !VoluntarioTextOk(p) ==> e == Exec(Failure(CharacterNotInRepertoire), s)
    ensures !VoluntarioInputFits(p) ==> e.result.Failure? && e.store == s
    ensures Valid(s) ==> Valid(e.store)
  {
    if !VoluntarioTextOk(p) then Exec(Failure(CharacterNotInRepertoire), s)
    else if !VarcharOk(p.nome, NomeMax) || !VarcharOk(p.email, EmailMax) || !VarcharOk(p.telefone, TelefoneMax) then
      Exec(Failure(StringTooLong), s)
    else if s.nextVoluntarioId > MaxInt32 then Exec(Failure(SequenceExhausted), s)
    else
      var id := s.nextVoluntarioId;
      var s1 := s.(nextVoluntarioId := id + 1);
      if p.nome.None? || p.email.None? then Exec(Failure(NotNullViolation), s1)
      else if id in s.voluntarios || VoluntarioEmailTaken(s, Clip(p.email.value, EmailMax), id) then Exec(Failure(UniqueViolation), s1)
      else Exec(Success(id), s1.(voluntarios := s.voluntarios[id := VoluntarioOf(p)]))
  }

  /** `UPDATE voluntarios SET … WHERE id = $7`. */
  function UpdateVoluntario(s: Store, id: int, p: VoluntarioInput): (e: Exec<bool>)
    ensures e.result.Success? && e.result.value ==>
      && id in s.voluntarios && p.nome.Some? && p.email.Some?
      && !VoluntarioEmailTaken(s, Clip(p.email.value, EmailMax), id)
      && VoluntarioFits(VoluntarioOf(p))
      && e.store == s.(voluntarios := s.voluntarios[id := VoluntarioOf(p)])
    ensures !(e.result.Success? && e.result.value) ==> e.store == s
    ensures !VoluntarioTextOk(p) ==> e == Exec(Failure(CharacterNotInRepertoire), s)
    ensures !VoluntarioInputFits(p) || !IsInt32(id) ==> e.result.Failure? && e.store == s
    ensures e.result == Success(false) <==> VoluntarioInputFits(p) && IsInt32(id) && id !in s.voluntarios
    ensures Valid(s) ==> Valid(e.store)
  {
    if !VoluntarioTextOk(p) then Exec(Failure(CharacterNotInRepertoire), s)
    else if !IsInt32(id) then Exec(Failure(NumericOutOfRange), s)
    else if !VarcharOk(p.nome, NomeMax) || !VarcharOk(p.email, EmailMax) || !VarcharOk(p.telefone, TelefoneMax) then
      Exec(Failure(StringTooLong), s)
    else if id !in s.voluntarios then Exec(Success(false), s)
    else if p.nome.None? || p.email.None? then Exec(Failure(NotNullViolation), s)
    else if VoluntarioEmailTaken(s, Clip(p.email.value, EmailMax), id) then Exec(Failure(UniqueViolation), s)
    else Exec(Success(true), s.(voluntarios := s.voluntarios[id := VoluntarioOf(p)]))
  }

  /** A section's row after its volunteer is deleted (ON DELETE SET NULL). */
  function ClearVoluntario(t: Turma, voluntarioId: int): Turma {
    if t.voluntarioId == Some(voluntarioId) then t.(voluntarioId := None) else t
  }

  /** `DELETE FROM voluntarios WHERE id = $1`. */
  function DeleteVoluntario(s: Store, id: int): (e: Exec<bool>)
    ensures e.result.Failure? <==> !IsInt32(id)
    ensures e.result == Success(false) <==> IsInt32(id) && id !in s.voluntarios
    ensures !(e.result.Success? && e.result.value) ==> e.store == s
    ensures e.result == Success(true) ==>
      && e.store.voluntarios == s.voluntarios - {id}
      && e.store.cursos == s.cursos && e.store.alunos == s.alunos && e.store.turmaAlunos == s.turmaAlunos
      && e.store.turmas.Keys == s.turmas.Keys
      && (forall k :: k in s.turmas ==>
            e.store.turmas[k] == s.turmas[k].(voluntarioId := if s.turmas[k].voluntarioId == Some(id) then None else s.turmas[k].voluntarioId))
    ensures Valid(s) ==> Valid(e.store)
  {
    if !IsInt32(id) then Exec(Failure(NumericOutOfRange), s)
    else if id !in s.voluntarios then Exec(Success(false), s)
    else Exec(Success(true), s.(
      voluntarios := s.voluntarios - {id},
      turmas := map k | k in s.turmas :: ClearVoluntario(s.turmas[k], id)))
  }

  // ---------------------------------------------------------------- alunos

  /** `SELECT id FROM cursos WHERE id = $1`: whether the course exists. */
  function CursoExists(s: Store, id: int): (e: Exec<bool>)
    ensures e.store == s
    ensures e.result.Success? <==> IsInt32(id)
    ensures e.result.Success? ==> (e.result.value <==> id in s.cursos)
  {
    if !IsInt32(id) then Exec(Failure(NumericOutOfRange), s)
    else Exec(Success(id in s.cursos), s)
  }

  /** `INSERT INTO alunos … RETURNING *`. */
  function InsertAluno(s: Store, p: AlunoInput): (e: Exec<int>)
    ensures SequencesStep(s, e.store)
    ensures e.result.Failure? ==> SameTables(e.store, s)
    ensures e.result.Success? ==>
      var id := e.result.value;
      && id == s.nextAlunoId && id !in s.alunos && p.nome.Some? && p.email.Some?
      && !AlunoEmailTaken(s, Clip(p.email.value, EmailMax), id)
      && (p.cursoId.Some? ==> p.cursoId.value in s.cursos)
      && AlunoFits(AlunoOf(p))
      && e.store == s.(alunos := s.alunos[id := AlunoOf(p)], nextAlunoId := id + 1)
    ensures !AlunoTextOk(p) ==> e == Exec(Failure(CharacterNotInRepertoire), s)
    ensures !AlunoInputFits(p) ==> e.result.Failure? && e.store == s
    ensures Valid(s) ==> Valid(e.store)
  {
    if !AlunoTextOk(p) then Exec(Failure(CharacterNotInRepertoire), s)
    else if !DateOk(p.dataNascimento) then Exec(Failure(InvalidDatetime), s)
    else if !IntOk(p.cursoId) then Exec(Failure(NumericOutOfRange), s)
    else if !VarcharOk(p.nome, NomeMax) || !VarcharOk(p.email, EmailMax) || !VarcharOk(p.telefone, TelefoneMax) then
      Exec(Failure(StringTooLong), s)
    else if s.nextAlunoId > MaxInt32 then Exec(Failure(SequenceExhausted), s)
    else
      var id := s.nextAlunoId;
      var s1 := s.(nextAlunoId := id + 1);
      if p.nome.None? || p.email.None? then Exec(Failure(NotNullViolation), s1)
      else if id in s.alunos || AlunoEmailTaken(s, Clip(p.email.value, EmailMax), id) then Exec(Failure(UniqueViolation), s1)
      else if p.cursoId.Some? && p.cursoId.value !in s.cursos then Exec(Failure(ForeignKeyViolation), s1)
      else Exec(Success(id), s1.(alunos := s.alunos[id := AlunoOf(p)]))
  }

  /** `UPDATE alunos SET … WHERE id = $7`. */
  function UpdateAluno(s: Store, id: int, p: AlunoInput): (e: Exec<bool>)
    ensures e.result.Success? && e.result.value ==>
      && id in s.alunos && p.nome.Some? && p.email.Some?
      && !AlunoEmailTaken(s, Clip(p.email.value, EmailMax), id)
      && (p.cursoId.Some? ==> p.cursoId.value in s.cursos)
      && AlunoFits(AlunoOf(p))
      && e.store == s.(alunos := s.alunos[id := AlunoOf(p)])
    ensures !(e.result.Success? && e.result.value) ==> e.store == s
    ensures !AlunoTextOk(p) ==> e == Exec(Failure(CharacterNotInRepertoire), s)
    ensures !AlunoInputFits(p) || !IsInt32(id) ==> e.result.Failure? && e.store == s
    ensures e.result == Success(false) <==> AlunoInputFits(p) && IsInt32(id) && id !in s.alunos
    ensures Valid(s) ==> Valid(e.store)
  {
    if !AlunoTextOk(p) then Exec(Failure(CharacterNotInRepertoire), s)
    else if !DateOk(p.dataNascimento) then Exec(Failure(InvalidDatetime), s)
    else if !IntOk(p.cursoId) || !IsInt32(id) then Exec(Failure(NumericOutOfRange), s)
    else if !VarcharOk(p.nome, NomeMax) || !VarcharOk(p.email, EmailMax) || !VarcharOk(p.telefone, TelefoneMax) then
      Exec(Failure(StringTooLong), s)
    else if id !in s.alunos then Exec(Success(false), s)
    else if p.nome.None? || p.email.None? then Exec(Failure(NotNullViolation), s)
    else if AlunoEmailTaken(s, Clip(p.email.value, EmailMax), id) then Exec(Failure(UniqueViolation), s)
    else if p.cursoId.Some? && p.cursoId.value !in s.cursos then Exec(Failure(ForeignKeyViolation), s)
    else Exec(Success(true), s.(alunos := s.alunos[id := AlunoOf(p)]))
  }

  /** `DELETE FROM alunos WHERE id = $1`; its roster pairs cascade. */
  function DeleteAluno(s: Store, id: int): (e: Exec<bool>)
    ensures e.result.Failure? <==> !IsInt32(id)
    ensures e.result == Success(false) <==> IsInt32(id) && id !in s.alunos
    ensures !(e.result.Success? && e.result.value) ==> e.store == s
    ensures e.result == Success(true) ==>
      && e.store.alunos == s.alunos - {id}
      && e.store.cursos == s.cursos && e.store.voluntarios == s.voluntarios && e.store.turmas == s.turmas
      && (forall q :: q in e.store.turmaAlunos <==> q in s.turmaAlunos && q.1 != id)
    ensures Valid(s) ==> Valid(e.store)
  {
    if !IsInt32(id) then Exec(Failure(NumericOutOfRange), s)
    else if id !in s.alunos then Exec(Success(false), s)
    else Exec(Success(true), s.(
      alunos := s.alunos - {id},
      turmaAlunos := set p | p in s.turmaAlunos && p.1 != id))
  }

  // ---------------------------------------------------------------- turmas

  /** `INSERT INTO turmas … RETURNING *`. */
  function InsertTurma(s: Store, c: TurmaColumns): (e: Exec<int>)
    ensures SequencesStep(s, e.store)
    ensures e.result.Failure? ==> SameTables(e.store, s)
    ensures e.result.Success? ==>
      var id := e.result.value;
      && id == s.nextTurmaId && id !in s.turmas && c.nome.Some? && c.cursoId.Some?
      && c.cursoId.value in s.cursos
      && (c.voluntarioId.Some? ==> c.voluntarioId.value in s.voluntarios)
      && TurmaFits(TurmaOf(c))
      && e.store == s.(turmas := s.turmas[id := TurmaOf(c)], nextTurmaId := id + 1)
    ensures !TextOk(c.nome) ==> e == Exec(Failure(CharacterNotInRepertoire), s)
    ensures !TurmaColumnsFit(c) ==> e.result.Failure? && e.store == s
    ensures Valid(s) ==> Valid(e.store)
  {
    if !TextOk(c.nome) then Exec(Failure(CharacterNotInRepertoire), s)
    else if !IntOk(c.cursoId) || !IntOk(c.voluntarioId) then Exec(Failure(NumericOutOfRange), s)
    else if !DateOk(c.dataInicio) || !DateOk(c.dataFim) then Exec(Failure(InvalidDatetime), s)
    else if !VarcharOk(c.nome, NomeMax) then Exec(Failure(StringTooLong), s)
    else if s.nextTurmaId > MaxInt32 then Exec(Failure(SequenceExhausted), s)
    else
      var id := s.nextTurmaId;
      var s1 := s.(nextTurmaId := id + 1);
      if c.nome.None? || c.cursoId.None? then Exec(Failure(NotNullViolation), s1)
      else if id in s.turmas then Exec(Failure(UniqueViolation), s1)
      else if c.cursoId.value !in s.cursos then Exec(Failure(ForeignKeyViolation), s1)
      else if c.voluntarioId.Some? && c.voluntarioId.value !in s.voluntarios then Exec(Failure(ForeignKeyViolation), s1)
      else Exec(Success(id), s1.(turmas := s.turmas[id := TurmaOf(c)]))
  }

  /** Every section value fits its column and references existing rows. */
  predicate TurmaColumnsAccepted(s: Store, c: TurmaColumns) {
    && TurmaColumnsFit(c) && c.nome.Some? && c.cursoId.Some? && c.cursoId.value in s.cursos
    && (c.voluntarioId.Some? ==> c.voluntarioId.value in s.voluntarios)
  }

  /** On a consistent store with ids left, the section insert succeeds
      exactly when its values are accepted. */
  lemma InsertTurmaSucceeds(s: Store, c: TurmaColumns)
    requires Valid(s) && s.nextTurmaId <= MaxInt32
    ensures InsertTurma(s, c).result.Success? <==> TurmaColumnsAccepted(s, c)
  {
    assert s.nextTurmaId !in s.turmas;
  }

  /** For an existing section id, the update changes a row exactly when its
      values are accepted. */
  lemma UpdateTurmaSucceeds(s: Store, id: int, c: TurmaColumns)
    requires IsInt32(id) && id in s.turmas
    ensures UpdateTurma(s, id, c).result == Success(true) <==> TurmaColumnsAccepted(s, c)
  {
  }

  /** `UPDATE turmas SET … WHERE id = $6`. */
  function UpdateTurma(s: Store, id: int, c: TurmaColumns): (e: Exec<bool>)
    ensures e.result.Success? && e.result.value ==>
      && id in s.turmas && c.nome.Some? && c.cursoId.Some?
      && c.cursoId.value in s.cursos
      && (c.voluntarioId.Some? ==> c.voluntarioId.value in s.voluntarios)
      && TurmaFits(TurmaOf(c))
      && e.store == s.(turmas := s.turmas[id := TurmaOf(c)])
    ensures !(e.result.Success? && e.result.value) ==> e.store == s
    ensures !TextOk(c.nome) ==> e == Exec(Failure(CharacterNotInRepertoire), s)
    ensures !TurmaColumnsFit(c) || !IsInt32(id) ==> e.result.Failure? && e.store == s
    ensures e.result == Success(false) <==> TurmaColumnsFit(c) && IsInt32(id) && id !in s.turmas
    ensures Valid(s) ==> Valid(e.store)
  {
    if !TextOk(c.nome) then Exec(Failure(CharacterNotInRepertoire), s)
    else if !IntOk(c.cursoId) || !IntOk(c.voluntarioId) then Exec(Failure(NumericOutOfRange), s)
    else if !DateOk(c.dataInicio) || !DateOk(c.dataFim) then Exec(Failure(InvalidDatetime), s)
    else if !IsInt32(id) then Exec(Failure(NumericOutOfRange), s)
    else if !VarcharOk(c.nome, NomeMax) then Exec(Failure(StringTooLong), s)
    else if id !in s.turmas then Exec(Success(false), s)
    else if c.nome.None? || c.cursoId.None? then Exec(Failure(NotNullViolation), s)
    else if c.cursoId.value !in s.cursos then Exec(Failure(ForeignKeyViolation), s)
    else if c.voluntarioId.Some? && c.voluntarioId.value !in s.voluntarios then Exec(Failure(ForeignKeyViolation), s)
    else Exec(Success(true), s.(turmas := s.turmas[id := TurmaOf(c)]))
  }

  /** `DELETE FROM turmas WHERE id = $1`; its roster pairs cascade. */
  function DeleteTurma(s: Store, id: int): (e: Exec<bool>)
    ensures e.result.Failure? <==> !IsInt32(id)
    ensures e.result == Success(false) <==> IsInt32(id) && id !in s.turmas
    ensures !(e.result.Success? && e.result.value) ==> e.store == s
    ensures e.result == Success(true) ==>
      && e.store.turmas == s.turmas - {id}
      && e.store.cursos == s.cursos && e.store.voluntarios == s.voluntarios && e.store.alunos == s.alunos
      && (forall q :: q in e.store.turmaAlunos <==> q in s.turmaAlunos && q.0 != id)
    ensures Valid(s) ==> Valid(e.store)
  {
    if !IsInt32(id) then Exec(Failure(NumericOutOfRange), s)
    else if id !in s.turmas then Exec(Success(false), s)
    else Exec(Success(true), s.(
      turmas := s.turmas - {id},
      turmaAlunos := set p | p in s.turmaAlunos && p.0 != id))
  }

  /** `DELETE FROM turma_alunos WHERE turma_id = $1`. */
  function DeleteRoster(s: Store, turmaId: int): (e: Exec<()>)
    ensures e.result.Success? <==> IsInt32(turmaId)
    ensures e.result.Success? ==> Roster(e.store, turmaId) == {}
    ensures forall p :: p in e.store.turmaAlunos <==> p in s.turmaAlunos && (e.result.Failure? || p.0 != turmaId)
    ensures e.store == s.(turmaAlunos := e.store.turmaAlunos)
    ensures Valid(s) ==> Valid(e.store)
  {
    if !IsInt32(turmaId) then Exec(Failure(NumericOutOfRange), s)
    else Exec(Success(()), s.(turmaAlunos := set p | p in s.turmaAlunos && p.0 != turmaId))
  }

  /** `INSERT INTO turma_alunos (turma_id, aluno_id) VALUES ($1, $2), …`, one
      row per listed student. */
  function InsertRoster(s: Store, turmaId: int, alunoIds: seq<int>): (e: Exec<()>)
    ensures e.result.Failure? ==> e.store == s
    ensures HasDuplicates(alunoIds) ==> e.result.Failure?
    ensures (exists i :: 0 <= i < |alunoIds| && alunoIds[i] !in s.alunos) ==> e.result.Failure?
    ensures e.result.Success? ==>
      && turmaId in s.turmas
      && (forall i :: 0 <= i < |alunoIds| ==> alunoIds[i] in s.alunos && (turmaId, alunoIds[i]) !in s.turmaAlunos)
      && e.store == s.(turmaAlunos := s.turmaAlunos + set a | a in alunoIds :: (turmaId, a))
    ensures Valid(s) && turmaId in s.turmas && (forall q :: q in s.turmaAlunos ==> q.0 != turmaId)
              && !HasDuplicates(alunoIds) && (forall i :: 0 <= i < |alunoIds| ==> alunoIds[i] in s.alunos) ==>
      e.result.Success?
    ensures Valid(s) ==> Valid(e.store)
  {
    if !IsInt32(turmaId) || exists i :: 0 <= i < |alunoIds| && !IsInt32(alunoIds[i]) then
      Exec(Failure(NumericOutOfRange), s)
    else if HasDuplicates(alunoIds) || exists i :: 0 <= i < |alunoIds| && (turmaId, alunoIds[i]) in s.turmaAlunos then
      Exec(Failure(UniqueViolation), s)
    else if turmaId !in s.turmas || exists i :: 0 <= i < |alunoIds| && alunoIds[i] !in s.alunos then
      Exec(Failure(ForeignKeyViolation), s)
    else Exec(Success(()), s.(turmaAlunos := s.turmaAlunos + set a | a in alunoIds :: (turmaId, a)))
  }
}
