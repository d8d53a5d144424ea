/** The section endpoints. Create and update run in one transaction that
    writes the section row and its roster (the `turma_alunos` pairs): either
    both are committed or the tables are left as they were. */
module TurmaController {
  import opened Wrappers
  import opened Schema
  import opened Requests
  import opened Database
  import opened Responses
  import opened Listing

  const NomeCursoObrigatorios: string := "Nome e curso são obrigatórios"
  const NaoEncontrada: string := "Turma não encontrada"
  const Deletada: string := "Turma deletada com sucesso"

  /** A section as listed: its columns, the joined course and volunteer
      names, and the aggregated ids of its students. */
  datatype TurmaView = TurmaView(
    turma: Turma,
    cursoNome: Option<string>,
    voluntarioNome: Option<string>,
    alunosIds: seq<int>)

  /** The joined, aggregated view of section `id`. */
  function ViewOf(s: Store, id: int, t: Turma): (v: TurmaView)
    ensures v.turma == t
    ensures forall a :: a in v.alunosIds <==> a in Roster(s, id)
    ensures forall i, j :: 0 <= i < j < |v.alunosIds| ==> v.alunosIds[i] != v.alunosIds[j]
    ensures |v.alunosIds| == 0 <==> Roster(s, id) == {}
    ensures v.cursoNome.Some? <==> t.cursoId in s.cursos
    ensures v.cursoNome.Some? ==> v.cursoNome.value == s.cursos[t.cursoId].nome
    ensures v.voluntarioNome.Some? <==> t.voluntarioId.Some? && t.voluntarioId.value in s.voluntarios
    ensures v.voluntarioNome.Some? ==> v.voluntarioNome.value == s.voluntarios[t.voluntarioId.value].nome
  {
    var cursoNome := if t.cursoId in s.cursos then Some(s.cursos[t.cursoId].nome) else None;
    var voluntarioNome :=
      if t.voluntarioId.Some? && t.voluntarioId.value in s.voluntarios then Some(s.voluntarios[t.voluntarioId.value].nome)
      else None;
    TurmaView(t, cursoNome, voluntarioNome, Ascending(Roster(s, id)))
  }

  function Views(s: Store): (m: map<int, TurmaView>)
    ensures m.Keys == s.turmas.Keys
    ensures forall k :: k in s.turmas ==> m[k] == ViewOf(s, k, s.turmas[k])
  {
    map k | k in s.turmas :: ViewOf(s, k, s.turmas[k])
  }

  /** `GET /turmas`: every section, once, with its roster, newest first. */
  function GetAll(s: Store): (r: Reply<seq<Row<TurmaView>>>)
    ensures r.status == StatusOk && r.body.Json?
    ensures ListsExactly(r.body.value, Views(s))
    ensures forall i, j :: 0 <= i < j < |r.body.value| ==> r.body.value[i].id > r.body.value[j].id
  {
    Reply(StatusOk, Json(NewestFirst(Views(s))))
  }

  /** `GET /turmas/:id`. */
  function GetById(s: Store, id: int): (r: Reply<Row<TurmaView>>)
    ensures r.status == StatusOk <==> IsInt32(id) && id in s.turmas
    ensures r.status == StatusNotFound <==> IsInt32(id) && id !in s.turmas
    ensures r.status == StatusInternal <==> !IsInt32(id)
    ensures r.status == StatusOk ==> r.body == Json(Row(id, ViewOf(s, id, s.turmas[id])))
    ensures r.status == StatusNotFound ==> r.body == Error(NaoEncontrada)
  {
    if !IsInt32(id) then InternalError()
    else if id !in s.turmas then Reply(StatusNotFound, Error(NaoEncontrada))
    else Reply(StatusOk, Json(Row(id, ViewOf(s, id, s.turmas[id]))))
  }

  /** The section columns as bound: a falsy volunteer id or date becomes null. */
  function Columns(p: TurmaInput): (c: TurmaColumns)
    ensures c.nome == p.nome && c.cursoId == p.cursoId
    ensures c.voluntarioId == IdOrNull(p.voluntarioId)
    ensures c.dataInicio == TextOrNull(p.dataInicio) && c.dataFim == TextOrNull(p.dataFim)
  {
    TurmaColumns(p.nome, p.cursoId, IdOrNull(p.voluntarioId), TextOrNull(p.dataInicio), TextOrNull(p.dataFim))
  }

  /** The row holds the body's values, with falsy optional values as null
      and the name without the spaces its column cuts off. */
  predicate TurmaMatches(t: Turma, p: TurmaInput) {
    && p.nome.Some? && t.nome == Clip(p.nome.value, NomeMax) && p.cursoId == Some(t.cursoId)
    && t.voluntarioId == IdOrNull(p.voluntarioId)
    && t.dataInicio == TextOrNull(p.dataInicio) && t.dataFim == TextOrNull(p.dataFim)
  }

  /** Every value the section statement binds has its column's type. */
  predicate TurmaInputFits(p: TurmaInput) {
    && TextOk(p.nome) && VarcharOk(p.nome, NomeMax) && IntOk(p.cursoId) && IntOk(IdOrNull(p.voluntarioId))
    && DateOk(TextOrNull(p.dataInicio)) && DateOk(TextOrNull(p.dataFim))
  }

  /** The foreign keys of the section's columns hold. */
  predicate ReferencesExist(s: Store, p: TurmaInput) {
    && p.cursoId.Some? && p.cursoId.value in s.cursos
    && (IdOrNull(p.voluntarioId).Some? ==> p.voluntarioId.value in s.voluntarios)
  }

  /** The roster can be inserted: every id names a student, none twice. */
  predicate RosterInsertable(s: Store, ids: seq<int>) {
    !HasDuplicates(ids) && forall i :: 0 <= i < |ids| ==> ids[i] in s.alunos
  }

  /** The pairs a roster insert adds. */
  function Pairs(turmaId: int, ids: seq<int>): (ps: set<(int, int)>)
    ensures forall q :: q in ps <==> q.0 == turmaId && q.1 in ids
  {
    var ps := set a | a in ids :: (turmaId, a);
    forall q: (int, int) | q.0 == turmaId && q.1 in ids
      ensures q in ps
    {
      var a := q.1;
      assert a in ids && q == (turmaId, a);
    }
    ps
  }

  /** Adding a fresh section's pairs sets its roster to the listed students
      and leaves every other roster alone. */
  lemma RosterAfterInsert(s: Store, t: Store, id: int, ids: seq<int>)
    requires t.turmaAlunos == s.turmaAlunos + Pairs(id, ids)
    ensures (forall q :: q in s.turmaAlunos ==> q.0 != id) ==> forall a :: a in Roster(t, id) <==> a in ids
    ensures Valid(s) && id == s.nextTurmaId ==> forall a :: a in Roster(t, id) <==> a in ids
    ensures forall k :: k != id ==> Roster(t, k) == Roster(s, k)
  {
    if Valid(s) && id == s.nextTurmaId {
      forall q | q in s.turmaAlunos
        ensures q.0 != id
      {
        assert q.0 in s.turmas;
      }
    }
    if forall q :: q in s.turmaAlunos ==> q.0 != id {
      forall a | a in Roster(t, id)
        ensures a in ids
      {
        assert (id, a) in t.turmaAlunos;
      }
    }
    forall a | a in ids
      ensures a in Roster(t, id)
    {
      assert (id, a) in t.turmaAlunos;
    }
    forall k | k != id
      ensures Roster(t, k) == Roster(s, k)
    {
      forall a | a in Roster(t, k)
        ensures a in Roster(s, k)
      {
        assert (k, a) in s.turmaAlunos;
      }
      forall a | a in Roster(s, k)
        ensures a in Roster(t, k)
      {
        assert (k, a) in t.turmaAlunos;
      }
    }
  }

  /** Replacing a section's pairs sets its roster to the listed students
      and leaves every other roster alone. */
  lemma RosterAfterReplace(s: Store, t: Store, id: int, ids: seq<int>)
    requires t.turmaAlunos == (set q | q in s.turmaAlunos && q.0 != id) + Pairs(id, ids)
    ensures forall a :: a in Roster(t, id) <==> a in ids
    ensures forall k :: k != id ==> Roster(t, k) == Roster(s, k)
  {
    var kept := set q | q in s.turmaAlunos && q.0 != id;
    var u := s.(turmaAlunos := kept);
    RosterAfterInsert(u, t, id, ids);
    forall k | k != id
      ensures Roster(u, k) == Roster(s, k)
    {
      forall a | a in Roster(s, k)
        ensures a in Roster(u, k)
      {
        assert (k, a) in kept;
      }
    }
  }

  /** ROLLBACK: the tables as they were before BEGIN, the sequences as the
      failed transaction left them. */
  function Rollback(before: Store, after: Store): (r: Store)
    ensures SameTables(r, before)
    ensures r.nextCursoId == after.nextCursoId && r.nextVoluntarioId == after.nextVoluntarioId
    ensures r.nextAlunoId == after.nextAlunoId && r.nextTurmaId == after.nextTurmaId
    ensures Valid(before) && SequencesStep(before, after) ==> Valid(r)
  {
    before.(nextCursoId := after.nextCursoId, nextVoluntarioId := after.nextVoluntarioId,
            nextAlunoId := after.nextAlunoId, nextTurmaId := after.nextTurmaId)
  }

  /** The roster half of `POST /turmas`: section `id` has just been inserted
      into `s`, giving `t`; insert its students, or roll back to `s`. */
  function CreateRoster(s: Store, t: Store, id: int, ids: seq<int>): (r: Step<Row<Turma>>)
    requires id in t.turmas && t.turmaAlunos == s.turmaAlunos
    ensures r.reply.status in {StatusCreated, StatusInternal}
    ensures r.reply.status == StatusInternal ==> r == Step(InternalError(), Rollback(s, t))
    ensures r.reply.status == StatusCreated ==>
      && r.reply.body == Json(Row(id, t.turmas[id]))
      && r.store == t.(turmaAlunos := s.turmaAlunos + Pairs(id, ids))
      && (forall k :: k != id ==> Roster(r.store, k) == Roster(s, k))
    ensures Valid(s) && id == s.nextTurmaId && r.reply.status == StatusCreated ==>
      forall a :: a in Roster(r.store, id) <==> a in ids
    ensures Valid(s) && Valid(t) && id == s.nextTurmaId ==>
      (r.reply.status == StatusCreated <==> RosterInsertable(t, ids))
    ensures Valid(t) && r.reply.status == StatusCreated ==> Valid(r.store)
  {
    if |ids| > 0 then
      var e := InsertRoster(t, id, ids);
      match e.result
      case Failure(_) => Step(InternalError(), Rollback(s, e.store))
      case Success(_) =>
        RosterAfterInsert(s, e.store, id, ids);
        Step(Reply(StatusCreated, Json(Row(id, t.turmas[id]))), e.store)
    else
      RosterAfterInsert(s, t, id, ids);
      Step(Reply(StatusCreated, Json(Row(id, t.turmas[id]))), t)
  }

  /** `POST /turmas`: after the name/course check, BEGIN; insert the section;
      insert one roster pair per listed student; COMMIT. Any failure rolls
      back. */
  function Create(s: Store, p: TurmaInput): (r: Step<Row<Turma>>)
    ensures !TruthyText(p.nome) || !TruthyId(p.cursoId) ==>
      r == Step(Reply(StatusBadRequest, Error(NomeCursoObrigatorios)), s)
    ensures r.reply.status in {StatusCreated, StatusBadRequest, StatusInternal}
    ensures r.reply.status == StatusBadRequest ==> !TruthyText(p.nome) || !TruthyId(p.cursoId)
    ensures r.reply.status != StatusCreated ==> SameTables(r.store, s)
    ensures r.reply.status == StatusInternal ==> r.reply.body == Error(InternalErrorMessage)
    ensures r.reply.status == StatusCreated ==>
      && r.reply.body.Json?
      && var row := r.reply.body.value;
      && row.id == s.nextTurmaId && row.id !in s.turmas
      && TurmaMatches(row.fields, p)
      && r.store == s.(turmas := s.turmas[row.id := row.fields],
                       turmaAlunos := s.turmaAlunos + Pairs(row.id, p.alunosIds),
                       nextTurmaId := row.id + 1)
      && (forall t :: t != row.id ==> Roster(r.store, t) == Roster(s, t))
    ensures Valid(s) && r.reply.status == StatusCreated ==>
      && r.reply.body.Json?
      && forall a :: a in Roster(r.store, r.reply.body.value.id) <==> a in p.alunosIds
    ensures Valid(s) ==> Valid(r.store)
  {
    if !TruthyText(p.nome) || !TruthyId(p.cursoId) then
      Step(Reply(StatusBadRequest, Error(NomeCursoObrigatorios)), s)
    else
      var e := InsertTurma(s, Columns(p));
      match e.result
      case Failure(_) => Step(InternalError(), Rollback(s, e.store))
      case Success(id) => CreateRoster(s, e.store, id, p.alunosIds)
  }

  /** On a consistent store with a name, a course and ids left, creation
      commits exactly when every column fits, the referenced rows exist and
      the roster lists existing students without repeats. */
  lemma CreateSucceedsIff(s: Store, p: TurmaInput)
    requires Valid(s) && TruthyText(p.nome) && TruthyId(p.cursoId) && s.nextTurmaId <= MaxInt32
    ensures Create(s, p).reply.status == StatusCreated <==>
      TurmaInputFits(p) && ReferencesExist(s, p) && RosterInsertable(s, p.alunosIds)
  {
    InsertTurmaSucceeds(s, Columns(p));
  }

  /** The roster half of `PUT /turmas/:id`: section `id` has been updated and
      its pairs deleted, giving `t`; insert the new roster, or roll back to `s`. */
  function ReplaceRoster(s: Store, t: Store, id: int, ids: seq<int>): (r: Step<Row<Turma>>)
    requires id in t.turmas && t.turmaAlunos == (set q | q in s.turmaAlunos && q.0 != id)
    ensures r.reply.status in {StatusOk, StatusInternal}
    ensures r.reply.status == StatusInternal ==> r == Step(InternalError(), s)
    ensures r.reply.status == StatusOk ==>
      && r.reply.body == Json(Row(id, t.turmas[id]))
      && r.store == t.(turmaAlunos := t.turmaAlunos + Pairs(id, ids))
      && (forall a :: a in Roster(r.store, id) <==> a in ids)
      && (forall k :: k != id ==> Roster(r.store, k) == Roster(s, k))
    ensures Valid(t) ==> (r.reply.status == StatusOk <==> RosterInsertable(t, ids))
    ensures Valid(t) && r.reply.status == StatusOk ==> Valid(r.store)
  {
    if |ids| > 0 then
      var e := InsertRoster(t, id, ids);
      match e.result
      case Failure(_) => Step(InternalError(), s)
      case Success(_) =>
        RosterAfterReplace(s, e.store, id, ids);
        Step(Reply(StatusOk, Json(Row(id, t.turmas[id]))), e.store)
    else
      RosterAfterReplace(s, t, id, ids);
      Step(Reply(StatusOk, Json(Row(id, t.turmas[id]))), t)
  }

  /** `PUT /turmas/:id`: BEGIN; replace the section's columns (no presence
      check); delete its whole roster; insert the new one; COMMIT. A missing
      section rolls back with 404, any failure with 500. */
  function Update(s: Store, id: int, p: TurmaInput): (r: Step<Row<Turma>>)
    ensures r.reply.status in {StatusOk, StatusNotFound, StatusInternal}
    ensures r.reply.status != StatusOk ==> r.store == s
    ensures r.reply.status == StatusNotFound <==> TurmaInputFits(p) && IsInt32(id) && id !in s.turmas
    ensures r.reply.status == StatusNotFound ==> r.reply.body == Error(NaoEncontrada)
    ensures r.reply.status == StatusOk ==>
      && r.reply.body.Json?
      && var row := r.reply.body.value;
      && row.id == id && id in s.turmas
      && TurmaMatches(row.fields, p)
      && r.store == s.(turmas := s.turmas[id := row.fields],
                       turmaAlunos := (set q | q in s.turmaAlunos && q.0 != id) + Pairs(id, p.alunosIds))
      && (forall a :: a in Roster(r.store, id) <==> a in p.alunosIds)
      && (forall t :: t != id ==> Roster(r.store, t) == Roster(s, t))
    ensures p.nome.None? || p.cursoId.None? ==> r.reply.status != StatusOk
    ensures Valid(s) ==> Valid(r.store)
  {
    var e := UpdateTurma(s, id, Columns(p));
    match e.result
    case Failure(_) => Step(InternalError(), s)
    case Success(false) => Step(Reply(StatusNotFound, Error(NaoEncontrada)), s)
    case Success(true) =>
      var d := DeleteRoster(e.store, id);
      match d.result
      case Failure(_) => Step(InternalError(), s)
      case Success(_) => ReplaceRoster(s, d.store, id, p.alunosIds)
  }

  /** On a consistent store, updating an existing section commits exactly
      when a name is given, every column fits, the referenced rows exist and
      the roster lists existing students without repeats. */
  lemma UpdateSucceedsIff(s: Store, id: int, p: TurmaInput)
    requires Valid(s) && IsInt32(id) && id in s.turmas
    ensures Update(s, id, p).reply.status == StatusOk <==>
      p.nome.Some? && TurmaInputFits(p) && ReferencesExist(s, p) && RosterInsertable(s, p.alunosIds)
  {
    UpdateTurmaSucceeds(s, id, Columns(p));
  }

  /** `DELETE /turmas/:id`: the section's roster pairs cascade. */
  function Delete(s: Store, id: int): (r: Step<()>)
    ensures r.reply.status in {StatusOk, StatusNotFound, StatusInternal}
    ensures r.reply.status == StatusInternal <==> !IsInt32(id)
    ensures r.reply.status == StatusNotFound <==> IsInt32(id) && id !in s.turmas
    ensures r.reply.status != StatusOk ==> r.store == s
    ensures r.reply.status == StatusOk ==>
      && r.reply.body == Message(Deletada)
      && r.store.turmas == s.turmas - {id}
      && r.store.cursos == s.cursos && r.store.voluntarios == s.voluntarios && r.store.alunos == s.alunos
      && (forall q :: q in r.store.turmaAlunos <==> q in s.turmaAlunos && q.0 != id)
    ensures Valid(s) ==> Valid(r.store)
  {
    var e := DeleteTurma(s, id);
    match e.result
    case Failure(_) => Step(InternalError(), s)
    case Success(false) => Step(Reply(StatusNotFound, Error(NaoEncontrada)), s)
    case Success(true) => Step(Reply(StatusOk, Message(Deletada)), e.store)
  }
}
