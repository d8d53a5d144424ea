/** The requests that change the store, and the stores they can reach
    from the freshly created schema. */
module Api {
  import opened Schema
  import opened Requests
  import CursoController
  import VoluntarioController
  import AlunoController
  import TurmaController

  datatype Request =
    | CreateCurso(curso: CursoInput)
    | UpdateCurso(cursoId: int, curso: CursoInput)
    | DeleteCurso(cursoId: int)
    | CreateVoluntario(voluntario: VoluntarioInput)
    | UpdateVoluntario(voluntarioId: int, voluntario: VoluntarioInput)
    | DeleteVoluntario(voluntarioId: int)
    | CreateAluno(aluno: AlunoInput)
    | UpdateAluno(alunoId: int, aluno: AlunoInput)
    | DeleteAluno(alunoId: int)
    | CreateTurma(turma: TurmaInput)
    | UpdateTurma(turmaId: int, turma: TurmaInput)
    | DeleteTurma(turmaId: int)

  /** The store a request leaves behind, whatever its reply. */
  function Apply(s: Store, req: Request): (t: Store)
    ensures Valid(s) ==> Valid(t)
  {
    match req
    case CreateCurso(p) => CursoController.Create(s, p).store
    case UpdateCurso(id, p) => CursoController.Update(s, id, p).store
    case DeleteCurso(id) => CursoController.Delete(s, id).store
    case CreateVoluntario(p) => VoluntarioController.Create(s, p).store
    case UpdateVoluntario(id, p) => VoluntarioController.Update(s, id, p).store
    case DeleteVoluntario(id) => VoluntarioController.Delete(s, id).store
    case CreateAluno(p) => AlunoController.Create(s, p).store
    case UpdateAluno(id, p) => AlunoController.Update(s, id, p).store
    case DeleteAluno(id) => AlunoController.Delete(s, id).store
    case CreateTurma(p) => TurmaController.Create(s, p).store
    case UpdateTurma(id, p) => TurmaController.Update(s, id, p).store
    case DeleteTurma(id) => TurmaController.Delete(s, id).store
  }

  /** The store after serving `reqs` one after another, starting from the
      empty tables: every such store satisfies the schema's constraints. */
  function Replay(reqs: seq<Request>): (s: Store)
    ensures Valid(s)
    decreases |reqs|
  {
    if reqs == [] then Empty
    else Apply(Replay(reqs[..|reqs| - 1]), reqs[|reqs| - 1])
  }
}
