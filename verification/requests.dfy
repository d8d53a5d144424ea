/** JSON request bodies and the JavaScript truthiness tests the controllers
    apply to them. A field that is absent or `null` is `None`. */
module Requests {
  import opened Wrappers

  /** `!x` is false for a text field: present and non-empty. */
  predicate TruthyText(x: Option<string>) {
    x.Some? && x.value != ""
  }

  /** `!x` is false for a numeric field: present and non-zero. */
  predicate TruthyId(x: Option<int>) {
    x.Some? && x.value != 0
  }

  /** `x || null` on a text field. */
  function TextOrNull(x: Option<string>): (r: Option<string>)
    ensures r.Some? <==> TruthyText(x)
    ensures r.Some? ==> r == x
  {
    if TruthyText(x) then x else None
  }

  /** `x || null` on a numeric field. */
  function IdOrNull(x: Option<int>): (r: Option<int>)
    ensures r.Some? <==> TruthyId(x)
    ensures r.Some? ==> r == x
  {
    if TruthyId(x) then x else None
  }

  datatype CursoInput = CursoInput(
    nome: Option<string>,
    descricao: Option<string>,
    dataInicio: Option<string>,
    dataFim: Option<string>,
    cargaHoraria: Option<int>)

  datatype VoluntarioInput = VoluntarioInput(
    nome: Option<string>,
    email: Option<string>,
    telefone: Option<string>,
    endereco: Option<string>,
    habilidades: Option<seq<string>>,
    disponibilidade: Option<string>)

  datatype AlunoInput = AlunoInput(
    nome: Option<string>,
    email: Option<string>,
    telefone: Option<string>,
    endereco: Option<string>,
    dataNascimento: Option<string>,
    cursoId: Option<int>)

  /** A section body. An absent or `null` `alunos_ids` behaves as the empty
      list, both through the destructuring default and the length guard. */
  datatype TurmaInput = TurmaInput(
    nome: Option<string>,
    cursoId: Option<int>,
    voluntarioId: Option<int>,
    dataInicio: Option<string>,
    dataFim: Option<string>,
    alunosIds: seq<int>)
}
