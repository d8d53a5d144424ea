/** The section page: the roster checkbox toggle, the student search filter
    and the required-field check made before submitting. */
module TurmasPage {
  import opened Wrappers
  import opened Sequences
  import opened Text
  import opened Requests
  import opened Responses
  import TurmaController

  /** `Array.from(new Set(xs))`: each id once, at its first position. */
  function Dedup(xs: seq<int>): (r: seq<int>)
    ensures Distinct(r)
    ensures forall x :: x in r <==> x in xs
    ensures Distinct(xs) ==> r == xs
    decreases |xs|
  {
    if xs == [] then []
    else
      var init := xs[..|xs| - 1];
      var y := xs[|xs| - 1];
      assert xs == init + [y];
      var d := Dedup(init);
      if y in d then d else d + [y]
  }

  /** `toggleAluno`: deselects a selected student, otherwise appends it. */
  function ToggleAluno(selected: seq<int>, alunoId: int): (r: seq<int>)
    ensures Distinct(r)
    ensures alunoId in r <==> alunoId !in selected
    ensures forall y :: y != alunoId ==> (y in r <==> y in selected)
  {
    var d := Dedup(selected);
    if alunoId in d then
      var r := RemoveAll(d, alunoId);
      SubsequenceDistinct(r, d);
      assert forall y :: y != alunoId ==> (y in r <==> multiset(r)[y] > 0 <==> multiset(d)[y] > 0 <==> y in d);
      r
    else d + [alunoId]
  }

  lemma {:induction false} RemoveLast(xs: seq<int>, x: int)
    requires x !in xs
    ensures RemoveAll(xs + [x], x) == xs
    decreases |xs|
  {
    if xs == [] {
      assert [x][1..] == [];
    } else {
      assert (xs + [x])[1..] == xs[1..] + [x];
      RemoveLast(xs[1..], x);
      assert xs == [xs[0]] + xs[1..];
    }
  }

  /** Toggling a student twice gives back the same selection as a set, and
      exactly the same list when it was duplicate-free and lacked the
      student. */
  lemma ToggleTwice(selected: seq<int>, alunoId: int)
    ensures forall y :: y in ToggleAluno(ToggleAluno(selected, alunoId), alunoId) <==> y in selected
    ensures Distinct(selected) && alunoId !in selected ==>
      ToggleAluno(ToggleAluno(selected, alunoId), alunoId) == selected
  {
    if Distinct(selected) && alunoId !in selected {
      var once := ToggleAluno(selected, alunoId);
      assert once == selected + [alunoId];
      RemoveLast(selected, alunoId);
    }
  }

  /** A student as listed on the page. */
  datatype AlunoItem = AlunoItem(id: int, nome: string, email: string)

  /** The search predicate: a blank query keeps every student; otherwise
      the trimmed, lower-cased query must occur in the lower-cased name or
      email. */
  predicate Kept(a: AlunoItem, filtro: string): (b: bool)
    ensures b <==> AllSpace(filtro) || OccursIn(Lower(Trim(filtro)), Lower(a.nome))
                                    || OccursIn(Lower(Trim(filtro)), Lower(a.email))
  {
    var q := Lower(Trim(filtro));
    q == "" || Includes(Lower(a.nome), q) || Includes(Lower(a.email), q)
  }

  /** `alunos.filter(...)` with the search box's text. */
  function FilterAlunos(alunos: seq<AlunoItem>, filtro: string): (r: seq<AlunoItem>)
    ensures Subsequence(r, alunos)
    ensures forall a :: a in r <==> a in alunos && Kept(a, filtro)
    ensures AllSpace(filtro) ==> r == alunos
    decreases |alunos|
  {
    if alunos == [] then []
    else
      assert alunos == [alunos[0]] + alunos[1..];
      var rest := FilterAlunos(alunos[1..], filtro);
      if Kept(alunos[0], filtro) then [alunos[0]] + rest else rest
  }

  /** The section form's state. `voluntarioId` is `undefined` when no
      volunteer is chosen; the dates are `''` until picked. */
  datatype TurmaForm = TurmaForm(
    nome: string,
    cursoId: int,
    voluntarioId: Option<int>,
    dataInicio: string,
    dataFim: string,
    alunosIds: seq<int>)

  /** The JSON body the form sends (an `undefined` field is left out). */
  function Payload(f: TurmaForm): (p: TurmaInput)
    ensures p.nome == Some(f.nome) && p.cursoId == Some(f.cursoId)
    ensures p.voluntarioId == f.voluntarioId
    ensures p.dataInicio == Some(f.dataInicio) && p.dataFim == Some(f.dataFim)
    ensures p.alunosIds == f.alunosIds
  {
    TurmaInput(Some(f.nome), Some(f.cursoId), f.voluntarioId, Some(f.dataInicio), Some(f.dataFim), f.alunosIds)
  }

  /** `handleSubmit`: no request when the name is empty or no course is
      chosen; otherwise the body to send. */
  function Submit(f: TurmaForm): (r: Option<TurmaInput>)
    ensures r.None? <==> f.nome == "" || f.cursoId == 0
    ensures r.Some? ==> r.value == Payload(f)
  {
    if f.nome == "" || f.cursoId == 0 then None else Some(Payload(f))
  }

  /** The page's check and the server's agree: a form the page would send
      is never rejected with 400 on create, and a form the page blocks is
      one the server would reject with 400. */
  lemma SubmitCheckAgreesWithServer(s: Schema.Store, f: TurmaForm)
    ensures Submit(f).Some? <==> TurmaController.Create(s, Payload(f)).reply.status != StatusBadRequest
  {
  }

  /** Empty date fields reach the table as null. */
  lemma EmptyDatesStoredNull(s: Schema.Store, f: TurmaForm)
    requires f.dataInicio == "" && f.dataFim == ""
    requires TurmaController.Create(s, Payload(f)).reply.status == StatusCreated
    ensures var row := TurmaController.Create(s, Payload(f)).reply.body.value;
      row.fields.dataInicio.None? && row.fields.dataFim.None?
  {
  }
}
