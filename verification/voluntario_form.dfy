/** The volunteer form's skill list: the text box for a new skill and the
    add and remove buttons. */
module VoluntarioForm {
  import opened Sequences
  import opened Text

  /** The skills shown as tags and the text typed in the new-skill box. */
  datatype SkillEditor = SkillEditor(habilidades: seq<string>, novaHabilidade: string)

  /** `adicionarHabilidade`: appends the trimmed text when it is non-blank and
      not yet listed, and then clears the box; otherwise nothing changes. */
  function AdicionarHabilidade(e: SkillEditor): (r: SkillEditor)
    ensures r.habilidades == e.habilidades || r.habilidades == e.habilidades + [Trim(e.novaHabilidade)]
    ensures r.habilidades != e.habilidades <==> !AllSpace(e.novaHabilidade) && Trim(e.novaHabilidade) !in e.habilidades
    ensures r.habilidades == e.habilidades ==> r == e
    ensures r != e ==> r.novaHabilidade == ""
    ensures Distinct(e.habilidades) ==> Distinct(r.habilidades)
  {
    var t := Trim(e.novaHabilidade);
    if t != "" && t !in e.habilidades then SkillEditor(e.habilidades + [t], "") else e
  }

  /** Adding the same text twice adds it once: the second add finds it
      listed and leaves the skills alone. */
  lemma AddIdempotent(habilidades: seq<string>, nova: string)
    ensures var once := AdicionarHabilidade(SkillEditor(habilidades, nova));
      AdicionarHabilidade(SkillEditor(once.habilidades, nova)).habilidades == once.habilidades
  {
  }

  /** `removerHabilidade`: drops every copy of the skill and keeps the others
      in order. */
  function RemoverHabilidade(habilidades: seq<string>, habilidade: string): (r: seq<string>)
    ensures habilidade !in r
    ensures forall h :: h != habilidade ==> multiset(r)[h] == multiset(habilidades)[h]
    ensures Subsequence(r, habilidades)
  {
    RemoveAll(habilidades, habilidade)
  }
}
