/** The volunteer list's cell renderers. */
module VoluntariosPage {
  import opened Wrappers
  import opened Text

  const Placeholder: string := "-"
  const Separator: string := ", "

  /** The skills cell: `-` for a missing or empty list, otherwise the skills
      in order separated by `, `. */
  function HabilidadesCell(value: Option<seq<string>>): (r: string)
    ensures value.None? || value.value == [] ==> r == Placeholder
    ensures value.Some? && |value.value| == 1 ==> r == value.value[0]
    ensures value.Some? && |value.value| > 0 ==>
      value.value[0] <= r && |r| == TotalLength(value.value) + (|value.value| - 1) * |Separator|
  {
    match value
    case None => Placeholder
    case Some(hs) =>
      if |hs| == 0 then Placeholder
      else
        JoinLength(hs, Separator);
        Join(hs, Separator)
  }

  /** Rendering a longer list puts the extra skills after the others. */
  lemma HabilidadesCellAppend(hs: seq<string>, more: seq<string>)
    requires |hs| > 0 && |more| > 0
    ensures HabilidadesCell(Some(hs + more)) == HabilidadesCell(Some(hs)) + Separator + Join(more, Separator)
  {
    JoinAppend(hs, more, Separator);
  }

  /** The availability cell: `-` when missing or empty, otherwise the text. */
  function DisponibilidadeCell(value: Option<string>): (r: string)
    ensures value.None? || value.value == "" ==> r == Placeholder
    ensures value.Some? && value.value != "" ==> r == value.value
  {
    if value.Some? && value.value != "" then value.value else Placeholder
  }

  /** The cell is never blank, and any cell other than `-` shows exactly the
      stored availability, so the value can be read back from it. */
  lemma DisponibilidadeCellReadBack(value: Option<string>)
    ensures DisponibilidadeCell(value) != ""
    ensures DisponibilidadeCell(value) != Placeholder ==> value == Some(DisponibilidadeCell(value))
    ensures value == Some(Placeholder) ==> DisponibilidadeCell(value) == Placeholder
  {
  }
}
