/** The course list's cell renderers. */
module CursosPage {
  import opened Wrappers
  import opened Text

  /** How many characters of a description the list shows. */
  const DescricaoMax: nat := 50

  const Ellipsis: string := "..."
  const Placeholder: string := "-"

  /** The description cell: `-` when empty, the text itself when short,
      otherwise its first 50 characters and an ellipsis. */
  function DescricaoCell(value: Option<string>): (r: string)
    ensures value.None? || value.value == "" ==> r == Placeholder
    ensures value.Some? && 0 < |value.value| <= DescricaoMax ==> r == value.value
    ensures value.Some? && |value.value| > DescricaoMax ==>
      |r| == DescricaoMax + |Ellipsis| && r[..DescricaoMax] == value.value[..DescricaoMax] && r[DescricaoMax..] == Ellipsis
    ensures value.Some? && value.value != "" ==>
      var n := if |value.value| < DescricaoMax then |value.value| else DescricaoMax;
      value.value[..n] <= r && |r| <= DescricaoMax + |Ellipsis|
  {
    match value
    case None => Placeholder
    case Some(v) =>
      if v == "" then Placeholder
      else if |v| > DescricaoMax then v[..DescricaoMax] + Ellipsis
      else v
  }

  /** The workload cell: `-` for a missing or zero value, otherwise the
      number followed by `h`. */
  function CargaHorariaCell(value: Option<int>): (r: string)
    ensures value.None? || value.value == 0 ==> r == Placeholder
    ensures value.Some? && value.value != 0 ==>
      |r| >= 2 && r[|r| - 1] == 'h' && ParseInt(r[..|r| - 1]) == value.value
  {
    match value
    case None => Placeholder
    case Some(n) =>
      if n == 0 then Placeholder
      else
        var text := IntToString(n);
        IntToStringRoundTrip(n);
        assert (text + "h")[..|text|] == text;
        text + "h"
  }
}
