/** The table of selectable languages and the name lookup over it. */
module Languages {
  import opened Wrappers

  datatype Language = Language(code: string, name: string)

  /** The sentinel source language meaning "detect automatically". */
  const Auto := "auto"

  const Table: seq<Language> := [
    Language("auto", "Auto detect"),
    Language("en", "English"),
    Language("vi", "Vietnamese"),
    Language("fr", "French")
  ]

  function Codes(table: seq<Language>): (r: set<string>)
    ensures forall i :: 0 <= i < |table| ==> table[i].code in r
    ensures forall c :: c in r ==> exists i :: 0 <= i < |table| && table[i].code == c
  {
    set i | 0 <= i < |table| :: table[i].code
  }

  /** `table.find(lang => lang.code === code)`, as the index of the first
      entry with that code. */
  function FindCode(table: seq<Language>, code: string): (r: Option<nat>)
    ensures r.Some? ==> r.value < |table| && table[r.value].code == code
    ensures r.Some? ==> forall j :: 0 <= j < r.value ==> table[j].code != code
    ensures r.None? ==> forall j :: 0 <= j < |table| ==> table[j].code != code
  {
    if table == [] then None
    else if table[0].code == code then Some(0)
    else match FindCode(table[1..], code)
      case None => None
      case Some(i) => Some(i + 1)
  }

  /** `getLanguageName`: the name of the first entry with that code, or the
      code itself when the table has none. Defined for every string. */
  function GetLanguageName(code: string): (r: string)
    ensures forall i :: 0 <= i < |Table| && Table[i].code == code ==> r == Table[i].name
    ensures code !in Codes(Table) ==> r == code
  {
    TableCodesDistinct();
    match FindCode(Table, code)
    case Some(i) => Table[i].name
    case None => code
  }

  /** No two entries share a code, so the first match is the only one. */
  lemma TableCodesDistinct()
    ensures forall i, j :: 0 <= i < j < |Table| ==> Table[i].code != Table[j].code
  {
  }

  /** The table offers the sentinel, first. */
  lemma TableHasAuto()
    ensures Auto in Codes(Table) && Table[0].code == Auto
  {
    assert Table[0].code in Codes(Table);
  }
}
