/** Display lookups for a person (src/features/personnel/helpers/personnelHelpers.ts). */
module PersonnelHelpers {
  import opened Records

  /** `getRoleName`: foremen are labelled by discipline, the two supervisor
      helmets by their own title, everyone else by discipline. */
  function RoleName(p: Personnel): (r: string)
    ensures p.helmetColor == Blue ==> r == p.discipline + " Foreman"
    ensures p.helmetColor == Bass ==> r == "Bass"
    ensures p.helmetColor == Riggansvarling ==> r == "Riggansvarling"
    ensures p.helmetColor == White || p.helmetColor == Green ==> r == p.discipline
  {
    match p.helmetColor
    case Blue => p.discipline + " Foreman"
    case Bass => "Bass"
    case Riggansvarling => "Riggansvarling"
    case _ => p.discipline
  }

  const Gray := "bg-gray-700/70"

  /** The badge classes of `getDisciplineColor`'s lookup table. */
  const DisciplineColors: map<string, string> := map[
    "Rigger" := "bg-slate-600/70",
    "Scaffolder" := "bg-purple-800/70",
    "Pipefitter" := "bg-amber-700/70",
    "Flagman" := "bg-yellow-700/70",
    "Rope Access" := "bg-cyan-700/70",
    "Driver" := "bg-emerald-700/70",
    "Bass" := "bg-green-700/70",
    "Riggansvarling" := "bg-purple-600/70"]

  /** `getDisciplineColor`: a listed discipline gets its own class, and the
      gray fallback is given exactly to the unlisted ones. */
  function DisciplineColor(d: string): (r: string)
    ensures d in DisciplineColors ==> r == DisciplineColors[d]
    ensures r == Gray <==> d !in DisciplineColors
  {
    if d in DisciplineColors then DisciplineColors[d] else Gray
  }

  /** The eight listed disciplines and their classes. */
  lemma DisciplineColorTable()
    ensures DisciplineColors.Keys ==
      {"Rigger", "Scaffolder", "Pipefitter", "Flagman", "Rope Access", "Driver", "Bass", "Riggansvarling"}
    ensures DisciplineColor("Rigger") == "bg-slate-600/70" && DisciplineColor("Scaffolder") == "bg-purple-800/70"
    ensures DisciplineColor("Pipefitter") == "bg-amber-700/70" && DisciplineColor("Flagman") == "bg-yellow-700/70"
    ensures DisciplineColor("Rope Access") == "bg-cyan-700/70" && DisciplineColor("Driver") == "bg-emerald-700/70"
    ensures DisciplineColor("Bass") == "bg-green-700/70" && DisciplineColor("Riggansvarling") == "bg-purple-600/70"
  {
  }
}
