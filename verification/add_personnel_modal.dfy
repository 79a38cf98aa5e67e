/** The add-personnel form
    (src/features/personnel/components/AddPersonnelModal.tsx; the older
    components/AddPersonnelModal.tsx has the same submit logic and a
    shorter list of disciplines): the final discipline, the submit guard,
    the phone normalisation and the reset. */
module AddPersonnelModal {
  import opened Records

  /** The dropdown entries of the current revision. */
  const Predefined: seq<string> := ["Rigger", "Scaffolder", "Pipefitter", "Flagman", "Rope Access", "Bass", "Riggansvarling"]

  /** The dropdown entries of the older revision and of its edit form. */
  const LegacyPredefined: seq<string> := ["Rigger", "Scaffolder", "Pipefitter", "Flagman", "Rope Access"]

  /** Both revisions start the dropdown on the same entry, and neither list
      contains the "Other" entry the dropdown adds after them. */
  lemma PredefinedLists()
    ensures Predefined[0] == LegacyPredefined[0] == "Rigger"
    ensures LegacyPredefined == Predefined[..5]
    ensures "Other" !in Predefined && "Other" !in LegacyPredefined
  {
  }

  /** `selectedDiscipline === 'Other' ? customDiscipline : selectedDiscipline`. */
  function FinalDiscipline(selected: string, custom: string): (r: string)
    ensures selected == "Other" ==> r == custom
    ensures selected != "Other" ==> r == selected
  {
    if selected == "Other" then custom else selected
  }

  class FormState {
    var name: string
    var phone: string
    var selectedDiscipline: string
    var customDiscipline: string
    var helmetColor: Helmet

    predicate IsReset()
      reads this
    {
      name == "" && phone == "" && selectedDiscipline == Predefined[0] &&
      customDiscipline == "" && helmetColor == White
    }

    constructor ()
      ensures IsReset()
    {
      name := "";
      phone := "";
      selectedDiscipline := Predefined[0];
      customDiscipline := "";
      helmetColor := White;
    }

    /** With a name and a discipline the new person goes out (an empty
        phone as null, no id and no team) and the form is reset and closed;
        otherwise nothing happens. */
    method HandleSubmit() returns (added: Option<NewPerson>)
      modifies this
      ensures added.Some? <==> old(name) != "" && FinalDiscipline(old(selectedDiscipline), old(customDiscipline)) != ""
      ensures added.Some? ==>
        added.value == NewPerson(old(name), NullIfEmpty(old(phone)),
          FinalDiscipline(old(selectedDiscipline), old(customDiscipline)), old(helmetColor)) &&
        IsReset()
      ensures added.None? ==>
        name == old(name) && phone == old(phone) && selectedDiscipline == old(selectedDiscipline) &&
        customDiscipline == old(customDiscipline) && helmetColor == old(helmetColor)
    {
      var finalDiscipline := FinalDiscipline(selectedDiscipline, customDiscipline);
      if name != "" && finalDiscipline != "" {
        added := Some(NewPerson(name, NullIfEmpty(phone), finalDiscipline, helmetColor));
        HandleClose();
      } else {
        added := None;
      }
    }

    method HandleClose()
      modifies this
      ensures IsReset()
    {
      name := "";
      phone := "";
      selectedDiscipline := Predefined[0];
      customDiscipline := "";
      helmetColor := White;
    }
  }
}
