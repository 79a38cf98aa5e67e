/** The edit-personnel form of the older revision
    (components/EditPersonnelModal.tsx): the discipline prefill, the submit
    guard and the record it hands back. */
module EditPersonnelModal {
  import opened Records
  import AddPersonnelModal

  /** The dropdown entry and the custom text of the discipline field. */
  datatype Choice = Choice(selected: string, custom: string)

  /** A listed discipline selects its entry with no custom text; any other
      discipline selects "Other" with the discipline as custom text. */
  function PrefillDiscipline(discipline: string): (c: Choice)
    ensures discipline in AddPersonnelModal.LegacyPredefined ==> c == Choice(discipline, "")
    ensures discipline !in AddPersonnelModal.LegacyPredefined ==> c == Choice("Other", discipline)
  {
    if discipline in AddPersonnelModal.LegacyPredefined then Choice(discipline, "")
    else Choice("Other", discipline)
  }

  /** The prefilled choice gives back the discipline it came from. */
  lemma PrefillRoundTrip(discipline: string)
    ensures var c := PrefillDiscipline(discipline);
      AddPersonnelModal.FinalDiscipline(c.selected, c.custom) == discipline
  {
    AddPersonnelModal.PredefinedLists();
  }

  /** `phone &&`: null and the empty string are both missing. */
  predicate Filled(phone: Option<string>)
  {
    phone.Some? && phone.value != ""
  }

  /** What submitting the form hands to `onEditPersonnel`: nothing unless a
      person is being edited and name, phone and discipline are all
      filled; then that person with the four form fields replaced. */
  function Submitted(personnel: Option<Personnel>, name: string, phone: Option<string>, choice: Choice, helmetColor: Helmet): (r: Option<Personnel>)
    ensures r.Some? <==>
      personnel.Some? && name != "" && Filled(phone) && AddPersonnelModal.FinalDiscipline(choice.selected, choice.custom) != ""
    ensures r.Some? ==>
      r.value.id == personnel.value.id && r.value.teamId == personnel.value.teamId &&
      r.value.name == name && r.value.phone == phone && r.value.helmetColor == helmetColor &&
      r.value.discipline == AddPersonnelModal.FinalDiscipline(choice.selected, choice.custom)
  {
    var finalDiscipline := AddPersonnelModal.FinalDiscipline(choice.selected, choice.custom);
    if personnel.Some? && name != "" && Filled(phone) && finalDiscipline != "" then
      Some(personnel.value.(name := name, phone := phone, discipline := finalDiscipline, helmetColor := helmetColor))
    else None
  }

  /** Opening the form on a person and submitting it untouched gives back
      that very person, provided its name, phone and discipline are filled. */
  lemma {:induction false} UntouchedSubmitRoundTrip(p: Personnel)
    ensures Submitted(Some(p), p.name, p.phone, PrefillDiscipline(p.discipline), p.helmetColor) ==
      if p.name != "" && Filled(p.phone) && p.discipline != "" then Some(p) else None
  {
    PrefillRoundTrip(p.discipline);
  }

  class FormState {
    var name: string
    var phone: Option<string>
    var selectedDiscipline: string
    var customDiscipline: string
    var helmetColor: Helmet

    constructor ()
      ensures name == "" && phone == Some("") && customDiscipline == "" && helmetColor == White
      ensures selectedDiscipline == AddPersonnelModal.LegacyPredefined[0]
    {
      name := "";
      phone := Some("");
      selectedDiscipline := AddPersonnelModal.LegacyPredefined[0];
      customDiscipline := "";
      helmetColor := White;
    }

    /** The prefill effect: copy the person's fields into the form, the
        discipline through PrefillDiscipline; with no person, nothing. */
    method Prefill(personnel: Option<Personnel>)
      modifies this
      ensures personnel.Some? ==>
        name == personnel.value.name && phone == personnel.value.phone &&
        Choice(selectedDiscipline, customDiscipline) == PrefillDiscipline(personnel.value.discipline) &&
        helmetColor == personnel.value.helmetColor
      ensures personnel.None? ==>
        name == old(name) && phone == old(phone) && selectedDiscipline == old(selectedDiscipline) &&
        customDiscipline == old(customDiscipline) && helmetColor == old(helmetColor)
    {
      if personnel.Some? {
        var p := personnel.value;
        name := p.name;
        phone := p.phone;
        if p.discipline in AddPersonnelModal.LegacyPredefined {
          selectedDiscipline := p.discipline;
          customDiscipline := "";
        } else {
          selectedDiscipline := "Other";
          customDiscipline := p.discipline;
        }
        helmetColor := p.helmetColor;
      }
    }

    /** Submitting hands over Submitted; the form keeps its fields. */
    method HandleSubmit(personnel: Option<Personnel>) returns (edited: Option<Personnel>)
      ensures edited == Submitted(personnel, name, phone, Choice(selectedDiscipline, customDiscipline), helmetColor)
    {
      var finalDiscipline := AddPersonnelModal.FinalDiscipline(selectedDiscipline, customDiscipline);
      if personnel.Some? && name != "" && phone.Some? && phone.value != "" && finalDiscipline != "" {
        edited := Some(personnel.value.(name := name, phone := phone, discipline := finalDiscipline, helmetColor := helmetColor));
      } else {
        edited := None;
      }
    }
  }
}
