/** The create-work-order form
    (src/features/workOrders/components/CreateWorkOrderModal.tsx): the
    number rule, the submit guard and the reset. */
module CreateWorkOrderModal {
  import opened Records
  import Text
  import WorkOrderCard

  /** `workOrderNumber === '' || /^\d{4}$/.test(workOrderNumber)`. */
  predicate ValidNumber(s: string)
  {
    s == "" || (|s| == 4 && Text.AllDigits(s))
  }

  /** For text that came through the sanitiser, validity depends on the
      length alone: nothing typed, or four digits. */
  lemma SanitizedValidity(text: string)
    ensures var n := WorkOrderCard.SanitizeNumber(text);
      ValidNumber(n) <==> |n| == 0 || |n| == 4
  {
  }

  /** `handleSubmit` checks only that the three text fields are filled. */
  predicate CanSubmit(workOrderNumber: string, owner: string, location: string)
  {
    workOrderNumber != "" && owner != "" && location != ""
  }

  /** The submit button is enabled with a valid number and all fields set. */
  predicate ButtonEnabled(workOrderNumber: string, owner: string, location: string)
  {
    ValidNumber(workOrderNumber) && CanSubmit(workOrderNumber, owner, location)
  }

  /** The button is enabled exactly when the number has four digits and the
      other fields are filled. */
  lemma EnabledMeansFourDigits(workOrderNumber: string, owner: string, location: string)
    ensures ButtonEnabled(workOrderNumber, owner, location) <==>
      |workOrderNumber| == 4 && Text.AllDigits(workOrderNumber) && owner != "" && location != ""
  {
  }

  /** The four-digit rule lives in the disabled button only: the submit
      handler itself accepts a two-digit number. */
  lemma SubmitSkipsNumberRule()
    ensures CanSubmit("12", "a", "b") && !ValidNumber("12") && !ButtonEnabled("12", "a", "b")
  {
  }

  /** The arguments of `onCreateWorkOrder`. */
  datatype Request = Request(workOrderNumber: string, owner: string, location: string, date: string, createTeam: bool)

  class FormState {
    var workOrderNumber: string
    var owner: string
    var location: string
    var date: string
    var createTeam: bool

    /** The empty form, dated today. */
    predicate IsReset(today: string)
      reads this
    {
      workOrderNumber == "" && owner == "" && location == "" && date == today && !createTeam
    }

    constructor (today: string)
      ensures IsReset(today)
    {
      workOrderNumber := "";
      owner := "";
      location := "";
      date := today;
      createTeam := false;
    }

    method HandleNumberInput(text: string)
      modifies this
      ensures workOrderNumber == WorkOrderCard.SanitizeNumber(text)
      ensures owner == old(owner) && location == old(location) && date == old(date) && createTeam == old(createTeam)
    {
      workOrderNumber := WorkOrderCard.SanitizeNumber(text);
    }

    /** With the three fields filled the request goes out and the form is
        reset (and closed); otherwise nothing happens. */
    method HandleSubmit(today: string) returns (request: Option<Request>)
      modifies this
      ensures request.Some? <==> CanSubmit(old(workOrderNumber), old(owner), old(location))
      ensures request.Some? ==>
        request.value == Request(old(workOrderNumber), old(owner), old(location), old(date), old(createTeam)) &&
        IsReset(today)
      ensures request.None? ==>
        workOrderNumber == old(workOrderNumber) && owner == old(owner) && location == old(location) &&
        date == old(date) && createTeam == old(createTeam)
    {
      if workOrderNumber != "" && owner != "" && location != "" {
        request := Some(Request(workOrderNumber, owner, location, date, createTeam));
        workOrderNumber := "";
        owner := "";
        location := "";
        date := today;
        createTeam := false;
      } else {
        request := None;
      }
    }

    method HandleClose(today: string)
      modifies this
      ensures IsReset(today)
    {
      workOrderNumber := "";
      owner := "";
      location := "";
      date := today;
      createTeam := false;
    }
  }
}
