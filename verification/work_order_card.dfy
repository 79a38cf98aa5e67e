/** The work-order card (src/features/workOrders/components/WorkOrderCard.tsx):
    the number input sanitiser, the save rules of its three inline editors,
    and the display helpers. */
module WorkOrderCard {
  import opened Records
  import Text
  import WorkOrderHooks

  /** `value.replace(/\D/g, '').slice(0, 4)`: the first four digits typed. */
  function SanitizeNumber(s: string): (r: string)
    ensures Text.AllDigits(r)
    ensures |r| == if |Text.KeepDigits(s)| < 4 then |Text.KeepDigits(s)| else 4
    ensures r == Text.KeepDigits(s)[..|r|]
  {
    var digits := Text.KeepDigits(s);
    if |digits| <= 4 then digits else digits[..4]
  }

  /** Sanitising is idempotent: the input field never changes a value it
      produced itself, and a four-digit number passes unchanged. */
  lemma SanitizeIdempotent(s: string)
    ensures SanitizeNumber(SanitizeNumber(s)) == SanitizeNumber(s)
    ensures |s| == 4 && Text.AllDigits(s) ==> SanitizeNumber(s) == s
  {
    var r := SanitizeNumber(s);
    assert Text.KeepDigits(r) == r;
  }

  /** The mm/dd part of an ISO date: `const [year, month, day] =
      dateStr.split('-')`, with a missing piece read as `undefined`. */
  function FormatDate(date: string): (r: string)
  {
    var parts := Text.Split(date, '-');
    var month := if |parts| > 1 then parts[1] else "undefined";
    var day := if |parts| > 2 then parts[2] else "undefined";
    day + "/" + month
  }

  /** `formatDate("YYYY-MM-DD")` is `"DD/MM"`. */
  lemma FormatIsoDate(y: string, m: string, d: string)
    requires '-' !in y && '-' !in m && '-' !in d
    ensures FormatDate(y + "-" + m + "-" + d) == d + "/" + m
  {
    Text.SplitThree(y, m, d);
  }

  /** The status shown for a work order: a missing or empty status is
      "Not started". */
  function StatusLabel(wo: WorkOrderInfo): (r: string)
    ensures wo.status.Some? && wo.status.value != "" ==> r == wo.status.value
    ensures wo.status.None? || wo.status.value == "" ==> r == "Not started"
  {
    OrElse(wo.status, "Not started")
  }

  /** "1 Team", otherwise "n Teams". */
  function CountLabel(teamCount: nat): (r: string)
    ensures r == "Team" <==> teamCount == 1
    ensures r == "Team" || r == "Teams"
  {
    if teamCount == 1 then "Team" else "Teams"
  }

  /** A saved owner or location: the trimmed text, unless it is blank. */
  function TrimmedOrNothing(s: string): (r: Option<string>)
    ensures r.None? <==> Text.AllSpace(s)
    ensures r.Some? ==> r.value == Text.Trim(s)
  {
    var t := Text.Trim(s);
    if t != "" then Some(t) else None
  }

  /** The three inline editors of the card. */
  class CardState {
    var isEditingWO: bool
    var isEditingOwner: bool
    var isEditingLocation: bool
    var woNumber: string
    var owner: string
    var location: string

    constructor (wo: WorkOrderInfo)
      ensures !isEditingWO && !isEditingOwner && !isEditingLocation
      ensures woNumber == wo.workOrderNumber && owner == wo.owner && location == wo.location
    {
      isEditingWO := false;
      isEditingOwner := false;
      isEditingLocation := false;
      woNumber := wo.workOrderNumber;
      owner := wo.owner;
      location := wo.location;
    }

    /** Typing into the number field keeps the sanitised text. */
    method HandleNumberInput(text: string)
      modifies this
      ensures woNumber == SanitizeNumber(text)
      ensures owner == old(owner) && location == old(location)
      ensures isEditingWO == old(isEditingWO) && isEditingOwner == old(isEditingOwner)
      ensures isEditingLocation == old(isEditingLocation)
    {
      woNumber := SanitizeNumber(text);
    }

    /** The number is committed only with exactly four characters; the
        editor closes either way. */
    method HandleWOSave() returns (edit: Option<WorkOrderHooks.WorkOrderEdit>)
      modifies this
      ensures edit.Some? <==> |woNumber| == 4
      ensures edit.Some? ==> edit.value == WorkOrderHooks.Number(woNumber)
      ensures !isEditingWO
      ensures woNumber == old(woNumber) && owner == old(owner) && location == old(location)
      ensures isEditingOwner == old(isEditingOwner) && isEditingLocation == old(isEditingLocation)
    {
      edit := if |woNumber| == 4 then Some(WorkOrderHooks.Number(woNumber)) else None;
      isEditingWO := false;
    }

    /** The owner is committed trimmed, and only when not blank; the
        editor closes either way. */
    method HandleOwnerSave() returns (edit: Option<WorkOrderHooks.WorkOrderEdit>)
      modifies this
      ensures edit.Some? <==> !Text.AllSpace(owner)
      ensures edit.Some? ==> edit.value == WorkOrderHooks.Owner(Text.Trim(owner))
      ensures !isEditingOwner
      ensures woNumber == old(woNumber) && owner == old(owner) && location == old(location)
      ensures isEditingWO == old(isEditingWO) && isEditingLocation == old(isEditingLocation)
    {
      var t := TrimmedOrNothing(owner);
      edit := if t.Some? then Some(WorkOrderHooks.Owner(t.value)) else None;
      isEditingOwner := false;
    }

    /** A status chosen in the dropdown is committed as chosen, with no
        check and no change to the editors. */
    method HandleStatusChange(status: string) returns (edit: WorkOrderHooks.WorkOrderEdit)
      ensures edit.Status? && edit.status == status
      ensures forall wo: WorkOrderInfo :: StatusLabel(WorkOrderHooks.ApplyEdit(wo, edit)) == if status == "" then "Not started" else status
    {
      edit := WorkOrderHooks.Status(status);
    }

    method HandleLocationSave() returns (edit: Option<WorkOrderHooks.WorkOrderEdit>)
      modifies this
      ensures edit.Some? <==> !Text.AllSpace(location)
      ensures edit.Some? ==> edit.value == WorkOrderHooks.Location(Text.Trim(location))
      ensures !isEditingLocation
      ensures woNumber == old(woNumber) && owner == old(owner) && location == old(location)
      ensures isEditingWO == old(isEditingWO) && isEditingOwner == old(isEditingOwner)
    {
      var t := TrimmedOrNothing(location);
      edit := if t.Some? then Some(WorkOrderHooks.Location(t.value)) else None;
      isEditingLocation := false;
    }
  }
}
