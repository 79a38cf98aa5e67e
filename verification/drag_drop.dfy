/** The two-field drag state (src/features/teams/hooks/useTeamDragDrop.ts). */
module TeamDragDrop {
  import opened Records

  class DragState {
    /** The person being dragged, if any. */
    var draggingPersonId: Option<int>
    /** The team or unassigned zone under the pointer, if any. */
    var dragOverTeamId: Option<DropZone>

    predicate Idle()
      reads this
    {
      draggingPersonId.None? && dragOverTeamId.None?
    }

    constructor ()
      ensures Idle()
    {
      draggingPersonId := None;
      dragOverTeamId := None;
    }

    method HandleDragStart(personId: int)
      modifies this
      ensures draggingPersonId == Some(personId)
      ensures dragOverTeamId == old(dragOverTeamId)
    {
      draggingPersonId := Some(personId);
    }

    /** The argument is a team id, the unassigned zone, or `null`. */
    method HandleDragEnter(zone: Option<DropZone>)
      modifies this
      ensures dragOverTeamId == zone
      ensures draggingPersonId == old(draggingPersonId)
    {
      dragOverTeamId := zone;
    }

    method HandleDragLeave()
      modifies this
      ensures dragOverTeamId.None?
      ensures draggingPersonId == old(draggingPersonId)
    {
      dragOverTeamId := None;
    }

    /** Clears both fields from any state. */
    method HandleDragEnd()
      modifies this
      ensures Idle()
    {
      draggingPersonId := None;
      dragOverTeamId := None;
    }
  }
}
