/** The three record kinds of the roster and the optional-value wrapper the
    source expresses with `null` and `undefined`. */
module Records {

  datatype Option<T> = None | Some(value: T)

  /** A string field read with `field || fallback`: absent and empty both
      give the fallback. */
  function OrElse(o: Option<string>, fallback: string): (r: string)
    ensures o.Some? && o.value != "" ==> r == o.value
    ensures o.None? || o.value == "" ==> r == fallback
  {
    if o.Some? && o.value != "" then o.value else fallback
  }

  /** `s || null`: the empty string becomes null. */
  function NullIfEmpty(s: string): (r: Option<string>)
    ensures r.None? <==> s == ""
    ensures r.Some? ==> r.value == s
  {
    if s == "" then None else Some(s)
  }

  /** Reading back with `|| ''` what was stored with `|| null` gives the
      text again, and storing what was read gives the value again unless it
      was the empty string. */
  lemma NullIfEmptyRoundTrip(s: string, o: Option<string>)
    ensures OrElse(NullIfEmpty(s), "") == s
    ensures o != Some("") ==> NullIfEmpty(OrElse(o, "")) == o
  {
  }

  /** Helmet colours of every revision: the older one knows white, green and
      blue, the current one white, blue, bass and riggansvarling. */
  datatype Helmet = White | Blue | Green | Bass | Riggansvarling

  /** The string tag stored for a helmet colour. */
  function HelmetName(h: Helmet): string
  {
    match h
    case White => "white"
    case Blue => "blue"
    case Green => "green"
    case Bass => "bass"
    case Riggansvarling => "riggansvarling"
  }

  lemma HelmetNameInjective(a: Helmet, b: Helmet)
    ensures HelmetName(a) == HelmetName(b) <==> a == b
  {
  }

  /** A worker; `teamId == None` means unassigned. */
  datatype Personnel = Personnel(
    id: int,
    name: string,
    phone: Option<string>,
    teamId: Option<int>,
    discipline: string,
    helmetColor: Helmet)

  /** What the add form hands over: a person without `id` and `teamId`. */
  datatype NewPerson = NewPerson(
    name: string,
    phone: Option<string>,
    discipline: string,
    helmetColor: Helmet)

  /** Team metadata. Every field any revision reads or writes is here: the
      declared `date`, `teamLeader`, `location`, `jobCode`, `tasks` and
      `assignedTo`, and the undeclared `workOrder`, `status`, `notes` and
      `workOrderId` that team creation and the migration use. */
  datatype TeamInfo = TeamInfo(
    id: int,
    name: string,
    date: Option<string>,
    tasks: Option<string>,
    assignedTo: Option<string>,
    teamLeader: Option<string>,
    location: Option<string>,
    jobCode: Option<string>,
    workOrder: Option<string>,
    status: Option<string>,
    notes: Option<string>,
    workOrderId: Option<int>)

  datatype WorkOrderInfo = WorkOrderInfo(
    id: int,
    workOrderNumber: string,
    owner: string,
    location: string,
    date: string,
    status: Option<string>,
    notes: Option<string>)

  /** The projected view: team metadata with its members attached. */
  datatype Team = Team(info: TeamInfo, members: seq<Personnel>)

  /** Who is being dragged over: a team, the unassigned zone, or nothing. */
  datatype DropZone = TeamZone(teamId: int) | UnassignedZone

  /** The result of `parseInt` on the dragged payload. */
  datatype Parsed = NaN | Num(n: int)

  /** `if (personId)`: NaN and 0 are falsy. */
  predicate Truthy(p: Parsed)
  {
    p.Num? && p.n != 0
  }
}
