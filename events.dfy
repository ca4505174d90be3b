/**
 * The calendar event record as the views read it. The server's record names
 * its times `start` and `end`; every component reads `startTime` and
 * `endTime`, so the model uses the names the components use. A time is a
 * DateValue because a form field can hold an invalid Date.
 */
module Events {
  import opened EcmaDate
  import opened Optional

  datatype CalendarEvent = CalendarEvent(
    id: int,
    name: string,
    description: string,
    location: string,
    color: string,
    startTime: DateValue,
    endTime: DateValue,
    recurrenceRule: Option<string>)

  /** The colour every new or unedited event starts with. */
  const DefaultColor: string := "#55CBCD"

  /** The recurrence label an event without one is shown with. */
  const DefaultRecurrence: string := "Never"

  /** The swatches of the colour pickers of both event forms. */
  const ColorOptions: seq<string> := ["#55CBCD", "#97C2A9", "#FF968A", "#FFCBA2", "#CBAACB", "#FEE1E8"]

  /** The buttons of the recurrence pickers of both event forms. */
  const RecurrenceOptions: seq<string> := ["Never", "Daily", "Weekly", "Monthly", "Yearly"]
}
