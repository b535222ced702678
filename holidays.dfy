/** The record that flows through both services. */
module Holidays {
  import opened Base

  /**
   * One calendar day of the holiday table (the Lombok-built `Holiday` value).
   * Every text field is a Java reference and may be null; the CSV mapping fills all of
   * them except `note`, which only the PDF rendering reads.
   */
  datatype Holiday = Holiday(
    date: JString,
    year: JString,
    name: JString,
    isHoliday: bool,
    holidayCategory: JString,
    description: JString,
    note: JString)
}
