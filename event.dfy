/** The calendar's one entity: an academic event as the views receive it. */
module Events {

  /**
   * An event: its day as a "yyyy-MM-dd" string, a title, a type
   * ("evaluacion", "tp", "tarea" once normalized), the subject it belongs
   * to and a free description.
   */
  datatype Event = Event(date: string, title: string, eventType: string, subject: string, description: string)
}
