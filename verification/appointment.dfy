/**
 * The appointment record (Model/Appointment.java).
 *
 * Only the id (set after an insert) and the contact display name have setters,
 * so they are the only mutable fields; every other field is a `const`, fixed by
 * the constructor. Java's getters are plain reads of these fields.
 */
module Appointments {

  class Appointment {
    /** Appointment_ID; 0 for an appointment not yet stored. */
    var id: int
    const title: string
    const description: string
    const location: string
    const appointmentType: string
    /** Start and end, as wall-clock date-times of the user's own zone. */
    const start: int
    const end: int
    const customerId: int
    const userId: int
    const contactId: int
    /** Contact_Name, joined from the contacts table for display. */
    var contactName: string

    /** Stores every argument unchanged in its field. */
    constructor (id: int, title: string, description: string, location: string,
                 appointmentType: string, start: int, end: int, customerId: int,
                 userId: int, contactId: int, contactName: string)
      ensures this.id == id && this.title == title && this.description == description
      ensures this.location == location && this.appointmentType == appointmentType
      ensures this.start == start && this.end == end
      ensures this.customerId == customerId && this.userId == userId
      ensures this.contactId == contactId && this.contactName == contactName
    {
      this.id := id;
      this.title := title;
      this.description := description;
      this.location := location;
      this.appointmentType := appointmentType;
      this.start := start;
      this.end := end;
      this.customerId := customerId;
      this.userId := userId;
      this.contactId := contactId;
      this.contactName := contactName;
    }

    /** Sets the id after an insert; the frame allows no other field to change. */
    method SetId(id: int)
      modifies this`id
      ensures this.id == id
    {
      this.id := id;
    }

    /** Sets the contact display name; the frame allows no other field to change. */
    method SetContactName(contactName: string)
      modifies this`contactName
      ensures this.contactName == contactName
    {
      this.contactName := contactName;
    }
  }
}
