/**
  * The state of the events section: the three `useState` fields, the
  * mount effect that picks the next event, and the handlers of the
  * calendar, of "View Details" and of the modal's close button.
  */
module EventsView {
  import opened Options
  import opened Calendar
  import opened EventList

  class EventsSection {
    /** The static day-grouped data the component imports. */
    const days: seq<DayEntry>
    /** The events shown in the list, for the last date chosen on the calendar. */
    var selectedDateEvents: seq<Event>
    /** The event shown in the banner; `None` while there is none. */
    var nextEvent: Option<Event>
    /** The event whose details the modal shows; `None` while it is closed. */
    var selectedEvent: Option<Event>

    /** The initial values given to `useState`. */
    constructor (days: seq<DayEntry>)
      ensures this.days == days
      ensures selectedDateEvents == [] && nextEvent == None && selectedEvent == None
    {
      this.days := days;
      selectedDateEvents := [];
      nextEvent := None;
      selectedEvent := None;
    }

    /**
      * The mount effect at instant `now`: stores the earliest future event,
      * and leaves `nextEvent` as it was when there is none.
      */
    method Mount(now: int)
      modifies this`nextEvent
      ensures NextEvent(days, now).Some? ==> nextEvent == NextEvent(days, now)
      ensures NextEvent(days, now).None? ==> nextEvent == old(nextEvent)
      ensures selectedDateEvents == old(selectedDateEvents) && selectedEvent == old(selectedEvent)
    {
      var future := FutureEvents(days, now);
      if |future| > 0 {
        nextEvent := Some(future[0]);
      }
    }

    /** `handleDateSelect`; `None` stands for an invalid date. */
    method HandleDateSelect(picked: Option<Date>)
      modifies this`selectedDateEvents
      ensures selectedDateEvents == SelectedDateEvents(days, picked)
      ensures nextEvent == old(nextEvent) && selectedEvent == old(selectedEvent)
    {
      if picked.Some? {
        var formatted := FormatDMY(picked.value);
        var found := FindDay(days, formatted);
        selectedDateEvents := if found.Some? then days[found.value].events else [];
      } else {
        selectedDateEvents := [];
      }
    }

    /** `handleViewDetails`: opens the modal on `e`. */
    method HandleViewDetails(e: Event)
      modifies this`selectedEvent
      ensures selectedEvent == Some(e)
      ensures selectedDateEvents == old(selectedDateEvents) && nextEvent == old(nextEvent)
    {
      selectedEvent := Some(e);
    }

    /** The modal's `onClose`: closes it. */
    method CloseDetails()
      modifies this`selectedEvent
      ensures selectedEvent == None
      ensures selectedDateEvents == old(selectedDateEvents) && nextEvent == old(nextEvent)
    {
      selectedEvent := None;
    }
  }

  /**
    * Mounting a fresh section at instant `now`: the banner shows the next
    * event when there is one and nothing otherwise, and no date is chosen
    * and no modal is open yet.
    */
  method MountFresh(days: seq<DayEntry>, now: int) returns (shown: Option<Event>, listed: seq<Event>, open: bool)
    ensures shown == NextEvent(days, now)
    ensures shown.None? <==> forall e :: e in Flatten(days) ==> !IsFutureEvent(e, now)
    ensures listed == [] && !open
  {
    var section := new EventsSection(days);
    section.Mount(now);
    NextEventNone(days, now);
    shown, listed, open := section.nextEvent, section.selectedDateEvents, section.selectedEvent.Some?;
  }

  /**
    * From a closed modal, viewing details of an event and then closing the
    * modal returns the section to the state it had before, whatever date
    * list and next event were shown then.
    */
  method ViewThenClose(section: EventsSection, e: Event)
    requires section.selectedEvent == None
    modifies section
    ensures section.selectedEvent == None
    ensures section.selectedDateEvents == old(section.selectedDateEvents)
    ensures section.nextEvent == old(section.nextEvent)
  {
    section.HandleViewDetails(e);
    assert section.selectedEvent == Some(e);
    section.CloseDetails();
  }
}
