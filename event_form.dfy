/** The state of the event create/edit form: the start and end date pickers,
    the two time inputs, the two popover flags, and the submit handler that
    gates the save on the composed start and end values. */
module EventForm {
  import opened EventTime

  /** The event the form is opened on; all fields None when creating. */
  datatype InitialEvent = InitialEvent(id: Option<string>, startsAt: Option<Moment>, endsAt: Option<Moment>)

  /** The fields of the form data this model follows: the two hidden
      inputs and the id set for an update. */
  datatype Submission = Submission(startsAt: string, endsAt: string, id: Option<string>)

  /** What a submit does: stops with one of the three alerts, or hands the
      form data to the create-or-update action. */
  datatype SubmitResult = Blocked(reason: Rejection) | Upsert(data: Submission)

  class EventFormState {
    var startDate: Option<Moment>
    var startTime: string
    var endDate: Option<Moment>
    var endTime: string
    var openStart: bool
    var openEnd: bool
    /** The clock reading taken when the form was mounted. */
    const mountedAt: Moment
    const initialId: Option<string>

    constructor (initial: InitialEvent, now: Moment)
      ensures startDate == (if initial.startsAt.Some? then initial.startsAt else Some(now))
      ensures startTime == ToTimeString(initial.startsAt)
      ensures endDate == (if initial.endsAt.Some? then initial.endsAt else Some(now))
      ensures endTime == ToTimeString(initial.endsAt)
      ensures !openStart && !openEnd
      ensures mountedAt == now && initialId == initial.id
    {
      startDate := if initial.startsAt.Some? then initial.startsAt else Some(now);
      startTime := if initial.startsAt.Some? then ToTimeString(initial.startsAt) else "";
      endDate := if initial.endsAt.Some? then initial.endsAt else Some(now);
      endTime := if initial.endsAt.Some? then ToTimeString(initial.endsAt) else "";
      openStart, openEnd := false, false;
      mountedAt := now;
      initialId := initial.id;
    }

    /** Editing means the initial event carries a (truthy) id. */
    predicate IsEditing()
    {
      initialId.Some? && initialId.value != ""
    }

    /** todayStart: local midnight of the day the form was mounted. */
    function TodayStart(): (t: Moment)
      ensures ValidMoment(mountedAt) ==> ValidMoment(t) && !Before(mountedAt, t)
    {
      StartOfDay(mountedAt)
    }

    /** The calendars' `disabled` rule, `d < todayStart`: a day is refused
        exactly when its calendar date is earlier than the mount day, so no
        moment of the mount day itself is refused. */
    function IsDisabled(d: Moment): (r: bool)
      ensures r <==> DayBefore(d, mountedAt)
    {
      Before(d, TodayStart())
    }

    /** The composed start value: non-empty exactly when both halves are set. */
    function StartsAtValue(): (r: string)
      reads this
      ensures r != "" <==> startDate.Some? && startTime != ""
    {
      FormatForSubmission(startDate, startTime)
    }

    /** The composed end value: non-empty exactly when both halves are set. */
    function EndsAtValue(): (r: string)
      reads this
      ensures r != "" <==> endDate.Some? && endTime != ""
    {
      FormatForSubmission(endDate, endTime)
    }

    /** The start calendar's onSelect: set the start date, close the start popover. */
    method SelectStartDate(d: Option<Moment>)
      modifies this
      ensures startDate == d && !openStart
      ensures startTime == old(startTime) && endDate == old(endDate) && endTime == old(endTime)
      ensures openEnd == old(openEnd)
    {
      startDate := d;
      openStart := false;
    }

    /** The end calendar's onSelect: set the end date, close the end popover. */
    method SelectEndDate(d: Option<Moment>)
      modifies this
      ensures endDate == d && !openEnd
      ensures startDate == old(startDate) && startTime == old(startTime) && endTime == old(endTime)
      ensures openStart == old(openStart)
    {
      endDate := d;
      openEnd := false;
    }

    /** The start time input's onChange. */
    method ChangeStartTime(value: string)
      modifies this
      ensures startTime == value
      ensures startDate == old(startDate) && endDate == old(endDate) && endTime == old(endTime)
      ensures openStart == old(openStart) && openEnd == old(openEnd)
    {
      startTime := value;
    }

    /** The end time input's onChange. */
    method ChangeEndTime(value: string)
      modifies this
      ensures endTime == value
      ensures startDate == old(startDate) && startTime == old(startTime) && endDate == old(endDate)
      ensures openStart == old(openStart) && openEnd == old(openEnd)
    {
      endTime := value;
    }

    /** The start popover's onOpenChange. */
    method SetOpenStart(open: bool)
      modifies this
      ensures openStart == open
      ensures startDate == old(startDate) && startTime == old(startTime)
      ensures endDate == old(endDate) && endTime == old(endTime) && openEnd == old(openEnd)
    {
      openStart := open;
    }

    /** The end popover's onOpenChange. */
    method SetOpenEnd(open: bool)
      modifies this
      ensures openEnd == open
      ensures startDate == old(startDate) && startTime == old(startTime)
      ensures endDate == old(endDate) && endTime == old(endTime) && openStart == old(openStart)
    {
      openEnd := open;
    }

    /** The submit handler: the three checks in order, then the form data with
        the two composed values, and the id only when editing. */
    method Submit(now: Moment) returns (result: SubmitResult)
      ensures result.Blocked? ==>
        ValidateSubmission(StartsAtValue(), EndsAtValue(), IsEditing(), now) == Rejected(result.reason)
      ensures result.Upsert? <==> ValidateSubmission(StartsAtValue(), EndsAtValue(), IsEditing(), now).Accepted?
      ensures result.Upsert? ==>
        result.data.startsAt == StartsAtValue() && result.data.endsAt == EndsAtValue()
      ensures result.Upsert? ==>
        (result.data.id.Some? <==> IsEditing()) && (IsEditing() ==> result.data.id == initialId)
    {
      var startsAt, endsAt := StartsAtValue(), EndsAtValue();
      var verdict := ValidateSubmission(startsAt, endsAt, IsEditing(), now);
      if verdict.Rejected? {
        return Blocked(verdict.reason);
      }
      var id := if IsEditing() then initialId else None;
      result := Upsert(Submission(startsAt, endsAt, id));
    }
  }
}
