/**
 * The schedule lookup screen (the component Index): its state, initialised as at mount, and
 * the handlers that change it. Each handler may change only the fields its modifies clause
 * names; every other field keeps its value.
 */
module Screen {
  import opened Wrappers
  import opened JsNumber
  import opened TimeFields
  import opened Query

  /** One stop of a trip, as the schedule endpoint returns it. */
  datatype Station = Station(station: string, arrivalTime: string, departureTime: string)

  /** One run of a vehicle with its stops in order. */
  datatype Trip = Trip(vehicleNumber: string, trip: string, stations: seq<Station>)

  /** How the GET request ended: with a response body that is a list of trips, or with a
      failure of the request (network or error status). */
  datatype FetchOutcome = Fetched(trips: seq<Trip>) | FetchFailed

  /** The notification raised when the confirmed fields are out of range. */
  const InvalidTimeMessage: string := "Invalid time format. Please enter a valid time (HH:MM)"

  class ScheduleScreen {
    var start: string
    var destination: string
    var data: seq<Trip>
    var time: string
    var hours: string
    var minutes: string

    /** The screen's invariant: both time fields pass the keystroke filter, and the confirmed
        time is empty or two such fields, in range, joined by ':'. */
    predicate Valid()
      reads this
    {
      FieldAccepted(hours) && FieldAccepted(minutes) && ConfirmedTime(time)
    }

    /** The state at mount. */
    constructor ()
      ensures Valid()
      ensures start == "" && destination == "" && data == [] && time == ""
      ensures hours == "00" && minutes == "00"
    {
      start, destination, data, time := "", "", [], "";
      hours, minutes := "00", "00";
      DigitFieldAccepted("00");
    }

    /** onChangeText of the start field. */
    method SetStart(text: string)
      requires Valid()
      modifies this`start
      ensures Valid() && start == text
    {
      start := text;
    }

    /** onChangeText of the destination field. */
    method SetDestination(text: string)
      requires Valid()
      modifies this`destination
      ensures Valid() && destination == text
    {
      destination := text;
    }

    /** handleHourChange: the edit is taken exactly when it passes the filter. */
    method HandleHourChange(input: string)
      requires Valid()
      modifies this`hours
      ensures Valid()
      ensures hours == if FieldAccepted(input) then input else old(hours)
    {
      if |input| <= 2 && NumberTenths(input).Some? {
        hours := input;
      }
    }

    /** handleMinuteChange: the same filter, on the minutes. */
    method HandleMinuteChange(input: string)
      requires Valid()
      modifies this`minutes
      ensures Valid()
      ensures minutes == if FieldAccepted(input) then input else old(minutes)
    {
      if |input| <= 2 && NumberTenths(input).Some? {
        minutes := input;
      }
    }

    /** handleConfirm: in range, the fields as typed become the confirmed time; otherwise the
        confirmed time is kept and the notification is raised (returned here). */
    method HandleConfirm() returns (toast: Option<string>)
      requires Valid()
      modifies this`time
      ensures Valid()
      ensures toast == if TimeInRange(hours, minutes) then None else Some(InvalidTimeMessage)
      ensures time == if TimeInRange(hours, minutes) then FormatTime(hours, minutes) else old(time)
    {
      if TimeInRange(hours, minutes) {
        ConfirmedTimeOfFields(hours, minutes);
        time := FormatTime(hours, minutes);
        toast := None;
      } else {
        toast := Some(InvalidTimeMessage);
      }
    }

    /** The first half of handleSubmit, before the request is awaited: the URL it requests. */
    method SubmitUrl() returns (url: string)
      requires Valid()
      ensures url == QueryUrl(start, destination, time)
    {
      var formattedStart := Normalize(start);
      var formattedDestination := Normalize(destination);
      url := BaseUrl + "departure=" + formattedStart + "&destination=" + formattedDestination
        + "&time=" + time;
    }

    /** The second half of handleSubmit, once the request has settled: a response replaces
        the trips wholesale, in response order; a failure changes nothing. */
    method FetchCompleted(outcome: FetchOutcome)
      requires Valid()
      modifies this`data
      ensures Valid()
      ensures data == if outcome.Fetched? then outcome.trips else old(data)
    {
      match outcome
      case Fetched(trips) => data := trips;
      case FetchFailed =>
    }

    /** handleSubmit when nothing else happens while the request is pending. */
    method HandleSubmit(outcome: FetchOutcome) returns (url: string)
      requires Valid()
      modifies this`data
      ensures Valid()
      ensures url == QueryUrl(start, destination, time)
      ensures data == if outcome.Fetched? then outcome.trips else old(data)
    {
      url := SubmitUrl();
      FetchCompleted(outcome);
    }
  }

  /** A freshly mounted screen refuses hour 25 at confirmation and keeps the time unconfirmed. */
  method RefusedSession() returns (refusal: Option<string>, time: string)
    ensures refusal == Some(InvalidTimeMessage) && time == ""
  {
    var screen := new ScheduleScreen();
    TwentyFiveAccepted();
    screen.HandleHourChange("25");
    HourTwentyFiveRefused("00");
    refusal := screen.HandleConfirm();
    time := screen.time;
  }

  /** The time part of a session: both fields are typed into a screen with no confirmed time,
      then confirmed. The fields hold what was typed; the places and the trips are left as
      they were. */
  method TypeAndConfirm(screen: ScheduleScreen, h: string, m: string) returns (toast: Option<string>)
    requires screen.Valid() && screen.time == ""
    requires FieldAccepted(h) && FieldAccepted(m)
    modifies screen
    ensures screen.Valid()
    ensures screen.hours == h && screen.minutes == m
    ensures toast == if TimeInRange(h, m) then None else Some(InvalidTimeMessage)
    ensures screen.time == if TimeInRange(h, m) then FormatTime(h, m) else ""
    ensures screen.start == old(screen.start) && screen.destination == old(screen.destination)
    ensures screen.data == old(screen.data)
  {
    screen.HandleHourChange(h);
    screen.HandleMinuteChange(m);
    toast := screen.HandleConfirm();
  }

  /** A session from mount: the two places and the two time fields are typed, the time is
      confirmed and the query submitted. Returns what was shown and the state the query was
      built from. */
  method RunSession(startText: string, destinationText: string, h: string, m: string,
                    outcome: FetchOutcome)
    returns (toast: Option<string>, url: string, trips: seq<Trip>,
             submittedStart: string, submittedDestination: string, submittedTime: string)
    requires FieldAccepted(h) && FieldAccepted(m)
    ensures toast == if TimeInRange(h, m) then None else Some(InvalidTimeMessage)
    ensures submittedStart == startText && submittedDestination == destinationText
    ensures submittedTime == if TimeInRange(h, m) then FormatTime(h, m) else ""
    ensures url == QueryUrl(submittedStart, submittedDestination, submittedTime)
    ensures trips == if outcome.Fetched? then outcome.trips else []
  {
    var screen := new ScheduleScreen();
    screen.SetStart(startText);
    screen.SetDestination(destinationText);
    toast := TypeAndConfirm(screen, h, m);
    submittedStart, submittedDestination, submittedTime :=
      screen.start, screen.destination, screen.time;
    url := screen.HandleSubmit(outcome);
    trips := screen.data;
  }

  /** The query of such a session carries the normalised places and, exactly when the fields
      are in range, the fields joined by ':'; otherwise the empty time. */
  method TypedSession(startText: string, destinationText: string, h: string, m: string,
                      outcome: FetchOutcome)
    returns (toast: Option<string>, url: string, trips: seq<Trip>)
    requires '&' !in startText && '&' !in destinationText
    requires FieldAccepted(h) && FieldAccepted(m)
    ensures toast == if TimeInRange(h, m) then None else Some(InvalidTimeMessage)
    ensures ParseQuery(url) == Some((Normalize(startText), Normalize(destinationText),
                                     if TimeInRange(h, m) then FormatTime(h, m) else ""))
    ensures trips == if outcome.Fetched? then outcome.trips else []
  {
    var submittedStart, submittedDestination, submittedTime;
    toast, url, trips, submittedStart, submittedDestination, submittedTime :=
      RunSession(startText, destinationText, h, m, outcome);
    AcceptedFieldsNoAmpersand(h, m);
    QueryUrlRoundTrip(submittedStart, submittedDestination, submittedTime);
  }

  /** A confirmed time holds no '&', so it never splits the query. */
  lemma AcceptedFieldsNoAmpersand(h: string, m: string)
    requires FieldAccepted(h) && FieldAccepted(m)
    ensures '&' !in FormatTime(h, m)
  {
    AcceptedFieldAlphabet(h);
    AcceptedFieldAlphabet(m);
  }

  lemma TwentyFiveAccepted()
    ensures FieldAccepted("25")
  {
    assert AllDigits("25");
    DigitFieldAccepted("25");
  }
}
