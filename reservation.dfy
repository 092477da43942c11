/** The reservation form's submission: the field rules react-hook-form applies before
    calling `submit`, and `submit` itself as a step over the shared error slot and a
    trace of the outgoing requests and navigations it causes. */
module Reservation {

  import opened Options
  import opened FormRules
  import opened TimeWindow

  const LoginRequired := "Debes estar logeado para hacer una reserva."
  const ReservationsPath := "/reservations/"
  const MyReservations := "/myReservations"

  /** The values the form hands to `submit`; every input yields text. */
  datatype FormValues = FormValues(booking: string, time: string, nPersons: string)

  /** The body of a reservation request; `user` is null when no user id is stored. */
  datatype ReservationBody = ReservationBody(
    user: Option<string>, restaurant: string, bookingDate: string, time: string, nPersons: string)

  /** One `postData(url, body, { headers: { Authorization } })` call. */
  datatype Request = Request(url: string, body: ReservationBody, authorization: string)

  /** What one submission does outside the error slot, in order. */
  datatype Effect = Send(request: Request) | Navigate(path: string)

  /** How the awaited `postData` promise settles: when it throws, the rest of `submit`
      (the navigation) does not run. */
  datatype PostResult = Resolves | Throws

  /** `!token` is false: a token is stored and is not the empty string. */
  predicate HasToken(token: Option<string>)
  {
    token.Some? && token.value != ""
  }

  // ---------------------------------------------------------------- the two logs

  /** The request log: the requests of a trace, in order. */
  function Requests(trace: seq<Effect>): seq<Request>
  {
    if |trace| == 0 then []
    else (if trace[0].Send? then [trace[0].request] else []) + Requests(trace[1..])
  }

  /** The navigation log: the paths navigated to in a trace, in order. */
  function Navigations(trace: seq<Effect>): seq<string>
  {
    if |trace| == 0 then []
    else (if trace[0].Navigate? then [trace[0].path] else []) + Navigations(trace[1..])
  }

  /** The request log of a longer trace is the request logs of its parts, in order. */
  lemma {:induction false} RequestsAppend(a: seq<Effect>, b: seq<Effect>)
    ensures Requests(a + b) == Requests(a) + Requests(b)
  {
    if a == [] {
      assert a + b == b;
    } else {
      var head := if a[0].Send? then [a[0].request] else [];
      assert Requests(a) == head + Requests(a[1..]);
      assert (a + b)[0] == a[0];
      assert (a + b)[1..] == a[1..] + b;
      assert Requests(a + b) == head + Requests(a[1..] + b);
      RequestsAppend(a[1..], b);
      assert Requests(a + b) == head + (Requests(a[1..]) + Requests(b));
    }
  }

  /** The navigation log of a longer trace is the navigation logs of its parts, in order. */
  lemma {:induction false} NavigationsAppend(a: seq<Effect>, b: seq<Effect>)
    ensures Navigations(a + b) == Navigations(a) + Navigations(b)
  {
    if a == [] {
      assert a + b == b;
    } else {
      var head := if a[0].Navigate? then [a[0].path] else [];
      assert Navigations(a) == head + Navigations(a[1..]);
      assert (a + b)[0] == a[0];
      assert (a + b)[1..] == a[1..] + b;
      assert Navigations(a + b) == head + Navigations(a[1..] + b);
      NavigationsAppend(a[1..], b);
      assert Navigations(a + b) == head + (Navigations(a[1..]) + Navigations(b));
    }
  }

  // ---------------------------------------------------------------- submit

  /** The request `submit` composes for the restaurant of the route. */
  function ReservationRequest(
    apiUrl: string, id: string, token: string, userId: Option<string>, data: FormValues): Request
  {
    Request(apiUrl + ReservationsPath + id,
            ReservationBody(userId, id, data.booking, data.time, data.nPersons),
            "Bearer " + token)
  }

  /** What one run of `submit` adds to the trace. */
  function SubmitEffects(
    apiUrl: string, id: string, token: Option<string>, userId: Option<string>,
    data: FormValues, outcome: PostResult): seq<Effect>
  {
    if !HasToken(token) then []
    else
      [Send(ReservationRequest(apiUrl, id, token.value, userId, data))]
      + (if outcome == Resolves then [Navigate(MyReservations)] else [])
  }

  /** Without a token `submit` sends nothing and navigates nowhere. */
  lemma SubmitWithoutToken(
    apiUrl: string, id: string, token: Option<string>, userId: Option<string>,
    data: FormValues, outcome: PostResult)
    requires !HasToken(token)
    ensures Requests(SubmitEffects(apiUrl, id, token, userId, data, outcome)) == []
    ensures Navigations(SubmitEffects(apiUrl, id, token, userId, data, outcome)) == []
  {
  }

  /** With a token `submit` sends exactly one request — to API_URL/reservations/id,
      with the five-field body and a Bearer header — and then, once it resolves,
      navigates exactly once, to /myReservations. */
  lemma SubmitWithToken(
    apiUrl: string, id: string, token: Option<string>, userId: Option<string>,
    data: FormValues, outcome: PostResult)
    requires HasToken(token)
    ensures var e := SubmitEffects(apiUrl, id, token, userId, data, outcome);
      && Requests(e) == [Request(apiUrl + "/reservations/" + id,
                                 ReservationBody(userId, id, data.booking, data.time, data.nPersons),
                                 "Bearer " + token.value)]
      && Navigations(e) == (if outcome == Resolves then ["/myReservations"] else [])
      && e[0].Send?
      && (outcome == Resolves ==> |e| == 2 && e[1].Navigate?)
  {
    var e := SubmitEffects(apiUrl, id, token, userId, data, outcome);
    var q := ReservationRequest(apiUrl, id, token.value, userId, data);
    if outcome == Resolves {
      assert e == [Send(q)] + [Navigate(MyReservations)];
      RequestsAppend([Send(q)], [Navigate(MyReservations)]);
      NavigationsAppend([Send(q)], [Navigate(MyReservations)]);
    } else {
      assert e == [Send(q)];
    }
  }

  // ---------------------------------------------------------------- the field rules

  /** The verdict of each field of the reservation form. */
  datatype FieldErrors = FieldErrors(booking: Verdict, time: Verdict, nPersons: Verdict)
  {
    predicate Clean()
    {
      booking == Accepted && time == Accepted && nPersons == Accepted
    }
  }

  /** The rules registered on the form: the date and the party size are required, the
      time is required and must pass `validTime`. */
  function CheckForm(data: FormValues, restaurant: Option<Restaurant>): (e: FieldErrors)
    ensures e.Clean() <==>
      data.booking != "" && data.nPersons != "" && data.time != ""
      && IsTimeValid(data.time, restaurant)
    ensures !IsTimeValid(data.time, restaurant) && data.time != "" ==> e.time == Rejected(ClosedMessage)
  {
    FieldErrors(RequiredField(data.booking), TimeField(data.time, restaurant), RequiredField(data.nPersons))
  }

  /** `handleSubmit(submit)`: `submit` runs only when every field passes. */
  function ConfirmEffects(
    apiUrl: string, id: string, restaurant: Option<Restaurant>, token: Option<string>,
    userId: Option<string>, data: FormValues, outcome: PostResult): seq<Effect>
  {
    if CheckForm(data, restaurant).Clean() then SubmitEffects(apiUrl, id, token, userId, data, outcome)
    else []
  }

  /** A time outside the restaurant's hours blocks the submission: no request is sent,
      however the session looks. */
  lemma ClosedTimeBlocksSubmission(
    apiUrl: string, id: string, r: Restaurant, token: Option<string>,
    userId: Option<string>, data: FormValues, outcome: PostResult)
    requires !IsTimeValid(data.time, Some(r))
    ensures CheckForm(data, Some(r)).time != Accepted
    ensures Requests(ConfirmEffects(apiUrl, id, Some(r), token, userId, data, outcome)) == []
  {
  }

  /** A form that passes every rule, with a token, sends exactly the composed request. */
  lemma CleanFormIsSent(
    apiUrl: string, id: string, restaurant: Option<Restaurant>, token: Option<string>,
    userId: Option<string>, data: FormValues, outcome: PostResult)
    requires HasToken(token)
    requires data.booking != "" && data.nPersons != "" && data.time != ""
    requires IsTimeValid(data.time, restaurant)
    ensures Requests(ConfirmEffects(apiUrl, id, restaurant, token, userId, data, outcome))
         == [ReservationRequest(apiUrl, id, token.value, userId, data)]
  {
    SubmitWithToken(apiUrl, id, token, userId, data, outcome);
  }

  // ---------------------------------------------------------------- the view

  /** The reservation view: the route's restaurant id, the current restaurant it reads,
      the error slot it writes and the trace of its effects. The restaurant is a
      constant here because the fetch that would replace it is not modelled. */
  class ReservationView {
    const apiUrl: string
    const id: string
    const restaurant: Option<Restaurant>
    var error: Option<string>
    var trace: seq<Effect>

    constructor (apiUrl: string, id: string, restaurant: Option<Restaurant>, error: Option<string>)
      ensures this.apiUrl == apiUrl && this.id == id
      ensures this.restaurant == restaurant && this.error == error && trace == []
    {
      this.apiUrl := apiUrl;
      this.id := id;
      this.restaurant := restaurant;
      this.error := error;
      trace := [];
    }

    /** `submit(data)`: without a token it writes the login error and stops; otherwise
        it sends the reservation request and, once that resolves, navigates to the
        reservation list. The error slot and the trace are the only state it touches. */
    method Submit(token: Option<string>, userId: Option<string>, data: FormValues, outcome: PostResult)
      modifies this`error, this`trace
      ensures !HasToken(token) ==> error == Some(LoginRequired) && trace == old(trace)
      ensures HasToken(token) ==> error == old(error)
      ensures trace == old(trace) + SubmitEffects(apiUrl, id, token, userId, data, outcome)
      ensures Requests(trace) ==
        Requests(old(trace)) + Requests(SubmitEffects(apiUrl, id, token, userId, data, outcome))
      ensures Navigations(trace) ==
        Navigations(old(trace)) + Navigations(SubmitEffects(apiUrl, id, token, userId, data, outcome))
    {
      if !HasToken(token) {
        error := Some(LoginRequired);
        return;
      }
      var formData := ReservationBody(userId, id, data.booking, data.time, data.nPersons);
      var request := Request(apiUrl + ReservationsPath + id, formData, "Bearer " + token.value);
      ghost var before := trace;
      trace := trace + [Send(request)];
      if outcome == Resolves {
        trace := trace + [Navigate(MyReservations)];
        assert trace == before + ([Send(request)] + [Navigate(MyReservations)]);
      }
      RequestsAppend(before, SubmitEffects(apiUrl, id, token, userId, data, outcome));
      NavigationsAppend(before, SubmitEffects(apiUrl, id, token, userId, data, outcome));
    }

    /** The form's confirmation, `handleSubmit(submit)`: the field rules run against the
        current restaurant, and `submit` runs only when all of them pass. */
    method Confirm(token: Option<string>, userId: Option<string>, data: FormValues, outcome: PostResult)
      returns (errors: FieldErrors)
      modifies this`error, this`trace
      ensures errors == CheckForm(data, restaurant)
      ensures !errors.Clean() ==> error == old(error) && trace == old(trace)
      ensures errors.Clean() && !HasToken(token) ==> error == Some(LoginRequired)
      ensures errors.Clean() && HasToken(token) ==> error == old(error)
      ensures trace == old(trace) + ConfirmEffects(apiUrl, id, restaurant, token, userId, data, outcome)
    {
      errors := CheckForm(data, restaurant);
      ghost var effects := ConfirmEffects(apiUrl, id, restaurant, token, userId, data, outcome);
      if errors.Clean() {
        assert effects == SubmitEffects(apiUrl, id, token, userId, data, outcome);
        Submit(token, userId, data, outcome);
      } else {
        assert effects == [];
        assert trace + effects == trace;
      }
    }
  }

}
