# Reservation and registration form logic — a Dafny model

This project models the decision logic of a React client for a restaurant
reservation service. Two components hold that logic.

- **The reservation form** (`CreateReservation.jsx`) has three parts:
  - `isTimeValid` decides whether an `"HH:MM"` time falls inside a restaurant's
    service hours. The form's `validTime` rule is built on it.
  - `submit` either writes a login-required error into shared state, or sends one
    authenticated reservation request and then navigates to the reservation list.
  - `getTodayDate` formats the date that serves as the lower bound of the booking
    date field.
- **The registration form** (`Register.jsx`) checks four fields. The user name is
  required. The email and the password must match their regular expressions. The
  role is required, and its select starts with an empty placeholder option.

Modules:

- `Options`: the `Option` type.
- `JsText`: models of the JavaScript built-ins the reservation form calls, and the
  text helpers their proofs need. The built-ins are `String(n)`, `padStart`,
  `split`, `Number(...)` and `parseInt(...)`. The helpers are these:
  - `Join` is the inverse of `Split`.
  - `TrimStart`/`TrimEnd` are the trimming that `Number` and `parseInt` do first.
  - `IndexOf`/`LastIndexOf` find the first '@' and the last '.', which is how
    `RegisterRules` decides the email pattern.
  Numbers are integers or NaN (`JsNum`). Every comparison involving NaN is false, so
  an `undefined` minute behaves like NaN.
- `FormRules`: one field rule's verdict (accepted, missing, or rejected with a
  message) and react-hook-form's `required`.
- `TimeWindow`: `isTimeValid`, the `validTime` rule and the time field's rules.
- `TodayDate`: `getTodayDate`, with the clock's year, month index and day as
  parameters.
- `Reservation`: the field rules of the reservation form and the request `submit`
  composes. The class `ReservationView` holds the shared state the view reads and
  writes: the current restaurant, the error slot, and a trace of outgoing requests
  and navigations. `Submit` is `submit`. `Confirm` is `handleSubmit(submit)`, which
  runs `submit` only if every field passes.
- `RegisterRules`: the registration field rules.

Behaviour of the code that is easy to misread:

- A submission with a token both sends the request and then navigates to
  `/myReservations`, unless the awaited `postData` throws. Sending and navigating are
  not alternatives.
- A restaurant whose closing hour is earlier than its opening hour does not reject
  every time. It still accepts the whole opening hour and closing:00
  (`OvernightOnlyBoundaries`).
- `if (!token)` treats the empty string like a missing token, so `HasToken` requires
  a non-empty text.
- When the opening and closing hours are equal, the opening clause accepts the whole
  hour, minute 59 included (`SingleHourWindow`).

## Model

| member | source | states |
|---|---|---|
| `JsText.NatToString` | front/src/components/Create/CreateReservation/CreateReservation.jsx:72-73 | `String(n)` is a non-empty digit string whose decimal value is n, with no leading zero unless n is 0 |
| `JsText.NatToStringLength` | front/src/components/Create/CreateReservation/CreateReservation.jsx:72-74 | `String(n)` has 1 digit below 10, 2 digits from 10 to 99, and 4 digits from 1000 to 9999 |
| `JsText.ZeroPad2Value` | front/src/components/Create/CreateReservation/CreateReservation.jsx:72-73 | `String(n).padStart(2, "0")` is all digits and reads back as n; below 100 it is exactly two characters |
| `JsText.LeadingZerosValue` | front/src/components/Create/CreateReservation/CreateReservation.jsx:72-73 | zeros added in front of a digit string do not change its value |
| `JsText.PadStart` | front/src/components/Create/CreateReservation/CreateReservation.jsx:72-73 | the result has length max(length, width), ends with the original text, and is filler before it |
| `JsText.IndexOf` | front/src/components/Form/Register.jsx:70 | the first-'@' search in the decision procedure for the email pattern: None exactly when the character is absent; otherwise a position holding the character with no earlier occurrence |
| `JsText.LastIndexOf` | front/src/components/Form/Register.jsx:70 | the last-'.' search in the decision procedure for the email pattern: None exactly when the character is absent; otherwise a position holding the character with no later occurrence |
| `JsText.Split` | front/src/components/Create/CreateReservation/CreateReservation.jsx:59 | `split(":")` yields at least one piece, no piece contains the separator, and joining the pieces gives the input back |
| `JsText.SplitJoin` | front/src/components/Create/CreateReservation/CreateReservation.jsx:59 | splitting a join of separator-free pieces gives back exactly those pieces |
| `JsText.ToNumberOfDigits` | front/src/components/Create/CreateReservation/CreateReservation.jsx:59 | `Number` reads a digit string as its decimal value |
| `JsText.LeadingDigitsOf` | front/src/components/Create/CreateReservation/CreateReservation.jsx:60-61 | `parseInt` stops at the first character that is not a digit |
| `JsText.ParseIntOfIntText` | front/src/components/Create/CreateReservation/CreateReservation.jsx:60-61 | `parseInt(String(x) + rest)` is x when rest does not start with a digit, so a stored hour such as 10 or "10:00" parses to 10 |
| `JsText.TrimStart` | front/src/components/Create/CreateReservation/CreateReservation.jsx:60-61 | the start-trimming inside `parseInt` and `Number`: the result is a suffix of the input that does not start with an ECMAScript WhiteSpace or LineTerminator code point |
| `JsText.TrimStartDropsSpace` | front/src/components/Create/CreateReservation/CreateReservation.jsx:60-61 | every character that trimming the start removes is an ECMAScript WhiteSpace or LineTerminator code point (all space separators included) |
| `JsText.TrimEnd` | front/src/components/Create/CreateReservation/CreateReservation.jsx:59 | the end-trimming inside `Number`: the result is a prefix of the input that does not end with an ECMAScript WhiteSpace or LineTerminator code point |
| `JsText.TrimEndDropsSpace` | front/src/components/Create/CreateReservation/CreateReservation.jsx:59 | every character that trimming the end removes is an ECMAScript WhiteSpace or LineTerminator code point (all space separators included) |
| `JsText.LeadingDigits` | front/src/components/Create/CreateReservation/CreateReservation.jsx:60-61 | the result is the longest all-digit prefix |
| `FormRules.RequiredField` | front/src/components/Create/CreateReservation/CreateReservation.jsx:98-101 | `required: true` fails, as missing, exactly on the empty string |
| `TimeWindow.ClockTextParses` | front/src/components/Create/CreateReservation/CreateReservation.jsx:59 | the "HH:MM" text of a time input parses back to its hour and minute |
| `TimeWindow.ClockTimeValid` | front/src/components/Create/CreateReservation/CreateReservation.jsx:57-68 | for a clock time and a restaurant whose hours are stored as integers, `isTimeValid` is exactly the three clauses on the integers |
| `TimeWindow.AbsentRestaurantAcceptsAll` | front/src/components/Create/CreateReservation/CreateReservation.jsx:58 | with no restaurant loaded, every time is accepted and `validTime` passes |
| `TimeWindow.NonNumericHourRejected` | front/src/components/Create/CreateReservation/CreateReservation.jsx:59-67 | once a restaurant is loaded, an hour that is NaN is rejected |
| `TimeWindow.InsideHoursAccepted` | front/src/components/Create/CreateReservation/CreateReservation.jsx:64 | an hour strictly between opening and closing is accepted for every minute |
| `TimeWindow.OpeningHourAccepted` | front/src/components/Create/CreateReservation/CreateReservation.jsx:65 | the opening hour is accepted for every minute from 0 on |
| `TimeWindow.ClosingHourOnlyOnTheHour` | front/src/components/Create/CreateReservation/CreateReservation.jsx:66 | when closing differs from opening, the closing hour is accepted if and only if the minute is 0 |
| `TimeWindow.OutsideHoursRejected` | front/src/components/Create/CreateReservation/CreateReservation.jsx:63-67 | an hour below opening or above closing, equal to neither, is rejected for every minute |
| `TimeWindow.OvernightOnlyBoundaries` | front/src/components/Create/CreateReservation/CreateReservation.jsx:63-67 | when closing is less than opening, a time is accepted if and only if it is in the opening hour or is closing:00 |
| `TimeWindow.WindowIsMinuteInterval` | front/src/components/Create/CreateReservation/CreateReservation.jsx:63-67 | when opening is less than closing and the minute is 0 to 59, a time is accepted if and only if it lies in the closed interval from opening:00 to closing:00 |
| `TimeWindow.SingleHourWindow` | front/src/components/Create/CreateReservation/CreateReservation.jsx:64-66 | when opening equals closing, a time with any minute from 0 on is accepted if and only if its hour is that hour |
| `TimeWindow.ValidTime` | front/src/components/Create/CreateReservation/CreateReservation.jsx:131-133 | `validTime` passes if and only if `isTimeValid` holds, and otherwise fails with "Local cerrado" |
| `TimeWindow.TimeField` | front/src/components/Create/CreateReservation/CreateReservation.jsx:128-134 | the time field passes if and only if it is non-empty and valid; an empty time is missing and an invalid one fails with "Local cerrado" |
| `TodayDate.TodayDateFields` | front/src/components/Create/CreateReservation/CreateReservation.jsx:70-76 | for any year, the date text is the year, "-", the month number in two digits, "-", and the day in two digits, and each field reads back as its number |
| `TodayDate.TodayDateLayout` | front/src/components/Create/CreateReservation/CreateReservation.jsx:70-76 | with a four-digit year, the date text is ten characters, "YYYY-MM-DD", with month index + 1 and day zero-padded; each field reads back as its number, and the month and day are written as their tens digit then their units digit |
| `TodayDate.TodayDateInjective` | front/src/components/Create/CreateReservation/CreateReservation.jsx:70-76 | distinct dates give distinct texts |
| `Reservation.RequestsAppend` | front/src/components/Create/CreateReservation/CreateReservation.jsx:41-47 | the request log of a concatenated trace is the request logs of its parts, in order |
| `Reservation.NavigationsAppend` | front/src/components/Create/CreateReservation/CreateReservation.jsx:41-47 | the navigation log of a concatenated trace is the navigation logs of its parts, in order |
| `Reservation.SubmitWithoutToken` | front/src/components/Create/CreateReservation/CreateReservation.jsx:26-31 | without a token, `submit` sends no request and makes no navigation |
| `Reservation.SubmitWithToken` | front/src/components/Create/CreateReservation/CreateReservation.jsx:34-47 | with a token, `submit` sends exactly one request, to API_URL/reservations/id, with body {user, restaurant, booking_date, time, n_persons} and header "Bearer " + token. The request comes first. If `postData` resolves, exactly one navigation to /myReservations follows |
| `Reservation.CheckForm` | front/src/components/Create/CreateReservation/CreateReservation.jsx:98-166 | the form passes if and only if date, time and party size are non-empty and the time is valid; an invalid time fails with "Local cerrado" |
| `Reservation.ClosedTimeBlocksSubmission` | front/src/components/Create/CreateReservation/CreateReservation.jsx:87-134 | a time outside the restaurant's hours fails the time field, and the confirmation sends no request |
| `Reservation.CleanFormIsSent` | front/src/components/Create/CreateReservation/CreateReservation.jsx:34-45 | with a token and a form that passes every rule, the confirmation sends exactly the composed request |
| `Reservation.ReservationView.Submit` | front/src/components/Create/CreateReservation/CreateReservation.jsx:23-48 | without a token, the error slot becomes "Debes estar logeado para hacer una reserva." and the trace is unchanged. With a token, the error slot is unchanged and the trace grows by the submission's effects. Both logs grow accordingly |
| `Reservation.ReservationView.Confirm` | front/src/components/Create/CreateReservation/CreateReservation.jsx:87 | returns the field verdicts; if any field fails, nothing changes; otherwise the result is exactly that of `Submit` |
| `RegisterRules.ValidEmailIsPattern` | front/src/components/Form/Register.jsx:70 | trying only the first '@' and the last '.' accepts exactly the strings that match the email pattern, in both directions |
| `RegisterRules.AcceptedEmailOneAt` | front/src/components/Form/Register.jsx:70 | every accepted email contains exactly one '@' |
| `RegisterRules.AcceptedEmailTopLevel` | front/src/components/Form/Register.jsx:70 | in every accepted email, the text after the last '.' is two or more letters |
| `RegisterRules.EmailRule` | front/src/components/Form/Register.jsx:67-72 | the email field passes if and only if it matches the pattern; empty is missing; otherwise it fails with "Please enter a valid email address" |
| `RegisterRules.AcceptedPasswordLength` | front/src/components/Form/Register.jsx:92 | every accepted password has at least three characters |
| `RegisterRules.LettersOnlyRejected` | front/src/components/Form/Register.jsx:92 | a password made only of letters is rejected |
| `RegisterRules.DigitsOnlyRejected` | front/src/components/Form/Register.jsx:92 | a password made only of digits is rejected |
| `RegisterRules.PasswordExtends` | front/src/components/Form/Register.jsx:92 | adding allowed characters on either side keeps a password accepted |
| `RegisterRules.PasswordRule` | front/src/components/Form/Register.jsx:89-95 | the password field passes if and only if it matches the pattern; empty is missing; otherwise it fails with the password message |
| `RegisterRules.UserNameRule` | front/src/components/Form/Register.jsx:46-49 | the user name passes if and only if it is non-empty (white space alone passes) |
| `RegisterRules.RoleRuleChoices` | front/src/components/Form/Register.jsx:115-121 | the placeholder fails as missing; "admin" and "client" pass, and they are the only values that pass |
| `RegisterRules.CheckRegistration` | front/src/components/Form/Register.jsx:46-121 | the form passes if and only if the user name is non-empty, the email and password match their patterns, and a real role is chosen |
| `RegisterRules.CleanRegistration` | front/src/components/Form/Register.jsx:46-121 | a form that passes has a non-empty user name, one '@' in the email, a password of at least three characters, and role "admin" or "client" |

## Left out

- Markup, CSS classes, icons and the `Loading` component: these are presentation only.
- `fetchData` and `postData` from `useFetch`: the model records each request in the trace and does not perform it. The loading flag these calls maintain, their error dispatches and the response body (only logged) are not modelled. Whether `postData` resolves or throws is a parameter (`PostResult`), because `useFetch` is not part of this model.
- `API_URL` comes from a file that is not part of this model, so it is a field of `ReservationView`.
- `localStorage.getItem("token")` and `getItem("id")`: these storage reads are the optional inputs `token` and `userId`.
- The `useEffect`/`fetchRestaurant` lifecycle and the `GlobalContext` reducer are not modelled; the reducer is not part of this model. The current restaurant is given to the constructor and is a constant of `ReservationView`, because `fetchRestaurant`, which would replace it, is not modelled.
- The restaurant record's other fields, including its id, are not modelled. The time rule reads only `opening` and `closing`.
- The clock read (`new Date()`): year, month index and day are parameters of `TodayDate`.
- `console.log`/`console.error`, the `isLogin` toggle, and the registration `submit`/`authUser` path with its fixed URL are not modelled.
- Interleaving of asynchronous submissions: `Submit` runs to completion, sending the request and, on resolution, navigating. Other events could run at the `await` in between, and that is not modelled. There is no in-flight guard, and the model adds none: two `Submit` calls send two requests.
- The browser's own constraint validation is not modelled: `type="email"`, the date field's `min`, and `type="number"`. Only react-hook-form's rules are modelled.
- react-hook-form's handling of the misplaced `message` keys beside `required: true` is not modelled. A missing field is reported as `Missing`, with no message.
- JsText.ToNumber models `Number(...)` on decimal integer text only, with optional sign and surrounding white space. Fractions, exponents, `Infinity` and hexadecimal/octal/binary prefixes give NaN here, though JavaScript reads them as numbers. A time input never produces them.
- JsText.ParseInt does not model the `0x` hexadecimal prefix `parseInt` accepts.
- JsText.JsNum is an unbounded integer: double-precision rounding of numbers beyond 2^53 is not modelled.
- Strings are sequences of Unicode scalar values rather than UTF-16 code units. All the patterns use ASCII character classes, where the two agree.
