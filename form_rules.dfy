/** What a react-hook-form field rule reports for one value. */
module FormRules {

  /** A field passes, fails its `required` rule, or fails another rule with the
      message that rule gives. */
  datatype Verdict = Accepted | Missing | Rejected(message: string)

  /** `required: true` on a text-valued field: only the empty string is missing;
      white space is not trimmed. */
  function RequiredField(value: string): (v: Verdict)
    ensures v == Accepted <==> value != ""
    ensures v != Accepted ==> v == Missing
  {
    if value == "" then Missing else Accepted
  }

}
