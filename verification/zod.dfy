/**
  The few zod string checks the request schemas use: presence, a minimum length
  and an email-format check. Each checked field yields at most one issue.
 */
module Zod {
  import opened Wrappers

  datatype Field = Name | Email | Password

  /** One reported problem: the offending field and its message. */
  datatype Issue = Issue(field: Field, message: string)

  /** `z.string().min(min, message)`, optional or required: a missing value is an issue
      ("Required") only when the field is required. */
  function MinLengthIssues(field: Field, value: Option<string>, optional: bool, min: nat, message: string): (r: seq<Issue>)
    ensures |r| <= 1 && forall k :: 0 <= k < |r| ==> r[k].field == field
    ensures r == [] <==> match value case None => optional case Some(v) => |v| >= min
  {
    match value
    case None => if optional then [] else [Issue(field, "Required")]
    case Some(v) => if |v| < min then [Issue(field, message)] else []
  }

  /** `z.string().email(message)`, optional or required; the format test itself is the
      library's and is a parameter here. */
  function EmailIssues(value: Option<string>, optional: bool, isEmail: string -> bool, message: string): (r: seq<Issue>)
    ensures |r| <= 1 && forall k :: 0 <= k < |r| ==> r[k].field == Email
    ensures r == [] <==> match value case None => optional case Some(v) => isEmail(v)
  {
    match value
    case None => if optional then [] else [Issue(Email, "Required")]
    case Some(v) => if isEmail(v) then [] else [Issue(Email, message)]
  }
}
