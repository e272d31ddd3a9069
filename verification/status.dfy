/** The four states a framework can be in, and their persisted spelling. */
module Statuses {
  import opened Basics

  /** The closed set of statuses of the `Status` enum. */
  datatype Status = Pending | InProgress | Completed | Failed

  /** The string each status is stored and accepted as: a non-empty lower-case snake_case word. */
  function Value(s: Status): (r: string)
    ensures |r| > 0
    ensures forall i :: 0 <= i < |r| ==> 'a' <= r[i] <= 'z' || r[i] == '_'
  {
    match s
    case Pending => "pending"
    case InProgress => "in_progress"
    case Completed => "completed"
    case Failed => "failed"
  }

  /** Recognises a status string: only the four values of the enum are accepted. */
  function Parse(s: string): (r: Option<Status>)
    ensures r.Some? ==> Value(r.value) == s
    ensures r.None? ==> forall t: Status :: Value(t) != s
  {
    if s == "pending" then Some(Pending)
    else if s == "in_progress" then Some(InProgress)
    else if s == "completed" then Some(Completed)
    else if s == "failed" then Some(Failed)
    else None
  }

  /** Distinct statuses are stored as distinct strings. */
  lemma ValueInjective(s: Status, t: Status)
    ensures Value(s) == Value(t) ==> s == t
  {
  }

  /** Parsing is the exact inverse of the spelling, in both directions. */
  lemma ParseInverse(s: string, t: Status)
    ensures Parse(s) == Some(t) <==> s == Value(t)
  {
  }
}
