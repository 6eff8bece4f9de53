/** The notification texts of the client (`msg` in src/App.tsx). */
module Notices {
  import opened Wrappers

  const NOT_AUTHENTICATED: string := "NOT_AUTHENTICATED"
  const ALREADY_VOTED: string := "ALREADY_VOTED"

  const NOT_LOGGED_IN_TEXT: string := "You are not logged in"
  const ALREADY_VOTED_TEXT: string := "You have already voted on this post"

  /** `msg(TYPE)`: the text shown for a notification tag; a tag the switch
      does not list falls off its end, which is `undefined` (`None`). */
  function Msg(tag: string): (r: Option<string>)
    ensures r.Some? <==> tag == NOT_AUTHENTICATED || tag == ALREADY_VOTED
    ensures r.Some? ==> r.value != []
    ensures tag == NOT_AUTHENTICATED ==> r == Some(NOT_LOGGED_IN_TEXT)
    ensures tag == ALREADY_VOTED ==> r == Some(ALREADY_VOTED_TEXT)
  {
    match tag
    case "NOT_AUTHENTICATED" => Some(NOT_LOGGED_IN_TEXT)
    case "ALREADY_VOTED" => Some(ALREADY_VOTED_TEXT)
    case _ => None
  }
}
