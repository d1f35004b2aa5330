/** What a view answers: a value, or one of the failures the views report. */
module Results {

  datatype Error =
    | NotFound          // the target tweet or user does not exist (HTTP 404)
    | SelfTarget        // a follow or unfollow aimed at the caller (HTTP 400)
    | AlreadyFollowing  // a follow of a user already followed (HTTP 400)
    | NotFollowing      // an unfollow of a user not followed (HTTP 400)
    | Forbidden         // a delete asked for by someone other than the author (HTTP 403)
    | InvalidContent    // tweet content that is empty, longer than 140 characters, or holds a null character

  datatype Result<T> = Ok(value: T) | Err(error: Error)

  /** The HTTP status a failure is answered with. An invalid form is answered
      by showing the form again, with status 200. */
  function StatusCode(e: Error): (code: nat)
    ensures e == NotFound <==> code == 404
    ensures e == Forbidden <==> code == 403
    ensures e.SelfTarget? || e.AlreadyFollowing? || e.NotFollowing? <==> code == 400
    ensures e == InvalidContent <==> code == 200
  {
    match e
    case NotFound => 404
    case SelfTarget => 400
    case AlreadyFollowing => 400
    case NotFollowing => 400
    case Forbidden => 403
    case InvalidContent => 200
  }
}
