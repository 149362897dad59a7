/**
 * backend/realtime-note-backend/middleware/authMiddleWare.js: `verifyToken`,
 * the Express middleware in front of every notes route. `jwt.verify` with the
 * server's secret is a function parameter; the effect on the request
 * (`req.userId` set and `next()` called, or a 403 reply) is the returned outcome.
 */
module AuthMiddleware {
  import opened Wrappers
  import opened NoteModel
  import JsString

  /** What `jwt.verify(token, secret)` does: returns the payload's `id`, or throws with a message. */
  datatype Verified = Decoded(id: UserId) | Rejected(message: string)

  datatype Outcome =
    | Next(userId: UserId)  // `req.userId = userId`, `next()` called exactly once, no reply sent
    | Respond(status: int, message: string, error: Option<string>)  // reply sent, `next` not called

  /** `authorization?.split(' ')[1]`, with the falsy results (undefined, "") as None. */
  function BearerToken(authorization: Option<string>): (token: Option<string>)
    ensures token.Some? ==> token.value != [] && ' ' !in token.value
  {
    if authorization.None? then None
    else
      var parts := JsString.Split(authorization.value, ' ');
      if |parts| > 1 && parts[1] != [] then Some(parts[1]) else None
  }

  /** `header` is some text without a space, one space, `token`, then nothing or a space. */
  ghost predicate SecondFieldLayout(header: string, first: string, token: string, rest: string) {
    && header == first + [' '] + token + rest
    && ' ' !in first && ' ' !in token
    && (rest == [] || rest[0] == ' ')
  }

  /** The token is exactly the non-empty text between the first space and the next one (or the end). */
  lemma BearerTokenIsSecondField(header: string, token: string)
    ensures BearerToken(Some(header)) == Some(token) <==>
      token != [] && exists first, rest :: SecondFieldLayout(header, first, token, rest)
  {
    if BearerToken(Some(header)) == Some(token) {
      TokenHasSecondFieldLayout(header, token);
    }
    if token != [] && exists first, rest :: SecondFieldLayout(header, first, token, rest) {
      var first, rest :| SecondFieldLayout(header, first, token, rest);
      SecondFieldLayoutGivesToken(header, first, token, rest);
    }
  }

  /** A token found in a header sits in the second-field layout. */
  lemma TokenHasSecondFieldLayout(header: string, token: string)
    requires BearerToken(Some(header)) == Some(token)
    ensures token != [] && SecondFieldLayout(header, JsString.Split(header, ' ')[0], token, JsString.Join(JsString.Split(header, ' ')[1..], ' ')[|token|..])
  {
    var parts := JsString.Split(header, ' ');
    JsString.JoinSplit(header, ' ');
    var tail := JsString.Join(parts[1..], ' ');
    assert header == parts[0] + [' '] + tail;
    assert parts[1..][0] == token;
    assert tail == token + tail[|token|..];
  }

  /** Any header in the second-field layout yields that field as its token. */
  lemma SecondFieldLayoutGivesToken(header: string, first: string, token: string, rest: string)
    requires token != [] && SecondFieldLayout(header, first, token, rest)
    ensures BearerToken(Some(header)) == Some(token)
  {
    assert header == first + [' '] + (token + rest);
    JsString.SplitAfterPiece(first, ' ', token + rest);
    if rest == [] {
      assert token + rest == token;
      JsString.SplitWithoutSeparator(token, ' ');
    } else {
      assert token + rest == token + [' '] + rest[1..];
      JsString.SplitAfterPiece(token, ' ', rest[1..]);
    }
  }

  /** A header without a space carries no token. */
  lemma NoSpaceNoToken(header: string)
    requires ' ' !in header
    ensures BearerToken(Some(header)).None?
  {
    JsString.FirstPiece(header, ' ');
  }

  /** A header whose second field is empty ("Bearer ", "Bearer  x") carries no token. */
  lemma EmptySecondFieldNoToken(first: string, rest: string)
    requires ' ' !in first && (rest == [] || rest[0] == ' ')
    ensures BearerToken(Some(first + [' '] + rest)).None?
  {
    JsString.SplitAfterPiece(first, ' ', rest);
  }

  /**
   * `verifyToken`: no token gives 403 "No token provided"; a token `jwt.verify`
   * rejects gives 403 "Invalid token" with the error's message; otherwise the
   * decoded id is passed on and `next` runs. No other outcome exists.
   */
  function VerifyToken(authorization: Option<string>, verify: string -> Verified): (r: Outcome)
    ensures r.Respond? ==> r.status == 403
    ensures r.Next? <==> BearerToken(authorization).Some? && verify(BearerToken(authorization).value).Decoded?
    ensures r.Next? ==> r.userId == verify(BearerToken(authorization).value).id
    ensures authorization.None? ==> r == Respond(403, "No token provided", None)
    ensures BearerToken(authorization).None? <==> r == Respond(403, "No token provided", None)
    ensures BearerToken(authorization).Some? && verify(BearerToken(authorization).value).Rejected? ==>
      r == Respond(403, "Invalid token", Some(verify(BearerToken(authorization).value).message))
    ensures r.Respond? && r.message == "Invalid token" ==>
      r.error == Some(verify(BearerToken(authorization).value).message)
  {
    var token := BearerToken(authorization);
    if token.None? then Respond(403, "No token provided", None)
    else match verify(token.value)
      case Decoded(id) => Next(id)
      case Rejected(message) => Respond(403, "Invalid token", Some(message))
  }
}
