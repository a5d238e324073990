/** The client-side session as the uploader page reads it, and the effect in
    app/page.tsx that drops the Google session once its access token has
    expired. Time is a parameter: `now` stands for `Date.now()`. */
module SessionWatch {
  import opened JsValues

  /** One provider's part of the session (app/next-auth.d.ts). */
  datatype ProviderSession = ProviderSession(
    accessToken: Option<string>,
    refreshToken: Option<string>,
    accessTokenExpires: Option<int>)

  /** The session object; `user` and `expires` stand for the fields the
      authentication library adds, which the watcher must carry over. */
  datatype Session = Session(
    user: Option<string>,
    expires: string,
    google: Option<ProviderSession>,
    etsy: Option<ProviderSession>)

  /** What one run of the effect does: nothing, send the session update
      right away, or arm a timer that sends it after `delay` milliseconds. */
  datatype Decision =
    | Idle
    | ClearNow(update: Session)
    | ClearAfter(delay: int, update: Session)

  /** `session?.google?.accessToken`. */
  function GoogleToken(session: Option<Session>): Option<string> {
    if session.Some? && session.value.google.Some? then session.value.google.value.accessToken else None
  }

  /** `accessTokenExpires` as a truthy number: absent and 0 both read as
      no expiry. */
  function GoogleExpiry(session: Option<Session>): Option<int> {
    if session.Some? && session.value.google.Some? then
      match session.value.google.value.accessTokenExpires
      case Some(t) => if t != 0 then Some(t) else None
      case None => None
    else None
  }

  /** `{ ...session, google: undefined }`. */
  function WithoutGoogle(s: Session): (r: Session)
    ensures r.google.None?
    ensures r.etsy == s.etsy && r.user == s.user && r.expires == s.expires
  {
    s.(google := None)
  }

  /** One run of the effect with the session status `loading`, the current
      session and the current time. */
  function Watch(loading: bool, session: Option<Session>, now: int): (d: Decision)
    ensures loading || !PresentText(GoogleToken(session)) || GoogleExpiry(session).None? ==> d == Idle
    ensures d.ClearNow? <==>
      (!loading && PresentText(GoogleToken(session)) && GoogleExpiry(session).Some? &&
       GoogleExpiry(session).value < now)
    ensures (!loading && PresentText(GoogleToken(session)) && GoogleExpiry(session).Some? &&
             GoogleExpiry(session).value >= now) ==>
      d == ClearAfter(GoogleExpiry(session).value - now, WithoutGoogle(session.value))
    ensures d.ClearAfter? ==>
      (session.Some? && GoogleExpiry(session).Some? &&
       d.delay >= 0 && now + d.delay == GoogleExpiry(session).value)
    ensures !d.Idle? ==> session.Some? && d.update == WithoutGoogle(session.value)
  {
    if loading then Idle
    else if !PresentText(GoogleToken(session)) then Idle
    else if GoogleExpiry(session).None? then Idle
    else
      var expiresIn := GoogleExpiry(session).value - now;
      if expiresIn < 0 then ClearNow(WithoutGoogle(session.value))
      else ClearAfter(expiresIn, WithoutGoogle(session.value))
  }

  /** Whether the clearing update has been sent `elapsed` milliseconds after
      the effect ran, its timer not having been cancelled. */
  predicate ClearedBy(d: Decision, elapsed: nat) {
    match d
    case Idle => false
    case ClearNow(_) => true
    case ClearAfter(delay, _) => elapsed >= delay
  }

  /** For a signed-in Google session with an expiry, the update has been sent
      at a moment exactly when that moment is at or past the expiry. */
  lemma ClearedExactlyFromExpiry(session: Option<Session>, now: int, elapsed: nat)
    requires PresentText(GoogleToken(session)) && GoogleExpiry(session).Some?
    ensures ClearedBy(Watch(false, session, now), elapsed) <==> now + elapsed >= GoogleExpiry(session).value
  {
  }

  /** Once the update has gone through, the effect running on the new
      session does nothing more, at any time. */
  lemma ClearedSessionIsQuiet(s: Session, now: int)
    ensures Watch(false, Some(WithoutGoogle(s)), now) == Idle
  {
  }

  /** Boundary cases: expired a millisecond ago clears at once; five seconds
      to go arms a five-second timer; expiring right now arms a zero-delay
      timer rather than clearing. */
  lemma ExpiryExamples(token: string, now: int)
    requires token != "" && now > 1
    ensures var s := Session(None, "", Some(ProviderSession(Some(token), None, Some(now - 1))), None);
      Watch(false, Some(s), now) == ClearNow(WithoutGoogle(s))
    ensures var s := Session(None, "", Some(ProviderSession(Some(token), None, Some(now + 5000))), None);
      Watch(false, Some(s), now) == ClearAfter(5000, WithoutGoogle(s))
    ensures var s := Session(None, "", Some(ProviderSession(Some(token), None, Some(now))), None);
      Watch(false, Some(s), now) == ClearAfter(0, WithoutGoogle(s))
  {
  }

  /** `session?.etsy?.accessToken || "etsyToken"`: the token the publish
      step sends, never empty. */
  function EtsyToken(session: Option<Session>): (t: string)
    ensures t != ""
    ensures !(session.Some? && session.value.etsy.Some? && PresentText(session.value.etsy.value.accessToken)) ==>
      t == "etsyToken"
    ensures session.Some? && session.value.etsy.Some? && PresentText(session.value.etsy.value.accessToken) ==>
      t == session.value.etsy.value.accessToken.value
  {
    if session.Some? && session.value.etsy.Some? && PresentText(session.value.etsy.value.accessToken) then
      session.value.etsy.value.accessToken.value
    else "etsyToken"
  }
}
