/** `GoogleStrategy.validate`: turns the profile passport-google-oauth20 hands over into a
    `GoogleUserDto`, and reports the outcome through passport's `done` callback. */
module GoogleStrategy {
  import opened Wrappers

  datatype ProfileName = ProfileName(givenName: Option<string>, familyName: Option<string>)

  /** An entry of the profile's `emails` or `photos` list. */
  datatype ProfileValue = ProfileValue(value: string)

  /** The parts of the provider profile that `validate` reads. */
  datatype Profile = Profile(
    id: string,
    name: Option<ProfileName>,
    emails: Option<seq<ProfileValue>>,
    photos: Option<seq<ProfileValue>>)

  /** `GoogleUserDto` */
  datatype GoogleUserDto = GoogleUserDto(
    googleId: string,
    email: string,
    firstName: string,
    lastName: string,
    picture: Option<string>)

  const MissingEmailMessage := "Google profile missing email"

  /** `new Error(message)`, or the TypeError thrown by destructuring a null profile. */
  datatype StrategyError = Error(message: string) | TypeError

  /** One call `done(error, user)` of passport's verify callback. */
  datatype Done = Done(error: Option<StrategyError>, user: Option<GoogleUserDto>)

  /** `name?.givenName || ''` and `name?.familyName || ''` */
  function GivenName(name: Option<ProfileName>): string {
    if name.Some? && name.value.givenName.Some? then name.value.givenName.value else ""
  }

  function FamilyName(name: Option<ProfileName>): string {
    if name.Some? && name.value.familyName.Some? then name.value.familyName.value else ""
  }

  /** `validate(accessToken, refreshToken, profile, done)`; a missing profile is `None`. */
  function Validate(profile: Option<Profile>): (r: Done)
    ensures r.error.Some? <==> r.user.None?
    ensures r.error == Some(TypeError) <==> profile.None?
    ensures r.error == Some(Error(MissingEmailMessage)) <==>
      profile.Some? && (profile.value.emails.None? || |profile.value.emails.value| == 0)
    ensures r.user.Some? ==>
      && profile.Some? && profile.value.emails.Some? && |profile.value.emails.value| > 0
      && r.user.value.googleId == profile.value.id
      && r.user.value.email == profile.value.emails.value[0].value
    ensures r.user.Some? && profile.value.name.Some? && profile.value.name.value.givenName.Some? ==>
      r.user.value.firstName == profile.value.name.value.givenName.value
    ensures r.user.Some? && (profile.value.name.None? || profile.value.name.value.givenName.None?) ==>
      r.user.value.firstName == ""
    ensures r.user.Some? && profile.value.name.Some? && profile.value.name.value.familyName.Some? ==>
      r.user.value.lastName == profile.value.name.value.familyName.value
    ensures r.user.Some? && (profile.value.name.None? || profile.value.name.value.familyName.None?) ==>
      r.user.value.lastName == ""
    ensures r.user.Some? ==>
      r.user.value.picture ==
        (if profile.value.photos.Some? && |profile.value.photos.value| > 0
         then Some(profile.value.photos.value[0].value) else None)
  {
    match profile
    case None => Done(Some(TypeError), None)
    case Some(p) =>
      if p.emails.None? || |p.emails.value| == 0 then
        Done(Some(Error(MissingEmailMessage)), None)
      else
        var dto := GoogleUserDto(
          p.id,
          p.emails.value[0].value,
          GivenName(p.name),
          FamilyName(p.name),
          if p.photos.Some? && |p.photos.value| > 0 then Some(p.photos.value[0].value) else None);
        Done(None, Some(dto))
  }
}
