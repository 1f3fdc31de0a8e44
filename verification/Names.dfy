/** Parameter and claim names that more than one part of the protocol uses. */
module Names {
  import opened Bytes

  const CODE: str := "code"
  const STATE: str := "state"
  const REDIRECT_URI: str := "redirect_uri"
  const SCOPE: str := "scope"
  const EMAIL: str := "email"
  const ISS: str := "iss"
  const AUD: str := "aud"
  const IAT: str := "iat"
  const EXP: str := "exp"
}
