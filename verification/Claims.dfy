/** Decoded JSON claims, and the typed reads that token checks make of them. */
module Claims {
  import opened Bytes
  import opened GoTime
  import JsonText = Json

  /** A number is an integer literal of any size, or something else that no integer field accepts. */
  datatype Json =
    | JNull
    | JBool(b: bool)
    | JString(s: str)
    | JInteger(n: int)
    | JOtherNumber
    | JArray(items: seq<Json>)
    | JObject

  type ClaimMap = map<str, Json>

  /** A string or null where a string is decoded into a list element. */
  function ElementText(j: Json): Option<str> {
    match j
    case JString(s) => Some(s)
    case JNull => Some([])
    case _ => None
  }

  /** An audience: one string, or a non-empty list of them. Null reads as one empty string. */
  function AudienceOf(j: Json): Option<seq<str>> {
    match j
    case JString(s) => Some([s])
    case JNull => Some([[]])
    case JArray(items) =>
      if items != [] && forall i | 0 <= i < |items| :: ElementText(items[i]).Some?
      then Some(seq(|items|, i requires 0 <= i < |items| => ElementText(items[i]).value))
      else None
    case _ => None
  }

  /** audienceClaim.UnmarshalJSON, which writes its receiver only on success. */
  method UnmarshalAudience(raw: Json, before: seq<str>) returns (audience: seq<str>, ok: bool)
    ensures ok <==> AudienceOf(raw).Some?
    ensures audience == if ok then AudienceOf(raw).value else before
  {
    audience := before;
    match raw {
      case JString(s) =>
        return [s], true;
      case JNull =>
        return [[]], true;
      case JArray(items) =>
        var multiple: seq<str> := [];
        for i := 0 to |items|
          invariant |multiple| == i
          invariant forall k | 0 <= k < i :: ElementText(items[k]) == Some(multiple[k])
        {
          var element := ElementText(items[i]);
          if element.None? {
            return before, false;
          }
          multiple := multiple + [element.value];
        }
        if |multiple| == 0 {
          return before, false;
        }
        return multiple, true;
      case _ =>
        return before, false;
    }
  }

  datatype StringClaim = Absent | Present(s: str) | Invalid

  /** A string claim that, when present, must be a non-empty string; null decodes to the empty string. */
  function ReadString(claims: ClaimMap, name: str): StringClaim {
    if name !in claims then Absent
    else
      match claims[name]
      case JString(s) => if s == [] then Invalid else Present(s)
      case _ => Invalid
  }

  /** A positive time claim: an integer, or a string that spells one as a JSON number. */
  function ReadUnixTime(claims: ClaimMap, name: str): Option<int64> {
    if name !in claims then None
    else
      match claims[name]
      case JInteger(n) => if 0 < n < TWO63 then Some(n) else None
      case JString(s) =>
        (match JsonText.ReadInt(s)
         case None => None
         case Some(p) => if p.rest == [] && 0 < p.value < TWO63 then Some(p.value) else None)
      case _ => None
  }

  /** The times that are read: positive integers, and strings that are the decimal spelling of one. */
  lemma UnixTimeLanguage(claims: ClaimMap, name: str, t: int64)
    ensures ReadUnixTime(claims, name) == Some(t) <==>
            t > 0 && name in claims && claims[name] in {JInteger(t), JString(JsonText.PrintInt(t))}
  {
    hide JsonText.ReadInt, JsonText.PrintInt;
    if t > 0 && name in claims && claims[name].JString? {
      JsonText.PositiveSpelling(claims[name].s, t);
    }
  }

  /** The audiences: one string, a non-empty list of strings in which null is the empty one, or null alone. */
  lemma AudienceLanguage(j: Json, audience: seq<str>)
    ensures AudienceOf(j) == Some(audience) <==>
            match j
            case JString(s) => audience == [s]
            case JNull => audience == [[]]
            case JArray(items) =>
              && items != [] && |audience| == |items|
              && forall i | 0 <= i < |items| ::
                   items[i] == JString(audience[i]) || (items[i] == JNull && audience[i] == [])
            case _ => false
  {
    if j.JArray? && AudienceOf(j).Some? && |audience| == |j.items| {
      var found := AudienceOf(j).value;
      assert audience == found <==> forall i | 0 <= i < |audience| :: audience[i] == found[i];
    }
  }

  /** A string claim is there exactly as a string that is not empty; anything else in its place is invalid. */
  lemma StringClaimLanguage(claims: ClaimMap, name: str, s: str)
    ensures ReadString(claims, name) == Present(s) <==> s != [] && name in claims && claims[name] == JString(s)
    ensures ReadString(claims, name) == Absent <==> name !in claims
  {
  }
}
