/** Input validation of the admission endpoint: the guard chain that runs
    before any storage access (routes/check.js, validateCheckRequest). */
module CheckValidation {

  /** The values a field of the parsed JSON request body can hold, as far as
      the validation tells them apart. JSON numbers are taken to be integers;
      every other kind (missing, null, boolean, object, array) is JsOther. */
  datatype JsValue = JsString(str: string) | JsNumber(num: int) | JsOther

  /** The four fields the validation reads from the request body. */
  datatype Body = Body(ip: JsValue, endpoint: JsValue, max: JsValue, windowMs: JsValue)

  /** The field named by a validation error, in the order the checks run. */
  datatype Field = Ip | Endpoint | Max | WindowMs

  /** A request that passed validation. */
  datatype CheckRequest = CheckRequest(ip: string, endpoint: string, max: int, windowMs: int)

  datatype Validation = Accepted(request: CheckRequest) | Rejected(field: Field)

  /** ECMAScript WhiteSpace and LineTerminator code points: what
      String.prototype.trim removes from both ends. */
  predicate IsJsWhitespace(c: char)
  {
    || c == '\t' || c == '\n' || c == '\U{000B}' || c == '\U{000C}' || c == '\r'
    || c == ' ' || c == '\U{00A0}' || c == '\U{1680}'
    || ('\U{2000}' <= c <= '\U{200A}')
    || c == '\U{2028}' || c == '\U{2029}' || c == '\U{202F}' || c == '\U{205F}'
    || c == '\U{3000}' || c == '\U{FEFF}'
  }

  /** Drops the leading whitespace: the result is the suffix of `s` that
      starts at its first non-whitespace character. */
  function TrimStart(s: string): (r: string)
    ensures |r| <= |s| && r == s[|s| - |r|..]
    ensures forall i :: 0 <= i < |s| - |r| ==> IsJsWhitespace(s[i])
    ensures r != [] ==> !IsJsWhitespace(r[0])
    decreases |s|
  {
    if s != [] && IsJsWhitespace(s[0]) then TrimStart(s[1..]) else s
  }

  /** Drops the trailing whitespace: the result is the prefix of `s` that
      ends at its last non-whitespace character. */
  function TrimEnd(s: string): (r: string)
    ensures |r| <= |s| && r == s[..|r|]
    ensures forall i :: |r| <= i < |s| ==> IsJsWhitespace(s[i])
    ensures r != [] ==> !IsJsWhitespace(r[|r| - 1])
    decreases |s|
  {
    if s != [] && IsJsWhitespace(s[|s| - 1]) then TrimEnd(s[..|s| - 1]) else s
  }

  /** `s.trim()`: empty exactly when every character of `s` is whitespace,
      and otherwise framed by non-whitespace characters. */
  function Trim(s: string): (r: string)
    ensures r == [] <==> forall i :: 0 <= i < |s| ==> IsJsWhitespace(s[i])
    ensures r != [] ==> !IsJsWhitespace(r[0]) && !IsJsWhitespace(r[|r| - 1])
  {
    var t := TrimStart(s);
    assert t != [] ==> s[|s| - |t|] == t[0];
    TrimEnd(t)
  }

  /** `!v || typeof v !== 'string' || v.trim() === ''` fails. The falsiness
      test adds nothing for strings: the empty string also trims to empty. */
  predicate NonBlankString(v: JsValue)
  {
    v.JsString? && Trim(v.str) != []
  }

  /** What each guard demands of its field. For numbers the falsiness test
      `!v` (v == 0) is subsumed by the lower bound. */
  predicate FieldValid(body: Body, f: Field)
  {
    match f
    case Ip => NonBlankString(body.ip)
    case Endpoint => NonBlankString(body.endpoint)
    case Max => body.max.JsNumber? && body.max.num >= 1
    case WindowMs => body.windowMs.JsNumber? && body.windowMs.num >= 1000
  }

  /** The position of a field's guard in the chain. */
  function Rank(f: Field): nat
  {
    match f
    case Ip => 0
    case Endpoint => 1
    case Max => 2
    case WindowMs => 3
  }

  /** The guard chain: a body is accepted exactly when every field is valid,
      and a rejection names the first field (in check order) that is not. */
  function Validate(body: Body): (r: Validation)
    ensures r.Accepted? <==> forall f :: FieldValid(body, f)
    ensures r.Rejected? ==>
      !FieldValid(body, r.field) && forall f :: Rank(f) < Rank(r.field) ==> FieldValid(body, f)
    ensures r.Accepted? ==>
      && body.ip.JsString? && body.endpoint.JsString?
      && body.max.JsNumber? && body.windowMs.JsNumber?
      && r.request == CheckRequest(body.ip.str, body.endpoint.str, body.max.num, body.windowMs.num)
      && Trim(r.request.ip) != [] && Trim(r.request.endpoint) != []
      && r.request.max >= 1 && r.request.windowMs >= 1000
  {
    if !FieldValid(body, Ip) then Rejected(Ip)
    else if !FieldValid(body, Endpoint) then Rejected(Endpoint)
    else if !FieldValid(body, Max) then Rejected(Max)
    else if !FieldValid(body, WindowMs) then Rejected(WindowMs)
    else Accepted(CheckRequest(body.ip.str, body.endpoint.str, body.max.num, body.windowMs.num))
  }
}
