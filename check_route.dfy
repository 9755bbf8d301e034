/** The `/check` route: validation first, then one decision on the table
    (routes/check.js). */
module CheckRoute {
  import opened CheckValidation
  import opened FixedWindow

  /** What the route answers: a validation error naming the field (HTTP 400),
      or the engine's decision (allowed, denied with a wait, or 500 on a
      failed transaction). */
  datatype Outcome = ValidationError(field: Field) | Decided(decision: Decision)

  /** Handles one request body at time `now`. A body that fails validation is
      answered before any storage access, so the table is untouched; a valid
      one gets the engine's decision for its (ip, endpoint) key. */
  method HandleCheck(table: RateLimitTable, body: Body, now: int, fault: bool) returns (o: Outcome)
    requires table.Valid()
    modifies table
    ensures table.Valid()
    ensures Validate(body).Rejected? ==>
      o == ValidationError(Validate(body).field) && table.rows == old(table.rows)
    ensures Validate(body).Accepted? ==>
      var req := Validate(body).request;
      var step := Step(old(table.rows), (req.ip, req.endpoint), req.max, req.windowMs, now, fault);
      o == Decided(step.decision) && table.rows == step.rows
  {
    var v := Validate(body);
    match v
    case Rejected(f) =>
      o := ValidationError(f);
    case Accepted(req) =>
      var d := table.Decide(req.ip, req.endpoint, req.max, req.windowMs, now, fault);
      o := Decided(d);
  }
}
