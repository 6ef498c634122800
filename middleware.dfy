/**
 * The `$use` callback installed by `setupPrismaMiddleware`: rewrite the
 * request in place, hand it to `next`, and convert the dates of the result.
 * `next` (Prisma's execution of the query) is an oracle that either yields a
 * result or fails with the driver's message.
 */
module Middleware {
  import opened Wrappers
  import opened JsValues
  import opened SoftDelete
  import opened DateNormalizer

  /** How the callback's promise rejects. */
  datatype MiddlewareError =
    | TypeError                     // a rule set `delFlag` on an undefined `where`
    | QueryError(message: string)   // `next` failed; passed on unchanged

  /** What the callback resolves to, or why it rejects, for the request it was given. */
  function Handled(enrolled: set<string>, next: Request -> Result<Value, string>, req: Request)
    : Result<Value, MiddlewareError>
  {
    match SoftDeleteRewrite(enrolled, req)
    case Failure(_) => Failure(TypeError)
    case Success(sent) =>
      match next(sent)
      case Failure(e) => Failure(QueryError(e))
      case Success(v) => Success(PostProcessed(v))
  }

  /** The callback itself. */
  method Use(params: Params, enrolled: set<string>, next: Request -> Result<Value, string>)
    returns (r: Result<Value, MiddlewareError>)
    modifies params
    ensures r == Handled(enrolled, next, old(params.Snapshot()))
    ensures old(params.model) !in enrolled ==> unchanged(params)
    ensures r != Failure(TypeError) ==> params.Snapshot() == SoftDeleteRewrite(enrolled, old(params.Snapshot())).value
    ensures r == Failure(TypeError) ==>
              && params.model == old(params.model) && params.where == old(params.where)
              && params.action == (if old(params.action) == FindUnique then FindFirst else UpdateMany)
              && params.data == (if old(params.action) == Delete then Some(DeletedMarker) else old(params.data))
    ensures r.Success? ==> IsNormal(r.value)
  {
    var ok := params.ApplySoftDelete(enrolled);
    if !ok {
      return Failure(TypeError);
    }
    var result := next(params.Snapshot());
    match result {
      case Failure(e) =>
        r := Failure(QueryError(e));
      case Success(v) =>
        var converted := PostProcess(v);
        r := Success(converted);
    }
  }

  /**
   * For a model that is not enrolled, `next` gets the request as it came and
   * its result is only date-converted.
   */
  lemma NotEnrolledPassesThrough(enrolled: set<string>, next: Request -> Result<Value, string>, req: Request)
    requires req.model !in enrolled
    ensures Handled(enrolled, next, req)
            == match next(req)
               case Failure(e) => Failure(QueryError(e))
               case Success(v) => Success(Normalized(v))
  {
    match next(req)
    case Failure(_) =>
    case Success(v) => PostProcessedIsNormalized(v);
  }

  /**
   * A successful result has no `Date` left under a temporal key, and differs
   * from what `next` returned only in how instants are written.
   */
  lemma ResultIsConverted(enrolled: set<string>, next: Request -> Result<Value, string>, req: Request)
    requires Handled(enrolled, next, req).Success?
    ensures var sent := SoftDeleteRewrite(enrolled, req).value;
            var v := Handled(enrolled, next, req).value;
            && next(sent).Success?
            && IsNormal(v)
            && DatesAsMillis(v) == DatesAsMillis(next(sent).value)
  {
    var sent := SoftDeleteRewrite(enrolled, req).value;
    var raw := next(sent).value;
    PostProcessedIsNormalized(raw);
    NormalizedIsNormal(raw);
    NormalizePreservesData(raw);
  }

  /**
   * The callback rejects with a TypeError exactly when a rule indexes an
   * undefined `where`, and with the driver's own error exactly when `next` fails.
   */
  lemma ErrorsPropagate(enrolled: set<string>, next: Request -> Result<Value, string>, req: Request)
    ensures Handled(enrolled, next, req) == Failure(TypeError)
            <==> req.model in enrolled && IndexesWhere(req.action) && req.where.None?
    ensures forall e :: (Handled(enrolled, next, req) == Failure(QueryError(e))
                         <==> SoftDeleteRewrite(enrolled, req).Success?
                              && next(SoftDeleteRewrite(enrolled, req).value) == Failure(e))
  {
  }
}
