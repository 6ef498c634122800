/**
 * The soft-delete rules of the Prisma `$use` middleware in `DatabaseService`.
 *
 * When the request's model is enrolled in soft delete, the middleware rewrites
 * `params.action`, `params.args.where` and `params.args.data` in place through a
 * chain of independent `if`s, so an action produced by one rule can be caught by
 * a later rule in the same pass.  `SoftDeleteRewrite` states the net effect of
 * the chain as a table keyed by the ORIGINAL action; `Params.ApplySoftDelete`
 * runs the chain step by step on a mutable request and is proved against it.
 */
module SoftDelete {
  import opened Wrappers
  import opened JsValues

  /** The action names Prisma hands to a middleware. */
  datatype Action =
    | FindUnique | FindUniqueOrThrow | FindFirst | FindFirstOrThrow | FindMany
    | Create | CreateMany | Update | UpdateMany | Upsert | Delete | DeleteMany
    | ExecuteRaw | QueryRaw | Aggregate | Count | RunCommandRaw | FindRaw
    | AggregateRaw | GroupBy

  /** A plain object such as `args.where` or `args.data`. */
  type Record = map<string, Value>

  /**
   * The part of `params` the rules read and write.  An absent `where` or
   * `data` stands for both `undefined` and `null`: the source tests them with
   * the loose `!= undefined`, which does not tell the two apart.
   */
  datatype Request = Request(model: string, action: Action, where: Option<Record>, data: Option<Record>)

  /** The TypeError thrown when a rule sets `delFlag` on an undefined `where`. */
  datatype RewriteError = WhereUndefined

  const DelFlag: string := "delFlag"
  const Deleted: string := "deleted"

  /** `{ delFlag: true }` */
  const DeletedMarker: Record := map[DelFlag := Bool(true)]

  /** `{ delFlag: false }` */
  const LiveFilter: Record := map[DelFlag := Bool(false)]

  /** The actions of the last rule: `['count', 'aggregate', 'updateMany', 'findMany']`. */
  predicate IsFilteredAction(a: Action) {
    a == Count || a == Aggregate || a == UpdateMany || a == FindMany
  }

  /** The original actions whose rules index `where` unconditionally. */
  predicate IndexesWhere(a: Action) {
    a == Delete || a == FindUnique || a == Update
  }

  /** `where.deleted === undefined`: the key is missing or holds `undefined`. */
  predicate DeletedUndefined(w: Record) {
    Get(w, Deleted) == Undefined
  }

  /** The `where` the last rule leaves behind. */
  function GuardedWhere(where: Option<Record>): Option<Record> {
    match where
    case None => Some(LiveFilter)
    case Some(w) => if DeletedUndefined(w) then Some(w[DelFlag := Bool(false)]) else Some(w)
  }

  /**
   * The request that reaches `next`, keyed by the original action, or the
   * TypeError the chain throws.  Not enrolled: the request itself.
   */
  function SoftDeleteRewrite(enrolled: set<string>, req: Request): (r: Result<Request, RewriteError>)
    ensures req.model !in enrolled ==> r == Success(req)
    ensures r.Failure? <==> req.model in enrolled && IndexesWhere(req.action) && req.where.None?
    ensures r.Success? ==> r.value.model == req.model
    ensures r.Success? && req.model in enrolled ==>
              r.value.action != Delete && r.value.action != DeleteMany
  {
    if req.model !in enrolled then Success(req)
    else if req.action == Delete then
      // delete -> update (data replaced) -> updateMany (where pinned) -> guarded rule, a no-op
      if req.where.None? then Failure(WhereUndefined)
      else Success(req.(action := UpdateMany,
                        where := Some(req.where.value[DelFlag := Bool(false)]),
                        data := Some(DeletedMarker)))
    else if req.action == DeleteMany then
      Success(req.(action := UpdateMany,
                   where := GuardedWhere(req.where),
                   data := Some(if req.data.Some? then req.data.value[DelFlag := Bool(true)]
                                else DeletedMarker)))
    else if req.action == FindUnique then
      if req.where.None? then Failure(WhereUndefined)
      else Success(req.(action := FindFirst, where := Some(req.where.value[DelFlag := Bool(false)])))
    else if req.action == Update then
      if req.where.None? then Failure(WhereUndefined)
      else Success(req.(action := UpdateMany, where := Some(req.where.value[DelFlag := Bool(false)])))
    else if IsFilteredAction(req.action) then
      Success(req.(where := GuardedWhere(req.where)))
    else
      Success(req)
  }

  /** `params`, updated in place by the middleware. */
  class Params {
    var model: string
    var action: Action
    var where: Option<Record>
    var data: Option<Record>

    constructor (req: Request)
      ensures Snapshot() == req
    {
      model, action, where, data := req.model, req.action, req.where, req.data;
    }

    function Snapshot(): Request
      reads this
    {
      Request(model, action, where, data)
    }

    /**
     * The rule chain: each rule tests the action as the previous rules left it.
     * Returns false when a rule throws; the fields then hold what the chain had
     * written before the throw.
     */
    method ApplySoftDelete(enrolled: set<string>) returns (ok: bool)
      modifies this
      ensures ok <==> SoftDeleteRewrite(enrolled, old(Snapshot())).Success?
      ensures ok ==> Snapshot() == SoftDeleteRewrite(enrolled, old(Snapshot())).value
      ensures old(model) !in enrolled ==> unchanged(this)
      ensures !ok ==> model == old(model) && where == old(where)
      ensures !ok ==> action == (if old(action) == FindUnique then FindFirst else UpdateMany)
      ensures !ok ==> data == (if old(action) == Delete then Some(DeletedMarker) else old(data))
    {
      ok := true;
      if model in enrolled {
        DeleteRule();
        DeleteManyRule();
        ok := FindUniqueRule();
        if !ok {
          return;
        }
        ok := UpdateRule();
        if !ok {
          return;
        }
        FilterRule();
        if old(where).Some? {
          // after the `update` rule `delFlag` is already false, so the last rule's write changes nothing
          PinnedStaysPinned(old(where).value);
        }
      }
    }

    /** `delete` becomes `update` and `data` becomes `{ delFlag: true }`. */
    method DeleteRule()
      modifies this
      ensures model == old(model) && where == old(where)
      ensures old(action) == Delete ==> action == Update && data == Some(DeletedMarker)
      ensures old(action) != Delete ==> action == old(action) && data == old(data)
    {
      if action == Delete {
        action := Update;
        data := Some(DeletedMarker);
      }
    }

    /** `deleteMany` becomes `updateMany` and `data` gains `delFlag: true`. */
    method DeleteManyRule()
      modifies this
      ensures model == old(model) && where == old(where)
      ensures old(action) == DeleteMany ==>
                action == UpdateMany &&
                data == Some(if old(data).Some? then old(data).value[DelFlag := Bool(true)] else DeletedMarker)
      ensures old(action) != DeleteMany ==> action == old(action) && data == old(data)
    {
      if action == DeleteMany {
        action := UpdateMany;
        if data.Some? {
          data := Some(data.value[DelFlag := Bool(true)]);
        } else {
          data := Some(DeletedMarker);
        }
      }
    }

    /** `findUnique` becomes `findFirst` and `where` gets `delFlag: false`; false if `where` is undefined. */
    method FindUniqueRule() returns (ok: bool)
      modifies this
      ensures model == old(model) && data == old(data)
      ensures ok <==> old(action) != FindUnique || old(where).Some?
      ensures old(action) == FindUnique ==>
                action == FindFirst &&
                where == (if ok then Some(old(where).value[DelFlag := Bool(false)]) else old(where))
      ensures old(action) != FindUnique ==> action == old(action) && where == old(where)
    {
      ok := true;
      if action == FindUnique {
        action := FindFirst;
        if where.None? {
          ok := false;
          return;
        }
        where := Some(where.value[DelFlag := Bool(false)]);
      }
    }

    /** `update` becomes `updateMany` and `where` gets `delFlag: false`; false if `where` is undefined. */
    method UpdateRule() returns (ok: bool)
      modifies this
      ensures model == old(model) && data == old(data)
      ensures ok <==> old(action) != Update || old(where).Some?
      ensures old(action) == Update ==>
                action == UpdateMany &&
                where == (if ok then Some(old(where).value[DelFlag := Bool(false)]) else old(where))
      ensures old(action) != Update ==> action == old(action) && where == old(where)
    {
      ok := true;
      if action == Update {
        action := UpdateMany;
        if where.None? {
          ok := false;
          return;
        }
        where := Some(where.value[DelFlag := Bool(false)]);
      }
    }

    /** count, aggregate, updateMany and findMany: `where` goes through the guarded rule. */
    method FilterRule()
      modifies this
      ensures model == old(model) && action == old(action) && data == old(data)
      ensures IsFilteredAction(old(action)) ==> where == GuardedWhere(old(where))
      ensures !IsFilteredAction(old(action)) ==> where == old(where)
    {
      if IsFilteredAction(action) {
        if where.Some? {
          if DeletedUndefined(where.value) {
            where := Some(where.value[DelFlag := Bool(false)]);
          }
        } else {
          where := Some(LiveFilter);
        }
      }
    }
  }

  /** An enrolled `delete` reaches `next` as `updateMany` that only sets `delFlag: true`. */
  lemma DeleteBecomesSoftUpdate(enrolled: set<string>, req: Request)
    requires req.model in enrolled && req.action == Delete && req.where.Some?
    ensures SoftDeleteRewrite(enrolled, req)
            == Success(Request(req.model, UpdateMany,
                               Some(req.where.value[DelFlag := Bool(false)]),
                               Some(DeletedMarker)))
  {
    PinnedStaysPinned(req.where.value);
  }

  /**
   * `{ model: "Article", action: "delete", args: { where: { id: 7 } } }` with
   * Article enrolled reaches `next` as `updateMany`, not `update`: the
   * `update` rule fires on the action the `delete` rule produced.
   */
  lemma DeleteExample()
    ensures SoftDeleteRewrite({"Article"}, Request("Article", Delete, Some(map["id" := Num(7)]), None))
            == Success(Request("Article", UpdateMany,
                               Some(map["id" := Num(7), DelFlag := Bool(false)]),
                               Some(map[DelFlag := Bool(true)])))
  {
  }

  /**
   * An enrolled `deleteMany` becomes `updateMany` that sets `delFlag: true`
   * and keeps every other key of `data`.
   */
  lemma DeleteManyKeepsData(enrolled: set<string>, req: Request)
    requires req.model in enrolled && req.action == DeleteMany
    ensures var r := SoftDeleteRewrite(enrolled, req);
            && r.Success? && r.value.action == UpdateMany
            && r.value.data.Some? && r.value.data.value[DelFlag] == Bool(true)
            && r.value.data.value.Keys == (if req.data.Some? then req.data.value.Keys else {}) + {DelFlag}
            && (forall k :: req.data.Some? && k in req.data.value && k != DelFlag ==>
                  r.value.data.value[k] == req.data.value[k])
            && r.value.where == GuardedWhere(req.where)
  {
  }

  /**
   * An enrolled `findUnique` or `update` with a `where` gets `delFlag: false`
   * whatever `delFlag` the caller gave.
   */
  lemma PointActionsPinDelFlag(enrolled: set<string>, req: Request)
    requires req.model in enrolled && (req.action == FindUnique || req.action == Update)
    requires req.where.Some?
    ensures var r := SoftDeleteRewrite(enrolled, req);
            && r.Success?
            && r.value.action == (if req.action == FindUnique then FindFirst else UpdateMany)
            && r.value.where == Some(req.where.value[DelFlag := Bool(false)])
            && r.value.data == req.data
  {
  }

  /**
   * An enrolled read or aggregate (`findMany`, `count`, `aggregate`, and
   * `findUnique` turned `findFirst`) is filtered to live rows unless the
   * caller's `where` sets `deleted`.
   */
  lemma ReadsFilterLiveRows(enrolled: set<string>, req: Request)
    requires req.model in enrolled
    requires req.action == FindMany || req.action == Count || req.action == Aggregate || req.action == FindUnique
    requires req.where.None? ==> req.action != FindUnique
    requires req.where.Some? ==> DeletedUndefined(req.where.value)
    ensures var r := SoftDeleteRewrite(enrolled, req);
            r.Success? && r.value.where.Some? && Get(r.value.where.value, DelFlag) == Bool(false)
  {
  }

  /**
   * The guard of the last rule tests `deleted`, not the key it writes: a
   * caller's `delFlag: true` is overwritten unless `deleted` is also given,
   * and then it is kept.
   */
  lemma GuardTestsDeletedNotDelFlag(enrolled: set<string>, req: Request)
    requires req.model in enrolled && IsFilteredAction(req.action)
    requires req.where.Some? && Get(req.where.value, DelFlag) == Bool(true)
    ensures var r := SoftDeleteRewrite(enrolled, req);
            r.Success? &&
            (Get(r.value.where.value, DelFlag) == Bool(true) <==> !DeletedUndefined(req.where.value))
  {
  }

  /** Actions outside the rules (among them `findFirst`, `create`, `upsert`) pass through. */
  lemma OtherActionsPassThrough(enrolled: set<string>, req: Request)
    requires !IndexesWhere(req.action) && !IsFilteredAction(req.action) && req.action != DeleteMany
    ensures SoftDeleteRewrite(enrolled, req) == Success(req)
  {
  }

  /**
   * Rewriting keeps every caller `where` key other than `delFlag`, and adds no
   * key but `delFlag`.
   */
  lemma WhereKeysPreserved(enrolled: set<string>, req: Request)
    requires SoftDeleteRewrite(enrolled, req).Success?
    ensures var r := SoftDeleteRewrite(enrolled, req).value;
            && (req.where.Some? ==> r.where.Some?)
            && (forall k :: req.where.Some? && k in req.where.value && k != DelFlag ==>
                  k in r.where.value && r.where.value[k] == req.where.value[k])
            && (forall k :: r.where.Some? && k in r.where.value && k != DelFlag ==>
                  req.where.Some? && k in req.where.value)
  {
  }

  /** Rewriting keeps every caller `data` key, except that `delete` replaces `data` wholesale. */
  lemma DataKeysPreserved(enrolled: set<string>, req: Request)
    requires SoftDeleteRewrite(enrolled, req).Success?
    requires req.model in enrolled ==> req.action != Delete
    ensures var r := SoftDeleteRewrite(enrolled, req).value;
            && (req.data.Some? ==> r.data.Some?)
            && (forall k :: req.data.Some? && k in req.data.value && k != DelFlag ==>
                  k in r.data.value && r.data.value[k] == req.data.value[k])
  {
  }

  /** Writing `delFlag: false` where it already holds leaves the object as it is. */
  lemma PinnedStaysPinned(w: Record)
    ensures var p := w[DelFlag := Bool(false)]; p[DelFlag := Bool(false)] == p
  {
  }

  /** The last rule, applied to its own output, changes nothing. */
  lemma GuardedWhereIdempotent(where: Option<Record>)
    ensures GuardedWhere(GuardedWhere(where)) == GuardedWhere(where)
  {
    match where
    case None => PinnedStaysPinned(map[]);
    case Some(w) => PinnedStaysPinned(w);
  }

  /** Rewriting an already rewritten request changes nothing. */
  lemma RewriteIdempotent(enrolled: set<string>, req: Request)
    requires SoftDeleteRewrite(enrolled, req).Success?
    ensures SoftDeleteRewrite(enrolled, SoftDeleteRewrite(enrolled, req).value)
            == SoftDeleteRewrite(enrolled, req)
  {
    if req.model in enrolled {
      match req.action
      case Delete => PinnedStaysPinned(req.where.value);
      case Update => PinnedStaysPinned(req.where.value);
      case _ => GuardedWhereIdempotent(req.where);
    }
  }
}
