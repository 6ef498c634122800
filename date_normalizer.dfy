/**
 * The post-processing of query results in `DatabaseService`: every `Date`
 * stored under one of the temporal keys becomes its millisecond timestamp.
 *
 * `Normalized` is the value `convertDateFieldsToTimestamp` leaves behind;
 * `ConvertDateFieldsToTimestamp` walks an object key by key, as the source's
 * `for...in` loop does, and is proved to produce it.  Objects are values here,
 * so the walk builds the converted object instead of overwriting it in place.
 */
module DateNormalizer {
  import opened JsValues

  const TemporalKeys: set<string> := {"createTime", "updateTime", "lastLogin", "publishTime"}

  /**
   * What the walk stores under `key`: a `Date` under a temporal key becomes
   * its timestamp and any other value there is kept as it is; under any other
   * key an object-typed value is walked and the rest is kept.
   */
  function ConvertEntry(key: string, x: Value): Value
    decreases x, 2
  {
    if key in TemporalKeys then
      (if x.Date? then Num(x.ms) else x)
    else
      ConvertElement(x)
  }

  /**
   * What the walk stores under a key that is not temporal, such as an array
   * index (`for...in` yields indices as digit strings, never a temporal name).
   */
  function ConvertElement(x: Value): Value
    decreases x, 1
  {
    if x.IsObjectTyped() then Normalized(x) else x
  }

  /**
   * `convertDateFieldsToTimestamp(data)`: objects and arrays are walked, and
   * every other value (a `Date` included: it has no enumerable keys) is returned
   * as it is.
   */
  function Normalized(v: Value): (r: Value)
    decreases v, 0
    ensures v.Obj? <==> r.Obj?
    ensures v.Obj? ==> r.fields.Keys == v.fields.Keys
    ensures v.Arr? <==> r.Arr?
    ensures v.Arr? ==> |r.items| == |v.items|
    ensures !v.Obj? && !v.Arr? ==> r == v
  {
    match v
    case Obj(m) => Obj(map k | k in m :: ConvertEntry(k, m[k]))
    case Arr(s) => Arr(seq(|s|, i requires 0 <= i < |s| => ConvertElement(s[i])))
    case _ => v
  }

  /**
   * A value the walk has nothing left to do on: no `Date` under a temporal
   * key of any object it would visit.
   */
  predicate IsNormal(v: Value) {
    match v
    case Obj(m) =>
      forall k | k in m :: if k in TemporalKeys then !m[k].Date? else IsNormal(m[k])
    case Arr(s) => forall i | 0 <= i < |s| :: IsNormal(s[i])
    case _ => true
  }

  /** Every `Date` anywhere replaced by its timestamp: what a reader of timestamps sees. */
  function DatesAsMillis(v: Value): Value {
    match v
    case Date(ms) => Num(ms)
    case Obj(m) => Obj(map k | k in m :: DatesAsMillis(m[k]))
    case Arr(s) => Arr(seq(|s|, i requires 0 <= i < |s| => DatesAsMillis(s[i])))
    case _ => v
  }

  /** The entry stored under each key of an object. */
  lemma NormalizedField(m: map<string, Value>, k: string)
    requires k in m
    ensures Normalized(Obj(m)).fields[k] == ConvertEntry(k, m[k])
    ensures Normalized(Obj(m)).fields[k]
            == if k in TemporalKeys then (if m[k].Date? then Num(m[k].ms) else m[k])
               else Normalized(m[k])
  {
    assert Normalized(Obj(m)) == Obj(map k | k in m :: ConvertEntry(k, m[k]));
  }

  /** The element stored at each index of an array: the element, walked. */
  lemma NormalizedItem(s: seq<Value>, i: int)
    requires 0 <= i < |s|
    ensures Normalized(Arr(s)).items[i] == ConvertElement(s[i]) == Normalized(s[i])
  {
    assert Normalized(Arr(s)) == Arr(seq(|s|, j requires 0 <= j < |s| => ConvertElement(s[j])));
  }

  /** The record `{ id: 1, createTime: <date T> }` becomes `{ id: 1, createTime: T }`. */
  lemma CreateTimeExample(t: int)
    ensures Normalized(Obj(map["id" := Num(1), "createTime" := Date(t)]))
            == Obj(map["id" := Num(1), "createTime" := Num(t)])
  {
    var m := map["id" := Num(1), "createTime" := Date(t)];
    NormalizedField(m, "id");
    NormalizedField(m, "createTime");
  }

  /** The walk leaves nothing to do. */
  lemma {:induction false} NormalizedIsNormal(v: Value)
    ensures IsNormal(Normalized(v))
  {
    match v
    case Obj(m) =>
      var r := Normalized(v).fields;
      forall k | k in r
        ensures if k in TemporalKeys then !r[k].Date? else IsNormal(r[k])
      {
        NormalizedField(m, k);
        if k !in TemporalKeys {
          NormalizedIsNormal(m[k]);
        }
      }
    case Arr(s) =>
      var r := Normalized(v).items;
      forall i | 0 <= i < |r| ensures IsNormal(r[i]) {
        NormalizedItem(s, i);
        NormalizedIsNormal(s[i]);
      }
    case _ =>
  }

  /** The walk changes a value exactly when there is something left to do. */
  lemma {:induction false} NormalIsFixpoint(v: Value)
    ensures Normalized(v) == v <==> IsNormal(v)
  {
    NormalizedIsNormal(v);
    if IsNormal(v) {
      match v
      case Obj(m) =>
        var r := Normalized(v).fields;
        forall k | k in m ensures r[k] == m[k] {
          NormalizedField(m, k);
          if k !in TemporalKeys {
            NormalIsFixpoint(m[k]);
          }
        }
        assert r == m;
      case Arr(s) =>
        var r := Normalized(v).items;
        forall i | 0 <= i < |s| ensures r[i] == s[i] {
          NormalizedItem(s, i);
          NormalIsFixpoint(s[i]);
        }
        assert r == s;
      case _ =>
    }
  }

  /** Normalising twice is normalising once. */
  lemma NormalizeIdempotent(v: Value)
    ensures Normalized(Normalized(v)) == Normalized(v)
  {
    NormalizedIsNormal(v);
    NormalIsFixpoint(Normalized(v));
  }

  lemma DatesAsMillisField(m: map<string, Value>, k: string)
    requires k in m
    ensures DatesAsMillis(Obj(m)).fields.Keys == m.Keys
    ensures DatesAsMillis(Obj(m)).fields[k] == DatesAsMillis(m[k])
  {
    assert DatesAsMillis(Obj(m)) == Obj(map k | k in m :: DatesAsMillis(m[k]));
  }

  lemma DatesAsMillisItem(s: seq<Value>, i: int)
    requires 0 <= i < |s|
    ensures |DatesAsMillis(Arr(s)).items| == |s|
    ensures DatesAsMillis(Arr(s)).items[i] == DatesAsMillis(s[i])
  {
    assert DatesAsMillis(Arr(s)) == Arr(seq(|s|, j requires 0 <= j < |s| => DatesAsMillis(s[j])));
  }

  /** The walk changes how instants are written and nothing else. */
  lemma {:induction false} NormalizePreservesData(v: Value)
    ensures DatesAsMillis(Normalized(v)) == DatesAsMillis(v)
  {
    match v
    case Obj(m) =>
      var r := Normalized(v).fields;
      var after, before := DatesAsMillis(Obj(r)).fields, DatesAsMillis(v).fields;
      forall k | k in m ensures k in after && k in before && after[k] == before[k] {
        NormalizedField(m, k);
        DatesAsMillisField(r, k);
        DatesAsMillisField(m, k);
        if k !in TemporalKeys {
          NormalizePreservesData(m[k]);
        }
      }
      assert after == before;
    case Arr(s) =>
      var r := Normalized(v).items;
      var after, before := DatesAsMillis(Arr(r)).items, DatesAsMillis(v).items;
      forall i | 0 <= i < |s| ensures |after| == |before| == |s| && after[i] == before[i] {
        NormalizedItem(s, i);
        DatesAsMillisItem(r, i);
        DatesAsMillisItem(s, i);
        NormalizePreservesData(s[i]);
      }
      assert s == [] ==> |after| == |before| == 0;
      assert after == before;
    case _ =>
  }

  /**
   * The middleware's treatment of a result: truthy object-typed results are
   * converted, arrays element by element; anything else is returned as it is.
   */
  function PostProcessed(result: Value): Value {
    if result.Truthy() && result.IsObjectTyped() then
      if result.Arr? then
        Arr(seq(|result.items|, i requires 0 <= i < |result.items| => Normalized(result.items[i])))
      else
        Normalized(result)
    else
      result
  }

  /** Mapping the walk over a top-level array is the same as walking the array. */
  lemma PostProcessedIsNormalized(result: Value)
    ensures PostProcessed(result) == Normalized(result)
  {
    if result.Arr? {
      var s := result.items;
      forall i | 0 <= i < |s| ensures PostProcessed(result).items[i] == Normalized(result).items[i] {
        NormalizedItem(s, i);
      }
      assert PostProcessed(result).items == Normalized(result).items;
    }
  }

  /** `convertDateFieldsToTimestamp`: the `for...in` walk over keys or indices. */
  method ConvertDateFieldsToTimestamp(data: Value) returns (r: Value)
    ensures r == Normalized(data)
    decreases data
  {
    match data {
      case Obj(m) =>
        var out := m;
        var pending := m.Keys;
        while pending != {}
          invariant pending <= m.Keys && out.Keys == m.Keys
          invariant forall k | k in m && k !in pending :: out[k] == ConvertEntry(k, m[k])
          invariant forall k | k in pending :: out[k] == m[k]
          decreases pending
        {
          var key :| key in pending;
          if key in TemporalKeys {
            if m[key].Date? {
              out := out[key := Num(m[key].ms)];
            }
          } else if m[key].IsObjectTyped() {
            var converted := ConvertDateFieldsToTimestamp(m[key]);
            out := out[key := converted];
          }
          pending := pending - {key};
        }
        r := Obj(out);
        assert out == Normalized(data).fields;
      case Arr(s) =>
        var out := s;
        for i := 0 to |s|
          invariant |out| == |s|
          invariant forall j | 0 <= j < i :: out[j] == ConvertElement(s[j])
          invariant forall j | i <= j < |s| :: out[j] == s[j]
        {
          if s[i].IsObjectTyped() {
            var converted := ConvertDateFieldsToTimestamp(s[i]);
            out := out[i := converted];
          }
        }
        r := Arr(out);
        assert out == Normalized(data).items;
      case _ =>
        r := data;
    }
  }

  /** Lines 102-110: the walk applied to a query result. */
  method PostProcess(result: Value) returns (r: Value)
    ensures r == PostProcessed(result)
    ensures IsNormal(r)
  {
    if result.Truthy() && result.IsObjectTyped() {
      if result.Arr? {
        var items := result.items;
        var mapped := [];
        for i := 0 to |items|
          invariant |mapped| == i
          invariant forall j | 0 <= j < i :: mapped[j] == Normalized(items[j])
        {
          var converted := ConvertDateFieldsToTimestamp(items[i]);
          mapped := mapped + [converted];
        }
        r := Arr(mapped);
        assert mapped == PostProcessed(result).items;
      } else {
        r := ConvertDateFieldsToTimestamp(result);
      }
    } else {
      r := result;
    }
    PostProcessedIsNormalized(result);
    NormalizedIsNormal(result);
  }
}
