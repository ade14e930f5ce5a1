/** The query index the blocks read (`/query-index.json`): its JSON tree, the
    `replaceEmptyValues` clean-up that both scripts/scripts.js and
    blocks/newslist/newslist.js apply to it, and the rows the other helpers filter. */
module QueryIndex {
  import opened Common

  datatype Json =
    | JStr(s: string)
    | JNum(n: int)
    | JBool(b: bool)
    | JNull
    | JArr(items: seq<Json>)
    | JObj(props: seq<Prop>)

  datatype Prop = Prop(key: string, value: Json)

  /** `typeof v === 'object'`: arrays, objects and null. */
  predicate IsObjectTyped(v: Json) {
    v.JArr? || v.JObj? || v.JNull?
  }

  /** The values stored under the keys of a container, in `Object.keys` order. */
  function Children(v: Json): seq<Json>
  {
    match v
    case JArr(items) => items
    case JObj(props) => seq(|props|, i requires 0 <= i < |props| => props[i].value)
    case _ => []
  }

  /** The recursion of `replaceEmptyValues` meets a null: `Object.keys(null)` throws. */
  predicate ReachesNull(v: Json)
    decreases v
  {
    match v
    case JNull => true
    case JArr(items) => exists i :: 0 <= i < |items| && ReachesNull(items[i])
    case JObj(props) => exists i :: 0 <= i < |props| && ReachesNull(props[i].value)
    case _ => false
  }

  /** The tree with every string leaf '0' replaced by ''. */
  function Blank(v: Json): Json
    decreases v
  {
    match v
    case JStr(s) => if s == "0" then JStr("") else v
    case JArr(items) => JArr(seq(|items|, i requires 0 <= i < |items| => Blank(items[i])))
    case JObj(props) =>
      JObj(seq(|props|, i requires 0 <= i < |props| => Prop(props[i].key, Blank(props[i].value))))
    case _ => v
  }

  /** `replaceEmptyValues(data)`. Only a value whose `typeof` is 'object' reaches it:
      the top-level `json.data` and the recursive calls. A null met anywhere on the
      way makes `Object.keys` throw a TypeError. */
  function ReplaceEmptyValues(data: Json): (r: Result<Json>)
    requires IsObjectTyped(data)
    ensures r.Err? <==> ReachesNull(data)
    ensures r.Ok? ==> Skeleton(r.value) == Skeleton(data)
    ensures r.Ok? ==> Leaves(r.value) == MapBlankLeaf(Leaves(data))
  {
    if ReachesNull(data) then Err("TypeError")
    else
      BlankSkeleton(data);
      BlankLeaves(data);
      Ok(Blank(data))
  }

  /** The tree with every string erased: what `replaceEmptyValues` must not change. */
  function Skeleton(v: Json): Json
    decreases v
  {
    match v
    case JStr(_) => JStr("")
    case JArr(items) => JArr(seq(|items|, i requires 0 <= i < |items| => Skeleton(items[i])))
    case JObj(props) =>
      JObj(seq(|props|, i requires 0 <= i < |props| => Prop(props[i].key, Skeleton(props[i].value))))
    case _ => v
  }

  function Flatten<T>(ss: seq<seq<T>>): seq<T>
  {
    if ss == [] then [] else ss[0] + Flatten(ss[1..])
  }

  /** The non-container values of the tree, in key order, depth first. */
  function Leaves(v: Json): seq<Json>
    decreases v
  {
    match v
    case JArr(items) => Flatten(seq(|items|, i requires 0 <= i < |items| => Leaves(items[i])))
    case JObj(props) => Flatten(seq(|props|, i requires 0 <= i < |props| => Leaves(props[i].value)))
    case _ => [v]
  }

  function BlankLeaf(v: Json): Json {
    if v == JStr("0") then JStr("") else v
  }

  function MapBlankLeaf(s: seq<Json>): (r: seq<Json>)
    ensures |r| == |s|
    ensures forall i :: 0 <= i < |s| ==> r[i] == BlankLeaf(s[i])
  {
    seq(|s|, i requires 0 <= i < |s| => BlankLeaf(s[i]))
  }

  lemma {:induction false} BlankSkeleton(v: Json)
    ensures Skeleton(Blank(v)) == Skeleton(v)
    decreases v
  {
    match v
    case JArr(items) =>
      forall i | 0 <= i < |items| ensures Skeleton(Blank(items[i])) == Skeleton(items[i]) {
        BlankSkeleton(items[i]);
      }
    case JObj(props) =>
      forall i | 0 <= i < |props|
        ensures Skeleton(Blank(props[i].value)) == Skeleton(props[i].value)
      {
        BlankSkeleton(props[i].value);
      }
    case _ =>
  }

  /** Mapping the leaves of each group then flattening is flattening then mapping. */
  lemma {:induction false} FlattenMap(ss: seq<seq<Json>>, ts: seq<seq<Json>>)
    requires |ss| == |ts|
    requires forall i :: 0 <= i < |ss| ==> ts[i] == MapBlankLeaf(ss[i])
    ensures Flatten(ts) == MapBlankLeaf(Flatten(ss))
  {
    if ss != [] {
      FlattenMap(ss[1..], ts[1..]);
    }
  }

  lemma {:induction false} BlankLeaves(v: Json)
    ensures Leaves(Blank(v)) == MapBlankLeaf(Leaves(v))
    decreases v
  {
    match v
    case JArr(items) =>
      var ss := seq(|items|, i requires 0 <= i < |items| => Leaves(items[i]));
      var bs := seq(|items|, i requires 0 <= i < |items| => Blank(items[i]));
      var ts := seq(|bs|, i requires 0 <= i < |bs| => Leaves(bs[i]));
      forall i | 0 <= i < |items| ensures ts[i] == MapBlankLeaf(ss[i]) {
        BlankLeaves(items[i]);
      }
      FlattenMap(ss, ts);
    case JObj(props) =>
      var ss := seq(|props|, i requires 0 <= i < |props| => Leaves(props[i].value));
      var bs := seq(|props|, i requires 0 <= i < |props| => Prop(props[i].key, Blank(props[i].value)));
      var ts := seq(|bs|, i requires 0 <= i < |bs| => Leaves(bs[i].value));
      forall i | 0 <= i < |props| ensures ts[i] == MapBlankLeaf(ss[i]) {
        BlankLeaves(props[i].value);
      }
      FlattenMap(ss, ts);
    case JStr(s) =>
    case _ =>
  }

  /** Cleaning an already cleaned tree changes nothing. */
  lemma {:induction false} BlankIdempotent(v: Json)
    ensures Blank(Blank(v)) == Blank(v)
    decreases v
  {
    match v
    case JArr(items) =>
      forall i | 0 <= i < |items| ensures Blank(Blank(items[i])) == Blank(items[i]) {
        BlankIdempotent(items[i]);
      }
    case JObj(props) =>
      forall i | 0 <= i < |props|
        ensures Blank(Blank(props[i].value)) == Blank(props[i].value)
      {
        BlankIdempotent(props[i].value);
      }
    case _ =>
  }

  /** Running `replaceEmptyValues` on its own result gives the same tree back. */
  lemma ReplaceEmptyValuesIdempotent(data: Json)
    requires IsObjectTyped(data) && !ReachesNull(data)
    ensures ReplaceEmptyValues(data).Ok?
    ensures IsObjectTyped(ReplaceEmptyValues(data).value)
    ensures ReplaceEmptyValues(ReplaceEmptyValues(data).value) == ReplaceEmptyValues(data)
  {
    BlankIdempotent(data);
    BlankNoNull(data);
  }

  lemma {:induction false} BlankNoNull(v: Json)
    requires !ReachesNull(v)
    ensures !ReachesNull(Blank(v))
    decreases v
  {
    match v
    case JArr(items) =>
      forall i | 0 <= i < |items| ensures !ReachesNull(Blank(items[i])) {
        BlankNoNull(items[i]);
      }
    case JObj(props) =>
      forall i | 0 <= i < |props| ensures !ReachesNull(Blank(props[i].value)) {
        BlankNoNull(props[i].value);
      }
    case _ =>
  }

  /** A row of the query index as the path filters see it. */
  datatype IndexRow = IndexRow(path: string, template: string)
}
