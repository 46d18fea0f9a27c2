/** `ToJsonString`: an object is serialized to a JSON node tree, the tree is
    filtered (null members and items dropped, long strings truncated) and the
    result is rendered. The tree is modelled as a datatype in which a null
    node is `None`; the rendering of a tree to text is not modelled. */
module JsonExtensions {
  import opened Wrappers

  /** A non-null `JsonNode`: a scalar value, an array or an object. Children
      may be null. An object's members are kept in enumeration order. */
  datatype Json =
    | JBool(b: bool)
    | JNumber(n: int)
    | JString(s: string)
    | JArray(items: seq<Option<Json>>)
    | JObject(members: seq<(string, Option<Json>)>)

  /** The default `maxStringLength` of `ToJsonString`. */
  const DefaultMaxStringLength := 100

  const Ellipsis := "..."

  /** The tree holds a string value somewhere. */
  predicate HasString(node: Option<Json>)
    decreases node
  {
    match node
    case None => false
    case Some(JString(_)) => true
    case Some(JArray(items)) => exists i :: 0 <= i < |items| && HasString(items[i])
    case Some(JObject(ms)) => exists i :: 0 <= i < |ms| && HasString(ms[i].1)
    case Some(_) => false
  }

  /** The non-null entries of a list of nodes, in order. */
  function Present(items: seq<Option<Json>>): (r: seq<Option<Json>>)
    ensures |r| <= |items|
    ensures forall k :: 0 <= k < |r| ==> r[k].Some? && r[k] in items
    ensures forall x :: x in items && x.Some? ==> x in r
    decreases |items|
  {
    if |items| == 0 then []
    else (if items[0].Some? then [items[0]] else []) + Present(items[1..])
  }

  /** The non-null members of an object, in order. */
  function PresentMembers(ms: seq<(string, Option<Json>)>): (r: seq<(string, Option<Json>)>)
    ensures |r| <= |ms|
    ensures forall k :: 0 <= k < |r| ==> r[k].1.Some? && r[k] in ms
    ensures forall m :: m in ms && m.1.Some? ==> m in r
    decreases |ms|
  {
    if |ms| == 0 then []
    else (if ms[0].1.Some? then [ms[0]] else []) + PresentMembers(ms[1..])
  }

  /** A tree as `FilterNode` leaves it: no null children, and every string
      either fits in `max` characters or is `max` characters followed by
      the ellipsis. */
  predicate Filtered(node: Option<Json>, max: int)
    decreases node
  {
    match node
    case None => true
    case Some(JString(s)) => |s| <= max || (0 <= max && |s| == max + 3 && s[max..] == Ellipsis)
    case Some(JArray(items)) => forall i :: 0 <= i < |items| ==> items[i].Some? && Filtered(items[i], max)
    case Some(JObject(ms)) => forall i :: 0 <= i < |ms| ==> ms[i].1.Some? && Filtered(ms[i].1, max)
    case Some(_) => true
  }

  /** `FilterNode`: objects keep their non-null members in order with the
      values filtered (every key is kept: the `AdditionalProperties` skip is
      disabled in the source), arrays keep their non-null items in order with
      each filtered, a string longer than `max` becomes its first `max`
      characters plus "...", and any other value is returned as is. A
      negative `max` makes the slice throw on the first string; the caller
      reports that case. */
  function FilterNode(node: Option<Json>, max: int): (r: Option<Json>)
    requires max >= 0 || !HasString(node)
    ensures r.None? <==> node.None?
    ensures node.Some? && (node.value.JBool? || node.value.JNumber?) ==> r == node
    ensures node.Some? && node.value.JString? && |node.value.s| <= max ==> r == node
    ensures node.Some? && node.value.JString? && |node.value.s| > max ==>
      r.value.JString? && |r.value.s| == max + 3
      && r.value.s[..max] == node.value.s[..max] && r.value.s[max..] == Ellipsis
    ensures node.Some? && node.value.JArray? ==>
      r.value.JArray? && |r.value.items| == |Present(node.value.items)|
      && forall k :: 0 <= k < |r.value.items| ==>
           r.value.items[k] == FilterNode(Present(node.value.items)[k], max)
    ensures node.Some? && node.value.JObject? ==>
      r.value.JObject? && |r.value.members| == |PresentMembers(node.value.members)|
      && forall k :: 0 <= k < |r.value.members| ==>
           r.value.members[k].0 == PresentMembers(node.value.members)[k].0
           && r.value.members[k].1 == FilterNode(PresentMembers(node.value.members)[k].1, max)
    decreases node
  {
    match node
    case None => None
    case Some(JArray(items)) =>
      var kept := Present(items);
      PresentKeepsLimit(items, max);
      Some(JArray(seq(|kept|, k requires 0 <= k < |kept| => FilterNode(kept[k], max))))
    case Some(JObject(ms)) =>
      var kept := PresentMembers(ms);
      PresentMembersKeepLimit(ms, max);
      Some(JObject(seq(|kept|, k requires 0 <= k < |kept| => (kept[k].0, FilterNode(kept[k].1, max)))))
    case Some(JString(s)) =>
      if |s| > max then Some(JString(s[..max] + Ellipsis)) else node
    case Some(_) => node
  }

  /** `FilterNode` leaves no null child and no string over the limit. */
  lemma {:induction false} FilterNodeFiltered(node: Option<Json>, max: int)
    requires max >= 0 || !HasString(node)
    ensures Filtered(FilterNode(node, max), max)
    decreases node
  {
    match node
    case None =>
    case Some(JArray(items)) =>
      var kept := Present(items);
      PresentKeepsLimit(items, max);
      forall k | 0 <= k < |kept| ensures Filtered(FilterNode(kept[k], max), max) {
        FilterNodeFiltered(kept[k], max);
      }
    case Some(JObject(ms)) =>
      var kept := PresentMembers(ms);
      PresentMembersKeepLimit(ms, max);
      forall k | 0 <= k < |kept| ensures Filtered(FilterNode(kept[k].1, max), max) {
        FilterNodeFiltered(kept[k].1, max);
      }
    case Some(JString(s)) =>
    case Some(_) =>
  }

  /** The non-null items of an array are among its items, so they meet the
      limit's precondition whenever the array does. */
  lemma PresentKeepsLimit(items: seq<Option<Json>>, max: int)
    requires max >= 0 || !HasString(Some(JArray(items)))
    ensures forall k :: 0 <= k < |Present(items)| ==>
      Present(items)[k] in items && (max >= 0 || !HasString(Present(items)[k]))
  {
    var kept := Present(items);
    forall k | 0 <= k < |kept| ensures max >= 0 || !HasString(kept[k]) {
      var i :| 0 <= i < |items| && items[i] == kept[k];
    }
  }

  lemma PresentMembersKeepLimit(ms: seq<(string, Option<Json>)>, max: int)
    requires max >= 0 || !HasString(Some(JObject(ms)))
    ensures forall k :: 0 <= k < |PresentMembers(ms)| ==>
      PresentMembers(ms)[k] in ms && (max >= 0 || !HasString(PresentMembers(ms)[k].1))
  {
    var kept := PresentMembers(ms);
    forall k | 0 <= k < |kept| ensures max >= 0 || !HasString(kept[k].1) {
      var i :| 0 <= i < |ms| && ms[i] == kept[k];
    }
  }

  datatype JsonError = ArgumentOutOfRange

  /** What `ToJsonString` renders: "{}" for a null value, otherwise the
      filtered tree. */
  datatype Rendered = EmptyObject | Tree(node: Json)

  /** `value.ToJsonString(maxStringLength)`, where `value` is given as the
      tree it serializes to (`None` for a null value) and a missing
      `maxStringLength` takes the default of 100. */
  function ToJsonString(value: Option<Json>, maxStringLength: Option<int>): (r: Result<Rendered, JsonError>)
    ensures value.None? ==> r == Ok(EmptyObject)
    ensures value.Some? && maxStringLength.GetOr(DefaultMaxStringLength) < 0 && HasString(value) ==>
      r == Err(ArgumentOutOfRange)
    ensures r.Ok? && value.Some? ==>
      r.value.Tree? && Filtered(Some(r.value.node), maxStringLength.GetOr(DefaultMaxStringLength))
      && Some(r.value.node) == FilterNode(value, maxStringLength.GetOr(DefaultMaxStringLength))
    ensures r.Err? <==> value.Some? && maxStringLength.GetOr(DefaultMaxStringLength) < 0 && HasString(value)
  {
    var max := maxStringLength.GetOr(DefaultMaxStringLength);
    if value.None? then Ok(EmptyObject)
    else if max < 0 && HasString(value) then Err(ArgumentOutOfRange)
    else
      FilterNodeFiltered(value, max);
      Ok(Tree(FilterNode(value, max).value))
  }

  /** Filtering a list that has no null entries keeps all of it. */
  lemma {:induction false} PresentOfPresent(items: seq<Option<Json>>)
    requires forall i :: 0 <= i < |items| ==> items[i].Some?
    ensures Present(items) == items
    decreases |items|
  {
    if |items| > 0 {
      PresentOfPresent(items[1..]);
      assert items == [items[0]] + items[1..];
    }
  }

  lemma {:induction false} PresentMembersOfPresent(ms: seq<(string, Option<Json>)>)
    requires forall i :: 0 <= i < |ms| ==> ms[i].1.Some?
    ensures PresentMembers(ms) == ms
    decreases |ms|
  {
    if |ms| > 0 {
      PresentMembersOfPresent(ms[1..]);
      assert ms == [ms[0]] + ms[1..];
    }
  }

  /** A filtered tree passes through `FilterNode` unchanged (for a
      non-negative limit, where filtering succeeds). */
  lemma {:induction false} FilterFixesFiltered(node: Option<Json>, max: int)
    requires max >= 0
    requires Filtered(node, max)
    ensures FilterNode(node, max) == node
    decreases node
  {
    match node
    case None =>
    case Some(JArray(items)) =>
      PresentOfPresent(items);
      var r := FilterNode(node, max);
      forall k | 0 <= k < |items| ensures r.value.items[k] == items[k] {
        FilterFixesFiltered(items[k], max);
      }
      assert r.value.items == items;
    case Some(JObject(ms)) =>
      PresentMembersOfPresent(ms);
      var r := FilterNode(node, max);
      forall k | 0 <= k < |ms| ensures r.value.members[k] == ms[k] {
        FilterFixesFiltered(ms[k].1, max);
      }
      assert r.value.members == ms;
    case Some(JString(s)) =>
      if |s| > max {
        assert s == s[..max] + Ellipsis;
      }
    case Some(_) =>
  }

  /** Filtering an already filtered tree returns the same tree. */
  lemma FilterIdempotent(node: Option<Json>, max: int)
    requires max >= 0
    ensures FilterNode(FilterNode(node, max), max) == FilterNode(node, max)
  {
    FilterNodeFiltered(node, max);
    FilterFixesFiltered(FilterNode(node, max), max);
  }
}
