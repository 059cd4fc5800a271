/**
 `_walk`: the depth-first, order-preserving traversal of a parsed JSON
 document that yields every dict node and nothing else. A dict is yielded
 before the nodes inside its values; a list is never yielded itself, only
 what its elements yield; scalars yield nothing.
 */
module Traversal {
  import opened Json

  function Walk(o: JsonValue): (r: seq<JsonValue>)
    ensures forall i :: 0 <= i < |r| ==> r[i].JObject?
    ensures o.JObject? ==> |r| > 0 && r[0] == o
    ensures !o.JObject? && !o.JArray? ==> r == []
    decreases o
  {
    match o
    case JObject(ms) => [o] + WalkMembers(ms)
    case JArray(items) => WalkItems(items)
    case _ => []
  }

  /** What `for it in o: yield from _walk(it)` yields for a list `o`. */
  function WalkItems(items: seq<JsonValue>): (r: seq<JsonValue>)
    ensures forall i :: 0 <= i < |r| ==> r[i].JObject?
    decreases items
  {
    if items == [] then [] else Walk(items[0]) + WalkItems(items[1..])
  }

  /** What `for v in o.values(): yield from _walk(v)` yields for a dict `o`. */
  function WalkMembers(ms: seq<Member>): (r: seq<JsonValue>)
    ensures forall i :: 0 <= i < |r| ==> r[i].JObject?
    decreases ms
  {
    if ms == [] then [] else Walk(ms[0].value) + WalkMembers(ms[1..])
  }

  /** Walking a list of values concatenates the walks of the two halves, in order. */
  lemma {:induction false} WalkItemsAppend(a: seq<JsonValue>, b: seq<JsonValue>)
    ensures WalkItems(a + b) == WalkItems(a) + WalkItems(b)
    decreases |a|
  {
    if a == [] {
      assert a + b == b;
    } else {
      assert (a + b)[1..] == a[1..] + b;
      WalkItemsAppend(a[1..], b);
    }
  }

  /** A list yields the concatenation, in element order, of what its elements yield. */
  lemma WalkListConcat(a: seq<JsonValue>, b: seq<JsonValue>)
    ensures Walk(JArray(a + b)) == Walk(JArray(a)) + Walk(JArray(b))
    ensures Walk(JArray([])) == []
  {
    WalkItemsAppend(a, b);
  }

  /** A one-element list yields exactly what its element yields; the list itself is not yielded. */
  lemma WalkListSingleton(x: JsonValue)
    ensures Walk(JArray([x])) == Walk(x)
  {
    assert [x][1..] == [];
    assert WalkItems([x]) == Walk(x) + WalkItems([]);
  }

  lemma {:induction false} WalkMembersIsWalkOfValues(ms: seq<Member>)
    ensures WalkMembers(ms) == WalkItems(Values(ms))
    decreases |ms|
  {
    if ms != [] {
      assert Values(ms)[1..] == Values(ms[1..]);
      WalkMembersIsWalkOfValues(ms[1..]);
    }
  }

  /**
   Pre-order on dicts: a dict yields itself first, then exactly what the list
   of its values, in insertion order, yields.
   */
  lemma WalkObjectPreorder(ms: seq<Member>)
    ensures Walk(JObject(ms)) == [JObject(ms)] + Walk(JArray(Values(ms)))
  {
    WalkMembersIsWalkOfValues(ms);
  }

  /** One entry per dict node of the tree, counting repeated subtrees each time. */
  lemma {:induction false} WalkLength(o: JsonValue)
    ensures |Walk(o)| == CountObjects(o)
    decreases o, 1
  {
    match o
    case JObject(ms) => WalkMembersLength(ms);
    case JArray(items) => WalkItemsLength(items);
    case _ =>
  }

  lemma {:induction false} WalkItemsLength(items: seq<JsonValue>)
    ensures |WalkItems(items)| == CountItems(items)
    decreases items, 0
  {
    if items != [] {
      WalkLength(items[0]);
      WalkItemsLength(items[1..]);
    }
  }

  lemma {:induction false} WalkMembersLength(ms: seq<Member>)
    ensures |WalkMembers(ms)| == CountMembers(ms)
    decreases ms, 0
  {
    if ms != [] {
      WalkLength(ms[0].value);
      WalkMembersLength(ms[1..]);
    }
  }

  /** The walk yields a node exactly when it is a dict somewhere in the tree. */
  lemma {:induction false} WalkNodes(o: JsonValue, n: JsonValue)
    ensures n in Walk(o) <==> n.JObject? && Within(n, o)
    decreases o, 1
  {
    match o
    case JObject(ms) =>
      WalkMembersNodes(ms, n);
    case JArray(items) =>
      WalkItemsNodes(items, n);
    case _ =>
  }

  lemma {:induction false} WalkItemsNodes(items: seq<JsonValue>, n: JsonValue)
    ensures n in WalkItems(items) <==> n.JObject? && exists i :: 0 <= i < |items| && Within(n, items[i])
    decreases items, 0
  {
    if items != [] {
      WalkNodes(items[0], n);
      WalkItemsNodes(items[1..], n);
      if exists i :: 0 <= i < |items| && Within(n, items[i]) {
        var i :| 0 <= i < |items| && Within(n, items[i]);
        if i > 0 {
          assert items[1..][i - 1] == items[i];
        }
      }
      if exists i :: 0 <= i < |items[1..]| && Within(n, items[1..][i]) {
        var i :| 0 <= i < |items[1..]| && Within(n, items[1..][i]);
        assert items[i + 1] == items[1..][i];
      }
    }
  }

  lemma {:induction false} WalkMembersNodes(ms: seq<Member>, n: JsonValue)
    ensures n in WalkMembers(ms) <==> n.JObject? && exists j :: 0 <= j < |ms| && Within(n, ms[j].value)
    decreases ms, 0
  {
    if ms != [] {
      WalkNodes(ms[0].value, n);
      WalkMembersNodes(ms[1..], n);
      if exists j :: 0 <= j < |ms| && Within(n, ms[j].value) {
        var j :| 0 <= j < |ms| && Within(n, ms[j].value);
        if j > 0 {
          assert ms[1..][j - 1] == ms[j];
        }
      }
      if exists j :: 0 <= j < |ms[1..]| && Within(n, ms[1..][j].value) {
        var j :| 0 <= j < |ms[1..]| && Within(n, ms[1..][j].value);
        assert ms[j + 1] == ms[1..][j];
      }
    }
  }
}
