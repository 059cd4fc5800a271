/**
 The head of `availability_from_structured_data`, up to its dict guard: the nested loops
 over every linked-data block and every node its walk yields, and the
 `isinstance(node, dict)` guard in front of the (not modelled) body.
 */
module StructuredData {
  import opened Wrappers
  import opened Json
  import opened Traversal
  import opened JsonLd

  /**
   The nodes the two loops visit, in order: block by block, each block's walk.
   That is exactly what walking the list of blocks yields.
   */
  function VisitedNodes(blocks: seq<JsonValue>): (r: seq<JsonValue>)
    ensures forall i :: 0 <= i < |r| ==> r[i].JObject?
  {
    WalkItems(blocks)
  }

  /** The nodes that get past `if not isinstance(node, dict): continue`, in order. */
  function PastDictGuard(nodes: seq<JsonValue>): (r: seq<JsonValue>)
    ensures |r| <= |nodes|
    ensures forall n :: n in r <==> n in nodes && n.JObject?
    ensures |nodes| == 1 ==> r == (if nodes[0].JObject? then nodes else [])
    decreases |nodes|
  {
    if nodes == [] then []
    else if nodes[0].JObject? then [nodes[0]] + PastDictGuard(nodes[1..])
    else PastDictGuard(nodes[1..])
  }

  /**
   The guard works node by node: on `a + b` it passes on what it passes on
   from `a`, then what it passes on from `b`. With the one-node case this fixes
   the order and the number of times each dict is passed on.
   */
  lemma {:induction false} PastDictGuardAppend(a: seq<JsonValue>, b: seq<JsonValue>)
    ensures PastDictGuard(a + b) == PastDictGuard(a) + PastDictGuard(b)
    decreases |a|
  {
    if a == [] {
      assert a + b == b;
    } else {
      assert (a + b)[0] == a[0];
      assert (a + b)[1..] == a[1..] + b;
      PastDictGuardAppend(a[1..], b);
    }
  }

  /** The guard passes a sequence of dicts through unchanged. */
  lemma {:induction false} PastDictGuardKeepsDicts(nodes: seq<JsonValue>)
    requires forall i :: 0 <= i < |nodes| ==> nodes[i].JObject?
    ensures PastDictGuard(nodes) == nodes
    decreases |nodes|
  {
    if nodes != [] {
      PastDictGuardKeepsDicts(nodes[1..]);
    }
  }

  /** The nodes the body of the inner loop sees. */
  function GuardedNodes(tags: seq<Tag>, parse: string -> Option<JsonValue>): seq<JsonValue> {
    PastDictGuard(VisitedNodes(JsonLdBlocks(tags, parse)))
  }

  /** The dict guard is dead code: every node the walk yields is already a dict, so none is skipped. */
  lemma DictGuardNeverFires(tags: seq<Tag>, parse: string -> Option<JsonValue>)
    ensures GuardedNodes(tags, parse) == VisitedNodes(JsonLdBlocks(tags, parse))
  {
    PastDictGuardKeepsDicts(VisitedNodes(JsonLdBlocks(tags, parse)));
  }

  /** A node is visited exactly when it is a dict somewhere inside one of the blocks. */
  lemma VisitedNodesAreDictsOfBlocks(blocks: seq<JsonValue>, n: JsonValue)
    ensures n in VisitedNodes(blocks) <==> n.JObject? && exists k :: 0 <= k < |blocks| && Within(n, blocks[k])
  {
    WalkItemsNodes(blocks, n);
  }

  /** The number of nodes visited is the number of dict nodes across all blocks. */
  lemma VisitedNodesCount(blocks: seq<JsonValue>)
    ensures |VisitedNodes(blocks)| == CountItems(blocks)
  {
    WalkItemsLength(blocks);
  }
}
