/**
 `_jsonld_blocks`: the linked-data documents embedded in a page. The parsed
 HTML is abstracted as the sequence of its elements in document order, and
 `json.loads` as a parse function that yields `None` where it would raise.
 */
module JsonLd {
  import opened Wrappers
  import opened Text
  import opened Json

  /**
   One element of the parsed page: its tag name, its `type` attribute (if
   present), its `.string` (present when the element holds exactly one
   string) and its `.get_text()`.
   */
  datatype Tag = Tag(name: string, typeAttr: Option<string>, str: Option<string>, allText: string)

  /** The `type=` filter: the attribute is present, non-empty and contains "ld+json" in any case. */
  predicate IsLdJsonType(t: Option<string>) {
    match t
    case None => false
    case Some(s) => s != "" && Contains(Lower(s), "ld+json")
  }

  /**
   The type test over every attribute value: it holds exactly when the value,
   folded to lower case, has "ld+json" at some index.
   */
  lemma LdJsonTypeIff(s: string)
    ensures IsLdJsonType(Some(s)) <==> exists i :: OccursAt(Lower(s), "ld+json", i)
  {
    ContainsIff(Lower(s), "ld+json");
  }

  /** The type test does not see case: a value and its lower-case form are accepted alike. */
  lemma LdJsonTypeIgnoresCase(s: string)
    ensures IsLdJsonType(Some(s)) == IsLdJsonType(Some(Lower(s)))
  {
    LowerIdempotent(s);
  }

  /** The elements `find_all("script", type=...)` returns. */
  predicate Qualifies(tag: Tag) {
    tag.name == "script" && IsLdJsonType(tag.typeAttr)
  }
  /**
   The whole filter: an element is returned exactly when it is a `script`
   element whose `type` attribute is present and, folded to lower case, has
   "ld+json" at some index.
   */
  lemma QualifiesIff(tag: Tag)
    ensures Qualifies(tag) <==>
      tag.name == "script" && tag.typeAttr.Some? && exists i :: OccursAt(Lower(tag.typeAttr.value), "ld+json", i)
  {
    if tag.typeAttr.Some? {
      LdJsonTypeIff(tag.typeAttr.value);
    }
  }


  /**
   `tag.string or tag.get_text() or ""`: the text handed to the parser. It is
   empty only when every alternative in the chain is empty.
   */
  function TagText(tag: Tag): (r: string)
    ensures r == "" <==> (tag.str.None? || tag.str.value == "") && tag.allText == ""
    ensures tag.str.Some? && tag.str.value != "" ==> r == tag.str.value
    ensures (tag.str.None? || tag.str.value == "") ==> r == tag.allText
  {
    match tag.str
    case Some(s) => if s != "" then s else tag.allText
    case None => tag.allText
  }

  /** Whether the tag at index `i` contributes a block: it qualifies and its text parses. */
  predicate Yields(tags: seq<Tag>, parse: string -> Option<JsonValue>, i: int)
    requires 0 <= i < |tags|
  {
    Qualifies(tags[i]) && parse(TagText(tags[i])).Some?
  }

  /**
   The documents the generator yields, in document order: one per qualifying
   tag whose text parses; a tag whose text fails to parse contributes nothing.
   */
  function JsonLdBlocks(tags: seq<Tag>, parse: string -> Option<JsonValue>): (r: seq<JsonValue>)
    ensures |r| <= |tags|
    ensures r == [] <==> forall i :: 0 <= i < |tags| ==> !Yields(tags, parse, i)
    decreases |tags|
  {
    if tags == [] then []
    else
      var rest := JsonLdBlocks(tags[1..], parse);
      assert forall i :: 0 <= i < |tags[1..]| ==> Yields(tags[1..], parse, i) == Yields(tags, parse, i + 1);
      if Yields(tags, parse, 0) then [parse(TagText(tags[0])).value] + rest
      else
        assert (forall i :: 0 <= i < |tags| ==> !Yields(tags, parse, i))
          <==> (forall i :: 0 <= i < |tags[1..]| ==> !Yields(tags[1..], parse, i)) by {
          if forall i :: 0 <= i < |tags[1..]| ==> !Yields(tags[1..], parse, i) {
            forall i | 0 <= i < |tags| ensures !Yields(tags, parse, i) {
              if i > 0 {
                assert Yields(tags[1..], parse, i - 1) == Yields(tags, parse, i);
              }
            }
          }
        }
        rest
  }

  /** The last step of a left-to-right pass: the tag at `n` adds its document exactly when it yields. */
  lemma JsonLdBlocksStep(tags: seq<Tag>, parse: string -> Option<JsonValue>, n: nat)
    requires n < |tags|
    ensures JsonLdBlocks(tags[..n + 1], parse) ==
      JsonLdBlocks(tags[..n], parse) + (if Yields(tags, parse, n) then [parse(TagText(tags[n])).value] else [])
  {
    assert tags[..n + 1] == tags[..n] + [tags[n]];
    JsonLdBlocksAppend(tags[..n], [tags[n]], parse);
    assert [tags[n]][1..] == [];
  }

  /** A failure in one part of the page does not disturb the blocks found in another. */
  lemma {:induction false} JsonLdBlocksAppend(a: seq<Tag>, b: seq<Tag>, parse: string -> Option<JsonValue>)
    ensures JsonLdBlocks(a + b, parse) == JsonLdBlocks(a, parse) + JsonLdBlocks(b, parse)
    decreases |a|
  {
    if a == [] {
      assert a + b == b;
    } else {
      assert (a + b)[0] == a[0];
      assert (a + b)[1..] == a[1..] + b;
      JsonLdBlocksAppend(a[1..], b, parse);
    }
  }

  /** A tag that does not qualify, or whose text does not parse, is skipped and the rest is still processed. */
  lemma SkippedTag(tag: Tag, rest: seq<Tag>, parse: string -> Option<JsonValue>)
    requires !Qualifies(tag) || parse(TagText(tag)).None?
    ensures JsonLdBlocks([tag] + rest, parse) == JsonLdBlocks(rest, parse)
  {
    assert ([tag] + rest)[1..] == rest;
  }

  /** An element without a `type` attribute is never considered, wherever it sits on the page. */
  lemma UntypedTagSkipped(a: seq<Tag>, t: Tag, b: seq<Tag>, parse: string -> Option<JsonValue>)
    requires t.typeAttr.None?
    ensures JsonLdBlocks(a + [t] + b, parse) == JsonLdBlocks(a + b, parse)
  {
    assert a + [t] + b == a + ([t] + b);
    JsonLdBlocksAppend(a, [t] + b, parse);
    SkippedTag(t, b, parse);
    JsonLdBlocksAppend(a, b, parse);
  }

  /** A page with no element carrying a `type` attribute has no blocks. */
  lemma {:induction false} UntypedTagsYieldNothing(tags: seq<Tag>, parse: string -> Option<JsonValue>)
    requires forall i :: 0 <= i < |tags| ==> tags[i].typeAttr.None?
    ensures JsonLdBlocks(tags, parse) == []
    decreases |tags|
  {
    if tags != [] {
      UntypedTagsYieldNothing(tags[1..], parse);
    }
  }

  /** A string lacking one of the characters of `sub` does not contain `sub`. */
  lemma {:induction false} MissingCharNotContained(s: string, sub: string, c: char)
    requires c in sub && c !in s
    ensures !Contains(s, sub)
    decreases |s|
  {
    if |sub| <= |s| {
      var j :| 0 <= j < |sub| && sub[j] == c;
      assert s[..|sub|][j] != c;
      MissingCharNotContained(s[1..], sub, c);
    }
  }

  /** The type test ignores case: "application/LD+JSON" qualifies. */
  lemma TypeTestIgnoresCase()
    ensures IsLdJsonType(Some("application/LD+JSON"))
    ensures !IsLdJsonType(Some("application/json"))
  {
    var s := "application/LD+JSON";
    var ls := Lower(s);
    assert ls[12] == 'l' && ls[13] == 'd' && ls[14] == '+' && ls[15] == 'j';
    assert ls[16] == 's' && ls[17] == 'o' && ls[18] == 'n';
    assert ls[12..19] == "ld+json";
    assert OccursAt(ls, "ld+json", 12);
    ContainsIff(ls, "ld+json");
    var t := "application/json";
    var lt := Lower(t);
    assert '+' !in t;
    forall j | 0 <= j < |lt|
      ensures lt[j] != '+'
    {
      assert t[j] in t;
      assert lt[j] == LowerChar(t[j]);
    }
    assert "ld+json"[2] == '+';
    MissingCharNotContained(lt, "ld+json", '+');
  }

  /**
   Where the blocks gathered from the first `n` tags came from: block `k` is
   the document parsed from tag `sources[k]`, the indices rise strictly, and
   every tag below `n` that qualifies and parses is among them.
   */
  ghost predicate Provenance(tags: seq<Tag>, parse: string -> Option<JsonValue>, n: nat,
                             blocks: seq<JsonValue>, sources: seq<nat>)
    requires n <= |tags|
  {
    && |sources| == |blocks|
    && (forall k :: 0 <= k < |sources| ==>
          sources[k] < n && Qualifies(tags[sources[k]]) && parse(TagText(tags[sources[k]])) == Some(blocks[k]))
    && (forall k, l :: 0 <= k < l < |sources| ==> sources[k] < sources[l])
    && (forall i :: 0 <= i < n && Yields(tags, parse, i) ==> i in sources)
  }

  /** Indices all below `n` leave no room for any index when `n` is zero. */
  lemma SourcesBelowBound(sources: seq<nat>, n: nat)
    requires forall k :: 0 <= k < |sources| ==> sources[k] < n
    ensures sources != [] ==> n > 0
  {
    if sources != [] {
      assert sources[0] < n;
    }
  }

  /**
   When the tag at `m` yields, it is the last source of a provenance over the
   first `m + 1` tags, and dropping it leaves a provenance over the first `m`.
   */
  lemma ProvenanceDropLast(tags: seq<Tag>, parse: string -> Option<JsonValue>, m: nat,
                           blocks: seq<JsonValue>, sources: seq<nat>)
    requires m < |tags| && Provenance(tags, parse, m + 1, blocks, sources) && Yields(tags, parse, m)
    ensures |sources| > 0 && sources[|sources| - 1] == m
    ensures blocks == blocks[..|sources| - 1] + [parse(TagText(tags[m])).value]
    ensures Provenance(tags, parse, m, blocks[..|sources| - 1], sources[..|sources| - 1])
  {
    assert m in sources;
    var j :| 0 <= j < |sources| && sources[j] == m;
    var last := |sources| - 1;
    assert sources[last] < m + 1;
    assert j == last;
    assert blocks == blocks[..last] + [blocks[last]];
    var ss := sources[..last];
    forall i | 0 <= i < m && Yields(tags, parse, i) ensures i in ss {
      assert i in sources;
      var k :| 0 <= k < |sources| && sources[k] == i;
      assert ss[k] == i;
    }
  }

  /** When the tag at `m` does not yield, a provenance over the first `m + 1` tags is one over the first `m`. */
  lemma ProvenanceSkip(tags: seq<Tag>, parse: string -> Option<JsonValue>, m: nat,
                       blocks: seq<JsonValue>, sources: seq<nat>)
    requires m < |tags| && Provenance(tags, parse, m + 1, blocks, sources) && !Yields(tags, parse, m)
    ensures Provenance(tags, parse, m, blocks, sources)
  {
    forall k | 0 <= k < |sources| ensures sources[k] < m {
      assert Yields(tags, parse, sources[k]);
    }
  }

  /**
   A provenance pins the blocks down: any blocks with a provenance over the
   first `n` tags are exactly what the generator yields for those tags.
   */
  lemma {:induction false} ProvenanceDeterminesBlocks(tags: seq<Tag>, parse: string -> Option<JsonValue>, n: nat,
                                                      blocks: seq<JsonValue>, sources: seq<nat>)
    requires n <= |tags| && Provenance(tags, parse, n, blocks, sources)
    ensures blocks == JsonLdBlocks(tags[..n], parse)
    decreases n
  {
    if n == 0 {
      SourcesBelowBound(sources, n);
    } else {
      var m := n - 1;
      JsonLdBlocksStep(tags, parse, m);
      if Yields(tags, parse, m) {
        ProvenanceDropLast(tags, parse, m, blocks, sources);
        var last := |sources| - 1;
        ProvenanceDeterminesBlocks(tags, parse, m, blocks[..last], sources[..last]);
      } else {
        ProvenanceSkip(tags, parse, m, blocks, sources);
        ProvenanceDeterminesBlocks(tags, parse, m, blocks, sources);
      }
    }
  }

  /** One step of the loop keeps the provenance: the tag at `n` is recorded exactly when it yields. */
  lemma CollectStep(tags: seq<Tag>, parse: string -> Option<JsonValue>, n: nat,
                    blocks: seq<JsonValue>, sources: seq<nat>)
    requires n < |tags| && Provenance(tags, parse, n, blocks, sources)
    ensures Yields(tags, parse, n) ==>
      Provenance(tags, parse, n + 1, blocks + [parse(TagText(tags[n])).value], sources + [n])
    ensures !Yields(tags, parse, n) ==> Provenance(tags, parse, n + 1, blocks, sources)
  {
    if Yields(tags, parse, n) {
      var sources' := sources + [n];
      assert sources'[|sources|] == n;
      assert forall k :: 0 <= k < |sources| ==> sources'[k] == sources[k];
    }
  }

  /**
   The generator as a loop, as `for tag in ...: try: yield ... except: continue`
   runs it. Besides the blocks it reports the index of the tag each block came
   from: the indices rise strictly, and they are exactly the tags that qualify
   and parse. By `ProvenanceDeterminesBlocks` the blocks are `JsonLdBlocks(tags, parse)`.
   */
  method CollectJsonLdBlocks(tags: seq<Tag>, parse: string -> Option<JsonValue>)
    returns (blocks: seq<JsonValue>, sources: seq<nat>)
    ensures |sources| == |blocks|
    ensures forall k :: 0 <= k < |sources| ==>
      sources[k] < |tags| && Qualifies(tags[sources[k]]) && parse(TagText(tags[sources[k]])) == Some(blocks[k])
    ensures forall k, l :: 0 <= k < l < |sources| ==> sources[k] < sources[l]
    ensures forall i :: 0 <= i < |tags| && Yields(tags, parse, i) ==> i in sources
  {
    blocks, sources := [], [];
    var n := 0;
    while n < |tags|
      invariant n <= |tags|
      invariant Provenance(tags, parse, n, blocks, sources)
    {
      CollectStep(tags, parse, n, blocks, sources);
      if Qualifies(tags[n]) {
        match parse(TagText(tags[n]))
        case Some(doc) =>
          blocks, sources := blocks + [doc], sources + [n];
        case None =>
      }
      n := n + 1;
    }
  }

  /** The loop and the generator agree: the blocks the loop gathers are the generator's. */
  lemma CollectedBlocksAreJsonLdBlocks(tags: seq<Tag>, parse: string -> Option<JsonValue>,
                                       blocks: seq<JsonValue>, sources: seq<nat>)
    requires Provenance(tags, parse, |tags|, blocks, sources)
    ensures blocks == JsonLdBlocks(tags, parse)
  {
    ProvenanceDeterminesBlocks(tags, parse, |tags|, blocks, sources);
    assert tags[..|tags|] == tags;
  }
}
