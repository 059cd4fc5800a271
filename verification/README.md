# Structured-data and price-pattern core of the availability scraper

This project models, in Dafny, the data-handling head of the scraper's
classification engine in `server.py`. The scraper reads a product page's
rendered HTML and decides whether the product can be bought and at what price.
The parts modelled here are:

- **`_walk`**: a depth-first, order-preserving walk of a parsed JSON document.
  It yields every dict node and nothing else (module `Traversal`, over the
  `JsonValue` tree of module `Json`).
- **`_jsonld_blocks`**: gathers the linked-data documents of a page from its
  `<script type="…ld+json…">` elements. A block whose text fails to parse is
  skipped (module `JsonLd`). The page is a sequence of elements in document
  order. `json.loads` is a parameter `parse: string -> Option<JsonValue>` whose
  `None` stands for a raised exception.
- **The head of `availability_from_structured_data`, up to its dict guard**: its nested
  loops over blocks and walked nodes, and its `isinstance(node, dict)` guard.
  The guard is proved dead (module `StructuredData`).
- **`_price_re`**: the price pattern
  `(?:\$|CAD\s*\$?)\s*([0-9]{1,3}(?:[, ][0-9]{3})*(?:\.[0-9]{2})?)` with
  IGNORECASE (module `PricePattern`). It is given two ways:
  - as a recogniser that follows the grammar piece by piece;
  - as a deterministic scanner.

  The scanner is proved to return the leftmost match. At that start it
  captures the longest number, which is what the greedy quantifiers of
  `re.search` choose. In this pattern the greedy choice never has to
  backtrack, and that is proved too: any lead followed by a digit ends where
  the scanner says (`LeadEndComplete`), and no number from that digit ends
  later than the scanner's (`NumberEndLongest`).
- **`DOMAIN_RULES`**: the constant host → (positives, negatives) phrase table
  (module `DomainRules`).

Helper modules: `Wrappers` (the `Option` type) and `Text`. `Text` covers ASCII
case folding, substring containment (Python's `in` on strings) and the
characters Python's `\s` matches in a `str` pattern.

The currency marker is mandatory: the marker group at server.py:13 has no
`?`. `MarkerRequired` and `NoMarkerNoPrice` state it.

## Model

| member | source | states |
|---|---|---|
| Traversal.Walk | server.py:43-50 | every node the walk yields is a dict; a dict is yielded first, before anything inside it; a scalar yields nothing |
| Traversal.WalkObjectPreorder | server.py:44-47 | a dict yields itself, then exactly what the list of its values would yield, in insertion order |
| Traversal.WalkListConcat | server.py:48-50 | a list yields the concatenation, in element order, of what its parts yield; an empty list yields nothing |
| Traversal.WalkListSingleton | server.py:48-50 | a one-element list yields exactly what its element yields, so the list itself is never yielded |
| Traversal.WalkItemsAppend | server.py:49-50 | walking the elements of `a + b` yields the walk of `a`'s elements followed by the walk of `b`'s |
| Traversal.WalkLength | server.py:43-50 | the number of yielded nodes equals the number of dict nodes in the tree (independent count `Json.CountObjects`) |
| Traversal.WalkNodes | server.py:43-50 | a node is yielded if and only if it is a dict that occurs somewhere in the tree (independent reachability `Json.Within`) |
| Text.ContainsIff | server.py:36 | the substring test used on the type attribute holds exactly when `sub` occurs at some index of `s` |
| JsonLd.LdJsonTypeIff | server.py:36 | for every attribute value, the `type=` test holds exactly when the value folded to lower case has "ld+json" at some index |
| JsonLd.LdJsonTypeIgnoresCase | server.py:36 | for every attribute value, the `type=` test gives the same answer for the value and its lower-case form |
| JsonLd.QualifiesIff | server.py:36 | `find_all` returns an element exactly when it is a `script` element with a `type` attribute whose lower-case form has "ld+json" at some index |
| JsonLd.TagText | server.py:38 | the parser gets `.string` when that is present and non-empty, otherwise `.get_text()`; the text is empty only when both are empty |
| JsonLd.JsonLdBlocks | server.py:35-41 | no more blocks than tags; the result is empty exactly when no tag both qualifies and parses |
| JsonLd.CollectJsonLdBlocks | server.py:35-41 | the loop reports, for each block, the index of the tag it came from: the indices rise strictly, each names a qualifying tag whose text parses to that block, and every qualifying tag that parses is listed |
| JsonLd.ProvenanceDeterminesBlocks | server.py:35-41 | any blocks with such a provenance over the first `n` tags are exactly the generator's blocks for those tags, in document order |
| JsonLd.CollectedBlocksAreJsonLdBlocks | server.py:35-41 | what the loop gathers over the whole page equals the generator's output |
| JsonLd.JsonLdBlocksAppend | server.py:37-41 | the blocks of `a + b` are the blocks of `a` followed by those of `b`, so a failure in one part never disturbs another |
| JsonLd.SkippedTag | server.py:36-41 | a tag that does not qualify, or whose text does not parse, contributes nothing, and the tags after it are still processed |
| JsonLd.UntypedTagSkipped | server.py:36 | an element without a `type` attribute is never considered: removing it from anywhere in the page leaves the blocks unchanged |
| JsonLd.UntypedTagsYieldNothing | server.py:36 | a page none of whose elements has a `type` attribute has no blocks |
| JsonLd.TypeTestIgnoresCase | server.py:36 | the type test is case-insensitive ("application/LD+JSON" qualifies) and needs "ld+json" ("application/json" does not qualify) |
| StructuredData.VisitedNodes | server.py:53-54 | every node the two nested loops visit is a dict |
| StructuredData.PastDictGuard | server.py:55-56 | the guard keeps exactly the dict nodes, and never more nodes than it is given; a single node is passed on exactly when it is a dict |
| StructuredData.PastDictGuardAppend | server.py:54-56 | the guard works node by node: on `a + b` it passes on its output for `a` followed by its output for `b`, so every dict is passed on once per occurrence, in walk order |
| StructuredData.PastDictGuardKeepsDicts | server.py:55-56 | a sequence of dicts passes the guard unchanged |
| StructuredData.DictGuardNeverFires | server.py:52-56 | the nodes past the `isinstance(node, dict)` guard are exactly the nodes visited, so the guard never skips anything |
| StructuredData.VisitedNodesAreDictsOfBlocks | server.py:53-54 | a node is visited if and only if it is a dict inside one of the parsed blocks |
| StructuredData.VisitedNodesCount | server.py:53-54 | the loops visit as many nodes as there are dict nodes across all blocks |
| PricePattern.LeadEnd | server.py:13 | where the scanner puts the start of the number: past a `$` or case-insensitive `CAD` marker and its whitespace/dollar sign, at a digit |
| PricePattern.LeadEndComplete | server.py:13 | any marker-and-whitespace prefix from `p` that is followed by a digit ends exactly where `LeadEnd` says, so backtracking finds no other start |
| PricePattern.NumberEnd | server.py:13 | the greedy scan from a digit ends on a span the number grammar accepts |
| PricePattern.NumberEndLongest | server.py:13 | no span the number grammar accepts from that digit ends later than the greedy scan |
| PricePattern.SearchFrom | server.py:13 | from `p` on: a result is a match, no match starts earlier, and at its start every match has the same number start and ends no later; no result means no match from `p` on |
| PricePattern.FindPrice | server.py:13 | `re.search` semantics over the whole text: the leftmost match with the longest captured number, or none exactly when the pattern matches nowhere |
| PricePattern.CapturedPrice | server.py:13 | present exactly when `re.search` finds a match (`FindPrice`), and then it is the text of that leftmost match's number group, a number of the grammar; absent exactly when the pattern matches nowhere |
| PricePattern.MarkerRequired | server.py:13 | every match starts with a currency marker: a `$`, or `CAD` in any mix of case; there is no match without one |
| PricePattern.NoMarkerNoPrice | server.py:13 | text containing no `$`, `c` or `C` yields no price |
| PricePattern.FractionHasTwoDigits | server.py:13 | a dot in a captured number is third from the end and is followed by exactly two digits |
| PricePattern.ThousandsSeparatedPrice | server.py:13 | `$1,234.56` captures `1,234.56` |
| PricePattern.CadPrice | server.py:13 | `CAD $19.99` captures `19.99` |
| PricePattern.UngroupedThousandsTruncated | server.py:13 | `$1234.56` captures only `123`: four digits in a row are not extended and do not start a group |
| DomainRules.RuleHosts | server.py:15-33 | the table has exactly the hosts `ebgames.ca`, `gamestop.ca` and `amazon.ca`, with their listed phrases |
| DomainRules.PositivesAndNegativesDisjoint | server.py:15-33 | for every host, no phrase is both a positive and a negative |
| DomainRules.PreorderOnlyNegative | server.py:16-28 | for `ebgames.ca` and `gamestop.ca`, `pre-order`, `preorder` and `pre order` appear among the negatives and never among the positives |

## Left out

- The FastAPI application and its route (server.py:6-7, 11): HTTP plumbing with no decision logic.
- Page rendering through Playwright (server.py:9): a browser and network collaborator.
- BeautifulSoup's HTML parsing (server.py:8, 36): the page is modelled as the sequence of its elements, each with a tag name, an optional `type` attribute, its `.string` and its `.get_text()`.
- `json.loads` (server.py:39): modelled as the parameter `parse`, whose `None` stands for any exception the `except Exception: continue` swallows. That includes a `RecursionError` on deeply nested input.
- The laziness of the generators: `_walk` and `_jsonld_blocks` are modelled as the finite sequences they would yield in full. Python's recursion limit on very deep documents during `_walk` is not modelled.
- Python's full Unicode case mapping: `Lower` folds only the ASCII letters. For the two places it is used this is exact. No non-ASCII character lower-cases to a letter of "ld+json". IGNORECASE adds non-ASCII equivalents only for `i`, `k` and `s`, and none of these is in "CAD".
- The regex engine itself: the pattern is modelled as a grammar plus a scanner with `re.search`'s leftmost, greedy semantics. How the pattern is applied to the page, and the conversion of the captured text to a number, are not modelled.
- Uniqueness of dict keys: `json.loads` produces dicts with distinct keys. `Json.JsonValue` keeps a dict's members as an ordered list and does not enforce that, since the walk only reads the values.
- The rest of `availability_from_structured_data` after its dict guard, and every function after it (structured price, button semantics, keyword classification, the orchestrator): not modelled.
- The `urlparse` import (server.py:4): not used in the lines modelled.
