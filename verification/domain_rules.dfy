/**
 `DOMAIN_RULES`: the per-site phrase table, a constant built once at start-up
 and only read afterwards. Each host maps to its "positives" (phrases that
 signal the product can be bought) and "negatives" (phrases that signal it
 cannot), each kept in the order the table lists them.
 */
module DomainRules {

  datatype RuleSet = RuleSet(positives: seq<string>, negatives: seq<string>)

  const EbgamesPositives: seq<string> :=
    ["add to cart", "buy now", "in stock", "available online",
     "ship to home", "pick up today", "online availability: in stock"]
  const EbgamesNegatives: seq<string> :=
    ["out of stock", "sold out", "unavailable", "not available",
     "no longer available", "coming soon",
     "pre-order", "preorder", "pre order",
     "online availability: out of stock"]

  const GamestopPositives: seq<string> :=
    ["add to cart", "buy now", "in stock", "available online"]
  const GamestopNegatives: seq<string> :=
    ["out of stock", "sold out", "unavailable", "not available", "coming soon",
     "pre-order", "preorder", "pre order"]

  const AmazonPositives: seq<string> :=
    ["in stock", "add to cart", "buy now"]
  const AmazonNegatives: seq<string> :=
    ["currently unavailable", "temporarily out of stock", "out of stock"]

  const Rules: map<string, RuleSet> := map[
    "ebgames.ca" := RuleSet(EbgamesPositives, EbgamesNegatives),
    "gamestop.ca" := RuleSet(GamestopPositives, GamestopNegatives),
    "amazon.ca" := RuleSet(AmazonPositives, AmazonNegatives)
  ]

  /** The spellings of "pre-order" the table treats as a sign the product cannot be bought yet. */
  const PreorderPhrases: seq<string> := ["pre-order", "preorder", "pre order"]

  /** The table has exactly three hosts, each with its own phrase lists. */
  lemma RuleHosts()
    ensures Rules.Keys == {"ebgames.ca", "gamestop.ca", "amazon.ca"}
    ensures Rules["ebgames.ca"] == RuleSet(EbgamesPositives, EbgamesNegatives)
    ensures Rules["gamestop.ca"] == RuleSet(GamestopPositives, GamestopNegatives)
    ensures Rules["amazon.ca"] == RuleSet(AmazonPositives, AmazonNegatives)
  {
  }

  /** The positives and negatives of one rule set share no phrase. */
  predicate Disjoint(r: RuleSet) {
    forall x :: x in r.positives ==> x !in r.negatives
  }

  lemma AllAbsent(xs: seq<string>, ys: seq<string>)
    requires forall i :: 0 <= i < |xs| ==> xs[i] !in ys
    ensures forall x :: x in xs ==> x !in ys
  {
  }

  lemma EbgamesDisjoint()
    ensures Disjoint(RuleSet(EbgamesPositives, EbgamesNegatives))
  {
    var p, n := EbgamesPositives, EbgamesNegatives;
    assert p[0] !in n;
    assert p[1] !in n;
    assert p[2] !in n;
    assert p[3] !in n;
    assert p[4] !in n;
    assert p[5] !in n;
    assert p[6] !in n;
    AllAbsent(p, n);
  }

  lemma GamestopDisjoint()
    ensures Disjoint(RuleSet(GamestopPositives, GamestopNegatives))
  {
    var p, n := GamestopPositives, GamestopNegatives;
    assert p[0] !in n;
    assert p[1] !in n;
    assert p[2] !in n;
    assert p[3] !in n;
    AllAbsent(p, n);
  }

  lemma AmazonDisjoint()
    ensures Disjoint(RuleSet(AmazonPositives, AmazonNegatives))
  {
    var p, n := AmazonPositives, AmazonNegatives;
    assert p[0] !in n;
    assert p[1] !in n;
    assert p[2] !in n;
    AllAbsent(p, n);
  }

  /** No host lists a phrase as both a positive and a negative. */
  lemma PositivesAndNegativesDisjoint()
    ensures forall host :: host in Rules ==> Disjoint(Rules[host])
  {
    RuleHosts();
    EbgamesDisjoint();
    GamestopDisjoint();
    AmazonDisjoint();
  }

  /** On ebgames.ca and gamestop.ca every spelling of "pre-order" is a negative and none is a positive. */
  lemma PreorderOnlyNegative()
    ensures forall host, p :: host in {"ebgames.ca", "gamestop.ca"} && p in PreorderPhrases ==>
      host in Rules && p in Rules[host].negatives && p !in Rules[host].positives
  {
    RuleHosts();
  }
}
