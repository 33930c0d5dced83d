/** crates/stardust/src/message.rs: bus messages and topic patterns. */
module Messages {
  /** `params` stands for the parameter bytes read as text, which is all the broker does with them. */
  datatype Message = Message(id: nat, src: string, dst: string, topic: string, params: string, ts: nat)

  const WILDCARD: string := ".*"

  predicate EndsWith(s: string, suffix: string) {
    |suffix| <= |s| && s[|s| - |suffix|..] == suffix
  }

  /** `matches_topic`, on the message's method and the subscribed pattern. */
  predicate MatchesTopic(topic: string, pattern: string) {
    if pattern == "*" then true
    else if EndsWith(pattern, WILDCARD) then pattern[..|pattern| - |WILDCARD|] <= topic
    else topic == pattern
  }

  /**
   * What a pattern matches: `*` everything, `p.*` exactly the topics that begin with p, and any
   * other pattern exactly itself.
   */
  lemma MatchesExactly(topic: string, pattern: string)
    ensures pattern == "*" ==> MatchesTopic(topic, pattern)
    ensures forall p: string :: pattern == p + ".*" ==>
      (MatchesTopic(topic, pattern) <==> exists rest: string :: topic == p + rest)
    ensures pattern != "*" && !(exists p: string :: pattern == p + ".*") ==>
      (MatchesTopic(topic, pattern) <==> topic == pattern)
  {
    forall p: string | pattern == p + ".*"
      ensures MatchesTopic(topic, pattern) <==> exists rest: string :: topic == p + rest
    {
      assert pattern[|p|..] == ".*" && pattern[..|p|] == p && |pattern| == |p| + 2;
      if MatchesTopic(topic, pattern) {
        assert topic == p + topic[|p|..];
      }
    }
    if EndsWith(pattern, WILDCARD) {
      assert pattern == pattern[..|pattern| - 2] + ".*";
    }
  }

  /** A topic is covered by a pattern, spelled out. */
  ghost predicate Covers(pattern: string, topic: string) {
    pattern == "*" || pattern == topic || exists p: string, rest: string :: pattern == p + ".*" && topic == p + rest
  }

  lemma MatchesIsCovers(topic: string, pattern: string)
    ensures MatchesTopic(topic, pattern) <==> Covers(pattern, topic)
  {
    MatchesExactly(topic, pattern);
    if p: string :| pattern == p + ".*" {
      if pattern == topic {
        assert topic == p + ".*";
      }
      if rest: string :| topic == p + rest {
        assert Covers(pattern, topic);
      }
      forall q: string, rest: string | pattern == q + ".*" && topic == q + rest
        ensures q == p
      {
        assert q == pattern[..|pattern| - 2] == p;
      }
    }
  }

  /** The reading the documented example suggests: `p.*` stands for `p.` and anything after it. */
  predicate MatchesBelow(topic: string, pattern: string) {
    if pattern == "*" then true
    else if EndsWith(pattern, WILDCARD) then pattern[..|pattern| - 1] <= topic
    else topic == pattern
  }

  /** The code drops the dot with the star, so it accepts everything that reading accepts. */
  lemma CodeMatchesMore(topic: string, pattern: string)
    requires MatchesBelow(topic, pattern)
    ensures MatchesTopic(topic, pattern)
  {
    if EndsWith(pattern, WILDCARD) {
      assert pattern[..|pattern| - 1][..|pattern| - |WILDCARD|] == pattern[..|pattern| - |WILDCARD|];
    }
  }

  /** It agrees with that reading on every topic exactly for the patterns without a wildcard. */
  lemma WildcardDropsTheDot(pattern: string)
    ensures (forall topic :: MatchesTopic(topic, pattern) <==> MatchesBelow(topic, pattern)) <==>
      !EndsWith(pattern, WILDCARD)
  {
    if EndsWith(pattern, WILDCARD) {
      var prefix := pattern[..|pattern| - |WILDCARD|];
      assert pattern != "*";
      assert MatchesTopic(prefix, pattern) && !MatchesBelow(prefix, pattern);
    }
  }

  /** `network.*` also catches `networking`. */
  lemma WildcardCatchesSiblings()
    ensures MatchesTopic("networking", "network.*") && !MatchesBelow("networking", "network.*")
  {
    assert EndsWith("network.*", WILDCARD) by {
      assert "network.*"[7..] == ".*";
    }
    assert "network.*"[..7] == "network" && "networking"[..7] == "network";
    assert "network.*"[..8] == "network." && "networking"[7] != '.';
  }
}
