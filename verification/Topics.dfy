/** The topics of the message bus: routing keys of published messages, and the binding keys of those who listen. */
module Topics {
  import opened Strings
  import opened Wrappers

  datatype WorkspaceTopic = WorkspaceTopic(userid: string, wsid: string, subtopic: string)

  // ----- Topic exchanges (section 3.1.3.3 of the AMQP 0-9-1 specification)

  /** A star stands for one word, a hash for any number of words. */
  predicate WordsMatch(pattern: seq<string>, words: seq<string>) {
    if pattern == [] then words == []
    else if pattern[0] == "#" then WordsMatch(pattern[1..], words) || (words != [] && WordsMatch(pattern, words[1..]))
    else words != [] && (pattern[0] == "*" || pattern[0] == words[0]) && WordsMatch(pattern[1..], words[1..])
  }

  predicate TopicMatches(pattern: string, routingKey: string) {
    WordsMatch(Split(pattern, '.'), Split(routingKey, '.'))
  }

  // ----- The topic functions

  /** An empty string counts as missing. */
  function OrElse(part: Option<string>, default: string): string {
    if part.None? || part.value == "" then default else part.value
  }

  function GetSubscriptionUpdateTopic(attributionId: Option<string>): string {
    "subscription." + OrElse(attributionId, "*") + ".update"
  }

  function GetWsTopicBase(userid: Option<string>, wsid: Option<string>): string {
    OrElse(userid, "*") + "." + OrElse(wsid, "*")
  }

  function GetWsTopicForListening(userid: Option<string>, wsid: Option<string>, subtopic: Option<string>): string {
    GetWsTopicBase(userid, wsid) + ("." + OrElse(subtopic, "#"))
  }

  function GetWsTopicForPublishing(userid: string, wsid: string, subtopic: string): string {
    GetWsTopicForListening(Some(userid), Some(wsid), Some(subtopic))
  }

  function GetWsInformationFromTopic(topic: string): Option<WorkspaceTopic> {
    var segments := Split(topic, '.');
    if |segments| != 3 then None else Some(WorkspaceTopic(segments[0], segments[1], segments[2]))
  }

  function ParseWsTopicBase(topic: Option<string>): Option<string> {
    if OrElse(topic, "") == "" then None
    else
      var userId := Split(topic.value, '.')[0];
      if userId == "*" then None else Some(userId)
  }

  // ----- What they mean together

  predicate Given(part: Option<string>) {
    part.Some? && part.value != ""
  }

  /** A part that is given is one word of its own; `*` and `#` would stand for others. */
  predicate Plain(part: Option<string>) {
    Given(part) ==> Free(part.value, '.') && part.value != "*" && part.value != "#"
  }

  predicate Agrees(part: Option<string>, word: string) {
    Given(part) ==> part.value == word
  }

  lemma ThreeParts(a: string, b: string, c: string)
    ensures a + "." + b + ("." + c) == Join([a, b, c], '.')
  {
    assert [a, b, c][1..] == [b, c];
    assert [b, c][1..] == [c];
    assert Join([b, c], '.') == b + ['.'] + c;
    assert Join([a, b, c], '.') == a + ['.'] + (b + ['.'] + c);
  }

  lemma SplitThreeParts(a: string, b: string, c: string)
    requires Free(a, '.') && Free(b, '.') && Free(c, '.')
    ensures Split(a + "." + b + ("." + c), '.') == [a, b, c]
  {
    ThreeParts(a, b, c);
    SplitJoin([a, b, c], '.');
  }

  lemma {:induction false} HashMatchesAll(words: seq<string>)
    ensures WordsMatch(["#"], words)
  {
    if words != [] {
      HashMatchesAll(words[1..]);
    }
  }

  lemma MatchWord(pattern: seq<string>, words: seq<string>)
    requires pattern != [] && pattern[0] != "#"
    ensures WordsMatch(pattern, words) <==>
              words != [] && (pattern[0] == "*" || pattern[0] == words[0]) && WordsMatch(pattern[1..], words[1..])
  {
  }

  lemma PatternOfThree(a: string, b: string, c: string, words: seq<string>)
    requires a != "#" && b != "#"
    ensures WordsMatch([a, b, c], words) <==>
              && |words| >= 2 && (a == "*" || a == words[0]) && (b == "*" || b == words[1])
              && (c == "#" || (|words| == 3 && (c == "*" || c == words[2])))
  {
    MatchWord([a, b, c], words);
    assert [a, b, c][1..] == [b, c] && [b, c][1..] == [c];
    if words != [] {
      MatchWord([b, c], words[1..]);
      if |words| > 1 {
        assert words[1..][1..] == words[2..];
        if c == "#" {
          HashMatchesAll(words[2..]);
        } else {
          MatchWord([c], words[2..]);
        }
      }
    }
  }

  /** Who listens gets exactly the messages that agree with the parts given, whatever the routing key: a missing user or
      workspace stands for any one word, a missing subtopic for any number of them. */
  lemma ListeningMatchesExactlyWhen(userid: Option<string>, wsid: Option<string>, subtopic: Option<string>, routingKey: string)
    requires Plain(userid) && Plain(wsid) && Plain(subtopic)
    ensures var words := Split(routingKey, '.');
            TopicMatches(GetWsTopicForListening(userid, wsid, subtopic), routingKey) <==>
              && |words| >= 2 && Agrees(userid, words[0]) && Agrees(wsid, words[1])
              && (Given(subtopic) ==> |words| == 3 && subtopic.value == words[2])
  {
    var a, b, c := OrElse(userid, "*"), OrElse(wsid, "*"), OrElse(subtopic, "#");
    SplitThreeParts(a, b, c);
    PatternOfThree(a, b, c, Split(routingKey, '.'));
  }

  /** In particular, a published message reaches those who gave none of its parts or gave them right. */
  lemma PublishedReachesExactlyWhen(
      userid: Option<string>, wsid: Option<string>, subtopic: Option<string>, user: string, ws: string, sub: string)
    requires Plain(userid) && Plain(wsid) && Plain(subtopic)
    requires Free(user, '.') && Free(ws, '.') && Free(sub, '.') && user != "" && ws != "" && sub != ""
    ensures TopicMatches(GetWsTopicForListening(userid, wsid, subtopic), GetWsTopicForPublishing(user, ws, sub)) <==>
              Agrees(userid, user) && Agrees(wsid, ws) && Agrees(subtopic, sub)
  {
    SplitThreeParts(user, ws, sub);
    ListeningMatchesExactlyWhen(userid, wsid, subtopic, GetWsTopicForPublishing(user, ws, sub));
  }

  /** The parts of a published key can be read back exactly when each of them is one non-empty word. */
  lemma PublishedReadsBackExactlyWhen(user: string, ws: string, sub: string)
    ensures GetWsInformationFromTopic(GetWsTopicForPublishing(user, ws, sub)) == Some(WorkspaceTopic(user, ws, sub)) <==>
              Free(user, '.') && Free(ws, '.') && Free(sub, '.') && user != "" && ws != "" && sub != ""
  {
    if Free(user, '.') && Free(ws, '.') && Free(sub, '.') {
      SplitThreeParts(OrElse(Some(user), "*"), OrElse(Some(ws), "*"), OrElse(Some(sub), "#"));
    }
  }

  lemma FirstSegment(a: string, rest: string)
    requires Free(a, '.')
    ensures Split(a + "." + rest, '.')[0] == a
  {
    SplitAtFirst(a, '.', rest);
  }

  /** The user of a binding key can be read back exactly when it is missing altogether, or one non-empty word that is
      not itself the wildcard. */
  lemma BaseReadsBackExactlyWhen(userid: Option<string>, wsid: Option<string>, subtopic: Option<string>)
    ensures ParseWsTopicBase(Some(GetWsTopicForListening(userid, wsid, subtopic))) == userid <==>
              userid.None? || (userid.value != "" && Free(userid.value, '.') && userid.value != "*")
  {
    var a := OrElse(userid, "*");
    var rest := OrElse(wsid, "*") + ("." + OrElse(subtopic, "#"));
    var topic := GetWsTopicForListening(userid, wsid, subtopic);
    assert topic == a + "." + rest;
    if Free(a, '.') {
      FirstSegment(a, rest);
    }
  }

  /** What a routing key tells: its three parts if it has three, which then make up the key; nothing otherwise. */
  lemma InformationExactlyWhen(topic: string)
    ensures GetWsInformationFromTopic(topic).Some? <==>
              exists a, b, c :: IsJoinOf(topic, a, b, c)
    ensures forall a, b, c :: IsJoinOf(topic, a, b, c) ==> GetWsInformationFromTopic(topic) == Some(WorkspaceTopic(a, b, c))
  {
    forall a, b, c | IsJoinOf(topic, a, b, c)
      ensures GetWsInformationFromTopic(topic) == Some(WorkspaceTopic(a, b, c))
    {
      SplitThreeParts(a, b, c);
    }
    var parts := Split(topic, '.');
    if |parts| == 3 {
      JoinSplit(topic, '.');
      ThreeParts(parts[0], parts[1], parts[2]);
      assert parts == [parts[0], parts[1], parts[2]];
      assert IsJoinOf(topic, parts[0], parts[1], parts[2]);
    }
  }

  ghost predicate IsJoinOf(topic: string, a: string, b: string, c: string) {
    topic == a + "." + b + ("." + c) && Free(a, '.') && Free(b, '.') && Free(c, '.')
  }

  /** The user of a topic is whatever stands before its first dot, unless that is the wildcard. */
  lemma BaseExactlyWhen(topic: Option<string>, a: string, rest: string)
    requires Free(a, '.')
    ensures topic == None || topic == Some("") ==> ParseWsTopicBase(topic) == None
    ensures topic == Some(a + "." + rest) ==> ParseWsTopicBase(topic) == if a == "*" then None else Some(a)
    ensures topic == Some(a) && a != "" ==> ParseWsTopicBase(topic) == if a == "*" then None else Some(a)
  {
    FirstSegment(a, rest);
    SplitPart(a, '.');
  }

  /** The words of the topics, as other services have to spell them. */
  lemma TopicsAreSpelled(userid: Option<string>, wsid: Option<string>, subtopic: Option<string>, attributionId: Option<string>)
    ensures GetWsTopicForListening(userid, wsid, subtopic) ==
            (if Given(userid) then userid.value else "*") + "." + (if Given(wsid) then wsid.value else "*")
            + ("." + if Given(subtopic) then subtopic.value else "#")
    ensures GetSubscriptionUpdateTopic(attributionId) ==
            "subscription." + (if Given(attributionId) then attributionId.value else "*") + ".update"
  {
  }

  /** Updates of a subscription reach those who listen to it or to all of them, and nobody else. */
  lemma SubscriptionReachesExactlyWhen(listener: Option<string>, attributionId: string)
    requires Plain(listener) && Free(attributionId, '.') && attributionId != ""
    ensures TopicMatches(GetSubscriptionUpdateTopic(listener), GetSubscriptionUpdateTopic(Some(attributionId))) <==>
              Agrees(listener, attributionId)
  {
    var a := OrElse(listener, "*");
    assert "subscription." == "subscription" + ".";
    assert GetSubscriptionUpdateTopic(listener) == "subscription" + "." + a + ("." + "update");
    assert GetSubscriptionUpdateTopic(Some(attributionId)) == "subscription" + "." + attributionId + ("." + "update");
    SplitThreeParts("subscription", a, "update");
    SplitThreeParts("subscription", attributionId, "update");
    PatternOfThree("subscription", a, "update", ["subscription", attributionId, "update"]);
  }
}
