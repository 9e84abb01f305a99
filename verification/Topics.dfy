/** MQTT topic filters (section 4.7.1, without the rule for '$' of 4.7.2) and the command
    topics built on them. */
module Topics {
  import opened Wrappers
  import opened Texts

  // ---- levels ---------------------------------------------------------------------------

  /** A filter against a topic, level by level. */
  predicate MatchLevels(f: seq<string>, t: seq<string>) {
    if f == [] then t == []
    else if f[0] == "#" then true
    else t != [] && (f[0] == "+" || f[0] == t[0]) && MatchLevels(f[1..], t[1..])
  }

  predicate Matches(filter: string, topic: string) {
    MatchLevels(Split(filter, '/'), Split(topic, '/'))
  }

  lemma NextLevel(s: string, start: nat, i: nat, out: seq<string>)
    requires start <= i < |s| && s[i] == '/' && '/' !in s[start..i]
    ensures out + Split(s[start..], '/') == out + [s[start..i]] + Split(s[i + 1..], '/')
  {
    SplitAfter(s[start..i], s[i + 1..], '/');
    assert s[start..] == s[start..i] + ['/'] + s[i + 1..];
  }

  method SplitTopic(s: string) returns (out: seq<string>)
    ensures out == Split(s, '/')
  {
    out := [];
    var start := 0;
    for i := 0 to |s|
      invariant start <= i
      invariant '/' !in s[start..i]
      invariant Split(s, '/') == out + Split(s[start..], '/')
    {
      if s[i] == '/' {
        NextLevel(s, start, i, out);
        out := out + [s[start..i]];
        start := i + 1;
      } else {
        assert s[start..i + 1] == s[start..i] + [s[i]];
      }
    }
    assert s[start..] == s[start..|s|];
    SplitWhole(s[start..], '/');
    out := out + [s[start..]];
  }

  method TopicMatches(filter: string, topic: string) returns (r: bool)
    ensures r == Matches(filter, topic)
  {
    var f := SplitTopic(filter);
    var t := SplitTopic(topic);
    for i := 0 to |f|
      invariant i <= |t|
      invariant MatchLevels(f, t) == MatchLevels(f[i..], t[i..])
    {
      var part := f[i];
      if part == "#" {
        return true;
      }
      if i >= |t| {
        return false;
      }
      if part != "+" && part != t[i] {
        return false;
      }
      assert f[i..][1..] == f[i + 1..] && t[i..][1..] == t[i + 1..];
    }
    return |f| == |t|;
  }

  function FirstHash(f: seq<string>): (h: nat)
    ensures h <= |f| && (h < |f| ==> f[h] == "#") && "#" !in f[..h]
  {
    if f == [] || f[0] == "#" then 0 else 1 + FirstHash(f[1..])
  }

  ghost predicate LevelsAgree(f: seq<string>, t: seq<string>, n: nat) {
    n <= |f| && n <= |t| && forall i :: 0 <= i < n ==> f[i] == "+" || f[i] == t[i]
  }

  /** What the match means: a topic agrees with every level before the first '#', which
      then stands for any number of further levels, none included; without a '#' it has
      as many levels as the filter. */
  lemma {:induction false} MatchMeans(f: seq<string>, t: seq<string>)
    ensures MatchLevels(f, t) <==> LevelsAgree(f, t, FirstHash(f)) && (FirstHash(f) < |f| || |t| == |f|)
  {
    if f != [] && f[0] != "#" && t != [] {
      MatchMeans(f[1..], t[1..]);
      var n := FirstHash(f[1..]);
      assert forall i :: 1 <= i < |f| ==> f[i] == f[1..][i - 1];
      assert forall i :: 1 <= i < |t| ==> t[i] == t[1..][i - 1];
      assert LevelsAgree(f, t, n + 1) <==> (f[0] == "+" || f[0] == t[0]) && LevelsAgree(f[1..], t[1..], n);
    }
  }

  lemma {:induction false} JoinConcat(l: seq<string>, m: seq<string>)
    requires l != [] && m != []
    ensures Join(l + m, '/') == Join(l, '/') + "/" + Join(m, '/')
  {
    if |l| == 1 {
      assert (l + m)[1..] == m;
    } else {
      JoinConcat(l[1..], m);
      assert (l + m)[1..] == l[1..] + m;
    }
  }

  lemma SplitConcat(a: string, b: string)
    ensures Split(a + "/" + b, '/') == Split(a, '/') + Split(b, '/')
  {
    var l, m := Split(a, '/'), Split(b, '/');
    JoinSplit(a, '/');
    JoinSplit(b, '/');
    JoinConcat(l, m);
    forall p | p in l + m ensures '/' !in p {
      assert p in l || p in m;
    }
    SplitJoin(l + m, '/');
  }

  // ---- command topics ---------------------------------------------------------------------

  const DEFAULT_PREFIX := "haigosmart"

  /** withDefaults, as far as the topic root goes. */
  function Root(prefix: string): string {
    if prefix == "" then DEFAULT_PREFIX else prefix
  }

  function CommandTopic(prefix: string, id: string): string {
    Root(prefix) + "/light/" + id + "/set"
  }

  function CommandFilter(prefix: string): string {
    CommandTopic(prefix, "+")
  }

  predicate WildcardFree(prefix: string) {
    "+" !in Split(Root(prefix), '/') && "#" !in Split(Root(prefix), '/')
  }

  lemma FourParts(a: string, b: string, c: string, d: string)
    requires '/' !in b && '/' !in c && '/' !in d
    ensures Split(a + "/" + b + "/" + c + "/" + d, '/') == Split(a, '/') + [b, c, d]
  {
    SplitWhole(b, '/');
    SplitWhole(c, '/');
    SplitWhole(d, '/');
    SplitConcat(a + "/" + b + "/" + c, d);
    SplitConcat(a + "/" + b, c);
    SplitConcat(a, b);
  }

  lemma CommandTopicJoined(prefix: string, id: string)
    ensures CommandTopic(prefix, id) == Root(prefix) + "/" + "light" + "/" + id + "/" + "set"
  {
    var root := Root(prefix);
    assert "/light/" == "/" + "light" + "/" && "/set" == "/" + "set";
    assert root + "/light/" == root + "/" + "light" + "/";
    assert root + "/light/" + id + "/set" == root + "/light/" + id + "/" + "set";
  }

  lemma CommandLevels(prefix: string, id: string)
    requires '/' !in id
    ensures Split(CommandTopic(prefix, id), '/') == Split(Root(prefix), '/') + ["light", id, "set"]
    ensures Root(prefix) == if prefix == "" then "haigosmart" else prefix
  {
    FourParts(Root(prefix), "light", id, "set");
    CommandTopicJoined(prefix, id);
  }

  ghost predicate IsCommandTopic(prefix: string, topic: string) {
    exists id :: '/' !in id && topic == CommandTopic(prefix, id)
  }

  lemma SameLevels(prefix: string, topic: string, id: string)
    requires '/' !in id && Split(topic, '/') == Split(Root(prefix), '/') + ["light", id, "set"]
    ensures topic == CommandTopic(prefix, id)
  {
    CommandLevels(prefix, id);
    JoinSplit(topic, '/');
    JoinSplit(CommandTopic(prefix, id), '/');
  }

  lemma LevelNext(f: seq<string>, t: seq<string>)
    requires f != [] && f[0] != "#" && MatchLevels(f, t)
    ensures t != [] && (f[0] == "+" || f[0] == t[0]) && MatchLevels(f[1..], t[1..])
  {
  }

  lemma ThreeLevels(t: seq<string>)
    requires MatchLevels(["light", "+", "set"], t)
    ensures |t| == 3 && t == ["light", t[1], "set"]
  {
    var f := ["light", "+", "set"];
    LevelNext(f, t);
    assert f[1..] == ["+", "set"];
    LevelNext(f[1..], t[1..]);
    assert f[1..][1..] == ["set"];
    LevelNext(f[1..][1..], t[1..][1..]);
    assert f[1..][1..][1..] == [];
  }

  lemma {:induction false} RootThenThree(root: seq<string>, t: seq<string>)
    requires "+" !in root && "#" !in root && MatchLevels(root + ["light", "+", "set"], t)
    ensures |t| == |root| + 3 && t == root + ["light", t[|root| + 1], "set"]
  {
    var tail := ["light", "+", "set"];
    if root == [] {
      assert root + tail == tail;
      ThreeLevels(t);
    } else {
      assert (root + tail)[1..] == root[1..] + tail && (root + tail)[0] == root[0];
      RootThenThree(root[1..], t[1..]);
      assert t == [root[0]] + t[1..] && root == [root[0]] + root[1..];
    }
  }

  lemma OnlyCommandsMatch(prefix: string, topic: string)
    requires WildcardFree(prefix) && Matches(CommandFilter(prefix), topic)
    ensures IsCommandTopic(prefix, topic)
  {
    var root, t := Split(Root(prefix), '/'), Split(topic, '/');
    CommandLevels(prefix, "+");
    RootThenThree(root, t);
    var id := t[|root| + 1];
    JoinSplit(topic, '/');
    assert id in t;
    SameLevels(prefix, topic, id);
  }

  /** For a root without wildcards, a topic matches the command filter exactly when it is
      the command topic of an id without a slash. */
  lemma FilterMatchesCommands(prefix: string, topic: string)
    requires WildcardFree(prefix)
    ensures Matches(CommandFilter(prefix), topic) <==> IsCommandTopic(prefix, topic)
  {
    if Matches(CommandFilter(prefix), topic) {
      OnlyCommandsMatch(prefix, topic);
    }
    if id :| '/' !in id && topic == CommandTopic(prefix, id) {
      var f := Split(Root(prefix), '/') + ["light", "+", "set"];
      CommandLevels(prefix, "+");
      CommandLevels(prefix, id);
      MatchMeans(f, Split(topic, '/'));
    }
  }

  /** A wildcard in the configured root is taken literally when a command topic is built
      and as a wildcard by the broker, so the filter then takes in topics of nobody. */
  lemma WildcardOverreaches(prefix: string, j: nat) returns (topic: string)
    requires j < |Split(Root(prefix), '/')| && Split(Root(prefix), '/')[j] in {"+", "#"}
    ensures Matches(CommandFilter(prefix), topic) && !IsCommandTopic(prefix, topic)
  {
    var root := Split(Root(prefix), '/');
    var f := root + ["light", "+", "set"];
    var t := f[j := "x"];
    topic := Join(t, '/');
    CommandLevels(prefix, "+");
    JoinSplit(CommandFilter(prefix), '/');
    forall level | level in t ensures '/' !in level {
      assert level == "x" || level in f;
    }
    SplitJoin(t, '/');
    assert f[j] == root[j];
    MatchMeans(f, t);
    if id :| '/' !in id && topic == CommandTopic(prefix, id) {
      CommandLevels(prefix, id);
      assert t[j] == "x" && t[j] == root[j];
    }
  }

  /** The filter takes in command topics alone exactly when the root has no wildcard. */
  lemma FilterIsExact(prefix: string)
    ensures WildcardFree(prefix)
       <==> forall topic :: Matches(CommandFilter(prefix), topic) ==> IsCommandTopic(prefix, topic)
  {
    if WildcardFree(prefix) {
      forall topic | Matches(CommandFilter(prefix), topic) ensures IsCommandTopic(prefix, topic) {
        FilterMatchesCommands(prefix, topic);
      }
    } else {
      var root := Split(Root(prefix), '/');
      var j :| 0 <= j < |root| && root[j] in {"+", "#"};
      var topic := WildcardOverreaches(prefix, j);
    }
  }

  predicate HasPrefix(s: string, p: string) {
    p <= s
  }

  predicate HasSuffix(s: string, p: string) {
    |p| <= |s| && s[|s| - |p|..] == p
  }

  function TrimSuffix(s: string, p: string): string {
    if HasSuffix(s, p) then s[..|s| - |p|] else s
  }

  function DeviceIDFromCommandTopic(prefix: string, topic: string): Option<string> {
    var p := Root(prefix) + "/light/";
    if !HasPrefix(topic, p) || !HasSuffix(topic, "/set") then None
    else
      var id := TrimSuffix(topic[|p|..], "/set");
      if id == "" || '/' in id then None else Some(id)
  }

  /** The one topic on which the prefix and the suffix overlap in a slash. */
  function Overlap(prefix: string): string {
    Root(prefix) + "/light/set"
  }

  lemma CommandTopicParts(prefix: string, id: string)
    ensures CommandTopic(prefix, id) == (Root(prefix) + "/light/") + (id + "/set")
  {
  }

  lemma CommandTopicParses(prefix: string, id: string)
    ensures DeviceIDFromCommandTopic(prefix, CommandTopic(prefix, id))
         == if id == "" || '/' in id then None else Some(id)
  {
    var topic, p, tail := CommandTopic(prefix, id), Root(prefix) + "/light/", id + "/set";
    CommandTopicParts(prefix, id);
    assert topic[|p|..] == tail && tail[|id|..] == "/set" && tail[..|id|] == id;
    assert topic[|topic| - 4..] == "/set";
  }

  lemma OverlapParses(prefix: string)
    ensures DeviceIDFromCommandTopic(prefix, Overlap(prefix)) == Some("set")
  {
    var topic, p := Overlap(prefix), Root(prefix) + "/light/";
    assert topic == p + "set";
    assert topic[|p|..] == "set" && topic[|topic| - 4..] == "/set";
  }

  lemma RestIsOneOfThese(p: string, rest: string)
    requires HasSuffix(p, "/light/") && HasSuffix(p + rest, "/set")
    ensures if HasSuffix(rest, "/set") then rest == rest[..|rest| - 4] + "/set" else rest == "set"
  {
    if |rest| >= 4 {
      assert (p + rest)[|p + rest| - 4..] == rest[|rest| - 4..];
    } else {
      OverlapIsOneSlash(p, rest);
    }
  }

  /** Nothing else is parsed at all. */
  lemma ParsedIsOneOfThese(prefix: string, topic: string)
    requires DeviceIDFromCommandTopic(prefix, topic).Some?
    ensures || topic == CommandTopic(prefix, DeviceIDFromCommandTopic(prefix, topic).value)
            || topic == Overlap(prefix)
  {
    var p := Root(prefix) + "/light/";
    var rest := topic[|p|..];
    assert topic == p + rest;
    assert p[|p| - 7..] == "/light/";
    RestIsOneOfThese(p, rest);
    if HasSuffix(rest, "/set") {
      CommandTopicParts(prefix, rest[..|rest| - 4]);
    } else {
      assert p + "set" == Overlap(prefix);
    }
  }

  /** The parser answers an id exactly for that id's command topic, provided the id is not
      empty and has no slash - and, besides, answers "set" for the overlapping topic,
      which is no lamp's command topic. */
  lemma ParsedExactly(prefix: string, topic: string, id: string)
    ensures DeviceIDFromCommandTopic(prefix, topic) == Some(id)
       <==> id != "" && '/' !in id
            && (topic == CommandTopic(prefix, id) || (id == "set" && topic == Overlap(prefix)))
  {
    CommandTopicParses(prefix, id);
    OverlapParses(prefix);
    if DeviceIDFromCommandTopic(prefix, topic) == Some(id) {
      ParsedIsOneOfThese(prefix, topic);
    }
  }

  lemma OverlapIsOneSlash(p: string, rest: string)
    requires HasSuffix(p, "/light/") && |rest| < 4 && HasSuffix(p + rest, "/set")
    ensures rest == "set"
  {
    var s := p + rest;
    var k := |s| - 4;
    assert s[k..][0] == '/' && s[k..][1] == 's' && s[k..][2] == 'e' && s[k..][3] == 't';
    assert s[k] == '/' && s[k + 1] == 's' && s[k + 2] == 'e' && s[k + 3] == 't';
    var j := |p| - 7;
    assert p[j..][6] == '/' && p[j..][5] == 't' && p[j..][4] == 'h' && p[j..][3] == 'g';
    assert s[|p| - 1] == '/' && s[|p| - 2] == 't' && s[|p| - 3] == 'h' && s[|p| - 4] == 'g';
  }

  /** On the topics the broker delivers for the filter the parser is exact: it answers the
      id of the command topic and refuses only the empty one. */
  lemma DeliveredTopicsParse(prefix: string, topic: string)
    requires WildcardFree(prefix)
    requires Matches(CommandFilter(prefix), topic)
    ensures exists id :: '/' !in id && topic == CommandTopic(prefix, id)
              && DeviceIDFromCommandTopic(prefix, topic) == if id == "" then None else Some(id)
  {
    FilterMatchesCommands(prefix, topic);
    var id :| '/' !in id && topic == CommandTopic(prefix, id);
    ParsedExactly(prefix, topic, id);
    assert |CommandTopic(prefix, "")| == |Root(prefix)| + 11 && |Overlap(prefix)| == |Root(prefix)| + 10;
    if id == "" && DeviceIDFromCommandTopic(prefix, topic).Some? {
      var other := DeviceIDFromCommandTopic(prefix, topic).value;
      ParsedExactly(prefix, topic, other);
    }
  }
}
