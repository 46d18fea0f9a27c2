/** What the coordinator and the router share: agents seen through their
    `IAgent` shape, the name-keyed agent dictionary, and the substitution of
    the `{{agents}}` and `{{messages}}` placeholders in a planning prompt. */
module Agents {
  import opened Wrappers
  import opened Seqs
  import opened Text
  import opened Chat

  /** An agent's `GetResponseAsync`: the response messages it gives for a
      conversation. The language model behind it is not modelled. */
  type Respond = seq<Msg> -> seq<Msg>

  /** An `IAgent`: its name, its description and its behaviour. */
  datatype AgentInfo = AgentInfo(name: string, description: string, respond: Respond)

  /** `agents.ToDictionary(a => a.Name)`: keyed by exact (ordinal) name. */
  type Registry = map<string, Respond>

  datatype RegistryError = DuplicateAgentName(name: string)

  function Names(agents: seq<AgentInfo>): (r: seq<string>)
    ensures |r| == |agents|
    ensures forall i :: 0 <= i < |agents| ==> r[i] == agents[i].name
  {
    seq(|agents|, i requires 0 <= i < |agents| => agents[i].name)
  }

  /** Builds the dictionary; a name that occurs twice makes the construction
      throw, naming the first repeated key. */
  function BuildRegistry(agents: seq<AgentInfo>): (r: Result<Registry, RegistryError>)
    ensures r.Ok? <==> Distinct(Names(agents))
    ensures r.Ok? ==> forall name :: name in r.value <==> exists i :: 0 <= i < |agents| && agents[i].name == name
    ensures r.Ok? ==> forall i :: 0 <= i < |agents| ==> r.value[agents[i].name] == agents[i].respond
    ensures r.Err? ==> exists i, j :: 0 <= i < j < |agents| && agents[i].name == agents[j].name == r.error.name
  {
    var names := Names(agents);
    match FirstRepeat(names, {})
    case Some(name) =>
      assert !Distinct(names);
      var i, j :| 0 <= i < j < |names| && names[i] == names[j];
      DuplicateWitness(names, name);
      Err(DuplicateAgentName(name))
    case None =>
      Ok(map i | 0 <= i < |agents| :: agents[i].name := agents[i].respond)
  }

  /** The repeated key `FirstRepeat` reports occurs at two positions. */
  lemma DuplicateWitness(names: seq<string>, name: string)
    requires FirstRepeat(names, {}) == Some(name)
    ensures exists i, j :: 0 <= i < j < |names| && names[i] == names[j] == name
  {
    FirstRepeatTwice(names, {}, name);
  }

  lemma {:induction false} FirstRepeatTwice(s: seq<string>, seen: set<string>, x: string)
    requires FirstRepeat(s, seen) == Some(x)
    ensures x in seen || exists i, j :: 0 <= i < j < |s| && s[i] == s[j] == x
    decreases |s|
  {
    if s[0] !in seen {
      FirstRepeatTwice(s[1..], seen + {s[0]}, x);
      if x == s[0] {
        var j :| 0 <= j < |s[1..]| && s[1..][j] == x;
        assert s[0] == s[j + 1] == x;
      } else if x !in seen {
        var i, j :| 0 <= i < j < |s[1..]| && s[1..][i] == s[1..][j] == x;
        assert s[i + 1] == s[j + 1] == x;
      }
    }
  }

  const AgentsPlaceholder := "{{agents}}"
  const MessagesPlaceholder := "{{messages}}"

  /** `prompt.Replace("{{agents}}", agentsJson).Replace("{{messages}}",
      messagesJson)`: every occurrence of the first placeholder, then every
      occurrence of the second in the result, so a `{{messages}}` that the
      agent catalog brings in is substituted as well. */
  function SubstitutePrompt(template: string, agentsJson: string, messagesJson: string): (r: string)
    ensures !Contains(template, AgentsPlaceholder) && !Contains(template, MessagesPlaceholder) ==> r == template
    ensures !Contains(template, AgentsPlaceholder) ==> r == ReplaceAll(template, MessagesPlaceholder, messagesJson)
    ensures r == Join(Split(Join(Split(template, AgentsPlaceholder), agentsJson), MessagesPlaceholder), messagesJson)
  {
    var once := ReplaceAll(template, AgentsPlaceholder, agentsJson);
    ReplaceAllIsSplitJoin(template, AgentsPlaceholder, agentsJson);
    ReplaceAllIsSplitJoin(once, MessagesPlaceholder, messagesJson);
    ReplaceAllNoMatch(template, AgentsPlaceholder, agentsJson);
    ReplaceAllNoMatch(once, MessagesPlaceholder, messagesJson);
    ReplaceAll(once, MessagesPlaceholder, messagesJson)
  }

  /** A template made of placeholder-free text around one `{{agents}}`
      becomes that text around the catalog, with `{{messages}}` then
      substituted throughout. */
  lemma SubstituteOneAgentsPlaceholder(before: string, after: string, agentsJson: string, messagesJson: string)
    requires !Contains(before, AgentsPlaceholder)
    requires !Contains(after, AgentsPlaceholder)
    ensures SubstitutePrompt(before + AgentsPlaceholder + after, agentsJson, messagesJson)
         == ReplaceAll(before + agentsJson + after, MessagesPlaceholder, messagesJson)
  {
    var s := before + AgentsPlaceholder + after;
    var k := |before|;
    PlaceholderHasNoBorder();
    FirstOccurrence(before, after, AgentsPlaceholder);
    ReplaceAllAtFirst(s, AgentsPlaceholder, agentsJson, k);
    ReplaceAllNoMatch(after, AgentsPlaceholder, agentsJson);
    assert s[..k] == before;
    assert s[k + |AgentsPlaceholder|..] == after;
  }

  /** No proper suffix of `{{agents}}` is also a prefix of it, so two
      occurrences can never overlap. */
  lemma PlaceholderHasNoBorder()
    ensures forall m :: 0 < m < |AgentsPlaceholder| ==>
      AgentsPlaceholder[m..] != AgentsPlaceholder[..|AgentsPlaceholder| - m]
  {
    forall m | 0 < m < |AgentsPlaceholder|
      ensures AgentsPlaceholder[m..] != AgentsPlaceholder[..|AgentsPlaceholder| - m]
    {
      if m == 1 {
        assert AgentsPlaceholder[m..][1] != AgentsPlaceholder[..|AgentsPlaceholder| - m][1];
      } else {
        assert AgentsPlaceholder[m..][0] != AgentsPlaceholder[..|AgentsPlaceholder| - m][0];
      }
    }
  }

  /** `p` first occurs right after `before` in `before + p + after` when it
      does not occur in `before` and cannot overlap itself. */
  lemma FirstOccurrence(before: string, after: string, p: string)
    requires |p| > 0
    requires !Contains(before, p)
    requires forall m :: 0 < m < |p| ==> p[m..] != p[..|p| - m]
    ensures IndexOf(before + p + after, p) == Some(|before|)
  {
    var s := before + p + after;
    assert OccursAt(s, p, |before|) by {
      assert s[|before|..|before| + |p|] == p;
    }
    forall k | 0 <= k < |before| ensures !OccursAt(s, p, k) {
      if k + |p| <= |before| {
        assert before[k..k + |p|] == s[k..k + |p|];
        assert OccursAt(s, p, k) ==> OccursAt(before, p, k);
      } else {
        var m := |before| - k;
        assert s[|before|..k + |p|] == p[..|p| - m];
        assert s[k..k + |p|][m..] == s[|before|..k + |p|];
      }
    }
  }
}
