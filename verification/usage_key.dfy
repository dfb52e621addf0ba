/**
  Usage-key derivation: one node, in one workspace, under one dimension
  combination, is identified by the MD5 hash of
  `identifier|json(dimensions)|workspace`.
 */
module UsageKey {
  import opened Wrappers
  import opened Content
  import opened UsageStore

  const Separator: char := '|'

  /** The string that is hashed into a usage id. */
  function KeyInput(identifier: string, dimensionsJson: string, workspaceName: string): string
  {
    identifier + [Separator] + dimensionsJson + [Separator] + workspaceName
  }

  /** `getUsageId`: the hash of the identifier, the JSON-encoded dimensions and the workspace name. */
  function UsageId(env: Env, identifier: string, dimensions: Dimensions, workspaceName: string): string
  {
    env.md5(KeyInput(identifier, env.jsonEncode(dimensions), workspaceName))
  }

  /** The usage id of a node's own identifier, dimensions and workspace. */
  function NodeUsageId(env: Env, node: Node): string
  {
    UsageId(env, node.identifier, node.dimensions, node.workspace)
  }

  /** Index of the first occurrence of `c` in `s`, or `|s|` when there is none. */
  function FirstIndexOf(s: string, c: char): (i: nat)
    ensures i <= |s|
    ensures i < |s| ==> s[i] == c
    ensures forall j :: 0 <= j < i ==> s[j] != c
  {
    if |s| == 0 then 0
    else if s[0] == c then 0
    else 1 + FirstIndexOf(s[1..], c)
  }

  /** Index of the last occurrence of `c` in `s`, or -1 when there is none. */
  function LastIndexOf(s: string, c: char): (i: int)
    ensures -1 <= i < |s|
    ensures i >= 0 ==> s[i] == c
    ensures forall j :: i < j < |s| ==> s[j] != c
  {
    if |s| == 0 then -1
    else if s[|s| - 1] == c then |s| - 1
    else LastIndexOf(s[..|s| - 1], c)
  }

  /**
    Reads a key input back into (identifier, dimensions JSON, workspace name):
    the identifier ends at the first separator, the workspace name starts
    after the last one.
   */
  function SplitKeyInput(s: string): Option<(string, string, string)>
  {
    var i := FirstIndexOf(s, Separator);
    var j := LastIndexOf(s, Separator);
    if 0 <= i < j then Some((s[..i], s[i + 1..j], s[j + 1..])) else None
  }

  /**
    The hashed string determines the triple: when neither the identifier nor
    the workspace name contains the separator, splitting the key input gives
    back exactly the identifier, the dimensions JSON and the workspace name.
   */
  lemma SplitKeyInputInverts(identifier: string, dimensionsJson: string, workspaceName: string)
    requires Separator !in identifier && Separator !in workspaceName
    ensures SplitKeyInput(KeyInput(identifier, dimensionsJson, workspaceName))
         == Some((identifier, dimensionsJson, workspaceName))
  {
    var s := KeyInput(identifier, dimensionsJson, workspaceName);
    var a := |identifier|;
    var b := a + 1 + |dimensionsJson|;
    assert s[a] == Separator;
    assert forall j :: 0 <= j < a ==> s[j] == identifier[j];
    assert forall j :: 0 <= j < a ==> s[j] != Separator;
    assert forall j :: b < j < |s| ==> s[j] == workspaceName[j - b - 1];
    assert forall j :: b < j < |s| ==> s[j] != Separator;
    assert s[b] == Separator;
    var i := FirstIndexOf(s, Separator);
    var k := LastIndexOf(s, Separator);
    assert i == a;
    assert |s| == b + 1 + |workspaceName|;
    assert k == b;
    assert s[..a] == identifier;
    assert s[a + 1..b] == dimensionsJson;
    assert s[b + 1..] == workspaceName;
  }

  /**
    Two triples whose key inputs coincide are the same triple (for separator-free
    identifiers and workspace names), so equal keys can only come from a hash
    collision, never from the joining itself.
   */
  lemma KeyInputInjective(id1: string, json1: string, ws1: string, id2: string, json2: string, ws2: string)
    requires Separator !in id1 && Separator !in ws1 && Separator !in id2 && Separator !in ws2
    requires KeyInput(id1, json1, ws1) == KeyInput(id2, json2, ws2)
    ensures id1 == id2 && json1 == json2 && ws1 == ws2
  {
    SplitKeyInputInverts(id1, json1, ws1);
    SplitKeyInputInverts(id2, json2, ws2);
  }

  /**
    The separator condition is needed: a `|` inside an identifier can move
    into the dimensions JSON without changing the hashed string.
   */
  lemma SeparatorInIdentifierIsAmbiguous()
    ensures KeyInput("a|b", "c", "w") == KeyInput("a", "b|c", "w")
    ensures "a|b" != "a"
  {
  }
}
