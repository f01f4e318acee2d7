/**
  Registering discovered commands: a tree of command nodes grown in place, kept in
  step with an index from space-separated prefixes to nodes.
*/
module CommandTree {
  import opened Wrappers
  import opened Text

  /** The words of a prefix. */
  type Path = seq<string>

  /**
    A node of the command tree. `executes` is the discovered command a leaf runs;
    `ambiguous` makes a namespace node answer with a disambiguation message.
  */
  class Node {
    const use: string
    const executes: Option<nat>
    const ambiguous: bool
    ghost const parent: Node?
    ghost const path: Path
    var children: seq<Node>

    constructor Root()
      ensures path == [] && parent == null
    {
      use, executes, ambiguous, parent, path := "", None, false, null, [];
      children := [];
    }

    constructor (use: string, executes: Option<nat>, ambiguous: bool, ghost parent: Node)
      ensures this.use == use && this.executes == executes && this.ambiguous == ambiguous && children == []
      ensures this.parent == parent && path == parent.path + [use]
    {
      this.use, this.executes, this.ambiguous := use, executes, ambiguous;
      this.parent, this.path := parent, parent.path + [use];
      children := [];
    }

    method AddCommand(child: Node)
      modifies this
      ensures children == old(children) + [child]
    {
      children := children + [child];
    }
  }

  // ---------- The tree invariant ----------

  /** The registered children of a node; the root may have had `others` before. */
  function Kids(root: Node, others: nat, m: Node): seq<Node>
    requires others <= |root.children|
    reads root, m
  {
    if m == root then root.children[others..] else m.children
  }

  /** No two children answer to the same word, and each is a registered node that knows its parent. */
  ghost predicate KidsValid(m: Node, kids: seq<Node>, nodes: set<Node>) {
    && (forall i :: 0 <= i < |kids| ==> kids[i] in nodes && kids[i].parent == m)
    && (forall i, j :: 0 <= i < j < |kids| ==> kids[i].use != kids[j].use)
  }

  /** A registered node hangs under the node one word shorter. */
  ghost predicate Hangs(root: Node, nodes: set<Node>, n: Node) {
    && n.parent != null && (n.parent == root || n.parent in nodes)
    && n.path == n.parent.path + [n.use]
  }

  ghost predicate TreeValid(root: Node, others: nat, nodes: set<Node>)
    reads root, nodes
  {
    && others <= |root.children| && root !in nodes && root.path == []
    && (forall n {:trigger Hangs(root, nodes, n)} :: n in nodes ==>
          Hangs(root, nodes, n) && n in Kids(root, others, n.parent))
    && (forall m {:trigger Kids(root, others, m)} :: m in nodes + {root} ==>
          KidsValid(m, Kids(root, others, m), nodes))
  }

  lemma KidsGrow(m: Node, kids: seq<Node>, nodes: set<Node>, node: Node)
    requires KidsValid(m, kids, nodes) && node.parent == m
    requires forall k :: k in kids ==> k.use != node.use
    ensures KidsValid(m, kids + [node], nodes + {node})
  {
  }

  /** `parent.AddCommand(node)` for a word that is new under the parent. */
  method Attach(root: Node, ghost others: nat, ghost nodes: set<Node>, parent: Node, node: Node)
    requires TreeValid(root, others, nodes) && (parent == root || parent in nodes)
    requires node !in nodes && node != root && node.children == []
    requires node.parent == parent && node.path == parent.path + [node.use]
    requires forall k :: k in Kids(root, others, parent) ==> k.use != node.use
    modifies parent
    ensures TreeValid(root, others, nodes + {node})
    ensures root.children[..others] == old(root.children[..others])
  {
    ghost var before := Kids(root, others, parent);
    ghost var grown := nodes + {node};
    parent.AddCommand(node);
    assert Kids(root, others, parent) == before + [node];
    forall m | m in grown + {root}
      ensures KidsValid(m, Kids(root, others, m), grown)
    {
      if m == parent {
        assert KidsValid(m, before, nodes);
        KidsGrow(m, before, nodes, node);
      } else if m != node {
        assert Kids(root, others, m) == old(Kids(root, others, m));
        assert KidsValid(m, old(Kids(root, others, m)), nodes);
      }
    }
    forall n | n in grown
      ensures Hangs(root, grown, n) && n in Kids(root, others, n.parent)
    {
      assert n != node ==> Hangs(root, nodes, n);
      if n == node {
        assert (before + [node])[|before|] == node;
      } else if n.parent == parent {
        assert n in before;
      } else {
        assert Kids(root, others, n.parent) == old(Kids(root, others, n.parent));
      }
    }
  }

  lemma SameWordSameKid(m: Node, kids: seq<Node>, nodes: set<Node>, a: Node, b: Node)
    requires KidsValid(m, kids, nodes) && a in kids && b in kids && a.use == b.use
    ensures a == b
  {
  }

  lemma RegisteredPathsNotEmpty(root: Node, others: nat, nodes: set<Node>)
    requires TreeValid(root, others, nodes)
    ensures forall n :: n in nodes ==> n.path != []
  {
    forall n | n in nodes
      ensures n.path != []
    {
      assert Hangs(root, nodes, n);
    }
  }

  // ---------- What registration produces ----------

  datatype CommandInfo = CommandInfo(simpleName: string)

  function Words(c: CommandInfo): Path {
    Fields(c.simpleName)
  }

  /** The first unambiguous command among the first `n` whose words begin with `p`. */
  function FirstUser(cmds: seq<CommandInfo>, ambiguous: set<string>, n: nat, p: Path): (r: Option<nat>)
    requires n <= |cmds|
    ensures r.Some? ==> r.value < n && cmds[r.value].simpleName !in ambiguous && p <= Words(cmds[r.value])
    ensures forall i: nat :: i < n && cmds[i].simpleName !in ambiguous && p <= Words(cmds[i]) ==> r.Some? && r.value <= i
  {
    if n == 0 then None
    else match FirstUser(cmds, ambiguous, n - 1, p)
         case Some(i) => Some(i)
         case None => if cmds[n - 1].simpleName !in ambiguous && p <= Words(cmds[n - 1]) then Some(n - 1) else None
  }

  /** The command a registered prefix executes: its first user, if that one ends there. */
  function Executes(cmds: seq<CommandInfo>, ambiguous: set<string>, n: nat, p: Path): Option<nat>
    requires n <= |cmds|
  {
    match FirstUser(cmds, ambiguous, n, p)
    case None => None
    case Some(i) => if Words(cmds[i]) == p then Some(i) else None
  }

  predicate AllFields(p: Path) {
    forall w :: w in p ==> IsField(w)
  }

  /** The index holds every registered node under its joined path, and nothing else. */
  ghost predicate Indexed(nodes: set<Node>, index: map<string, Node>) {
    && (forall k :: k in index ==> index[k] in nodes && k == JoinFields(index[k].path))
    && (forall x :: x in nodes ==> JoinFields(x.path) in index && index[JoinFields(x.path)] == x)
    && (forall x :: x in nodes ==> AllFields(x.path))
  }

  lemma JoinInjective(p: Path, q: Path)
    requires AllFields(p) && AllFields(q) && JoinFields(p) == JoinFields(q)
    ensures p == q
  {
    FieldsOfJoin(p);
    FieldsOfJoin(q);
  }

  /** Which prefixes are registered after `n` whole commands and `i` words of the next one. */
  predicate InTree(cmds: seq<CommandInfo>, ambiguous: set<string>, n: nat, i: nat, p: Path)
    requires n <= |cmds|
  {
    p != [] && (FirstUser(cmds, ambiguous, n, p).Some? || (n < |cmds| && p <= Words(cmds[n]) && |p| <= i))
  }

  /** The registered prefixes, and what each node does, when the first `m` commands decide. */
  ghost predicate Registered(cmds: seq<CommandInfo>, ambiguous: set<string>, n: nat, i: nat, m: nat,
                             nodes: set<Node>, index: map<string, Node>)
    requires n <= |cmds| && m <= |cmds|
  {
    && (forall p {:trigger InTree(cmds, ambiguous, n, i, p)} ::
          AllFields(p) ==> (JoinFields(p) in index <==> InTree(cmds, ambiguous, n, i, p)))
    && (forall x {:trigger x.executes} :: x in nodes ==>
          x.executes == Executes(cmds, ambiguous, m, x.path)
          && (x.ambiguous <==> x.executes.None? && JoinFields(x.path) in ambiguous))
  }

  /** The state between two words of the command being registered. */
  ghost predicate Consistent(root: Node, others: nat, cmds: seq<CommandInfo>, ambiguous: set<string>, n: nat, i: nat,
                             nodes: set<Node>, index: map<string, Node>, parent: Node)
    requires n < |cmds| && i <= |Words(cmds[n])|
    reads root, nodes
  {
    && TreeValid(root, others, nodes)
    && Indexed(nodes, index)
    && Registered(cmds, ambiguous, n, i, n + 1, nodes, index)
    && parent in nodes + {root} && parent.path == Words(cmds[n])[..i]
  }

  lemma NodeOfPrefix(nodes: set<Node>, index: map<string, Node>, p: Path)
    requires Indexed(nodes, index) && AllFields(p) && JoinFields(p) in index
    ensures index[JoinFields(p)] in nodes && index[JoinFields(p)].path == p
  {
    JoinInjective(p, index[JoinFields(p)].path);
  }

  lemma PrefixOfLength(p: Path, parts: Path, i: nat)
    requires p <= parts && |p| == i + 1
    ensures p == parts[..i + 1]
  {
  }

  /** Reusing a node registers nothing new. */
  lemma OneMoreWord(cmds: seq<CommandInfo>, ambiguous: set<string>, n: nat, i: nat, nodes: set<Node>, index: map<string, Node>)
    requires n < |cmds| && i < |Words(cmds[n])|
    requires Registered(cmds, ambiguous, n, i, n + 1, nodes, index)
    requires JoinFields(Words(cmds[n])[..i + 1]) in index
    ensures Registered(cmds, ambiguous, n, i + 1, n + 1, nodes, index)
  {
    var parts := Words(cmds[n]);
    forall p | AllFields(p)
      ensures JoinFields(p) in index <==> InTree(cmds, ambiguous, n, i + 1, p)
    {
      var before := InTree(cmds, ambiguous, n, i, p);
      if p <= parts && |p| == i + 1 {
        PrefixOfLength(p, parts, i);
      }
    }
  }

  /** A word whose prefix is not indexed is new under the parent. */
  lemma NewWord(root: Node, others: nat, nodes: set<Node>, index: map<string, Node>, parent: Node, word: string)
    requires TreeValid(root, others, nodes) && Indexed(nodes, index) && parent in nodes + {root}
    requires JoinFields(parent.path + [word]) !in index
    ensures forall k :: k in Kids(root, others, parent) ==> k.use != word
  {
    forall k | k in Kids(root, others, parent)
      ensures k.use != word
    {
      assert KidsValid(parent, Kids(root, others, parent), nodes);
      assert k in nodes && Hangs(root, nodes, k);
    }
  }

  lemma NewNodeIndexed(nodes: set<Node>, index: map<string, Node>, node: Node)
    requires Indexed(nodes, index) && AllFields(node.path) && JoinFields(node.path) !in index && node !in nodes
    ensures Indexed(nodes + {node}, index[JoinFields(node.path) := node])
  {
  }

  /** What the node for the first `i + 1` words of command `n` must be. */
  ghost predicate NodeFor(cmds: seq<CommandInfo>, ambiguous: set<string>, n: nat, i: nat, node: Node)
    requires n < |cmds| && i < |Words(cmds[n])|
  {
    var last := i == |Words(cmds[n])| - 1;
    && AllFields(node.path) && node.path == Words(cmds[n])[..i + 1]
    && node.executes == (if last then Some(n) else None)
    && node.ambiguous == (!last && JoinFields(node.path) in ambiguous)
  }

  lemma NewNodeExecutes(cmds: seq<CommandInfo>, ambiguous: set<string>, n: nat, i: nat, index: map<string, Node>, node: Node)
    requires n < |cmds| && i < |Words(cmds[n])| && cmds[n].simpleName !in ambiguous && NodeFor(cmds, ambiguous, n, i, node)
    requires !InTree(cmds, ambiguous, n, i, node.path)
    ensures node.executes == Executes(cmds, ambiguous, n + 1, node.path)
    ensures node.ambiguous <==> node.executes.None? && JoinFields(node.path) in ambiguous
  {
    var parts := Words(cmds[n]);
    assert FirstUser(cmds, ambiguous, n, node.path).None?;
    assert node.path <= parts && FirstUser(cmds, ambiguous, n + 1, node.path) == Some(n);
    assert parts == node.path <==> i == |parts| - 1;
  }

  lemma NewNodeRegistered(cmds: seq<CommandInfo>, ambiguous: set<string>, n: nat, i: nat,
                          nodes: set<Node>, index: map<string, Node>, node: Node)
    requires n < |cmds| && i < |Words(cmds[n])| && cmds[n].simpleName !in ambiguous && NodeFor(cmds, ambiguous, n, i, node)
    requires Indexed(nodes, index) && Registered(cmds, ambiguous, n, i, n + 1, nodes, index)
    requires JoinFields(node.path) !in index && node !in nodes
    ensures Registered(cmds, ambiguous, n, i + 1, n + 1, nodes + {node}, index[JoinFields(node.path) := node])
  {
    var parts, p := Words(cmds[n]), node.path;
    assert !InTree(cmds, ambiguous, n, i, p);
    NewNodeExecutes(cmds, ambiguous, n, i, index, node);
    forall q | AllFields(q)
      ensures JoinFields(q) in index[JoinFields(p) := node] <==> InTree(cmds, ambiguous, n, i + 1, q)
    {
      var before := InTree(cmds, ambiguous, n, i, q);
      if JoinFields(q) == JoinFields(p) {
        JoinInjective(q, p);
      } else if q <= parts && |q| == i + 1 {
        PrefixOfLength(q, parts, i);
      }
    }
  }

  /** Registers one word: an existing node is reused, a new one attached under the parent. */
  method RegisterWord(root: Node, ghost others: nat, cmds: seq<CommandInfo>, ambiguous: set<string>, n: nat, i: nat,
                      ghost nodes: set<Node>, index: map<string, Node>, parent: Node)
    returns (index': map<string, Node>, parent': Node, ghost nodes': set<Node>)
    requires n < |cmds| && i < |Words(cmds[n])| && cmds[n].simpleName !in ambiguous
    requires Consistent(root, others, cmds, ambiguous, n, i, nodes, index, parent)
    modifies parent
    ensures Consistent(root, others, cmds, ambiguous, n, i + 1, nodes', index', parent')
    ensures fresh(nodes' - nodes) && nodes <= nodes'
    ensures root.children[..others] == old(root.children[..others])
  {
    var parts := Words(cmds[n]);
    var prefix := JoinFields(parts[..i + 1]);
    assert AllFields(parts[..i + 1]);
    assert parts[..i] + [parts[i]] == parts[..i + 1];
    if prefix in index {
      NodeOfPrefix(nodes, index, parts[..i + 1]);
      OneMoreWord(cmds, ambiguous, n, i, nodes, index);
      return index, index[prefix], nodes;
    }
    var isLeaf := i == |parts| - 1;
    var node := new Node(parts[i], if isLeaf then Some(n) else None, !isLeaf && prefix in ambiguous, parent);
    NewWord(root, others, nodes, index, parent, parts[i]);
    Attach(root, others, nodes, parent, node);
    index', parent', nodes' := index[prefix := node], node, nodes + {node};
    NewNodeIndexed(nodes, index, node);
    NewNodeRegistered(cmds, ambiguous, n, i, nodes, index, node);
  }

  /** Between commands: `n` of them are registered. */
  ghost predicate AllRegistered(root: Node, others: nat, cmds: seq<CommandInfo>, ambiguous: set<string>, n: nat,
                                nodes: set<Node>, index: map<string, Node>)
    requires n <= |cmds|
    reads root, nodes
  {
    TreeValid(root, others, nodes) && Indexed(nodes, index) && Registered(cmds, ambiguous, n, 0, n, nodes, index)
  }

  lemma StartCommand(cmds: seq<CommandInfo>, ambiguous: set<string>, n: nat, nodes: set<Node>, index: map<string, Node>)
    requires n < |cmds| && Indexed(nodes, index) && Registered(cmds, ambiguous, n, 0, n, nodes, index)
    ensures Registered(cmds, ambiguous, n, 0, n + 1, nodes, index)
  {
    forall x | x in nodes
      ensures Executes(cmds, ambiguous, n + 1, x.path) == Executes(cmds, ambiguous, n, x.path)
    {
      assert JoinFields(x.path) in index && InTree(cmds, ambiguous, n, 0, x.path);
    }
  }

  lemma FinishCommand(cmds: seq<CommandInfo>, ambiguous: set<string>, n: nat, nodes: set<Node>, index: map<string, Node>)
    requires n < |cmds| && cmds[n].simpleName !in ambiguous
    requires Registered(cmds, ambiguous, n, |Words(cmds[n])|, n + 1, nodes, index)
    ensures Registered(cmds, ambiguous, n + 1, 0, n + 1, nodes, index)
  {
    forall p | AllFields(p)
      ensures InTree(cmds, ambiguous, n + 1, 0, p) <==> InTree(cmds, ambiguous, n, |Words(cmds[n])|, p)
    {
    }
  }

  lemma SkipCommand(cmds: seq<CommandInfo>, ambiguous: set<string>, n: nat, nodes: set<Node>, index: map<string, Node>)
    requires n < |cmds| && cmds[n].simpleName in ambiguous
    requires Registered(cmds, ambiguous, n, 0, n, nodes, index)
    ensures Registered(cmds, ambiguous, n + 1, 0, n + 1, nodes, index)
  {
    forall p ensures FirstUser(cmds, ambiguous, n + 1, p) == FirstUser(cmds, ambiguous, n, p) {
    }
    forall p | AllFields(p)
      ensures InTree(cmds, ambiguous, n + 1, 0, p) <==> InTree(cmds, ambiguous, n, 0, p)
    {
    }
  }

  /** Registers the words of one unambiguous command, from the root down. */
  method RegisterCommand(root: Node, ghost others: nat, cmds: seq<CommandInfo>, ambiguous: set<string>, n: nat,
                         ghost before: set<Node>, index: map<string, Node>)
    returns (index': map<string, Node>, ghost nodes: set<Node>)
    requires n < |cmds| && cmds[n].simpleName !in ambiguous
    requires AllRegistered(root, others, cmds, ambiguous, n, before, index)
    modifies root, before
    ensures AllRegistered(root, others, cmds, ambiguous, n + 1, nodes, index')
    ensures fresh(nodes - before)
    ensures root.children[..others] == old(root.children[..others])
  {
    var parts := Words(cmds[n]);
    var parent := root;
    index', nodes := index, before;
    StartCommand(cmds, ambiguous, n, nodes, index');
    for i := 0 to |parts|
      invariant fresh(nodes - before)
      invariant Consistent(root, others, cmds, ambiguous, n, i, nodes, index', parent)
      invariant root.children[..others] == old(root.children[..others])
    {
      index', parent, nodes := RegisterWord(root, others, cmds, ambiguous, n, i, nodes, index', parent);
    }
    FinishCommand(cmds, ambiguous, n, nodes, index');
  }

  /**
    `registerDiscoveredCommands`, the tree-building part. The tree stays well linked
    and in step with the index; the index holds exactly the non-empty prefixes of
    unambiguous names; each prefix executes its first user's command if that command's
    name ends there; what the root had before is kept.
  */
  method RegisterDiscoveredCommands(root: Node, cmds: seq<CommandInfo>, ambiguous: set<string>)
    returns (index: map<string, Node>, ghost nodes: set<Node>)
    requires root.path == []
    modifies root
    ensures AllRegistered(root, |old(root.children)|, cmds, ambiguous, |cmds|, nodes, index)
    ensures fresh(nodes)
    ensures root.children[..|old(root.children)|] == old(root.children)
  {
    ghost var others := |root.children|;
    index, nodes := map[], {};
    for n := 0 to |cmds|
      invariant fresh(nodes)
      invariant AllRegistered(root, others, cmds, ambiguous, n, nodes, index)
      invariant root.children[..others] == old(root.children)
    {
      if cmds[n].simpleName in ambiguous {
        SkipCommand(cmds, ambiguous, n, nodes, index);
        continue;
      }
      index, nodes := RegisterCommand(root, others, cmds, ambiguous, n, nodes, index);
    }
  }

  // ---------- Consequences ----------

  /** The index holds exactly the non-empty word prefixes of the unambiguous names. */
  lemma IndexIsPrefixes(root: Node, others: nat, cmds: seq<CommandInfo>, ambiguous: set<string>,
                        nodes: set<Node>, index: map<string, Node>, key: string)
    requires AllRegistered(root, others, cmds, ambiguous, |cmds|, nodes, index)
    ensures key in index <==> exists j, k :: 0 <= j < |cmds| && cmds[j].simpleName !in ambiguous
                                && 1 <= k <= |Words(cmds[j])| && key == JoinFields(Words(cmds[j])[..k])
  {
    if key in index {
      var p := index[key].path;
      assert index[key] in nodes && InTree(cmds, ambiguous, |cmds|, 0, p);
      var j := FirstUser(cmds, ambiguous, |cmds|, p).value;
      assert Words(cmds[j])[..|p|] == p;
    }
    forall j, k | 0 <= j < |cmds| && cmds[j].simpleName !in ambiguous && 1 <= k <= |Words(cmds[j])|
      ensures JoinFields(Words(cmds[j])[..k]) in index
    {
      var p := Words(cmds[j])[..k];
      assert AllFields(p) && InTree(cmds, ambiguous, |cmds|, 0, p);
    }
  }

  /** An earlier unambiguous command has a name that begins with all words of command `i`. */
  ghost predicate Shadowed(cmds: seq<CommandInfo>, ambiguous: set<string>, i: nat)
    requires i < |cmds|
  {
    exists j :: 0 <= j < i && cmds[j].simpleName !in ambiguous && Words(cmds[i]) <= Words(cmds[j])
  }

  /**
    A listed unambiguous command ends at its own leaf exactly when no unambiguous
    command before it has a name that begins with all its words. The list is sorted by
    source-qualified names, so that is not guaranteed: a command listed after a longer
    one is shadowed by a namespace node.
  */
  lemma OwnLeafIffNotShadowed(root: Node, others: nat, cmds: seq<CommandInfo>, ambiguous: set<string>,
                              nodes: set<Node>, index: map<string, Node>, j: nat)
    requires AllRegistered(root, others, cmds, ambiguous, |cmds|, nodes, index)
    requires j < |cmds| && cmds[j].simpleName !in ambiguous && Words(cmds[j]) != []
    ensures JoinFields(Words(cmds[j])) in index
    ensures index[JoinFields(Words(cmds[j]))].executes == Some(j) <==> !Shadowed(cmds, ambiguous, j)
  {
    var p := Words(cmds[j]);
    assert AllFields(p) && InTree(cmds, ambiguous, |cmds|, 0, p);
    NodeOfPrefix(nodes, index, p);
  }

  /** An unambiguous command with exactly these words precedes all others that begin with them. */
  ghost predicate EndsAt(cmds: seq<CommandInfo>, ambiguous: set<string>, p: Path, i: nat) {
    i < |cmds| && cmds[i].simpleName !in ambiguous && Words(cmds[i]) == p && !Shadowed(cmds, ambiguous, i)
  }

  /**
    Ambiguity is decided on the raw names but nodes are indexed by words, so an
    unambiguous name with other spacing can make an ambiguous name executable. That
    happens exactly when such a command comes before all longer ones; otherwise the
    node answers with a disambiguation message.
  */
  lemma AmbiguousNameExecutableIff(root: Node, others: nat, cmds: seq<CommandInfo>, ambiguous: set<string>,
                                   nodes: set<Node>, index: map<string, Node>, name: string)
    requires AllRegistered(root, others, cmds, ambiguous, |cmds|, nodes, index)
    requires name in ambiguous && name in index
    ensures index[name].executes.Some? <==> exists i: nat :: EndsAt(cmds, ambiguous, Fields(name), i)
    ensures index[name].ambiguous <==> index[name].executes.None?
  {
    var x := index[name];
    assert x in nodes && JoinFields(x.path) == name;
    FieldsOfJoin(x.path);
    assert x.executes == Executes(cmds, ambiguous, |cmds|, x.path);
    if x.executes.Some? {
      assert EndsAt(cmds, ambiguous, x.path, x.executes.value);
    }
    if i: nat :| EndsAt(cmds, ambiguous, x.path, i) {
      assert FirstUser(cmds, ambiguous, |cmds|, x.path) == Some(i);
    }
  }

  /** A registered prefix answers with a disambiguation message exactly when it is an ambiguous name and runs nothing. */
  lemma DisambiguatesIff(root: Node, others: nat, cmds: seq<CommandInfo>, ambiguous: set<string>,
                         nodes: set<Node>, index: map<string, Node>, key: string)
    requires AllRegistered(root, others, cmds, ambiguous, |cmds|, nodes, index) && key in index
    ensures index[key].ambiguous <==> key in ambiguous && index[key].executes.None?
  {
    var x := index[key];
    assert x in nodes && JoinFields(x.path) == key;
    assert x.executes == Executes(cmds, ambiguous, |cmds|, x.path);
  }

  lemma NameOfNode(root: Node, others: nat, cmds: seq<CommandInfo>, ambiguous: set<string>,
                   nodes: set<Node>, index: map<string, Node>, name: string)
    requires AllRegistered(root, others, cmds, ambiguous, |cmds|, nodes, index) && name in index
    ensures Fields(name) != [] && JoinFields(Fields(name)) == name
  {
    var x := index[name];
    assert x in nodes && JoinFields(x.path) == name;
    FieldsOfJoin(x.path);
    assert InTree(cmds, ambiguous, |cmds|, 0, x.path);
  }

  /** The command's own name is not ambiguous, but its words spell an ambiguous name. */
  predicate SpellsAmbiguous(cmds: seq<CommandInfo>, ambiguous: set<string>, i: nat)
    requires i < |cmds|
  {
    cmds[i].simpleName !in ambiguous && Words(cmds[i]) != [] && JoinFields(Words(cmds[i])) in ambiguous
  }

  /**
    No ambiguous name gets an executable leaf if and only if every unambiguous command
    whose words spell an ambiguous name is shadowed by an earlier one.
  */
  lemma NoLeafForAmbiguousNameIff(root: Node, others: nat, cmds: seq<CommandInfo>, ambiguous: set<string>,
                                  nodes: set<Node>, index: map<string, Node>)
    requires AllRegistered(root, others, cmds, ambiguous, |cmds|, nodes, index)
    ensures (forall name :: name in ambiguous && name in index ==> index[name].executes.None?)
       <==> forall i: nat :: i < |cmds| && SpellsAmbiguous(cmds, ambiguous, i) ==> Shadowed(cmds, ambiguous, i)
  {
    forall i: nat | i < |cmds| && SpellsAmbiguous(cmds, ambiguous, i)
      ensures var name := JoinFields(Words(cmds[i]));
        name in index && (index[name].executes == Some(i) <==> !Shadowed(cmds, ambiguous, i))
    {
      OwnLeafIffNotShadowed(root, others, cmds, ambiguous, nodes, index, i);
    }
    forall name | name in ambiguous && name in index && index[name].executes.Some?
      ensures exists i: nat :: i < |cmds| && SpellsAmbiguous(cmds, ambiguous, i) && !Shadowed(cmds, ambiguous, i)
    {
      AmbiguousNameExecutableIff(root, others, cmds, ambiguous, nodes, index, name);
      NameOfNode(root, others, cmds, ambiguous, nodes, index, name);
      var i: nat :| EndsAt(cmds, ambiguous, Fields(name), i);
      assert SpellsAmbiguous(cmds, ambiguous, i);
    }
  }

  /** With unambiguous names in normal form (single spaces) no ambiguous name gets an executable leaf. */
  lemma NormalNamesAreSafe(root: Node, others: nat, cmds: seq<CommandInfo>, ambiguous: set<string>,
                           nodes: set<Node>, index: map<string, Node>, name: string)
    requires AllRegistered(root, others, cmds, ambiguous, |cmds|, nodes, index)
    requires forall i :: 0 <= i < |cmds| && cmds[i].simpleName !in ambiguous ==>
      JoinFields(Words(cmds[i])) == cmds[i].simpleName
    requires name in ambiguous && name in index
    ensures index[name].executes == None && index[name].ambiguous
  {
    AmbiguousNameExecutableIff(root, others, cmds, ambiguous, nodes, index, name);
    NameOfNode(root, others, cmds, ambiguous, nodes, index, name);
  }

  /** A command named "build" with a trailing space makes the ambiguous name "build" run it. */
  lemma TrailingSpaceDefeatsAmbiguity(root: Node, others: nat, nodes: set<Node>, index: map<string, Node>)
    requires AllRegistered(root, others, [CommandInfo("build "), CommandInfo("build"), CommandInfo("build")], {"build"}, 3,
                           nodes, index)
    ensures "build" in index && index["build"].executes == Some(0)
  {
    var cmds := [CommandInfo("build "), CommandInfo("build"), CommandInfo("build")];
    assert "build" + " " == "build " && "build "[..5] == "build" && "build "[5..] == " ";
    FieldLengthOf("build", " ");
    assert Fields(" ") == [] by { assert " "[1..] == ""; }
    assert Words(cmds[0]) == ["build"];
    assert JoinFields(["build"]) == "build";
    OwnLeafIffNotShadowed(root, others, cmds, {"build"}, nodes, index, 0);
  }

  /** Two registered siblings never share a word, so a path of words leads to one node. */
  lemma {:induction false} SiblingsDiffer(root: Node, others: nat, cmds: seq<CommandInfo>, ambiguous: set<string>,
                                          nodes: set<Node>, index: map<string, Node>, p: Path)
    requires AllRegistered(root, others, cmds, ambiguous, |cmds|, nodes, index)
    requires AllFields(p) && JoinFields(p) in index
    ensures var x := index[JoinFields(p)];
      && p != [] && x.use == p[|p| - 1] && x.parent != null && x in Kids(root, others, x.parent)
      && (if |p| == 1 then x.parent == root
          else JoinFields(p[..|p| - 1]) in index && x.parent == index[JoinFields(p[..|p| - 1])])
      && forall k :: k in Kids(root, others, x.parent) && k.use == x.use ==> k == x
  {
    NodeOfPrefix(nodes, index, p);
    RegisteredPathsNotEmpty(root, others, nodes);
    var x := index[JoinFields(p)];
    assert Hangs(root, nodes, x);
    assert p[..|p| - 1] == x.parent.path;
    assert KidsValid(x.parent, Kids(root, others, x.parent), nodes);
    forall k | k in Kids(root, others, x.parent) && k.use == x.use
      ensures k == x
    {
      SameWordSameKid(x.parent, Kids(root, others, x.parent), nodes, k, x);
    }
  }

  /** Listing "build" after "build all" leaves "build" without an executable node. */
  lemma {:induction false} ShorterNameListedLaterIsShadowed(root: Node, others: nat, nodes: set<Node>, index: map<string, Node>)
    requires AllRegistered(root, others, [CommandInfo("build all"), CommandInfo("build")], {}, 2, nodes, index)
    ensures "build" in index && index["build"].executes == None
  {
    var cmds := [CommandInfo("build all"), CommandInfo("build")];
    assert JoinFields(["build", "all"][1..]) == "all";
    assert JoinFields(["build", "all"]) == "build all" && JoinFields(["build"]) == "build";
    FieldsOfJoin(["build", "all"]);
    FieldsOfJoin(["build"]);
    assert Words(cmds[1]) <= Words(cmds[0]);
    OwnLeafIffNotShadowed(root, others, cmds, {}, nodes, index, 1);
    assert index["build"] in nodes && index["build"].path == ["build"] by { NodeOfPrefix(nodes, index, ["build"]); }
    assert FirstUser(cmds, {}, 2, ["build"]) == Some(0);
  }
}
