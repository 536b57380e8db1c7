/**
 * OpcUtils.BrowseAllVariables: a level-by-level walk of the address space
 * from the Objects folder. Object targets of Organizes and HasComponent
 * references form the next level; Variable targets of Organizes,
 * HasComponent and HasProperty references are collected. A node whose
 * references cannot be fetched (a ServiceResultException) is skipped.
 */
module Browse {

  import opened Ua
  import opened Sessions

  /** The targets of the references of one type in a reference list, as the
      node cache resolves them: targets the cache cannot find are dropped. */
  function ReferenceTargets(space: AddressSpace, refs: seq<Reference>, referenceType: NodeId): seq<NodeId>
  {
    if refs == [] then []
    else
      (if refs[0].referenceType == referenceType && refs[0].target in space then [refs[0].target] else [])
      + ReferenceTargets(space, refs[1..], referenceType)
  }

  /** NodeCache.FindReferences(node, referenceType, isInverse: false,
      includeSubtypes: false): a node the cache cannot fetch throws a
      ServiceResultException with the fetch status; an unknown node has no
      references. */
  function FindReferences(space: AddressSpace, node: NodeId, referenceType: NodeId): (r: Result<seq<NodeId>>)
    ensures r.Err? <==> node in space && IsBad(space[node].fetchStatus)
    ensures r.Err? ==> r.error == ServiceResultException(space[node].fetchStatus)
  {
    if node !in space then Ok([])
    else if IsBad(space[node].fetchStatus) then Err(ServiceResultException(space[node].fetchStatus))
    else Ok(ReferenceTargets(space, space[node].references, referenceType))
  }

  /** `.Where(n => n is ObjectNode)` and `.Where(n => n is VariableNode)`. */
  function OfClass(space: AddressSpace, nodes: seq<NodeId>, nodeClass: NodeClass): seq<NodeId>
  {
    if nodes == [] then []
    else
      (if nodes[0] in space && space[nodes[0]].nodeClass == nodeClass then [nodes[0]] else [])
      + OfClass(space, nodes[1..], nodeClass)
  }

  lemma {:induction false} ReferenceTargetsMember(space: AddressSpace, refs: seq<Reference>, referenceType: NodeId, t: NodeId)
    ensures t in ReferenceTargets(space, refs, referenceType) <==> t in space && Reference(referenceType, t) in refs
  {
    if refs != [] {
      ReferenceTargetsMember(space, refs[1..], referenceType, t);
      assert refs == [refs[0]] + refs[1..];
    }
  }

  lemma {:induction false} OfClassMember(space: AddressSpace, nodes: seq<NodeId>, nodeClass: NodeClass, t: NodeId)
    ensures t in OfClass(space, nodes, nodeClass) <==> t in nodes && t in space && space[t].nodeClass == nodeClass
  {
    if nodes != [] {
      OfClassMember(space, nodes[1..], nodeClass, t);
      assert nodes == [nodes[0]] + nodes[1..];
    }
  }

  /** The targets FindReferences returns are the known nodes that a reference
      of that type from the node leads to. */
  lemma FindReferencesMember(space: AddressSpace, node: NodeId, referenceType: NodeId, t: NodeId)
    requires FindReferences(space, node, referenceType).Ok?
    ensures t in FindReferences(space, node, referenceType).value <==>
      node in space && t in space && Reference(referenceType, t) in space[node].references
  {
    if node in space {
      ReferenceTargetsMember(space, space[node].references, referenceType, t);
    }
  }

  /** The nodes one browsed node adds to the next level. */
  function Children(space: AddressSpace, node: NodeId): seq<NodeId>
  {
    var organizers := FindReferences(space, node, Organizes);
    var components := FindReferences(space, node, HasComponent);
    var properties := FindReferences(space, node, HasProperty);
    if organizers.Err? || components.Err? || properties.Err? then []
    else OfClass(space, organizers.value, ObjectNode) + OfClass(space, components.value, ObjectNode)
  }

  /** The variables one browsed node adds to the result. */
  function Found(space: AddressSpace, node: NodeId): seq<NodeId>
  {
    var organizers := FindReferences(space, node, Organizes);
    var components := FindReferences(space, node, HasComponent);
    var properties := FindReferences(space, node, HasProperty);
    if organizers.Err? || components.Err? || properties.Err? then []
    else
      OfClass(space, organizers.value, VariableNode) + OfClass(space, components.value, VariableNode)
        + OfClass(space, properties.value, VariableNode)
  }

  /** The next level of a level, node by node in order. */
  function NextLevel(space: AddressSpace, level: seq<NodeId>): seq<NodeId>
  {
    if level == [] then [] else NextLevel(space, level[..|level| - 1]) + Children(space, level[|level| - 1])
  }

  /** The variables a level contributes, node by node in order. */
  function LevelVariables(space: AddressSpace, level: seq<NodeId>): seq<NodeId>
  {
    if level == [] then [] else LevelVariables(space, level[..|level| - 1]) + Found(space, level[|level| - 1])
  }

  /** The level-by-level walk for any way of computing the next level and
      what a level contributes: while steps remain and the level is not
      empty, the level's harvest is appended and the walk goes on from the
      next level. */
  function Walk(next: seq<NodeId> -> seq<NodeId>, harvest: seq<NodeId> -> seq<NodeId>, level: seq<NodeId>, steps: nat): seq<NodeId>
    decreases steps
  {
    if steps == 0 || level == [] then [] else harvest(level) + Walk(next, harvest, next(level), steps - 1)
  }

  /** The level the walk reaches after k more levels. */
  function Iterate(next: seq<NodeId> -> seq<NodeId>, level: seq<NodeId>, k: nat): seq<NodeId>
    decreases k
  {
    if k == 0 then level else Iterate(next, next(level), k - 1)
  }

  /** The browse loop's next level and harvest. */
  function Step(space: AddressSpace): seq<NodeId> -> seq<NodeId>
  {
    level => NextLevel(space, level)
  }

  /** The children of one node, as a function the visited-set loop's
      invariant can quantify over without unfolding. */
  function Offspring(space: AddressSpace): NodeId -> seq<NodeId>
  {
    n => Children(space, n)
  }

  function Harvest(space: AddressSpace): seq<NodeId> -> seq<NodeId>
  {
    level => LevelVariables(space, level)
  }

  /** The result of browsing from a level for at most `steps` levels. */
  function Crawl(space: AddressSpace, level: seq<NodeId>, steps: nat): seq<NodeId>
  {
    Walk(Step(space), Harvest(space), level, steps)
  }

  /** n leads the walk to c: c is an ObjectNode that an Organizes or
      HasComponent reference of n, whose references the cache can fetch,
      points to. These are exactly the edges the walk follows (ChildReached,
      ChildOf). */
  ghost predicate Leads(space: AddressSpace, n: NodeId, c: NodeId)
  {
    && n in space && !IsBad(space[n].fetchStatus)
    && c in space && space[c].nodeClass == ObjectNode
    && (Reference(Organizes, c) in space[n].references || Reference(HasComponent, c) in space[n].references)
  }

  /** n is reached from the Objects folder by a chain of edges the walk follows. */
  ghost predicate Reached(space: AddressSpace, n: NodeId)
  {
    exists chain :: Chain(space, chain) && chain[0] == ObjectsFolder && chain[|chain| - 1] == n
  }

  /** The loop has no visited set; it ends only when the edges it follows
      from the nodes it reaches strictly descend some height, as they do when
      the part of the address space reachable from the Objects folder is
      acyclic. Edges among nodes it never reaches are unconstrained. */
  ghost predicate Descends(space: AddressSpace, height: NodeId -> nat)
  {
    forall n, c :: Reached(space, n) && Leads(space, n, c) ==> height(c) < height(n)
  }

  /** Every node of the level is reached and lies below the bound. */
  ghost predicate Below(space: AddressSpace, height: NodeId -> nat, level: seq<NodeId>, bound: int)
  {
    forall i :: 0 <= i < |level| ==> Reached(space, level[i]) && height(level[i]) < bound
  }

  method BrowseAllVariables(session: Session, ghost height: NodeId -> nat) returns (result: seq<NodeId>)
    requires Descends(session.space, height)
    ensures result == Crawl(session.space, [ObjectsFolder], height(ObjectsFolder) + 1)
    ensures OnlyVariables(session.space, result)
  {
    var space := session.space;
    ghost var total := height(ObjectsFolder) + 1;
    ghost var goal := Crawl(space, [ObjectsFolder], total);
    ReachedRoot(space);
    result := [];
    var nodesToBrowse := [ObjectsFolder];
    ghost var k := 0;
    while |nodesToBrowse| > 0
      invariant k <= total
      invariant Below(space, height, nodesToBrowse, total - k)
      invariant result + Crawl(space, nodesToBrowse, total - k) == goal
      decreases total - k
    {
      assert height(nodesToBrowse[0]) < total - k;
      ghost var before := result;
      var nextNodesToBrowse;
      nextNodesToBrowse, result := BrowseLevel(space, nodesToBrowse, result);
      NextLevelHeights(space, height, nodesToBrowse, total - k);
      CrawlUnfold(space, nodesToBrowse, total - k);
      Append2(before, LevelVariables(space, nodesToBrowse), Crawl(space, nextNodesToBrowse, total - k - 1));
      nodesToBrowse := nextNodesToBrowse;
      k := k + 1;
    }
    assert result == goal;
    CrawlVariables(space, [ObjectsFolder], total);
  }

  /** The foreach over one level: each node's references are fetched, its
      object targets are queued for the next level and its variable targets
      are appended to the result; a node whose fetch throws is skipped. */
  method BrowseLevel(space: AddressSpace, nodesToBrowse: seq<NodeId>, found: seq<NodeId>)
    returns (nextNodesToBrowse: seq<NodeId>, result: seq<NodeId>)
    ensures nextNodesToBrowse == NextLevel(space, nodesToBrowse)
    ensures result == found + LevelVariables(space, nodesToBrowse)
  {
    nextNodesToBrowse := [];
    result := found;
    var j := 0;
    while j < |nodesToBrowse|
      invariant j <= |nodesToBrowse|
      invariant nextNodesToBrowse == NextLevel(space, nodesToBrowse[..j])
      invariant result == found + LevelVariables(space, nodesToBrowse[..j])
    {
      var node := nodesToBrowse[j];
      LevelStep(space, nodesToBrowse, j);
      Append2(found, LevelVariables(space, nodesToBrowse[..j]), Found(space, node));
      var children, variables := BrowseNode(space, node);
      nextNodesToBrowse := nextNodesToBrowse + children;
      result := result + variables;
      j := j + 1;
    }
    assert nodesToBrowse[..j] == nodesToBrowse;
  }

  /** The body of the foreach for one node: a node whose fetch throws
      contributes nothing. */
  method BrowseNode(space: AddressSpace, node: NodeId) returns (children: seq<NodeId>, variables: seq<NodeId>)
    ensures children == Children(space, node)
    ensures variables == Found(space, node)
  {
    children, variables := [], [];
    var organizers := FindReferences(space, node, Organizes);
    var components := FindReferences(space, node, HasComponent);
    var properties := FindReferences(space, node, HasProperty);
    if organizers.Ok? && components.Ok? && properties.Ok? {
      children := children + OfClass(space, organizers.value, ObjectNode);
      children := children + OfClass(space, components.value, ObjectNode);
      variables := variables + OfClass(space, organizers.value, VariableNode);
      variables := variables + OfClass(space, components.value, VariableNode);
      variables := variables + OfClass(space, properties.value, VariableNode);
    }
  }

  lemma Append2(s: seq<NodeId>, a: seq<NodeId>, b: seq<NodeId>)
    ensures s + a + b == s + (a + b)
  {
  }

  /** Browsing one more node of a level appends what that node contributes. */
  lemma LevelStep(space: AddressSpace, level: seq<NodeId>, j: nat)
    requires j < |level|
    ensures NextLevel(space, level[..j + 1]) == NextLevel(space, level[..j]) + Children(space, level[j])
    ensures LevelVariables(space, level[..j + 1]) == LevelVariables(space, level[..j]) + Found(space, level[j])
  {
    assert level[..j + 1][..j] == level[..j];
  }

  /** Every node of the next level is an object reached from a node of the
      level by an Organizes or HasComponent reference; HasProperty targets
      are never browsed. */
  lemma {:induction false} NextLevelOrigin(space: AddressSpace, level: seq<NodeId>, c: NodeId)
    requires c in NextLevel(space, level)
    ensures exists n :: n in level && c in Children(space, n)
    ensures c in space && space[c].nodeClass == ObjectNode
  {
    var last := level[|level| - 1];
    if c in Children(space, last) {
      assert last in level;
      ChildReached(space, last, c);
    } else {
      NextLevelOrigin(space, level[..|level| - 1], c);
      var n :| n in level[..|level| - 1] && c in Children(space, n);
      assert n in level;
    }
  }

  /** What a child is, stated by the references that lead to it. */
  lemma ChildReached(space: AddressSpace, n: NodeId, c: NodeId)
    requires c in Children(space, n)
    ensures n in space && !IsBad(space[n].fetchStatus)
    ensures c in space && space[c].nodeClass == ObjectNode
    ensures Reference(Organizes, c) in space[n].references || Reference(HasComponent, c) in space[n].references
  {
    var organizers := FindReferences(space, n, Organizes).value;
    var components := FindReferences(space, n, HasComponent).value;
    OfClassMember(space, organizers, ObjectNode, c);
    OfClassMember(space, components, ObjectNode, c);
    FindReferencesMember(space, n, Organizes, c);
    FindReferencesMember(space, n, HasComponent, c);
  }

  /** What a found variable is, stated by the references that lead to it. */
  lemma FoundReached(space: AddressSpace, n: NodeId, v: NodeId)
    requires v in Found(space, n)
    ensures Collects(space, n, v)
    ensures v in space && space[v].nodeClass == VariableNode
  {
    var organizers := FindReferences(space, n, Organizes).value;
    var components := FindReferences(space, n, HasComponent).value;
    var properties := FindReferences(space, n, HasProperty).value;
    OfClassMember(space, organizers, VariableNode, v);
    OfClassMember(space, components, VariableNode, v);
    OfClassMember(space, properties, VariableNode, v);
    FindReferencesMember(space, n, Organizes, v);
    FindReferencesMember(space, n, HasComponent, v);
    FindReferencesMember(space, n, HasProperty, v);
  }

  /** Following the edges lowers every height of a level by at least one. */
  lemma {:induction false} NextLevelHeights(space: AddressSpace, height: NodeId -> nat, level: seq<NodeId>, bound: int)
    requires Descends(space, height)
    requires Below(space, height, level, bound)
    ensures Below(space, height, NextLevel(space, level), bound - 1)
  {
    if level != [] {
      var init, last := level[..|level| - 1], level[|level| - 1];
      NextLevelHeights(space, height, init, bound);
      var children := Children(space, last);
      forall i | 0 <= i < |children|
        ensures Reached(space, children[i]) && height(children[i]) < bound - 1
      {
        ChildReached(space, last, children[i]);
        assert Leads(space, last, children[i]);
        ReachedStep(space, last, children[i]);
      }
      BelowAppend(space, height, NextLevel(space, init), children, bound - 1);
    }
  }

  lemma BelowAppend(space: AddressSpace, height: NodeId -> nat, a: seq<NodeId>, b: seq<NodeId>, bound: int)
    requires Below(space, height, a, bound) && Below(space, height, b, bound)
    ensures Below(space, height, a + b, bound)
  {
  }

  /** v is a target of an Organizes, HasComponent or HasProperty reference
      of n, whose references the cache can fetch. */
  ghost predicate Collects(space: AddressSpace, n: NodeId, v: NodeId)
  {
    && n in space && !IsBad(space[n].fetchStatus)
    && (|| Reference(Organizes, v) in space[n].references
        || Reference(HasComponent, v) in space[n].references
        || Reference(HasProperty, v) in space[n].references)
  }

  /** A variable is found from a node whose references were fetched, by an
      Organizes, HasComponent or HasProperty reference. */
  lemma {:induction false} LevelVariablesOrigin(space: AddressSpace, level: seq<NodeId>, v: NodeId)
    requires v in LevelVariables(space, level)
    ensures v in space && space[v].nodeClass == VariableNode
    ensures exists n :: n in level && Collects(space, n, v)
  {
    var last := level[|level| - 1];
    if v in Found(space, last) {
      assert last in level;
      FoundReached(space, last, v);
    } else {
      LevelVariablesOrigin(space, level[..|level| - 1], v);
      var n :| n in level[..|level| - 1] && Collects(space, n, v);
      assert n in level;
    }
  }

  /** Every node of s is a VariableNode of the address space. */
  ghost predicate OnlyVariables(space: AddressSpace, s: seq<NodeId>)
  {
    forall i :: 0 <= i < |s| ==> s[i] in space && space[s[i]].nodeClass == VariableNode
  }

  /** A walk whose every harvest holds only variables collects only variables. */
  lemma {:induction false} WalkOnly(space: AddressSpace, next: seq<NodeId> -> seq<NodeId>, harvest: seq<NodeId> -> seq<NodeId>, level: seq<NodeId>, steps: nat)
    requires forall l :: OnlyVariables(space, harvest(l))
    ensures OnlyVariables(space, Walk(next, harvest, level, steps))
    decreases steps
  {
    if steps > 0 && level != [] {
      WalkOnly(space, next, harvest, next(level), steps - 1);
      OnlyVariablesAppend(space, harvest(level), Walk(next, harvest, next(level), steps - 1));
    }
  }

  /** Only VariableNodes are ever collected. */
  lemma CrawlVariables(space: AddressSpace, level: seq<NodeId>, steps: nat)
    ensures OnlyVariables(space, Crawl(space, level, steps))
  {
    forall l: seq<NodeId>
      ensures OnlyVariables(space, Harvest(space)(l))
    {
      LevelVariablesOnly(space, l);
    }
    WalkOnly(space, Step(space), Harvest(space), level, steps);
  }

  lemma {:induction false} LevelVariablesOnly(space: AddressSpace, level: seq<NodeId>)
    ensures OnlyVariables(space, LevelVariables(space, level))
  {
    if level != [] {
      var init := level[..|level| - 1];
      LevelVariablesOnly(space, init);
      var found := Found(space, level[|level| - 1]);
      forall i | 0 <= i < |found|
        ensures found[i] in space && space[found[i]].nodeClass == VariableNode
      {
        FoundReached(space, level[|level| - 1], found[i]);
      }
      OnlyVariablesAppend(space, LevelVariables(space, init), Found(space, level[|level| - 1]));
    }
  }

  lemma OnlyVariablesAppend(space: AddressSpace, a: seq<NodeId>, b: seq<NodeId>)
    requires OnlyVariables(space, a) && OnlyVariables(space, b)
    ensures OnlyVariables(space, a + b)
  {
  }

  /** One level of the crawl. */
  lemma CrawlUnfold(space: AddressSpace, level: seq<NodeId>, steps: nat)
    requires steps > 0 && level != []
    ensures Crawl(space, level, steps) == LevelVariables(space, level) + Crawl(space, NextLevel(space, level), steps - 1)
  {
  }

  /** Once the step bound exceeds every height of the level, and each next
      level lies one lower, more steps find nothing more. */
  lemma {:induction false} WalkStable(space: AddressSpace, next: seq<NodeId> -> seq<NodeId>, harvest: seq<NodeId> -> seq<NodeId>, height: NodeId -> nat, level: seq<NodeId>, steps: nat)
    requires forall l, b :: Below(space, height, l, b) ==> Below(space, height, next(l), b - 1)
    requires Below(space, height, level, steps)
    ensures Walk(next, harvest, level, steps) == Walk(next, harvest, level, steps + 1)
    decreases steps
  {
    if level != [] {
      assert height(level[0]) < steps;
      WalkStable(space, next, harvest, height, next(level), steps - 1);
    }
  }

  /** Once the step bound exceeds every height of the level, more steps find
      nothing more: the method's result is the complete traversal, not a
      truncated one. */
  lemma CrawlStable(space: AddressSpace, height: NodeId -> nat, level: seq<NodeId>, steps: nat)
    requires Descends(space, height)
    requires Below(space, height, level, steps)
    ensures Crawl(space, level, steps) == Crawl(space, level, steps + 1)
  {
    forall l, b | Below(space, height, l, b)
      ensures Below(space, height, Step(space)(l), b - 1)
    {
      NextLevelHeights(space, height, l, b);
    }
    WalkStable(space, Step(space), Harvest(space), height, level, steps);
  }

  /** A node whose references cannot be fetched is skipped: it contributes no
      children and no variables, and the rest of its level is still browsed. */
  lemma SkippedNode(space: AddressSpace, before: seq<NodeId>, node: NodeId, after: seq<NodeId>)
    requires node in space && IsBad(space[node].fetchStatus)
    ensures LevelVariables(space, before + [node] + after) == LevelVariables(space, before + after)
    ensures NextLevel(space, before + [node] + after) == NextLevel(space, before + after)
  {
    NothingFromBad(space, node);
    LevelVariablesGather(space, before + [node] + after);
    LevelVariablesGather(space, before + after);
    GatherSkip(Contribution(space), before, node, after);
    NextLevelGather(space, before + [node] + after);
    NextLevelGather(space, before + after);
    GatherSkip(Offspring(space), before, node, after);
  }

  /** A level's output for any per-node contribution: the contributions of
      its nodes, in order. */
  function Gather(f: NodeId -> seq<NodeId>, level: seq<NodeId>): seq<NodeId>
  {
    if level == [] then [] else Gather(f, level[..|level| - 1]) + f(level[|level| - 1])
  }

  function Contribution(space: AddressSpace): NodeId -> seq<NodeId>
  {
    n => Found(space, n)
  }

  /** A node contributing nothing can be dropped from its level. */
  lemma {:induction false} GatherSkip(f: NodeId -> seq<NodeId>, before: seq<NodeId>, node: NodeId, after: seq<NodeId>)
    requires f(node) == []
    ensures Gather(f, before + [node] + after) == Gather(f, before + after)
    decreases |after|
  {
    var s, t := before + [node] + after, before + after;
    if after == [] {
      assert s[..|s| - 1] == before && s[|s| - 1] == node && t == before;
    } else {
      var a := after[..|after| - 1];
      GatherSkip(f, before, node, a);
      assert s[..|s| - 1] == before + [node] + a && s[|s| - 1] == after[|after| - 1];
      assert t[..|t| - 1] == before + a && t[|t| - 1] == after[|after| - 1];
    }
  }

  lemma {:induction false} LevelVariablesGather(space: AddressSpace, level: seq<NodeId>)
    ensures LevelVariables(space, level) == Gather(Contribution(space), level)
    decreases |level|
  {
    if level != [] {
      LevelVariablesGather(space, level[..|level| - 1]);
    }
  }

  lemma {:induction false} NextLevelGather(space: AddressSpace, level: seq<NodeId>)
    ensures NextLevel(space, level) == Gather(Offspring(space), level)
    decreases |level|
  {
    if level != [] {
      NextLevelGather(space, level[..|level| - 1]);
    }
  }

  /** A node whose references cannot be fetched contributes nothing. */
  lemma NothingFromBad(space: AddressSpace, node: NodeId)
    requires node in space && IsBad(space[node].fetchStatus)
    ensures Found(space, node) == [] && Children(space, node) == []
  {
    assert FindReferences(space, node, Organizes).Err?;
  }

  // ----- Completeness: every variable reachable from the Objects folder is found -----

  /** A child edge the walk follows always puts its target on the next level. */
  lemma ChildListed(space: AddressSpace, n: NodeId, c: NodeId)
    requires Leads(space, n, c)
    ensures c in Children(space, n)
  {
    var organizers := FindReferences(space, n, Organizes).value;
    var components := FindReferences(space, n, HasComponent).value;
    FindReferencesMember(space, n, Organizes, c);
    FindReferencesMember(space, n, HasComponent, c);
    OfClassMember(space, organizers, ObjectNode, c);
    OfClassMember(space, components, ObjectNode, c);
  }

  /** A variable that a fetchable node references is always collected from it. */
  lemma VariableListed(space: AddressSpace, n: NodeId, v: NodeId)
    requires Collects(space, n, v) && v in space && space[v].nodeClass == VariableNode
    ensures v in Found(space, n)
  {
    var organizers := FindReferences(space, n, Organizes).value;
    var components := FindReferences(space, n, HasComponent).value;
    var properties := FindReferences(space, n, HasProperty).value;
    FindReferencesMember(space, n, Organizes, v);
    FindReferencesMember(space, n, HasComponent, v);
    FindReferencesMember(space, n, HasProperty, v);
    OfClassMember(space, organizers, VariableNode, v);
    OfClassMember(space, components, VariableNode, v);
    OfClassMember(space, properties, VariableNode, v);
  }

  /** Every object a node of the level leads to is on the next level. */
  lemma {:induction false} NextLevelComplete(space: AddressSpace, level: seq<NodeId>, n: NodeId, c: NodeId)
    requires n in level && Leads(space, n, c)
    ensures c in NextLevel(space, level)
  {
    var init, last := level[..|level| - 1], level[|level| - 1];
    assert level == init + [last];
    if n == last {
      ChildListed(space, n, c);
    } else {
      NextLevelComplete(space, init, n, c);
    }
  }

  /** Every variable a node of the level references is collected with the level. */
  lemma {:induction false} LevelVariablesComplete(space: AddressSpace, level: seq<NodeId>, n: NodeId, v: NodeId)
    requires n in level && Collects(space, n, v) && v in space && space[v].nodeClass == VariableNode
    ensures v in LevelVariables(space, level)
  {
    var init, last := level[..|level| - 1], level[|level| - 1];
    assert level == init + [last];
    if n == last {
      VariableListed(space, n, v);
    } else {
      LevelVariablesComplete(space, init, n, v);
    }
  }

  /** A chain of nodes, each leading the walk to the next. */
  ghost predicate Chain(space: AddressSpace, chain: seq<NodeId>)
  {
    chain != [] && (|chain| == 1 || (Leads(space, chain[0], chain[1]) && Chain(space, chain[1..])))
  }
  /** A chain followed by one more edge from its end is a chain. */
  lemma {:induction false} ChainExtend(space: AddressSpace, chain: seq<NodeId>, c: NodeId)
    requires Chain(space, chain) && Leads(space, chain[|chain| - 1], c)
    ensures Chain(space, chain + [c])
    decreases |chain|
  {
    if |chain| == 1 {
      assert (chain + [c])[1..] == [c];
    } else {
      ChainExtend(space, chain[1..], c);
      assert (chain + [c])[1..] == chain[1..] + [c];
    }
  }

  /** The Objects folder is reached. */
  lemma ReachedRoot(space: AddressSpace)
    ensures Reached(space, ObjectsFolder)
  {
    assert Chain(space, [ObjectsFolder]);
  }

  /** An edge the walk follows from a reached node reaches its target. */
  lemma ReachedStep(space: AddressSpace, n: NodeId, c: NodeId)
    requires Reached(space, n) && Leads(space, n, c)
    ensures Reached(space, c)
  {
    var chain :| Chain(space, chain) && chain[0] == ObjectsFolder && chain[|chain| - 1] == n;
    ChainExtend(space, chain, c);
    assert (chain + [c])[0] == ObjectsFolder;
  }



  /** The last node of a chain that starts on the level is on the level
      reached after one more level per edge. */
  lemma {:induction false} ChainReached(space: AddressSpace, level: seq<NodeId>, chain: seq<NodeId>)
    requires Chain(space, chain) && chain[0] in level
    ensures chain[|chain| - 1] in Iterate(Step(space), level, |chain| - 1)
    decreases |chain|
  {
    if |chain| > 1 {
      ChainStep(space, level, chain);
      ChainReached(space, NextLevel(space, level), chain[1..]);
    }
  }

  /** The rest of a chain starts on the next level and ends where the chain ends. */
  lemma ChainStep(space: AddressSpace, level: seq<NodeId>, chain: seq<NodeId>)
    requires Chain(space, chain) && |chain| > 1 && chain[0] in level
    ensures Chain(space, chain[1..]) && chain[1..][0] in NextLevel(space, level)
    ensures chain[1..][|chain[1..]| - 1] == chain[|chain| - 1]
  {
    NextLevelComplete(space, level, chain[0], chain[1]);
  }

  /** The harvest of every level the step bound reaches is in the walk, when
      an empty level leads nowhere and yields nothing. */
  lemma {:induction false} WalkHas(next: seq<NodeId> -> seq<NodeId>, harvest: seq<NodeId> -> seq<NodeId>, level: seq<NodeId>, steps: nat, k: nat, v: NodeId)
    requires next([]) == [] && harvest([]) == []
    requires k < steps && v in harvest(Iterate(next, level, k))
    ensures v in Walk(next, harvest, level, steps)
    decreases k
  {
    if level == [] {
      IterateEmpty(next, k);
      assert false;
    }
    if k > 0 {
      WalkHas(next, harvest, next(level), steps - 1, k - 1, v);
    }
  }

  /** Nothing is reached from an empty level. */
  lemma {:induction false} IterateEmpty(next: seq<NodeId> -> seq<NodeId>, k: nat)
    requires next([]) == []
    ensures Iterate(next, [], k) == []
    decreases k
  {
    if k > 0 {
      IterateEmpty(next, k - 1);
    }
  }

  /** A variable referenced from the end of a chain that starts on the level
      is found within as many levels as the chain has nodes. */
  lemma CrawlComplete(space: AddressSpace, level: seq<NodeId>, steps: nat, chain: seq<NodeId>, v: NodeId)
    requires Chain(space, chain) && chain[0] in level && |chain| <= steps
    requires Collects(space, chain[|chain| - 1], v) && v in space && space[v].nodeClass == VariableNode
    ensures v in Crawl(space, level, steps)
  {
    var k: nat := |chain| - 1;
    ChainReached(space, level, chain);
    LevelVariablesComplete(space, Iterate(Step(space), level, k), chain[k], v);
    assert Step(space)([]) == [] && Harvest(space)([]) == [];
    WalkHas(Step(space), Harvest(space), level, steps, k, v);
  }

  /** Along a chain the height drops by at least one per edge. */
  lemma {:induction false} ChainHeight(space: AddressSpace, height: NodeId -> nat, chain: seq<NodeId>)
    requires Descends(space, height) && Chain(space, chain) && Reached(space, chain[0])
    ensures height(chain[|chain| - 1]) + |chain| - 1 <= height(chain[0])
    decreases |chain|
  {
    if |chain| > 1 {
      var rest := chain[1..];
      assert chain[1..][|chain| - 2] == chain[|chain| - 1];
      ReachedStep(space, chain[0], chain[1]);
      ChainHeight(space, height, rest);
    }
  }

  /** The walk finds every variable: one referenced by an Organizes,
      HasComponent or HasProperty reference of any node that a chain of
      browsed objects leads to from the Objects folder is in the result of
      BrowseAllVariables (which its ensures equates with this Crawl). */
  lemma AllVariablesFound(space: AddressSpace, height: NodeId -> nat, chain: seq<NodeId>, v: NodeId)
    requires Descends(space, height)
    requires Chain(space, chain) && chain[0] == ObjectsFolder
    requires Collects(space, chain[|chain| - 1], v) && v in space && space[v].nodeClass == VariableNode
    ensures v in Crawl(space, [ObjectsFolder], height(ObjectsFolder) + 1)
  {
    ReachedRoot(space);
    ChainHeight(space, height, chain);
    CrawlComplete(space, [ObjectsFolder], height(ObjectsFolder) + 1, chain, v);
  }

  // ----- An Organizes loop, and the walk with a visited set -----

  /** An address space whose Objects folder organizes itself. OPC UA forbids
      loops of HasChild references such as HasComponent, but not of
      Organizes references. */
  const LoopSpace: AddressSpace :=
    map[ObjectsFolder := Node(ObjectNode, map[], [Reference(Organizes, ObjectsFolder)], Good)]

  /** On LoopSpace the next level of the Objects folder is the Objects folder
      again, so the loop of BrowseAllVariables, which has no visited set,
      never empties its level and never ends; and no height can descend
      along its edges, so its requires excludes this input. */
  lemma LoopNeverEnds(height: NodeId -> nat)
    ensures NextLevel(LoopSpace, [ObjectsFolder]) == [ObjectsFolder]
    ensures !Descends(LoopSpace, height)
  {
    ReachedRoot(LoopSpace);
    var refs := LoopSpace[ObjectsFolder].references;
    assert ReferenceTargets(LoopSpace, refs, Organizes) == [ObjectsFolder];
    assert ReferenceTargets(LoopSpace, refs, HasComponent) == [];
    assert ReferenceTargets(LoopSpace, refs, HasProperty) == [];
    assert OfClass(LoopSpace, [ObjectsFolder], ObjectNode) == [ObjectsFolder];
    assert Children(LoopSpace, ObjectsFolder) == [ObjectsFolder];
    assert NextLevel(LoopSpace, [ObjectsFolder]) == NextLevel(LoopSpace, []) + Children(LoopSpace, ObjectsFolder);
    assert Leads(LoopSpace, ObjectsFolder, ObjectsFolder);
  }

  /** An address space where two objects organize each other but nothing
      leads to them from the Objects folder, which has no references. */
  const IsleA := NodeId(1, Text("A"))
  const IsleB := NodeId(1, Text("B"))
  const IsleSpace: AddressSpace := map[
    ObjectsFolder := Node(ObjectNode, map[], [], Good),
    IsleA := Node(ObjectNode, map[], [Reference(Organizes, IsleB)], Good),
    IsleB := Node(ObjectNode, map[], [Reference(Organizes, IsleA)], Good)]

  /** On IsleSpace the loop of BrowseAllVariables ends after one pass, and its
      requires admits the space: the cycle it never reaches does not count. */
  lemma UnreachableCycleAllowed()
    ensures Leads(IsleSpace, IsleA, IsleB) && Leads(IsleSpace, IsleB, IsleA)
    ensures NextLevel(IsleSpace, [ObjectsFolder]) == []
    ensures Descends(IsleSpace, n => 0)
  {
    assert Reference(Organizes, IsleB) in IsleSpace[IsleA].references;
    assert Reference(Organizes, IsleA) in IsleSpace[IsleB].references;
    var refs := IsleSpace[ObjectsFolder].references;
    assert ReferenceTargets(IsleSpace, refs, Organizes) == [];
    assert ReferenceTargets(IsleSpace, refs, HasComponent) == [];
    assert Children(IsleSpace, ObjectsFolder) == [];
    assert NextLevel(IsleSpace, [ObjectsFolder]) == NextLevel(IsleSpace, []) + Children(IsleSpace, ObjectsFolder);
    forall n, c | Reached(IsleSpace, n)
      ensures !Leads(IsleSpace, n, c)
    {
      var chain :| Chain(IsleSpace, chain) && chain[0] == ObjectsFolder && chain[|chain| - 1] == n;
      assert |chain| == 1;
    }
  }

  /** BrowseAllVariables with a visited set: a node already browsed is not
      browsed again. `browsed` lists the nodes whose references were fetched,
      in order; each appears once, and the result is what they contribute.
      The loop ends on every address space, loops included, and it still
      collects every variable referenced from a node the Objects folder
      reaches. */
  method BrowseAllVariablesOnce(session: Session) returns (result: seq<NodeId>, ghost browsed: seq<NodeId>)
    ensures result == LevelVariables(session.space, browsed)
    ensures forall i, j :: 0 <= i < j < |browsed| ==> browsed[i] != browsed[j]
    ensures OnlyVariables(session.space, result)
    ensures forall n, v ::
              (Reached(session.space, n) && Collects(session.space, n, v) &&
               v in session.space && session.space[v].nodeClass == VariableNode) ==> v in result
  {
    var space := session.space;
    ghost var universe := space.Keys + {ObjectsFolder};
    var visited: set<NodeId> := {};
    result, browsed := [], [];
    var nodesToBrowse := [ObjectsFolder];
    while |nodesToBrowse| > 0
      invariant visited <= universe
      invariant forall i :: 0 <= i < |nodesToBrowse| ==> nodesToBrowse[i] in universe
      invariant Logged(space, visited, browsed, result)
      invariant Closed(Offspring(space), visited, nodesToBrowse)
      invariant ObjectsFolder in visited || nodesToBrowse == [ObjectsFolder]
      decreases |universe - visited|, |nodesToBrowse|
    {
      ghost var before := visited;
      nodesToBrowse, visited, result, browsed := BrowsePass(space, universe, nodesToBrowse, visited, result, browsed);
    }
    LevelVariablesOnly(space, browsed);
    ElemsDistinct(browsed);
    forall n, v | Reached(space, n) && Collects(space, n, v) && v in space && space[v].nodeClass == VariableNode
      ensures v in result
    {
      var chain :| Chain(space, chain) && chain[0] == ObjectsFolder && chain[|chain| - 1] == n;
      ChainVisited(space, visited, chain);
      ElemsMember(browsed, n);
      LevelVariablesComplete(space, browsed, n, v);
    }
  }

  /** One pass of the outer loop with a visited set: the foreach over the
      level browses each node not yet visited and skips the others. */
  method BrowsePass(space: AddressSpace, ghost universe: set<NodeId>, nodesToBrowse: seq<NodeId>,
                    visited0: set<NodeId>, result0: seq<NodeId>, ghost browsed0: seq<NodeId>)
    returns (nextNodesToBrowse: seq<NodeId>, visited: set<NodeId>, result: seq<NodeId>, ghost browsed: seq<NodeId>)
    requires universe == space.Keys + {ObjectsFolder} && visited0 <= universe
    requires forall i :: 0 <= i < |nodesToBrowse| ==> nodesToBrowse[i] in universe
    requires Logged(space, visited0, browsed0, result0)
    requires Closed(Offspring(space), visited0, nodesToBrowse)
    ensures visited0 <= visited <= universe
    ensures forall i :: 0 <= i < |nextNodesToBrowse| ==> nextNodesToBrowse[i] in universe
    ensures Logged(space, visited, browsed, result)
    ensures Closed(Offspring(space), visited, nextNodesToBrowse)
    ensures |nodesToBrowse| > 0 ==> nodesToBrowse[0] in visited
    ensures visited == visited0 ==> nextNodesToBrowse == []
    ensures visited != visited0 ==> |universe - visited| < |universe - visited0|
  {
    nextNodesToBrowse, visited, result, browsed := [], visited0, result0, browsed0;
    assert nodesToBrowse[0..] + nextNodesToBrowse == nodesToBrowse;
    var j := 0;
    while j < |nodesToBrowse|
      invariant j <= |nodesToBrowse|
      invariant visited0 <= visited <= universe
      invariant forall i :: 0 <= i < |nextNodesToBrowse| ==> nextNodesToBrowse[i] in universe
      invariant Logged(space, visited, browsed, result)
      invariant Closed(Offspring(space), visited, nodesToBrowse[j..] + nextNodesToBrowse)
      invariant j > 0 ==> nodesToBrowse[0] in visited
      invariant visited == visited0 ==> nextNodesToBrowse == []
      invariant visited != visited0 ==> |universe - visited| < |universe - visited0|
    {
      var node := nodesToBrowse[j];
      SplitAt(nodesToBrowse, j);
      if node !in visited {
        visited, result, browsed, nextNodesToBrowse :=
          Visit(space, universe, visited0, node, nodesToBrowse[j + 1..], visited, result, browsed, nextNodesToBrowse);
      } else {
        ClosedAdvance(Offspring(space), visited, node, nodesToBrowse[j + 1..], nextNodesToBrowse);
      }
      j := j + 1;
    }
    assert nodesToBrowse[j..] + nextNodesToBrowse == nextNodesToBrowse;
  }

  /** The body of the foreach for a node not yet visited: it is marked,
      logged and browsed, and its children join the next level. */
  method Visit(space: AddressSpace, ghost universe: set<NodeId>, ghost visited0: set<NodeId>, node: NodeId,
               ghost rest: seq<NodeId>, visited: set<NodeId>, result: seq<NodeId>, ghost browsed: seq<NodeId>,
               nextNodesToBrowse: seq<NodeId>)
    returns (visited': set<NodeId>, result': seq<NodeId>, ghost browsed': seq<NodeId>, nextNodesToBrowse': seq<NodeId>)
    requires universe == space.Keys + {ObjectsFolder} && visited0 <= visited <= universe
    requires node in universe && node !in visited
    requires forall i :: 0 <= i < |nextNodesToBrowse| ==> nextNodesToBrowse[i] in universe
    requires Logged(space, visited, browsed, result)
    requires Closed(Offspring(space), visited, [node] + rest + nextNodesToBrowse)
    ensures visited' == visited + {node} && browsed' == browsed + [node]
    ensures forall i :: 0 <= i < |nextNodesToBrowse'| ==> nextNodesToBrowse'[i] in universe
    ensures Logged(space, visited', browsed', result')
    ensures Closed(Offspring(space), visited', rest + nextNodesToBrowse')
    ensures |universe - visited'| < |universe - visited0|
  {
    Unvisited(universe, visited0, visited, node);
    LoggedStep(space, visited, browsed, result, node);
    ClosedAdvance(Offspring(space), visited, node, rest, nextNodesToBrowse);
    var children, variables := BrowseNode(space, node);
    ChildrenKnown(space, node);
    visited', browsed' := visited + {node}, browsed + [node];
    nextNodesToBrowse', result' := nextNodesToBrowse + children, result + variables;
  }

  /** Moving the cursor of the foreach past one more node. */
  lemma SplitAt(s: seq<NodeId>, j: nat)
    requires j < |s|
    ensures s[j..] == [s[j]] + s[j + 1..]
  {
  }

  /** The visited set holds exactly the logged nodes, as many as were
      logged, and the result is what they contribute, in order. */
  ghost predicate Logged(space: AddressSpace, visited: set<NodeId>, browsed: seq<NodeId>, result: seq<NodeId>)
  {
    visited == Elems(browsed) && |visited| == |browsed| && result == LevelVariables(space, browsed)
  }

  /** Browsing a node not yet visited logs it and appends what it contributes. */
  lemma LoggedStep(space: AddressSpace, visited: set<NodeId>, browsed: seq<NodeId>, result: seq<NodeId>, node: NodeId)
    requires Logged(space, visited, browsed, result) && node !in visited
    ensures Logged(space, visited + {node}, browsed + [node], result + Found(space, node))
  {
    assert (browsed + [node])[..|browsed|] == browsed;
  }

  /** The nodes of a sequence. */
  ghost function Elems(s: seq<NodeId>): set<NodeId>
  {
    if s == [] then {} else Elems(s[..|s| - 1]) + {s[|s| - 1]}
  }

  lemma {:induction false} ElemsMember(s: seq<NodeId>, x: NodeId)
    ensures x in Elems(s) <==> x in s
  {
    if s != [] {
      ElemsMember(s[..|s| - 1], x);
      assert s == s[..|s| - 1] + [s[|s| - 1]];
    }
  }

  lemma {:induction false} ElemsSize(s: seq<NodeId>)
    ensures |Elems(s)| <= |s|
  {
    if s != [] {
      ElemsSize(s[..|s| - 1]);
    }
  }

  /** Adding a member of a set leaves its size unchanged. */
  lemma CardAddOne(a: set<NodeId>, x: NodeId)
    ensures x in a ==> |a + {x}| == |a|
  {
    if x in a {
      assert a + {x} == a;
    }
  }

  /** A sequence with as many distinct nodes as entries repeats no node. */
  lemma {:induction false} ElemsDistinct(s: seq<NodeId>)
    requires |Elems(s)| == |s|
    ensures forall i, j :: 0 <= i < j < |s| ==> s[i] != s[j]
  {
    if s != [] {
      var init, last := s[..|s| - 1], s[|s| - 1];
      ElemsSize(init);
      CardAddOne(Elems(init), last);
      ElemsMember(init, last);
      ElemsDistinct(init);
      forall i, j | 0 <= i < j < |s|
        ensures s[i] != s[j]
      {
        if j < |s| - 1 {
          assert s[i] == init[i] && s[j] == init[j];
        } else {
          assert s[i] == init[i];
        }
      }
    }
  }

  /** Every child of a browsed node is browsed or still pending. */
  ghost predicate Closed(children: NodeId -> seq<NodeId>, visited: set<NodeId>, pending: seq<NodeId>)
  {
    forall n, i :: n in visited && 0 <= i < |children(n)| ==> children(n)[i] in visited || children(n)[i] in pending
  }

  /** Taking the next node off the pending level: a node already visited
      is simply dropped, and browsing a new one queues its children. */
  lemma ClosedAdvance(children: NodeId -> seq<NodeId>, visited: set<NodeId>, node: NodeId, rest: seq<NodeId>, next: seq<NodeId>)
    requires Closed(children, visited, [node] + rest + next)
    ensures node in visited ==> Closed(children, visited, rest + next)
    ensures Closed(children, visited + {node}, rest + (next + children(node)))
  {
  }

  /** When nothing is pending, every chain from a browsed node stays among
      browsed nodes. */
  lemma {:induction false} ChainVisited(space: AddressSpace, visited: set<NodeId>, chain: seq<NodeId>)
    requires Closed(Offspring(space), visited, []) && Chain(space, chain) && chain[0] in visited
    ensures chain[|chain| - 1] in visited
    decreases |chain|
  {
    if |chain| > 1 {
      ChildListed(space, chain[0], chain[1]);
      assert chain[1] in Offspring(space)(chain[0]);
      assert chain[1..][|chain| - 2] == chain[|chain| - 1];
      ChainVisited(space, visited, chain[1..]);
    }
  }

  /** Every child is a node of the address space. */
  lemma ChildrenKnown(space: AddressSpace, n: NodeId)
    ensures forall i :: 0 <= i < |Children(space, n)| ==> Children(space, n)[i] in space
  {
    forall i | 0 <= i < |Children(space, n)|
      ensures Children(space, n)[i] in space
    {
      ChildReached(space, n, Children(space, n)[i]);
    }
  }

  /** Marking one more node of the universe as visited leaves fewer nodes
      unvisited than before the pass began. */
  lemma Unvisited(universe: set<NodeId>, before: set<NodeId>, visited: set<NodeId>, node: NodeId)
    requires before <= visited <= universe && node in universe && node !in visited
    ensures |universe - (visited + {node})| < |universe - before|
  {
    var rest := universe - (visited + {node});
    assert rest + {node} <= universe - before;
    Smaller(rest + {node}, universe - before);
  }

  lemma {:induction false} Smaller(a: set<NodeId>, b: set<NodeId>)
    requires a <= b
    ensures |a| <= |b|
    decreases |a|
  {
    if a != {} {
      var x :| x in a;
      Smaller(a - {x}, b - {x});
    }
  }
}
