/**
 The rule that spots enum-like families of class constants (for example
 `STATUS_ENABLED`, `STATUS_DISABLED`) embedded in a class and reports each
 family as a candidate for a standalone enum class.

 The collaborators whose code is not modelled (the constant-name resolver, the
 shared-name prefix matcher, the non-enum prefix classifier and the class
 reflection's subclass query) are opaque total functions held in the data.
 */
module EmbeddedEnumClassConstSpotterRule {
  import opened Wrappers
  import opened Strings

  /** The template's text before and after its `%s` directive. */
  const MessageHead: string := "Constants \""
  const MessageTail: string := "\" should be extract to standalone enum class"

  /**
   The rule's message template, `Constants "%s" should be extract to standalone
   enum class`; `%s` receives the quoted, comma-joined names.
   */
  const ERROR_MESSAGE: string := MessageHead + "%s" + MessageTail

  /** The glue `implode` puts between two constant names inside a message. */
  const NameSeparator: string := "\", \""

  /** A class whose fully-qualified name contains this text is already an enum ... */
  const EnumNamespace: string := "\\Enum\\"
  /** ... unless its name also contains this text. */
  const RulesEnumNamespace: string := "\\Rules\\Enum\\"

  /** One entry of the prefix matcher's result: the prefix key and the constant names grouped under it. */
  datatype PrefixGroup = PrefixGroup(prefix: string, names: seq<string>)

  /** Class reflection reduced to the fully-qualified name and the ancestry oracle. */
  datatype ClassReflection = ClassReflection(name: string, isSubclassOf: string -> bool)

  /**
   The declaration wrapped by the visited class node: a `class`, or another
   class-like (interface, trait, enum). `id` identifies the declaration to the
   constant-name resolver.
   */
  datatype ClassLike = Class_(id: nat) | OtherClassLike(id: nat)

  /** The node the rule visits: the class's reflection and its original declaration. */
  datatype InClassNode = InClassNode(classReflection: ClassReflection, originalNode: ClassLike)

  /** The rule instance: its injected collaborators and the configured parent types. */
  datatype Rule = Rule(
    resolveConstantNames: ClassLike -> seq<string>,
    matchSharedPrefixes: seq<string> -> seq<PrefixGroup>,
    isNonEnumConstantPrefix: string -> bool,
    parentTypes: seq<string>)

  /**
   The fully-qualified class name (no leading backslash) contains `\Enum\`
   but not `\Rules\Enum\`: a substring test, not a namespace test.
   */
  predicate IsAlreadyEnum(className: string) {
    Contains(className, EnumNamespace) && !Contains(className, RulesEnumNamespace)
  }

  /** Some configured parent type is an ancestor of the class. */
  ghost predicate HasConfiguredParent(parentTypes: seq<string>, isSubclassOf: string -> bool) {
    exists k :: 0 <= k < |parentTypes| && isSubclassOf(parentTypes[k])
  }

  /** The `foreach` over the parent types that returns as soon as one is an ancestor. */
  function AnyParentMatches(parentTypes: seq<string>, isSubclassOf: string -> bool): (r: bool)
    ensures r <==> HasConfiguredParent(parentTypes, isSubclassOf)
  {
    if |parentTypes| == 0 then false
    else if isSubclassOf(parentTypes[0]) then true
    else
      assert forall k :: 1 <= k < |parentTypes| ==> parentTypes[k] == parentTypes[1..][k - 1];
      AnyParentMatches(parentTypes[1..], isSubclassOf)
  }

  /** `shouldSkip`: already an enum, or no configured parent type is an ancestor. */
  function ShouldSkip(rule: Rule, classReflection: ClassReflection): (r: bool)
    ensures IsAlreadyEnum(classReflection.name) ==> r
    ensures !IsAlreadyEnum(classReflection.name) ==>
      (r <==> !HasConfiguredParent(rule.parentTypes, classReflection.isSubclassOf))
    ensures |rule.parentTypes| == 0 ==> r
  {
    if IsAlreadyEnum(classReflection.name) then true
    else !AnyParentMatches(rule.parentTypes, classReflection.isSubclassOf)
  }

  /** The filter's test for one matcher group: it has at least one name and its prefix is not a non-enum prefix. */
  predicate Keep(isNonEnumConstantPrefix: string -> bool, group: PrefixGroup) {
    |group.names| >= 1 && !isNonEnumConstantPrefix(group.prefix)
  }

  /** The `foreach` over the matcher's groups that collects the enum candidates. */
  function FilterGroups(groups: seq<PrefixGroup>, isNonEnumConstantPrefix: string -> bool): (r: seq<PrefixGroup>)
    ensures |r| <= |groups|
    ensures forall i :: 0 <= i < |r| ==> r[i] in groups && Keep(isNonEnumConstantPrefix, r[i])
    ensures forall j :: 0 <= j < |groups| && Keep(isNonEnumConstantPrefix, groups[j]) ==> groups[j] in r
  {
    if |groups| == 0 then []
    else
      var rest := FilterGroups(groups[1..], isNonEnumConstantPrefix);
      assert forall j :: 1 <= j < |groups| ==> groups[j] == groups[1..][j - 1];
      if Keep(isNonEnumConstantPrefix, groups[0]) then [groups[0]] + rest else rest
  }

  /** Shifts every index by one: the kept indices of a sequence's tail, seen in the whole sequence. */
  function Shift(idx: seq<nat>): (r: seq<nat>)
    ensures |r| == |idx| && forall i :: 0 <= i < |idx| ==> r[i] == idx[i] + 1
  {
    seq(|idx|, i requires 0 <= i < |idx| => idx[i] + 1)
  }

  /**
   `kept` is `groups` at the strictly increasing positions `idx`, each group
   unchanged, and a position is among them exactly when its group passes the test.
   */
  ghost predicate IsKeptSelection(groups: seq<PrefixGroup>, kept: seq<PrefixGroup>, idx: seq<nat>,
                                  isNonEnumConstantPrefix: string -> bool) {
    && |idx| == |kept|
    && (forall i :: 0 <= i < |idx| ==> idx[i] < |groups| && kept[i] == groups[idx[i]])
    && (forall i, i' :: 0 <= i < i' < |idx| ==> idx[i] < idx[i'])
    && (forall j: nat :: j < |groups| ==> (j in idx <==> Keep(isNonEnumConstantPrefix, groups[j])))
  }

  /** A group that fails the test, put in front, only shifts the selection. */
  lemma SelectionSkipsGroup(g: PrefixGroup, tail: seq<PrefixGroup>, kept: seq<PrefixGroup>, idx: seq<nat>,
                            isNonEnumConstantPrefix: string -> bool)
    requires IsKeptSelection(tail, kept, idx, isNonEnumConstantPrefix)
    requires !Keep(isNonEnumConstantPrefix, g)
    ensures IsKeptSelection([g] + tail, kept, Shift(idx), isNonEnumConstantPrefix)
  {
  }

  /** A group that passes the test, put in front, is selected first. */
  lemma SelectionTakesGroup(g: PrefixGroup, tail: seq<PrefixGroup>, kept: seq<PrefixGroup>, idx: seq<nat>,
                            isNonEnumConstantPrefix: string -> bool)
    requires IsKeptSelection(tail, kept, idx, isNonEnumConstantPrefix)
    requires Keep(isNonEnumConstantPrefix, g)
    ensures IsKeptSelection([g] + tail, [g] + kept, [0] + Shift(idx), isNonEnumConstantPrefix)
  {
  }

  /** The positions of the groups that pass the test, in increasing order. */
  function KeptIndices(groups: seq<PrefixGroup>, isNonEnumConstantPrefix: string -> bool): seq<nat> {
    if |groups| == 0 then []
    else
      var rest := Shift(KeptIndices(groups[1..], isNonEnumConstantPrefix));
      if Keep(isNonEnumConstantPrefix, groups[0]) then [0] + rest else rest
  }

  /**
   Filtering removes whole groups only: the kept list is the matcher's list at
   strictly increasing positions, each group unchanged, and a position is among
   them exactly when its group has a name and a prefix not classified as non-enum.
   */
  lemma {:induction false} FilterKeepsWholeGroupsInOrder(groups: seq<PrefixGroup>, isNonEnumConstantPrefix: string -> bool)
    ensures IsKeptSelection(groups, FilterGroups(groups, isNonEnumConstantPrefix),
                            KeptIndices(groups, isNonEnumConstantPrefix), isNonEnumConstantPrefix)
    decreases |groups|
  {
    if |groups| > 0 {
      var tail := groups[1..];
      FilterKeepsWholeGroupsInOrder(tail, isNonEnumConstantPrefix);
      assert groups == [groups[0]] + tail;
      var tailKept := FilterGroups(tail, isNonEnumConstantPrefix);
      var tailIdx := KeptIndices(tail, isNonEnumConstantPrefix);
      if Keep(isNonEnumConstantPrefix, groups[0]) {
        SelectionTakesGroup(groups[0], tail, tailKept, tailIdx, isNonEnumConstantPrefix);
      } else {
        SelectionSkipsGroup(groups[0], tail, tailKept, tailIdx, isNonEnumConstantPrefix);
      }
    }
  }

  /** One message: the group's names joined by `", "` and substituted into the template. */
  function RenderMessage(names: seq<string>): string {
    Sprintf(ERROR_MESSAGE, Join(names, NameSeparator))
  }

  /** The template's only `%s` directive is the one right after the head. */
  lemma ErrorMessageTemplate()
    ensures OccursAt(ERROR_MESSAGE, "%s", |MessageHead|)
    ensures forall j: nat :: j < |MessageHead| ==> !OccursAt(ERROR_MESSAGE, "%s", j)
    ensures forall j: nat :: j > |MessageHead| ==> !OccursAt(ERROR_MESSAGE, "%s", j)
  {
    assert ERROR_MESSAGE[|MessageHead|..|MessageHead| + 2] == "%s";
    assert '%' !in MessageHead;
    assert '%' !in MessageTail;
    forall j: nat | j > |MessageHead| && j < |ERROR_MESSAGE|
      ensures ERROR_MESSAGE[j] != '%'
    {
      if j == |MessageHead| + 1 {
        assert ERROR_MESSAGE[j] == 's';
      } else {
        assert ERROR_MESSAGE[j] == MessageTail[j - |MessageHead| - 2];
      }
    }
    forall j: nat | j < |MessageHead|
      ensures ERROR_MESSAGE[j] != '%'
    {
      assert ERROR_MESSAGE[j] == MessageHead[j];
    }
    forall j: nat
      ensures OccursAt(ERROR_MESSAGE, "%s", j) ==> j < |ERROR_MESSAGE| && ERROR_MESSAGE[j] == '%'
    {
      if OccursAt(ERROR_MESSAGE, "%s", j) {
        OccurrenceStartsWithFirstChar(ERROR_MESSAGE, "%s", j);
      }
    }
  }

  /** A rendered message is the template's head, the comma-joined names and the template's tail. */
  lemma RenderMessageShape(names: seq<string>)
    ensures RenderMessage(names) == MessageHead + Join(names, NameSeparator) + MessageTail
  {
    ErrorMessageTemplate();
    var m := ERROR_MESSAGE;
    assert m[..|MessageHead|] == MessageHead;
    assert m[|MessageHead| + 2..] == MessageTail;
  }

  /**
   Reads a message back: strips the template's head and tail and explodes the
   rest on `", "`. `None` when the text does not have the template's shape.
   */
  function ParseMessage(message: string): Option<seq<string>> {
    if |message| >= |MessageHead| + |MessageTail|
       && message[..|MessageHead|] == MessageHead
       && message[|message| - |MessageTail|..] == MessageTail
    then Some(Split(message[|MessageHead|..|message| - |MessageTail|], NameSeparator))
    else None
  }

  /**
   Rendering loses nothing: the names of a non-empty group whose names contain
   no double quote (true of every PHP constant name) are read back from its message.
   */
  lemma MessageRoundTrip(names: seq<string>)
    requires |names| >= 1 && NoneContainsChar(names, '"')
    ensures ParseMessage(RenderMessage(names)) == Some(names)
  {
    RenderMessageShape(names);
    var joined := Join(names, NameSeparator);
    var m := MessageHead + joined + MessageTail;
    assert m[..|MessageHead|] == MessageHead;
    assert m[|m| - |MessageTail|..] == MessageTail;
    assert m[|MessageHead|..|m| - |MessageTail|] == joined;
    SplitJoin(names, NameSeparator);
  }

  /**
   Two names render as `Constants "A", "B" should be extract to standalone enum
   class`, as for the rule's documented `STATUS_ENABLED`, `STATUS_DISABLED` pair.
   */
  lemma TwoNamesMessage(a: string, b: string)
    ensures RenderMessage([a, b]) == "Constants \"" + a + "\", \"" + b + "\" should be extract to standalone enum class"
  {
    RenderMessageShape([a, b]);
    assert Join([a, b], NameSeparator) == a + NameSeparator + b by {
      assert [a, b][1..] == [b];
    }
  }

  /** `createErrorMessages`: one message per group, in order. */
  function CreateErrorMessages(groups: seq<PrefixGroup>): (r: seq<string>)
    ensures |r| == |groups|
    ensures forall i :: 0 <= i < |groups| ==> r[i] == RenderMessage(groups[i].names)
  {
    if |groups| == 0 then []
    else [RenderMessage(groups[0].names)] + CreateErrorMessages(groups[1..])
  }

  /** The matcher's groups for the declaration's constants. */
  function MatchedGroups(rule: Rule, classLike: ClassLike): seq<PrefixGroup> {
    rule.matchSharedPrefixes(rule.resolveConstantNames(classLike))
  }

  /** `processNode`: the messages the rule reports for one visited class. */
  function ProcessNode(rule: Rule, node: InClassNode): (r: seq<string>)
    ensures ShouldSkip(rule, node.classReflection) ==> r == []
    ensures IsAlreadyEnum(node.classReflection.name) ==> r == []
    ensures node.originalNode.OtherClassLike? ==> r == []
    ensures |r| <= |MatchedGroups(rule, node.originalNode)|
    ensures !ShouldSkip(rule, node.classReflection) && node.originalNode.Class_? ==>
      |r| == |FilterGroups(MatchedGroups(rule, node.originalNode), rule.isNonEnumConstantPrefix)|
  {
    if ShouldSkip(rule, node.classReflection) then []
    else match node.originalNode
      case OtherClassLike(_) => []
      case Class_(_) =>
        var groups := MatchedGroups(rule, node.originalNode);
        CreateErrorMessages(FilterGroups(groups, rule.isNonEnumConstantPrefix))
  }

  /** The rule is active for the node: not skipped, and the declaration is a class. */
  predicate Applies(rule: Rule, node: InClassNode) {
    !ShouldSkip(rule, node.classReflection) && node.originalNode.Class_?
  }

  /**
   Every reported message is the rendering of one matcher group that has a name
   and a prefix not classified as non-enum; a group whose prefix is on the
   deny-list is never reported.
   */
  lemma ReportedMessagesComeFromKeptGroups(rule: Rule, node: InClassNode)
    ensures forall m :: m in ProcessNode(rule, node) ==>
      Applies(rule, node) &&
      exists g :: g in MatchedGroups(rule, node.originalNode) &&
        Keep(rule.isNonEnumConstantPrefix, g) && m == RenderMessage(g.names)
  {
  }

  /**
   When the rule applies, every matcher group with at least one name (a
   single name included) and a prefix not classified as non-enum is reported.
   */
  lemma EveryKeptGroupIsReported(rule: Rule, node: InClassNode, g: PrefixGroup)
    requires Applies(rule, node)
    requires g in MatchedGroups(rule, node.originalNode)
    requires |g.names| >= 1 && !rule.isNonEnumConstantPrefix(g.prefix)
    ensures RenderMessage(g.names) in ProcessNode(rule, node)
  {
  }

  /**
   Message `i` renders the `i`-th kept group, and the kept groups are the
   matcher's groups at strictly increasing positions: the messages follow the
   matcher's order.
   */
  lemma MessagesFollowMatcherOrder(rule: Rule, node: InClassNode)
    requires Applies(rule, node)
    ensures var idx := KeptIndices(MatchedGroups(rule, node.originalNode), rule.isNonEnumConstantPrefix);
      && |idx| == |ProcessNode(rule, node)|
      && (forall i :: 0 <= i < |idx| ==>
            idx[i] < |MatchedGroups(rule, node.originalNode)| &&
            ProcessNode(rule, node)[i] == RenderMessage(MatchedGroups(rule, node.originalNode)[idx[i]].names))
      && (forall i, i' :: 0 <= i < i' < |idx| ==> idx[i] < idx[i'])
  {
    FilterKeepsWholeGroupsInOrder(MatchedGroups(rule, node.originalNode), rule.isNonEnumConstantPrefix);
  }

  /** Filtering reads the classifier only at the prefixes of the groups it is given. */
  lemma {:induction false} FilterGroupsCongruent(groups: seq<PrefixGroup>, deny1: string -> bool, deny2: string -> bool)
    requires forall j :: 0 <= j < |groups| ==> deny1(groups[j].prefix) == deny2(groups[j].prefix)
    ensures FilterGroups(groups, deny1) == FilterGroups(groups, deny2)
    decreases |groups|
  {
    if |groups| > 0 {
      assert forall j :: 1 <= j < |groups| ==> groups[j] == groups[1..][j - 1];
      FilterGroupsCongruent(groups[1..], deny1, deny2);
    }
  }

  /**
   No hidden state: two rule instances and nodes that agree on the class name,
   on the ancestry answers for the configured parent types, on the declaration,
   on the resolved constant names, on the matcher's result for them and on the
   classifier's answers for its prefixes report the same messages.
   */
  lemma ProcessNodeIsDeterministic(rule1: Rule, node1: InClassNode, rule2: Rule, node2: InClassNode)
    requires node1.classReflection.name == node2.classReflection.name
    requires node1.originalNode == node2.originalNode
    requires rule1.parentTypes == rule2.parentTypes
    requires forall k :: 0 <= k < |rule1.parentTypes| ==>
      node1.classReflection.isSubclassOf(rule1.parentTypes[k]) == node2.classReflection.isSubclassOf(rule1.parentTypes[k])
    requires rule1.resolveConstantNames(node1.originalNode) == rule2.resolveConstantNames(node1.originalNode)
    requires rule1.matchSharedPrefixes(rule1.resolveConstantNames(node1.originalNode))
      == rule2.matchSharedPrefixes(rule1.resolveConstantNames(node1.originalNode))
    requires forall g :: g in MatchedGroups(rule1, node1.originalNode) ==>
      rule1.isNonEnumConstantPrefix(g.prefix) == rule2.isNonEnumConstantPrefix(g.prefix)
    ensures ProcessNode(rule1, node1) == ProcessNode(rule2, node2)
  {
    assert ShouldSkip(rule1, node1.classReflection) == ShouldSkip(rule2, node2.classReflection);
    var groups := MatchedGroups(rule1, node1.originalNode);
    FilterGroupsCongruent(groups, rule1.isNonEnumConstantPrefix, rule2.isNonEnumConstantPrefix);
  }
}
