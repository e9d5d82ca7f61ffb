# Embedded-enum constant spotter and property-type sea-level collector

A Dafny model of two pieces of a PHPStan rule package.

**`EmbeddedEnumClassConstSpotterRule`** reports families of class constants, such as
`STATUS_ENABLED` and `STATUS_DISABLED`, that should live in a standalone enum class.
It works in four steps:

1. It skips a class whose fully-qualified name contains `\Enum\` but not `\Rules\Enum\`. This is a substring test on the name, which has no leading backslash, so a class `Enum\Foo` is not skipped.
2. It also skips a class when none of the configured parent types is an ancestor.
3. It groups the class's constant names with a shared-name prefix matcher.
4. It drops groups with no name and groups whose prefix the non-enum classifier rejects.
   Each remaining group is rendered as one message:
   `Constants "A", "B" should be extract to standalone enum class`.

**`PropertyTypeSeaLevelCollector`** folds over a class-like's property statements.
It returns three values:

- the number of properties that count as typed;
- the total number of properties;
- the pretty-printed text of every property that is not counted as typed.

A property counts as typed if it has a native type. It also counts as typed if it has no
native type but its doc comment mentions `callable` or `resource`.

Files:

- `wrappers.dfy`: `Option`.
- `strings.dfy`: models of PHP `strpos`, `implode`, `explode` and a one-directive `sprintf`.
- `embedded_enum_class_const_spotter_rule.dfy`: the rule.
- `property_type_sea_level_collector.dfy`: the collector.

Some collaborators' code is not part of this model. They are opaque, total functions
carried in the data:

- the constant-name resolver (`ClassAnalyzer::resolveConstantNames`);
- the prefix matcher (`SharedNamePrefixMatcher::match`);
- the non-enum prefix classifier (`EnumConstantAnalyzer::isNonEnumConstantPrefix`);
- the class reflection's `isSubclassOf`;
- the PhpParser pretty printer.

The model assumes only that the matcher returns an ordered sequence of (prefix, names) groups.

The code differs from a natural reading of the rule's intent in two places. The model
follows the code in both:

- The filter drops only groups with fewer than one name. A group with a single constant is
  reported, not treated as "not a family".
- The template reads "should be extract to", not "should be extracted to".

## Model

| member | source | states |
|---|---|---|
| Strings.StrPos | src/Rules/Enum/EmbeddedEnumClassConstSpotterRule.php:137 | `strpos` returns the first index where the needle occurs. It returns `None` (PHP `false`) exactly when the needle occurs nowhere. |
| Strings.Contains | src/Rules/Enum/EmbeddedEnumClassConstSpotterRule.php:137 | `strpos(...) !== false` holds exactly when the needle occurs at some index of the haystack. |
| Strings.Sprintf | src/Rules/Enum/EmbeddedEnumClassConstSpotterRule.php:160 | A format without `%s` comes back unchanged. Otherwise the first `%s` (located by StrPos) is replaced by the whole argument and the rest of the format is kept, so the length changes by `|arg| - 2`. |
| Strings.Join | src/Rules/Enum/EmbeddedEnumClassConstSpotterRule.php:159 | `implode` of no parts is empty and of one part is that part. Its meaning beyond that is carried by SplitJoin (explode undoes it) and RenderMessageShape (the names joined by `", "` inside a message). |
| Strings.SplitJoin | src/Rules/Enum/EmbeddedEnumClassConstSpotterRule.php:159 | `explode` undoes `implode` for a non-empty list whose parts do not contain the separator's first character. |
| EmbeddedEnumClassConstSpotterRule.AnyParentMatches | src/Rules/Enum/EmbeddedEnumClassConstSpotterRule.php:141-147 | The early-returning loop over the parent types is true exactly when some configured parent type is an ancestor. |
| EmbeddedEnumClassConstSpotterRule.ShouldSkip | src/Rules/Enum/EmbeddedEnumClassConstSpotterRule.php:132-148 | A class whose fully-qualified name contains `\Enum\` but not `\Rules\Enum\` is skipped. Any other class is skipped exactly when no configured parent type is an ancestor. An empty parent-type list skips every class. |
| EmbeddedEnumClassConstSpotterRule.FilterGroups | src/Rules/Enum/EmbeddedEnumClassConstSpotterRule.php:84-96 | Every kept group is a matcher group with at least one name and a prefix not classified as non-enum. Every matcher group meeting that test is kept. At most as many groups come out as went in. |
| EmbeddedEnumClassConstSpotterRule.FilterKeepsWholeGroupsInOrder | src/Rules/Enum/EmbeddedEnumClassConstSpotterRule.php:84-96 | The kept list is the matcher list at the strictly increasing positions `KeptIndices`, each group unchanged. A position is kept exactly when its group has at least one name (so singletons are kept) and its prefix is not classified as non-enum. |
| EmbeddedEnumClassConstSpotterRule.ErrorMessageTemplate | src/Rules/Enum/EmbeddedEnumClassConstSpotterRule.php:28 | The template has exactly one `%s`, directly after `Constants "`: there is no occurrence before it and none after it. So substituting one argument is all the rule's `sprintf` call does. |
| EmbeddedEnumClassConstSpotterRule.RenderMessageShape | src/Rules/Enum/EmbeddedEnumClassConstSpotterRule.php:158-161 | A message is `Constants "`, then the names joined by `", "`, then `" should be extract to standalone enum class`. |
| EmbeddedEnumClassConstSpotterRule.TwoNamesMessage | src/Rules/Enum/EmbeddedEnumClassConstSpotterRule.php:105-110 | Two names A and B render as `Constants "A", "B" should be extract to standalone enum class`. This is the documented `STATUS_ENABLED`/`STATUS_DISABLED` example. |
| EmbeddedEnumClassConstSpotterRule.MessageRoundTrip | src/Rules/Enum/EmbeddedEnumClassConstSpotterRule.php:159-160 | The names of a non-empty group can be read back from its message when no name contains a double quote. Distinct groups therefore give distinct messages. |
| EmbeddedEnumClassConstSpotterRule.CreateErrorMessages | src/Rules/Enum/EmbeddedEnumClassConstSpotterRule.php:154-164 | There is one message per group, and message i renders group i's names. |
| EmbeddedEnumClassConstSpotterRule.ProcessNode | src/Rules/Enum/EmbeddedEnumClassConstSpotterRule.php:69-99 | A skipped class yields no messages. So does a class whose fully-qualified name contains `\Enum\` but not `\Rules\Enum\`, and so does a node whose declaration is not a `class`. Otherwise there are exactly as many messages as kept groups, and never more than the matcher's groups. |
| EmbeddedEnumClassConstSpotterRule.ReportedMessagesComeFromKeptGroups | src/Rules/Enum/EmbeddedEnumClassConstSpotterRule.php:84-98 | Every reported message renders some matcher group that passes the filter. A group whose prefix is on the deny-list never yields a message. |
| EmbeddedEnumClassConstSpotterRule.EveryKeptGroupIsReported | src/Rules/Enum/EmbeddedEnumClassConstSpotterRule.php:86-95 | When the rule applies, the message of every matcher group with at least one name (a singleton included) and a prefix not classified as non-enum is reported. |
| EmbeddedEnumClassConstSpotterRule.MessagesFollowMatcherOrder | src/Rules/Enum/EmbeddedEnumClassConstSpotterRule.php:84-98 | Message i renders the matcher group at the i-th kept position, and the kept positions strictly increase. So the messages follow the matcher's order. |
| EmbeddedEnumClassConstSpotterRule.FilterGroupsCongruent | src/Rules/Enum/EmbeddedEnumClassConstSpotterRule.php:86-95 | Filtering depends on the classifier only at the prefixes of the groups it is given. |
| EmbeddedEnumClassConstSpotterRule.ProcessNodeIsDeterministic | src/Rules/Enum/EmbeddedEnumClassConstSpotterRule.php:69-99 | Two runs report the same messages when they agree on seven things: the class name, the declaration node, the parent-type list, the ancestry answers for those parent types, the resolved constant names, the matcher's groups and the classifier's answers at those groups' prefixes. |
| PropertyTypeSeaLevelCollector.TypedCount | src/Collector/ClassLike/PropertyTypeSeaLevelCollector.php:47-64 | The typed count never exceeds the number of properties. |
| PropertyTypeSeaLevelCollector.Untyped | src/Collector/ClassLike/PropertyTypeSeaLevelCollector.php:49-68 | The untyped properties are properties of the class that do not count as typed. Their number is the property count minus the typed count. |
| PropertyTypeSeaLevelCollector.TypedCountAppend | src/Collector/ClassLike/PropertyTypeSeaLevelCollector.php:49-64 | A property with a native type, or with a doc comment mentioning `callable` or `resource`, adds one to the typed count. Any other property adds nothing. |
| PropertyTypeSeaLevelCollector.PrintedAppend | src/Collector/ClassLike/PropertyTypeSeaLevelCollector.php:49-68 | A typed property leaves the printed text unchanged. Every other property appends exactly two line ends and its printed source, in declaration order. |
| PropertyTypeSeaLevelCollector.PrintedEmptyIffAllTyped | src/Collector/ClassLike/PropertyTypeSeaLevelCollector.php:42-70 | The printed text is empty exactly when the typed count equals the property count. |
| PropertyTypeSeaLevelCollector.ProcessNode | src/Collector/ClassLike/PropertyTypeSeaLevelCollector.php:40-71 | The second component is the number of properties. The first is the typed count and never exceeds the second. The text has one fragment per untyped property, which is (second − first) fragments, and is empty exactly when all properties are typed. No properties gives `[0, 0, ""]`. |

## Left out

- `getNodeType`, `getRuleDefinition` and the constructors are registration and documentation metadata. They have no behaviour to model.
- The constant-name resolver, the shared-name prefix matcher, the non-enum prefix classifier and the class reflection's `isSubclassOf` are opaque function values. Their code is not part of this model.
- The model does not assume that the matcher returns distinct prefixes, although the matcher's result is a PHP array. This makes it more general than the code.
- A numeric prefix becomes an integer key of the matcher's PHP array. What happens next is not modelled: under `strict_types` a string-typed classifier parameter may raise a TypeError. Prefixes are modelled as strings throughout.
- The PhpParser pretty printer is an opaque function value.
- A property is modelled as one property statement: an identity that the opaque printer reads, its native-type flag and its optional doc-comment text. A statement that declares several properties still counts once, as in the code.
- `PHP_EOL` is modelled as `"\n"`. The Windows line end `"\r\n"` is not modelled.
- PHP strings are byte strings and `strpos` returns a byte offset. The model works on character sequences, so Strings.StrPos returns a character index. The two differ on non-ASCII text. The rule and the collector only test `strpos(...) !== false` with ASCII needles, so none of their results depend on the difference.
- Strings.Sprintf: only formats whose single directive is `%s` are modelled. That is the only shape the rule's template has. Other `sprintf` directives and `%%` escapes are left out.
- `src/ParentGuard/ParentClassMethodGuard.php`, `src/ValueObject/Spotter/ReturnAndAssignBranchCounts.php` and `src/ValueObject/MethodCallReference.php` are a thin resolver wrapper and getter-only value objects. They are not part of this model.
- Scanned units in the analyser are processed independently. Concurrency, AST visiting and diagnostic reporting are the host's concern and are not modelled.
