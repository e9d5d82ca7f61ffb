/**
 The collector that measures how many of a class-like's properties carry a
 type ("sea level"): it returns the typed count, the total count and the
 pretty-printed text of every property still lacking a type.
 */
module PropertyTypeSeaLevelCollector {
  import opened Wrappers
  import opened Strings

  /** `PHP_EOL` on the platforms the model assumes (Unix line ends). */
  const EOL: string := "\n"

  /**
   A property statement: `id` identifies the statement (its names, visibility
   and defaults, which only the pretty printer reads), whether it declares a
   native type, and its doc comment text if it has one.
   */
  datatype Property = Property(id: nat, hasNativeType: bool, docComment: Option<string>)

  /** The collected triple `[typedPropertyCount, propertyCount, printedProperties]`. */
  datatype SeaLevel = SeaLevel(typedPropertyCount: nat, propertyCount: nat, printedProperties: string)

  /** The doc comment names a type PHP cannot declare natively, so the property is counted as typed. */
  predicate DocNamesUntypeable(docComment: Option<string>) {
    docComment.Some? && (Contains(docComment.value, "callable") || Contains(docComment.value, "resource"))
  }

  /** The property counts as typed: a native type, or a doc comment naming `callable` or `resource`. */
  predicate CountsAsTyped(p: Property) {
    p.hasNativeType || DocNamesUntypeable(p.docComment)
  }

  /** The number of properties that count as typed. */
  function TypedCount(properties: seq<Property>): (r: nat)
    ensures r <= |properties|
  {
    if |properties| == 0 then 0
    else (if CountsAsTyped(properties[0]) then 1 else 0) + TypedCount(properties[1..])
  }

  /** The properties that do not count as typed, in declaration order. */
  function Untyped(properties: seq<Property>): (r: seq<Property>)
    ensures |r| + TypedCount(properties) == |properties|
    ensures forall i :: 0 <= i < |r| ==> r[i] in properties && !CountsAsTyped(r[i])
  {
    if |properties| == 0 then []
    else if CountsAsTyped(properties[0]) then Untyped(properties[1..])
    else [properties[0]] + Untyped(properties[1..])
  }

  /** The text one untyped property contributes: two line ends, then its printed source. */
  function Fragment(p: Property, prettyPrint: Property -> string): string
  {
    EOL + EOL + prettyPrint(p)
  }

  /** The fragments of the given properties, concatenated in order. */
  function Fragments(properties: seq<Property>, prettyPrint: Property -> string): string {
    if |properties| == 0 then ""
    else Fragment(properties[0], prettyPrint) + Fragments(properties[1..], prettyPrint)
  }

  /** The printed text the collector reports: one fragment per untyped property, in declaration order. */
  function Printed(properties: seq<Property>, prettyPrint: Property -> string): string {
    Fragments(Untyped(properties), prettyPrint)
  }

  /** A typed property adds one to the typed count; any other adds nothing. */
  lemma {:induction false} TypedCountAppend(properties: seq<Property>, p: Property)
    ensures TypedCount(properties + [p]) == TypedCount(properties) + (if CountsAsTyped(p) then 1 else 0)
    decreases |properties|
  {
    if |properties| > 0 {
      assert (properties + [p])[1..] == properties[1..] + [p];
      TypedCountAppend(properties[1..], p);
    }
  }

  /** Appending a property extends the untyped list by it exactly when it is untyped. */
  lemma {:induction false} UntypedAppend(properties: seq<Property>, p: Property)
    ensures Untyped(properties + [p]) == Untyped(properties) + (if CountsAsTyped(p) then [] else [p])
    decreases |properties|
  {
    if |properties| == 0 {
      assert properties + [p] == [p];
    } else {
      assert (properties + [p])[1..] == properties[1..] + [p];
      UntypedAppend(properties[1..], p);
    }
  }

  /** The fragments of a list extended by one property end with that property's fragment. */
  lemma {:induction false} FragmentsAppend(properties: seq<Property>, p: Property, prettyPrint: Property -> string)
    ensures Fragments(properties + [p], prettyPrint) == Fragments(properties, prettyPrint) + Fragment(p, prettyPrint)
    decreases |properties|
  {
    if |properties| == 0 {
      assert properties + [p] == [p];
    } else {
      assert (properties + [p])[1..] == properties[1..] + [p];
      FragmentsAppend(properties[1..], p, prettyPrint);
    }
  }

  /**
   One step of the fold: a typed property leaves the printed text unchanged; any
   other property appends exactly `EOL . EOL . prettyPrint(property)`.
   */
  lemma PrintedAppend(properties: seq<Property>, p: Property, prettyPrint: Property -> string)
    ensures Printed(properties + [p], prettyPrint)
      == Printed(properties, prettyPrint) + (if CountsAsTyped(p) then "" else EOL + EOL + prettyPrint(p))
  {
    UntypedAppend(properties, p);
    if !CountsAsTyped(p) {
      FragmentsAppend(Untyped(properties), p, prettyPrint);
    } else {
      assert Untyped(properties + [p]) == Untyped(properties);
    }
  }

  /** Every fragment holds at least its two line ends. */
  lemma {:induction false} FragmentsLength(properties: seq<Property>, prettyPrint: Property -> string)
    ensures |Fragments(properties, prettyPrint)| >= 2 * |properties|
    decreases |properties|
  {
    if |properties| > 0 {
      FragmentsLength(properties[1..], prettyPrint);
    }
  }

  /** The printed text is empty exactly when every property counts as typed. */
  lemma PrintedEmptyIffAllTyped(properties: seq<Property>, prettyPrint: Property -> string)
    ensures Printed(properties, prettyPrint) == "" <==> TypedCount(properties) == |properties|
  {
    FragmentsLength(Untyped(properties), prettyPrint);
  }

  /**
   `processNode`: folds over the properties in declaration order, counting the
   typed ones and appending the printed text of every other one.
   */
  method ProcessNode(properties: seq<Property>, prettyPrint: Property -> string) returns (r: SeaLevel)
    ensures r.propertyCount == |properties|
    ensures r.typedPropertyCount == TypedCount(properties)
    ensures r.typedPropertyCount <= r.propertyCount
    ensures r.printedProperties == Printed(properties, prettyPrint)
    ensures |Untyped(properties)| == r.propertyCount - r.typedPropertyCount
    ensures r.printedProperties == "" <==> r.typedPropertyCount == r.propertyCount
    ensures |properties| == 0 ==> r == SeaLevel(0, 0, "")
  {
    var printedProperties := "";
    var propertyCount := |properties|;
    var typedPropertyCount := 0;
    for i := 0 to |properties|
      invariant typedPropertyCount == TypedCount(properties[..i])
      invariant printedProperties == Printed(properties[..i], prettyPrint)
    {
      var property := properties[i];
      assert properties[..i + 1] == properties[..i] + [property];
      TypedCountAppend(properties[..i], property);
      PrintedAppend(properties[..i], property, prettyPrint);
      if property.hasNativeType {
        typedPropertyCount := typedPropertyCount + 1;
        continue;
      }
      if property.docComment.Some? {
        var docCommentText := property.docComment.value;
        if Contains(docCommentText, "callable") || Contains(docCommentText, "resource") {
          typedPropertyCount := typedPropertyCount + 1;
          continue;
        }
      }
      printedProperties := printedProperties + EOL + EOL + prettyPrint(property);
    }
    assert properties[..|properties|] == properties;
    PrintedEmptyIffAllTyped(properties, prettyPrint);
    r := SeaLevel(typedPropertyCount, propertyCount, printedProperties);
  }
}
