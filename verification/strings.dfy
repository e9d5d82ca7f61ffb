/**
 The PHP string builtins the core relies on: `strpos` (and the substring test
 `strpos(...) !== false` built on it), `implode`, `explode` and a `sprintf`
 restricted to a single `%s` directive. Strings are sequences of characters.
 */
module Strings {
  import opened Wrappers

  /** True when `needle` occurs in `haystack` starting at index `i`. */
  predicate OccursAt(haystack: string, needle: string, i: nat) {
    i + |needle| <= |haystack| && haystack[i..i + |needle|] == needle
  }

  /** Searches for the first occurrence of `needle` at or after index `from`. */
  function StrPosFrom(haystack: string, needle: string, from: nat): (r: Option<nat>)
    requires from <= |haystack|
    ensures r.Some? ==> from <= r.value && OccursAt(haystack, needle, r.value)
    ensures r.Some? ==> forall j: nat :: from <= j < r.value ==> !OccursAt(haystack, needle, j)
    ensures r.None? ==> forall j: nat :: from <= j ==> !OccursAt(haystack, needle, j)
    decreases |haystack| - from
  {
    if OccursAt(haystack, needle, from) then Some(from)
    else if from + |needle| >= |haystack| then None
    else StrPosFrom(haystack, needle, from + 1)
  }

  /** PHP `strpos`: the index of the first occurrence of `needle`, or `None` for PHP's `false`. */
  function StrPos(haystack: string, needle: string): (r: Option<nat>)
    ensures r.Some? ==> OccursAt(haystack, needle, r.value)
    ensures r.Some? ==> forall j: nat :: j < r.value ==> !OccursAt(haystack, needle, j)
    ensures r.None? <==> forall j: nat :: !OccursAt(haystack, needle, j)
  {
    StrPosFrom(haystack, needle, 0)
  }

  /** The substring test `strpos($haystack, $needle) !== false`. */
  function Contains(haystack: string, needle: string): (r: bool)
    ensures r <==> exists j: nat :: OccursAt(haystack, needle, j)
  {
    StrPos(haystack, needle).Some?
  }

  /** PHP `implode($sep, $parts)`: the parts in order with `sep` between neighbours. */
  function Join(parts: seq<string>, sep: string): (r: string)
    ensures |parts| == 0 ==> r == ""
    ensures |parts| == 1 ==> r == parts[0]
  {
    if |parts| == 0 then ""
    else if |parts| == 1 then parts[0]
    else parts[0] + sep + Join(parts[1..], sep)
  }

  /** PHP `explode($sep, $s)`: the pieces between successive occurrences of `sep`, left to right. */
  function Split(s: string, sep: string): (r: seq<string>)
    requires |sep| > 0
    ensures |r| >= 1
    ensures !Contains(s, sep) ==> r == [s]
    decreases |s|
  {
    match StrPos(s, sep)
    case None => [s]
    case Some(i) => [s[..i]] + Split(s[i + |sep|..], sep)
  }

  /** None of `parts` contains the character `c`. */
  predicate NoneContainsChar(parts: seq<string>, c: char) {
    forall k :: 0 <= k < |parts| ==> c !in parts[k]
  }

  /** An occurrence of a non-empty `needle` starts with the needle's first character. */
  lemma OccurrenceStartsWithFirstChar(haystack: string, needle: string, j: nat)
    requires |needle| > 0 && OccursAt(haystack, needle, j)
    ensures j < |haystack| && haystack[j] == needle[0]
  {
  }

  /** A string free of `sep`'s first character contains no occurrence of `sep`. */
  lemma NoOccurrenceWithoutFirstChar(s: string, sep: string)
    requires |sep| > 0 && sep[0] !in s
    ensures forall j: nat :: !OccursAt(s, sep, j)
  {
  }

  /** In `head + sep + rest`, with `head` free of `sep`'s first character, `sep` first occurs right after `head`. */
  lemma FirstOccurrenceAfterHead(head: string, sep: string, rest: string)
    requires |sep| > 0 && sep[0] !in head
    ensures StrPos(head + sep + rest, sep) == Some(|head|)
  {
    var s := head + sep + rest;
    assert s[|head|..|head| + |sep|] == sep;
    forall j: nat | j < |head|
      ensures OccursAt(s, sep, j) ==> s[j] == sep[0]
    {
      if OccursAt(s, sep, j) {
        OccurrenceStartsWithFirstChar(s, sep, j);
      }
    }
    assert forall j: nat :: j < |head| ==> s[j] == head[j];
    assert OccursAt(s, sep, |head|);
    var r := StrPos(s, sep);
    assert r.Some?;
    assert r.value <= |head|;
  }

  /**
   Explode undoes implode whenever no part contains the separator's first
   character: the first occurrence of the separator is then the one Join put
   after the first part.
   */
  lemma {:induction false} SplitJoin(parts: seq<string>, sep: string)
    requires |sep| > 0 && |parts| >= 1
    requires NoneContainsChar(parts, sep[0])
    ensures Split(Join(parts, sep), sep) == parts
    decreases |parts|
  {
    if |parts| == 1 {
      NoOccurrenceWithoutFirstChar(parts[0], sep);
    } else {
      var head := parts[0];
      var rest := Join(parts[1..], sep);
      var s := Join(parts, sep);
      assert s == head + sep + rest;
      FirstOccurrenceAfterHead(head, sep, rest);
      assert s[..|head|] == head;
      assert s[|head| + |sep|..] == rest;
      assert NoneContainsChar(parts[1..], sep[0]) by {
        forall k | 0 <= k < |parts[1..]| ensures sep[0] !in parts[1..][k] {
          assert parts[1..][k] == parts[k + 1];
        }
      }
      SplitJoin(parts[1..], sep);
      assert parts == [head] + parts[1..];
    }
  }

  /**
   PHP `sprintf($format, $arg)` for a format whose only directive is one `%s`:
   the argument replaces the first `%s`; a format without one is returned as is.
   */
  function Sprintf(format: string, arg: string): (r: string)
    ensures !Contains(format, "%s") ==> r == format
    ensures Contains(format, "%s") ==> |r| == |format| - 2 + |arg|
    ensures Contains(format, "%s") ==>
      r == format[..StrPos(format, "%s").value] + arg + format[StrPos(format, "%s").value + 2..]
  {
    match StrPos(format, "%s")
    case None => format
    case Some(i) => format[..i] + arg + format[i + 2..]
  }
}
