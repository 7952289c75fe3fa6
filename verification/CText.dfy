/** NUL-terminated strings and the few facts about text shared by the matchers and the flag parser. */
module CText {
  import opened Sequences

  /** What a char pointer denotes: the characters before the terminating NUL. */
  type CString = s: string | '\0' !in s

  /** A pointer that may be null. */
  datatype Option<+T> = None | Some(value: T)

  function Concat(parts: seq<string>): string {
    if parts == [] then [] else parts[0] + Concat(parts[1..])
  }

  /** The position of the first c, or the length. */
  function IndexOf(s: string, c: char): (i: nat)
    ensures i <= |s| && c !in s[..i] && (i < |s| ==> s[i] == c)
  {
    if s == [] || s[0] == c then 0
    else
      var i := IndexOf(s[1..], c) + 1;
      assert s[..i] == [s[0]] + s[1..][..i - 1];
      i
  }

  /** The fields between delimiters. */
  function Split(s: string, c: char): (fields: seq<string>)
    ensures fields != []
    decreases |s|
  {
    var i := IndexOf(s, c);
    if i == |s| then [s] else [s[..i]] + Split(s[i + 1..], c)
  }

  /** The inverse of Split. */
  function Join(fields: seq<string>, c: char): string
    requires fields != []
  {
    if |fields| == 1 then fields[0] else fields[0] + [c] + Join(fields[1..], c)
  }

  lemma {:induction false} IndexOfAppend(a: string, c: char, rest: string)
    requires c !in a
    ensures IndexOf(a + [c] + rest, c) == |a|
  {
    if a != [] {
      assert (a + [c] + rest)[1..] == a[1..] + [c] + rest;
      IndexOfAppend(a[1..], c, rest);
    }
  }

  lemma {:induction false} SplitOfJoin(fields: seq<string>, c: char)
    requires fields != [] && forall k | 0 <= k < |fields| :: c !in fields[k]
    ensures Split(Join(fields, c), c) == fields
  {
    if |fields| == 1 {
      assert IndexOf(fields[0], c) == |fields[0]|;
    } else {
      var rest := Join(fields[1..], c);
      IndexOfAppend(fields[0], c, rest);
      SplitOfJoin(fields[1..], c);
      var s := Join(fields, c);
      assert s[..|fields[0]|] == fields[0] && s[|fields[0]| + 1..] == rest;
    }
  }

  lemma SplitStep(s: string, delimiter: char)
    ensures var i := IndexOf(s, delimiter);
            Split(s, delimiter) == if i == |s| then [s] else [s[..i]] + Split(s[i + 1..], delimiter)
  {
    hide IndexOf;
  }

  lemma JoinOfCons(field: string, fields: seq<string>, c: char)
    requires fields != []
    ensures Join([field] + fields, c) == field + [c] + Join(fields, c)
  {
    assert ([field] + fields)[1..] == fields;
  }

  /** The fields have no delimiter in them and make up the text again, so by SplitOfJoin they are the only ones that do. */
  lemma {:induction false} JoinOfSplit(s: string, c: char)
    ensures Join(Split(s, c), c) == s && forall k | 0 <= k < |Split(s, c)| :: c !in Split(s, c)[k]
    decreases |s|
  {
    hide Split, Join;
    var i := IndexOf(s, c);
    SplitStep(s, c);
    if i == |s| {
      JoinOfOne(s, c);
    } else {
      JoinOfSplit(s[i + 1..], c);
      JoinOfCons(s[..i], Split(s[i + 1..], c), c);
      assert s == s[..i] + [c] + s[i + 1..];
    }
  }

  lemma JoinOfOne(s: string, c: char)
    ensures Join([s], c) == s
  {
  }

  lemma SplitOfCons(s: string, delimiter: char, rest: string)
    requires delimiter !in s
    ensures Split(s + [delimiter] + rest, delimiter) == [s] + Split(rest, delimiter)
  {
    hide Split;
    var all := s + [delimiter] + rest;
    IndexOfAppend(s, delimiter, rest);
    SplitStep(all, delimiter);
    assert all[..|s|] == s && all[|s| + 1..] == rest;
  }

  lemma {:induction false} SplitOfAppend(s: string, delimiter: char, rest: string)
    ensures Split(s + [delimiter] + rest, delimiter) == Split(s, delimiter) + Split(rest, delimiter)
    decreases |s|
  {
    hide Split;
    var i := IndexOf(s, delimiter);
    SplitStep(s, delimiter);
    if i == |s| {
      SplitOfCons(s, delimiter, rest);
    } else {
      var first, later := s[..i], s[i + 1..];
      assert s == first + [delimiter] + later;
      Associate(first + [delimiter], later + [delimiter], rest);
      Associate(first + [delimiter], later, [delimiter]);
      assert s + [delimiter] + rest == first + [delimiter] + (later + [delimiter] + rest);
      SplitOfCons(first, delimiter, later + [delimiter] + rest);
      SplitOfAppend(later, delimiter, rest);
      Associate([first], Split(later, delimiter), Split(rest, delimiter));
    }
  }
}
