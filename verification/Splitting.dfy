/** Cutting a text at a separator and putting the parts together again. */
module Splitting {

  predicate Without(parts: seq<string>, sep: char) {
    forall part :: part in parts ==> sep !in part
  }

  function JoinWith(parts: seq<string>, sep: char): string
    requires parts != []
    decreases |parts|
  {
    if |parts| == 1 then parts[0] else parts[0] + [sep] + JoinWith(parts[1..], sep)
  }

  function SplitOn(s: string, sep: char): (parts: seq<string>)
    ensures parts != [] && Without(parts, sep)
    decreases |s|
  {
    if s == [] then [[]]
    else
      var rest := SplitOn(s[1..], sep);
      if s[0] == sep then [[]] + rest else [[s[0]] + rest[0]] + rest[1..]
  }

  lemma {:induction false} SplitOnePart(part: string, sep: char)
    requires sep !in part
    ensures SplitOn(part, sep) == [part]
    decreases |part|
  {
    if part != [] {
      assert part[0] in part && forall c :: c in part[1..] ==> c in part;
      SplitOnePart(part[1..], sep);
      assert part == [part[0]] + part[1..];
    }
  }

  lemma {:induction false} SplitAtFirst(part: string, sep: char, rest: string)
    requires sep !in part
    ensures SplitOn(part + [sep] + rest, sep) == [part] + SplitOn(rest, sep)
    decreases |part|
  {
    var s := part + [sep] + rest;
    if part == [] {
      assert s[0] == sep && s[1..] == rest;
    } else {
      assert part[0] in part && forall c :: c in part[1..] ==> c in part;
      assert s[1..] == part[1..] + [sep] + rest && s[0] == part[0];
      SplitAtFirst(part[1..], sep, rest);
      assert part == [part[0]] + part[1..];
    }
  }

  /** Splitting undoes joining, so different part lists give different texts. */
  lemma {:induction false} SplitUndoesJoin(parts: seq<string>, sep: char)
    requires parts != [] && Without(parts, sep)
    ensures SplitOn(JoinWith(parts, sep), sep) == parts
    decreases |parts|
  {
    assert parts[0] in parts;
    if |parts| == 1 {
      SplitOnePart(parts[0], sep);
      assert parts == [parts[0]];
    } else {
      assert Without(parts[1..], sep) by {
        assert forall part :: part in parts[1..] ==> part in parts;
      }
      SplitUndoesJoin(parts[1..], sep);
      SplitAtFirst(parts[0], sep, JoinWith(parts[1..], sep));
      assert parts == [parts[0]] + parts[1..];
    }
  }
}
