/** Texts a server shows to an administrator: control characters are replaced, and the rest is cut to a size. */
module DisplayText {
  import opened Basics
  import opened Utf8Coding

  const REPLACEMENT: char := '\U{FFFD}'

  predicate IsControl(c: char) {
    c as int < 0x20 || 0x7F <= c as int < 0xA0
  }

  function Shown(c: char): char {
    if IsControl(c) then REPLACEMENT else c
  }

  function Cleaned(s: string): string
    decreases |s|
  {
    if s == [] then [] else [Shown(s[0])] + Cleaned(s[1..])
  }

  /** Control characters are U+0000 to U+001F and U+007F to U+009F; one is replaced, and nothing else changes. */
  lemma {:induction false} CleanedMeans(s: string)
    ensures |Cleaned(s)| == |s|
    ensures forall i :: 0 <= i < |s| ==>
      Cleaned(s)[i] == if s[i] as int <= 0x1F || 0x7F <= s[i] as int <= 0x9F then '\U{FFFD}' else s[i]
    decreases |s|
  {
    if s != [] {
      CleanedMeans(s[1..]);
    }
  }

  /** The length of one character in UTF-8. */
  function CharBytes(c: char): nat {
    if c as int < 0x80 then 1 else if c as int < 0x800 then 2 else if c as int < 0x1_0000 then 3 else 4
  }

  function Bytes(s: string): nat
    decreases |s|
  {
    if s == [] then 0 else CharBytes(s[0]) + Bytes(s[1..])
  }

  lemma {:induction false} BytesAreUtf8(s: string)
    ensures Bytes(s) == |Utf8All(s)|
    decreases |s|
  {
    if s != [] {
      BytesAreUtf8(s[1..]);
    }
  }

  /** The longest beginning of `all` within the size. */
  ghost predicate LongestWithin(cut: string, all: string, size: nat) {
    cut <= all && Bytes(cut) <= size && (cut != all ==> Bytes(cut + [all[|cut|]]) > size)
  }

  lemma {:induction false} BytesConcat(a: string, b: string)
    ensures Bytes(a + b) == Bytes(a) + Bytes(b)
    decreases |a|
  {
    if a == [] {
      assert a + b == b;
    } else {
      assert (a + b)[1..] == a[1..] + b;
      BytesConcat(a[1..], b);
    }
  }

  lemma BytesOfOne(c: char)
    ensures Bytes([c]) == CharBytes(c)
  {
    assert [c][1..] == [];
  }

  lemma LongerHasMore(a: string, b: string)
    requires a <= b
    ensures Bytes(a) <= Bytes(b)
  {
    assert b == a + b[|a|..];
    BytesConcat(a, b[|a|..]);
  }

  /** There is only one such beginning, and it is the whole text exactly when that is within the size. */
  lemma LongestIsUnique(a: string, b: string, all: string, size: nat)
    requires LongestWithin(a, all, size) && LongestWithin(b, all, size)
    ensures a == b && (a == all <==> Bytes(all) <= size)
  {
    if |a| < |b| {
      assert a + [all[|a|]] <= b;
      LongerHasMore(a + [all[|a|]], b);
    } else if |b| < |a| {
      assert b + [all[|b|]] <= a;
      LongerHasMore(b + [all[|b|]], a);
    }
    if a != all {
      LongerHasMore(a + [all[|a|]], all);
    }
  }

  function Cut(all: string, size: nat): string
    decreases |all|
  {
    if all == [] || CharBytes(all[0]) > size then [] else [all[0]] + Cut(all[1..], size - CharBytes(all[0]))
  }

  lemma {:induction false} CutIsLongest(all: string, size: nat)
    ensures LongestWithin(Cut(all, size), all, size)
    decreases |all|
  {
    if all != [] {
      var first, rest := all[0], all[1..];
      BytesOfOne(first);
      if CharBytes(first) <= size {
        var cut := Cut(rest, size - CharBytes(first));
        CutIsLongest(rest, size - CharBytes(first));
        BytesConcat([first], cut);
        if cut != rest {
          BytesConcat([first], cut + [rest[|cut|]]);
          assert [first] + cut + [rest[|cut|]] == [first] + (cut + [rest[|cut|]]);
        }
      }
    }
  }

  /** What the cut leaves is the whole text exactly when that is within the size. */
  lemma CutMeans(all: string, size: nat)
    ensures LongestWithin(Cut(all, size), all, size) && (Cut(all, size) == all <==> Bytes(all) <= size)
  {
    CutIsLongest(all, size);
    LongestIsUnique(Cut(all, size), Cut(all, size), all, size);
  }

  lemma CutNext(output: string, c: char, rest: string, size: nat)
    requires Bytes(output) <= size
    ensures var left := size - Bytes(output);
      Cut([c] + rest, left) ==
        if CharBytes(c) > left then [] else [c] + Cut(rest, left - CharBytes(c))
    ensures Bytes(output + [c]) == Bytes(output) + CharBytes(c)
  {
    assert ([c] + rest)[1..] == rest;
    BytesConcat(output, [c]);
    BytesOfOne(c);
  }

  /** `output` has been taken, and the cut goes on with the rest of the input. */
  ghost predicate Taken(all: string, size: nat, output: string, rest: string) {
    Bytes(output) <= size && all == output + Cleaned(rest) &&
    Cut(all, size) == output + Cut(Cleaned(rest), size - Bytes(output))
  }

  lemma TakeOne(all: string, size: nat, output: string, rest: string)
    requires Taken(all, size, output, rest) && rest != []
    ensures var c := Shown(rest[0]);
      if Bytes(output) + CharBytes(c) > size then Cut(all, size) == output && output != all
      else Taken(all, size, output + [c], rest[1..])
  {
    var c, tail := Shown(rest[0]), Cleaned(rest[1..]);
    CutNext(output, c, tail, size);
    if Bytes(output) + CharBytes(c) > size {
      assert |all| > |output|;
    } else {
      Regroup(output, [c], tail);
      Regroup(output, [c], Cut(tail, size - Bytes(output + [c])));
    }
  }

  lemma TakeNone(all: string, size: nat)
    ensures [] + all == all && [] + Cut(all, size) == Cut(all, size)
  {
  }

  lemma TakenAll(all: string, size: nat, output: string)
    requires Taken(all, size, output, [])
    ensures Cut(all, size) == output && output == all
  {
  }

  /** The characters of the input are taken one by one until the next one is too much. */
  method BoundedText(input: string, size: nat) returns (output: string, shortened: bool)
    ensures output == Cut(Cleaned(input), size)
    ensures shortened <==> Bytes(Cleaned(input)) > size
  {
    ghost var all := Cleaned(input);
    CutMeans(all, size);
    output := [];
    TakeNone(all, size);
    ghost var rest := input;
    for i := 0 to |input|
      invariant rest == input[i..] && Taken(all, size, output, rest)
    {
      var c := Shown(input[i]);
      TakeOne(all, size, output, rest);
      if Bytes(output) + CharBytes(c) > size {
        return output, true;
      }
      rest := rest[1..];
      output := output + [c];
    }
    TakenAll(all, size, output);
    return output, false;
  }
}
